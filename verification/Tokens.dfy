/** The tokeniser of the word diff: `text.split(/(\s+)/).filter(Boolean)`. */
module Tokens {
  import opened Text

  /** Length of the longest prefix of `s` made only of white space, or only of other characters. */
  function RunLength(s: string, space: bool): (n: nat)
    ensures n <= |s|
    ensures forall k :: 0 <= k < n ==> IsSpace(s[k]) == space
    ensures n < |s| ==> IsSpace(s[n]) != space
  {
    if s == [] || IsSpace(s[0]) != space then 0 else 1 + RunLength(s[1..], space)
  }

  /** `split` with a capturing separator: words and separators in turn, words possibly empty. */
  function SplitKeepingSpace(s: string): seq<string>
    decreases |s|
  {
    var word := RunLength(s, false);
    if word == |s| then [s]
    else
      var tail := s[word..];
      var space := RunLength(tail, true);
      [s[..word], tail[..space]] + SplitKeepingSpace(tail[space..])
  }

  function DropEmpty(parts: seq<string>): seq<string> {
    if parts == [] then []
    else (if parts[0] == "" then [] else [parts[0]]) + DropEmpty(parts[1..])
  }

  function Tokenise(s: string): seq<string> {
    DropEmpty(SplitKeepingSpace(s))
  }

  function Join(parts: seq<string>): string {
    if parts == [] then "" else parts[0] + Join(parts[1..])
  }

  ghost predicate Uniform(t: string, space: bool) {
    t != "" && forall k :: 0 <= k < |t| ==> IsSpace(t[k]) == space
  }

  /** Words and gaps strictly alternate: each token is a whole run, and the first is of kind `space`. */
  ghost predicate Alternating(ts: seq<string>, space: bool) {
    ts == [] || (Uniform(ts[0], space) && Alternating(ts[1..], !space))
  }

  ghost predicate IsTokenList(ts: seq<string>) {
    Alternating(ts, false) || Alternating(ts, true)
  }

  lemma DropEmptyCons(t: string, ts: seq<string>)
    ensures DropEmpty([t] + ts) == (if t == "" then [] else [t]) + DropEmpty(ts)
  {
    assert ([t] + ts)[1..] == ts;
  }

  lemma AlternatingCons(t: string, ts: seq<string>, space: bool)
    requires Uniform(t, space) && Alternating(ts, !space)
    ensures Alternating([t] + ts, space)
    ensures Join([t] + ts) == t + Join(ts)
  {
    assert ([t] + ts)[1..] == ts;
  }

  lemma {:induction false} RunLengthIs(s: string, space: bool, n: nat)
    requires n <= |s| && (forall k :: 0 <= k < n ==> IsSpace(s[k]) == space)
    requires n < |s| ==> IsSpace(s[n]) != space
    ensures RunLength(s, space) == n
  {
    if n > 0 { RunLengthIs(s[1..], space, n - 1); }
  }

  /** One word and the gap after it, put back in front of an already proved tail. */
  lemma Assemble(word: string, gap: string, rest: string, tokens: seq<string>)
    requires Uniform(gap, true) && (word == "" || Uniform(word, false))
    requires Alternating(tokens, false) && Join(tokens) == rest
    ensures var all := (if word == "" then [] else [word]) + ([gap] + tokens);
            Join(all) == word + (gap + rest) && Alternating(all, word == "")
  {
    AlternatingCons(gap, tokens, true);
    if word == "" {
      assert [] + ([gap] + tokens) == [gap] + tokens;
    } else {
      AlternatingCons(word, [gap] + tokens, false);
    }
  }

  lemma TokeniseStep(s: string, word: string, gap: string, rest: string)
    requires gap != ""
    requires SplitKeepingSpace(s) == [word, gap] + SplitKeepingSpace(rest)
    ensures Tokenise(s) == (if word == "" then [] else [word]) + ([gap] + Tokenise(rest))
  {
    var split := SplitKeepingSpace(rest);
    DropEmptyCons(gap, split);
    DropEmptyCons(word, [gap] + split);
    assert [word, gap] + split == [word] + ([gap] + split);
  }

  lemma TokeniseOneWord(s: string)
    requires RunLength(s, false) == |s|
    ensures Join(Tokenise(s)) == s && Alternating(Tokenise(s), false)
    ensures s == "" ==> Tokenise(s) == []
  {
    DropEmptyCons(s, []);
    assert [s] == [s] + [];
    assert Tokenise(s) == if s == "" then [] else [s];
    if s != "" { AlternatingCons(s, [], false); }
  }

  lemma RunSplits(s: string, space: bool)
    ensures var n := RunLength(s, space);
            && s == s[..n] + s[n..]
            && (s[..n] == "" || Uniform(s[..n], space))
            && (s[n..] == "" || IsSpace(s[n..][0]) != space)
  {
  }

  /** What the splitter takes off the front of a text that holds white space. */
  lemma SplitStep(s: string) returns (word: string, gap: string, rest: string)
    requires RunLength(s, false) < |s|
    ensures s == word + (gap + rest) && Uniform(gap, true) && (word == "" || Uniform(word, false))
    ensures rest == "" || !IsSpace(rest[0])
    ensures SplitKeepingSpace(s) == [word, gap] + SplitKeepingSpace(rest)
  {
    var n := RunLength(s, false);
    var tail := s[n..];
    var m := RunLength(tail, true);
    word, gap, rest := s[..n], tail[..m], tail[m..];
    RunSplits(s, false);
    RunSplits(tail, true);
  }

  lemma FirstIsSpace(s: string, word: string, gap: string, rest: string)
    requires s == word + (gap + rest) && Uniform(gap, true) && (word == "" || Uniform(word, false))
    ensures s != "" && IsSpace(s[0]) == (word == "")
  {
    assert s[0] == if word == "" then gap[0] else word[0];
  }

  lemma {:induction false} SplitAlternates(s: string)
    ensures Join(Tokenise(s)) == s
    ensures Alternating(Tokenise(s), RunLength(s, false) < |s| && IsSpace(s[0]))
    decreases |s|
  {
    if RunLength(s, false) == |s| {
      TokeniseOneWord(s);
    } else {
      var word, gap, rest := SplitStep(s);
      SplitAlternates(rest);
      assert Alternating(Tokenise(rest), false);
      Assemble(word, gap, rest, Tokenise(rest));
      TokeniseStep(s, word, gap, rest);
      FirstIsSpace(s, word, gap, rest);
    }
  }

  lemma {:induction false} FirstTokenIsRun(ts: seq<string>, space: bool)
    requires Alternating(ts, space) && ts != []
    ensures Join(ts) != "" && IsSpace(Join(ts)[0]) == space
    ensures RunLength(Join(ts), space) == |ts[0]|
  {
    var rest := ts[1..];
    assert Join(ts) == ts[0] + Join(rest) && Alternating(rest, !space);
    if rest != [] { assert Join(rest)[0] == rest[0][0]; }
    RunLengthIs(Join(ts), space, |ts[0]|);
  }

  lemma {:induction false} TokenListsAgree(ts: seq<string>, us: seq<string>, space: bool)
    requires Alternating(ts, space) && Alternating(us, space) && Join(ts) == Join(us)
    ensures ts == us
  {
    if ts == [] {
      if us != [] { FirstTokenIsRun(us, space); }
    } else {
      FirstTokenIsRun(ts, space);
      if us != [] {
        FirstTokenIsRun(us, space);
        assert ts[0] == Join(ts)[..|ts[0]|] == us[0];
        assert Join(ts[1..]) == Join(ts)[|ts[0]|..] == Join(us[1..]);
        TokenListsAgree(ts[1..], us[1..], !space);
      }
    }
  }

  /** The tokens of `s` are the one way to cut it into non-empty alternating runs. */
  lemma {:induction false} TokeniseIsUnique(s: string, ts: seq<string>)
    ensures ts == Tokenise(s) <==> IsTokenList(ts) && Join(ts) == s
  {
    SplitAlternates(s);
    if IsTokenList(ts) && Join(ts) == s && ts != [] {
      var space := Alternating(ts, true);
      FirstTokenIsRun(ts, space);
      TokenListsAgree(ts, Tokenise(s), space);
    }
  }
}
