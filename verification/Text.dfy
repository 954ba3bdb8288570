/** Characters and strings as the web client sees them. */
module Text {

  /** White space and line terminators of ECMAScript: what `\s` matches and `trim` removes. */
  predicate IsSpace(c: char) {
    var u := c as int;
    || 0x9 <= u <= 0xD || u == 0x20 || u == 0xA0 || u == 0x1680
    || 0x2000 <= u <= 0x200A || u == 0x2028 || u == 0x2029
    || u == 0x202F || u == 0x205F || u == 0x3000 || u == 0xFEFF
  }

  /** UTF-16 code units taken by a character, the unit of JavaScript's `length`. */
  function Units(c: char): nat {
    if c as int < 0x1_0000 then 1 else 2
  }

  function StripLeft(s: string, space: char -> bool): string {
    if s != "" && space(s[0]) then StripLeft(s[1..], space) else s
  }

  function StripRight(s: string, space: char -> bool): string {
    if s != "" && space(s[|s| - 1]) then StripRight(s[..|s| - 1], space) else s
  }

  function Strip(s: string, space: char -> bool): string {
    StripRight(StripLeft(s, space), space)
  }

  function TrimStart(s: string): string {
    StripLeft(s, IsSpace)
  }

  function Trim(s: string): string {
    Strip(s, IsSpace)
  }

  /** `s.replace(/\s/g, "").length`. */
  function NonSpaceLength(s: string): nat {
    if s == [] then 0
    else NonSpaceLength(s[..|s| - 1]) + if IsSpace(s[|s| - 1]) then 0 else Units(s[|s| - 1])
  }

  lemma {:induction false} NonSpaceLengthConcat(s: string, t: string)
    ensures NonSpaceLength(s + t) == NonSpaceLength(s) + NonSpaceLength(t)
  {
    if t == [] {
      assert s + t == s;
    } else {
      assert (s + t)[..|s + t| - 1] == s + t[..|t| - 1];
      NonSpaceLengthConcat(s, t[..|t| - 1]);
    }
  }

  /** The length counts UTF-16 units: two for a character beyond the basic plane, none for white space. */
  lemma LengthOfOne(c: char)
    ensures NonSpaceLength([c]) == if IsSpace(c) then 0 else if c as int >= 0x1_0000 then 2 else 1
  {
    assert [c][..0] == [];
  }

  ghost predicate AllSpace(s: string) {
    forall i :: 0 <= i < |s| ==> IsSpace(s[i])
  }

  predicate OccursAt(hay: string, needle: string, i: nat) {
    i + |needle| <= |hay| && hay[i..i + |needle|] == needle
  }

  // ---- Cutting off white space ----

  /** `core` is `s` less the white space at both ends: what is left of it starts and ends otherwise. */
  ghost predicate CutAt(s: string, core: string, i: nat, j: nat, space: char -> bool) {
    && i <= j <= |s| && core == s[i..j]
    && (forall k :: 0 <= k < i ==> space(s[k])) && (forall k :: j <= k < |s| ==> space(s[k]))
    && (core != "" ==> !space(core[0]) && !space(core[|core| - 1]))
  }

  ghost predicate IsCut(s: string, core: string, space: char -> bool) {
    exists i, j :: CutAt(s, core, i, j, space)
  }

  lemma BlankCut(s: string, core: string, i: nat, j: nat, space: char -> bool)
    requires CutAt(s, core, i, j, space)
    ensures core == "" <==> forall k :: 0 <= k < |s| ==> space(s[k])
  {
    if core != "" { assert core[0] == s[i]; }
  }

  /** There is one way to cut. */
  lemma CutsAgree(s: string, c: string, i: nat, j: nat, d: string, k: nat, l: nat, space: char -> bool)
    requires CutAt(s, c, i, j, space) && CutAt(s, d, k, l, space)
    ensures c == d
  {
    BlankCut(s, c, i, j, space);
    BlankCut(s, d, k, l, space);
    if c != "" {
      assert c[0] == s[i] && c[|c| - 1] == s[j - 1];
      assert d[0] == s[k] && d[|d| - 1] == s[l - 1];
    }
  }

  lemma {:induction false} StripLeftCut(s: string, space: char -> bool) returns (i: nat)
    ensures i <= |s| && StripLeft(s, space) == s[i..]
    ensures forall k :: 0 <= k < i ==> space(s[k])
    ensures i < |s| ==> !space(s[i])
  {
    i := 0;
    if s != "" && space(s[0]) {
      var r := StripLeftCut(s[1..], space);
      i := r + 1;
      assert s[1..][r..] == s[i..];
      forall k | 0 <= k < i ensures space(s[k]) { assert k == 0 || s[k] == s[1..][k - 1]; }
    }
  }

  lemma {:induction false} StripRightCut(s: string, space: char -> bool) returns (j: nat)
    ensures j <= |s| && StripRight(s, space) == s[..j]
    ensures forall k :: j <= k < |s| ==> space(s[k])
    ensures j > 0 ==> !space(s[j - 1])
  {
    j := |s|;
    if s != "" && space(s[|s| - 1]) {
      j := StripRightCut(s[..|s| - 1], space);
      assert s[..|s| - 1][..j] == s[..j];
      forall k | j <= k < |s| ensures space(s[k]) { assert k == |s| - 1 || s[k] == s[..|s| - 1][k]; }
    }
  }

  /** Stripping cuts off the space at both ends and nothing else. */
  lemma StripIsCut(s: string, core: string, space: char -> bool)
    ensures core == Strip(s, space) <==> IsCut(s, core, space)
  {
    var i := StripLeftCut(s, space);
    var j := StripRightCut(StripLeft(s, space), space);
    var t := Strip(s, space);
    assert t == s[i..][..j] == s[i..i + j];
    forall k | i + j <= k < |s| ensures space(s[k]) { assert s[k] == StripLeft(s, space)[k - i]; }
    if t != "" {
      assert t[0] == s[i] && t[|t| - 1] == StripLeft(s, space)[j - 1];
    }
    assert CutAt(s, t, i, i + j, space);
    if IsCut(s, core, space) {
      var k, l :| CutAt(s, core, k, l, space);
      CutsAgree(s, core, k, l, t, i, i + j, space);
    }
  }

  /** Trimming leaves nothing exactly of blank texts. */
  lemma TrimEmpty(s: string)
    ensures Trim(s) == "" <==> AllSpace(s)
  {
    StripIsCut(s, Trim(s), IsSpace);
    var i: nat, j: nat :| CutAt(s, Trim(s), i, j, IsSpace);
    BlankCut(s, Trim(s), i, j, IsSpace);
  }

  /** The white space of ECMAScript 2024, sections 12.2 and 12.3, character by character. */
  lemma SpacesListed(c: char)
    ensures IsSpace(c) <==> c as int in {
              0x9, 0xA, 0xB, 0xC, 0xD, 0x20, 0xA0, 0x1680, 0x2000, 0x2001, 0x2002, 0x2003, 0x2004, 0x2005, 0x2006,
              0x2007, 0x2008, 0x2009, 0x200A, 0x2028, 0x2029, 0x202F, 0x205F, 0x3000, 0xFEFF}
  {
  }
}
