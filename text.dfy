/** The three string operations the book store relies on: JavaScript's
    `String.prototype.trim`, `toLowerCase` (on ASCII letters) and `includes`. */
module Text {

  /** The code points `trim` removes: ECMAScript WhiteSpace and LineTerminator. */
  predicate IsWhitespace(c: char)
  {
    || c == '\t' || c == '\n' || c == '\U{B}' || c == '\U{C}' || c == '\r' || c == ' '
    || c == '\U{A0}' || c == '\U{1680}' || ('\U{2000}' <= c <= '\U{200A}')
    || c == '\U{2028}' || c == '\U{2029}' || c == '\U{202F}' || c == '\U{205F}'
    || c == '\U{3000}' || c == '\U{FEFF}'
  }

  /** `r` is `s` with the whitespace-only prefix `s[..k]` and a whitespace-only suffix cut off. */
  ghost predicate StripsTo(s: string, r: string, k: int)
  {
    && 0 <= k <= k + |r| <= |s|
    && s[k..k + |r|] == r
    && (forall i :: 0 <= i < k ==> IsWhitespace(s[i]))
    && (forall i :: k + |r| <= i < |s| ==> IsWhitespace(s[i]))
  }

  /** Neither starts nor ends with whitespace. */
  predicate IsTrimmed(s: string)
  {
    s == [] || (!IsWhitespace(s[0]) && !IsWhitespace(s[|s| - 1]))
  }

  function TrimStart(s: string): (r: string)
    ensures |r| <= |s| && r == s[|s| - |r|..]
    ensures forall i :: 0 <= i < |s| - |r| ==> IsWhitespace(s[i])
    ensures r == [] || !IsWhitespace(r[0])
  {
    if s != [] && IsWhitespace(s[0]) then TrimStart(s[1..]) else s
  }

  function TrimEnd(s: string): (r: string)
    ensures |r| <= |s| && r == s[..|r|]
    ensures forall i :: |r| <= i < |s| ==> IsWhitespace(s[i])
    ensures r == [] || !IsWhitespace(r[|r| - 1])
  {
    if s != [] && IsWhitespace(s[|s| - 1]) then TrimEnd(s[..|s| - 1]) else s
  }

  /** `s.trim()`: the result has no surrounding whitespace and is what is left
      of `s` once whitespace alone has been cut from both ends. */
  function Trim(s: string): (r: string)
    ensures IsTrimmed(r)
    ensures StripsTo(s, r, |s| - |TrimStart(s)|)
  {
    var t := TrimStart(s);
    var r := TrimEnd(t);
    CutBothEnds(s, |s| - |t|, r);
    r
  }

  /** Whitespace cut from the front (up to `m`) and then from the back of
      what remains leaves a trimmed slice whose surroundings are whitespace. */
  lemma CutBothEnds(s: string, m: int, r: string)
    requires 0 <= m <= |s| && |r| <= |s| - m && r == s[m..][..|r|]
    requires forall i :: 0 <= i < m ==> IsWhitespace(s[i])
    requires m == |s| || !IsWhitespace(s[m..][0])
    requires forall i :: |r| <= i < |s| - m ==> IsWhitespace(s[m..][i])
    requires r == [] || !IsWhitespace(r[|r| - 1])
    ensures IsTrimmed(r)
    ensures StripsTo(s, r, m)
  {
    if r != [] {
      assert r[0] == s[m..][0];
    }
    forall i | m + |r| <= i < |s|
      ensures IsWhitespace(s[i])
    {
      assert s[i] == s[m..][i - m];
    }
  }

  /** Trimming is the only way to strip whitespace from both ends and end up
      with a trimmed string: any such cut equals `Trim(s)`. */
  lemma TrimUnique(s: string, r: string, k: int)
    requires StripsTo(s, r, k) && IsTrimmed(r)
    ensures r == Trim(s)
  {
    var t := Trim(s);
    var m := |s| - |TrimStart(s)|;
    assert StripsTo(s, t, m);
    if r != [] && t != [] {
      assert s[k] == r[0] && s[m] == t[0];
      assert s[k + |r| - 1] == r[|r| - 1] && s[m + |t| - 1] == t[|t| - 1];
    }
  }

  /** Trimming an already trimmed string changes nothing, so `trim` is idempotent. */
  lemma TrimIdempotent(s: string)
    ensures Trim(Trim(s)) == Trim(s)
  {
    var t := Trim(s);
    assert StripsTo(t, t, 0);
    TrimUnique(t, t, 0);
  }

  predicate IsUpper(c: char)
  {
    'A' <= c <= 'Z'
  }

  function LowerChar(c: char): char
  {
    if IsUpper(c) then (c as int + 32) as char else c
  }

  /** `s.toLowerCase()` on ASCII: every upper-case letter is replaced by its
      lower-case letter, every other character is kept. */
  function Lower(s: string): (r: string)
    ensures |r| == |s|
    ensures forall i :: 0 <= i < |s| ==> !IsUpper(r[i])
    ensures forall i :: 0 <= i < |s| && !IsUpper(s[i]) ==> r[i] == s[i]
    ensures forall i :: 0 <= i < |s| && IsUpper(s[i]) ==> r[i] as int == s[i] as int + 32
  {
    seq(|s|, i requires 0 <= i < |s| => LowerChar(s[i]))
  }

  lemma LowerIdempotent(s: string)
    ensures Lower(Lower(s)) == Lower(s)
  {
  }

  /** `needle` sits in `hay` at position `i`. */
  ghost predicate OccursAt(hay: string, needle: string, i: int)
  {
    0 <= i && i + |needle| <= |hay| && hay[i..i + |needle|] == needle
  }

  lemma OccursShift(hay: string, needle: string)
    requires hay != [] && |needle| <= |hay|
    ensures (exists i :: OccursAt(hay, needle, i))
        <==> (needle <= hay || exists i :: OccursAt(hay[1..], needle, i))
  {
    if i :| OccursAt(hay, needle, i) {
      if i > 0 {
        assert hay[1..][i - 1..i - 1 + |needle|] == hay[i..i + |needle|];
        assert OccursAt(hay[1..], needle, i - 1);
      }
    }
    if needle <= hay {
      assert OccursAt(hay, needle, 0);
    }
    if i :| OccursAt(hay[1..], needle, i) {
      assert hay[1..][i..i + |needle|] == hay[i + 1..i + 1 + |needle|];
      assert OccursAt(hay, needle, i + 1);
    }
  }

  /** `hay.includes(needle)`: true exactly when `needle` occurs somewhere in
      `hay` (the empty string occurs everywhere). It tests whether `needle`
      starts at the first position of `hay` or, failing that, somewhere in the rest. */
  function Includes(hay: string, needle: string): (r: bool)
    ensures r <==> exists i :: OccursAt(hay, needle, i)
    decreases |hay|
  {
    if |needle| > |hay| then
      assert forall i :: !OccursAt(hay, needle, i);
      false
    else if needle <= hay then
      assert OccursAt(hay, needle, 0);
      true
    else
      OccursShift(hay, needle);
      Includes(hay[1..], needle)
  }
}
