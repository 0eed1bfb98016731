/**
 * The JavaScript primitives the scripts and video templates rely on, stated over
 * Dafny values: optional values (`undefined`), ECMAScript ToInt32, UTF-16 code
 * units, whitespace trimming, first-occurrence search and replacement, and the
 * radix conversions behind `Number.prototype.toString(radix)`, `padStart` and
 * `parseInt`.
 */
module Js {

  /** A value that may be `undefined`. */
  datatype Option<+T> = None | Some(value: T)

  /** JavaScript truthiness of an optional string: `undefined` and `""` are falsy. */
  predicate Truthy(s: Option<string>)
  {
    s.Some? && s.value != ""
  }

  // ---------------------------------------------------------------------------
  // 32-bit integers

  const TwoTo32: int := 0x1_0000_0000
  const TwoTo31: int := 0x8000_0000

  predicate IsInt32(x: int)
  {
    -TwoTo31 <= x < TwoTo31
  }

  /** ECMAScript ToInt32 applied to an integral Number. */
  function ToInt32(x: int): (r: int)
    ensures IsInt32(r)
    ensures (r - x) % TwoTo32 == 0
    ensures IsInt32(x) ==> r == x
  {
    var m := x % TwoTo32;
    if m >= TwoTo31 then m - TwoTo32 else m
  }

  /** Numbers that agree modulo 2^32 have the same ToInt32. */
  lemma ToInt32Congruent(x: int, y: int)
    requires (x - y) % TwoTo32 == 0
    ensures ToInt32(x) == ToInt32(y)
  {
    var q := (x - y) / TwoTo32;
    assert x == y + q * TwoTo32;
    ModShift(y, q);
  }

  lemma ModShift(y: int, q: int)
    ensures (y + q * TwoTo32) % TwoTo32 == y % TwoTo32
  {
  }

  /** `x << 5` on an integral Number. */
  function ShiftLeft5(x: int): (r: int)
    ensures IsInt32(r)
    ensures (r - 32 * x) % TwoTo32 == 0
  {
    var r := ToInt32(ToInt32(x) * 32);
    assert (ToInt32(x) - x) % TwoTo32 == 0;
    MulCongruent(ToInt32(x), x, 32);
    r
  }

  lemma MulCongruent(a: int, b: int, k: int)
    requires (a - b) % TwoTo32 == 0
    ensures (a * k - b * k) % TwoTo32 == 0
  {
    var q := (a - b) / TwoTo32;
    assert a - b == q * TwoTo32;
    assert a * k - b * k == (q * k) * TwoTo32;
  }

  /** `Math.abs` */
  function Abs(x: int): (r: nat)
    ensures r == x || r == -x
  {
    if x < 0 then -x else x
  }

  // ---------------------------------------------------------------------------
  // UTF-16 code units: what `charCodeAt`, `length` and `slice` count

  type CodeUnit = u: int | 0 <= u < 0x1_0000

  /** The one or two UTF-16 code units of a Unicode scalar value. */
  function CharUnits(c: char): (r: seq<CodeUnit>)
    ensures |r| == (if c as int < 0x1_0000 then 1 else 2)
  {
    var v := c as int;
    if v < 0x1_0000 then [v]
    else [0xD800 + (v - 0x1_0000) / 0x400, 0xDC00 + (v - 0x1_0000) % 0x400]
  }

  /** The UTF-16 encoding of a string: the sequence `charCodeAt` walks. */
  function Utf16(s: string): (r: seq<CodeUnit>)
    ensures |r| >= |s|
  {
    if s == [] then [] else CharUnits(s[0]) + Utf16(s[1..])
  }

  predicate IsBmp(s: string)
  {
    forall i :: 0 <= i < |s| ==> s[i] as int < 0x1_0000
  }

  /** Outside the astral planes a character is exactly one code unit. */
  lemma {:induction false} Utf16OfBmp(s: string)
    requires IsBmp(s)
    ensures |Utf16(s)| == |s|
    ensures forall i :: 0 <= i < |s| ==> Utf16(s)[i] == s[i] as int
  {
    if s != [] {
      assert IsBmp(s[1..]) by {
        forall i | 0 <= i < |s[1..]| ensures s[1..][i] as int < 0x1_0000 {
          assert s[1..][i] == s[i + 1];
        }
      }
      Utf16OfBmp(s[1..]);
    }
  }

  lemma {:induction false} Utf16Append(a: string, b: string)
    ensures Utf16(a + b) == Utf16(a) + Utf16(b)
  {
    if a == [] {
      assert a + b == b;
    } else {
      assert (a + b)[0] == a[0];
      assert (a + b)[1..] == a[1..] + b;
      Utf16Append(a[1..], b);
    }
  }

  // ---------------------------------------------------------------------------
  // Whitespace and trimming

  /** ECMAScript WhiteSpace and LineTerminator code points (what `trim` and `parseInt` skip). */
  predicate IsJsWhitespace(c: char)
  {
    c == '\t' || c == '\n' || c == '\U{000B}' || c == '\U{000C}' || c == '\r' || c == ' '
    || c == '\U{00A0}' || c == '\U{1680}' || ('\U{2000}' <= c <= '\U{200A}')
    || c == '\U{2028}' || c == '\U{2029}' || c == '\U{202F}' || c == '\U{205F}'
    || c == '\U{3000}' || c == '\U{FEFF}'
  }

  /** ECMAScript LineTerminator: the characters a regular-expression `.` does not match. */
  predicate IsLineTerminator(c: char)
  {
    c == '\n' || c == '\r' || c == '\U{2028}' || c == '\U{2029}'
  }

  function TrimStart(s: string): (r: string)
    ensures |r| <= |s| && r == s[|s| - |r|..]
    ensures r == [] || !IsJsWhitespace(r[0])
    ensures forall i :: 0 <= i < |s| - |r| ==> IsJsWhitespace(s[i])
  {
    if s != [] && IsJsWhitespace(s[0]) then TrimStart(s[1..]) else s
  }

  function TrimEnd(s: string): (r: string)
    ensures |r| <= |s| && r == s[..|r|]
    ensures r == [] || !IsJsWhitespace(r[|r| - 1])
    ensures forall i :: |r| <= i < |s| ==> IsJsWhitespace(s[i])
  {
    if s != [] && IsJsWhitespace(s[|s| - 1]) then TrimEnd(s[..|s| - 1]) else s
  }

  /** `String.prototype.trim` */
  function Trim(s: string): (r: string)
  {
    TrimEnd(TrimStart(s))
  }

  /** `trim` keeps a contiguous piece of its input and drops only whitespace around it. */
  lemma TrimIsSlice(s: string)
    ensures exists lo, hi :: (0 <= lo <= hi <= |s| && Trim(s) == s[lo..hi]
      && (forall i :: 0 <= i < lo ==> IsJsWhitespace(s[i]))
      && (forall i :: hi <= i < |s| ==> IsJsWhitespace(s[i])))
  {
    var t := TrimStart(s);
    var lo := |s| - |t|;
    var u := TrimEnd(t);
    var hi := lo + |u|;
    TrimEndOfSuffix(s, lo, t, u);
    assert 0 <= lo <= hi <= |s| && Trim(s) == s[lo..hi];
  }

  lemma TrimEndOfSuffix(s: string, lo: nat, t: string, u: string)
    requires lo <= |s| && t == s[lo..] && |u| <= |t| && u == t[..|u|]
    requires forall i :: |u| <= i < |t| ==> IsJsWhitespace(t[i])
    ensures u == s[lo..lo + |u|]
    ensures forall i :: lo + |u| <= i < |s| ==> IsJsWhitespace(s[i])
  {
    forall i | lo + |u| <= i < |s| ensures IsJsWhitespace(s[i]) {
      assert s[i] == t[i - lo];
    }
  }

  /** The result of `trim` neither starts nor ends with whitespace. */
  lemma TrimHasSolidEnds(s: string)
    ensures Trim(s) == [] || (!IsJsWhitespace(Trim(s)[0]) && !IsJsWhitespace(Trim(s)[|Trim(s)| - 1]))
  {
    var t := TrimStart(s);
    var u := TrimEnd(t);
    assert u == [] || u[0] == t[0];
  }

  /** Trimming a string whose ends are not whitespace changes nothing. */
  lemma TrimKeepsSolidEnds(s: string)
    requires s != [] && !IsJsWhitespace(s[0]) && !IsJsWhitespace(s[|s| - 1])
    ensures Trim(s) == s
  {
  }

  // ---------------------------------------------------------------------------
  // First-occurrence search and replacement

  predicate OccursAt(s: string, pat: string, i: int)
  {
    0 <= i && i + |pat| <= |s| && s[i..i + |pat|] == pat
  }

  function IndexFrom(s: string, pat: string, from: nat): (r: int)
    requires from <= |s| + 1
    ensures r == -1 || (from <= r && OccursAt(s, pat, r))
    ensures forall i :: from <= i && (r == -1 || i < r) ==> !OccursAt(s, pat, i)
    decreases |s| + 1 - from
  {
    if from + |pat| > |s| then -1
    else if s[from..from + |pat|] == pat then from
    else IndexFrom(s, pat, from + 1)
  }

  /** `String.prototype.indexOf`: the first position where `pat` occurs, or -1. */
  function IndexOf(s: string, pat: string): (r: int)
    ensures r == -1 || OccursAt(s, pat, r)
    ensures forall i :: 0 <= i && (r == -1 || i < r) ==> !OccursAt(s, pat, i)
  {
    IndexFrom(s, pat, 0)
  }

  /** An occurrence with none before it is the one `indexOf` finds. */
  lemma IndexOfFirst(s: string, pat: string, i: int)
    requires OccursAt(s, pat, i)
    requires forall q :: 0 <= q < i ==> !OccursAt(s, pat, q)
    ensures IndexOf(s, pat) == i
  {
  }

  /** `String.prototype.replace` with a string pattern: only the first occurrence is replaced. */
  function ReplaceFirst(s: string, pat: string, rep: string): (r: string)
    ensures IndexOf(s, pat) == -1 ==> r == s
    ensures IndexOf(s, pat) >= 0 ==>
      r == s[..IndexOf(s, pat)] + rep + s[IndexOf(s, pat) + |pat|..]
  {
    var i := IndexOf(s, pat);
    if i < 0 then s else s[..i] + rep + s[i + |pat|..]
  }

}
