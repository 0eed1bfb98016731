/**
 * The two deterministic string hashes of the project. Both fold the UTF-16 code
 * units of a string with `hash * 31 + c` written as `(hash << 5) - hash`:
 *
 *  - `generateAvatarColor` (scripts/fetch-comments.js) and `getPraiseMessage`
 *    (src/videos/SummaryVideo.tsx) compute `c + ((hash << 5) - hash)` and never
 *    wrap the sum, so the running hash is an unbounded integer: only the shift
 *    reduces it to 32 bits;
 *  - `getSeededRandomIndex` (src/utils/bgm.ts) follows each step with
 *    `hash = hash & hash`, which wraps the running hash to a signed 32-bit value.
 *
 * The two agree modulo 2^32 on every input, and exactly while the unwrapped hash
 * stays a signed 32-bit value.
 */
module Hashing {
  import opened Js

  /** The running hash of the avatar colour and praise selectors after all of `units`. */
  function UnwrappedHash(units: seq<CodeUnit>): int
  {
    if units == [] then 0
    else
      var h := UnwrappedHash(units[..|units| - 1]);
      units[|units| - 1] + (ShiftLeft5(h) - h)
  }

  /** The running hash of the music selector after all of `units`. */
  function WrappedHash(units: seq<CodeUnit>): (h: int)
    ensures IsInt32(h)
  {
    if units == [] then 0
    else
      var h := WrappedHash(units[..|units| - 1]);
      ToInt32(ShiftLeft5(h) - h + units[|units| - 1])
  }

  /** One more code unit: the step both hash loops take at index `i`. */
  lemma UnwrappedHashStep(units: seq<CodeUnit>, i: nat)
    requires i < |units|
    ensures UnwrappedHash(units[..i + 1]) == units[i] + (ShiftLeft5(UnwrappedHash(units[..i])) - UnwrappedHash(units[..i]))
  {
    assert units[..i + 1][..i] == units[..i];
  }

  lemma WrappedHashStep(units: seq<CodeUnit>, i: nat)
    requires i < |units|
    ensures WrappedHash(units[..i + 1]) == ToInt32(ShiftLeft5(WrappedHash(units[..i])) - WrappedHash(units[..i]) + units[i])
  {
    assert units[..i + 1][..i] == units[..i];
  }

  /** Wrapping the unwrapped hash to 32 bits gives the music selector's hash, for every input. */
  lemma {:induction false} HashesAgreeModulo(units: seq<CodeUnit>)
    ensures ToInt32(UnwrappedHash(units)) == WrappedHash(units)
  {
    if units != [] {
      var p := units[..|units| - 1];
      var c := units[|units| - 1];
      HashesAgreeModulo(p);
      var a, b := UnwrappedHash(p), WrappedHash(p);
      assert UnwrappedHash(units) == c + (ShiftLeft5(a) - a);
      assert WrappedHash(units) == ToInt32(ShiftLeft5(b) - b + c);
      StepAgrees(a, b, c);
    }
  }

  /** One step of each loop, from hashes that agree modulo 2^32, gives hashes that still agree. */
  lemma StepAgrees(a: int, b: int, c: int)
    requires ToInt32(a) == b
    ensures ToInt32(c + (ShiftLeft5(a) - a)) == ToInt32(ShiftLeft5(b) - b + c)
  {
    // the shift only sees the low 32 bits, on which a and b agree
    assert ShiftLeft5(a) == ShiftLeft5(b);
    var s := ShiftLeft5(b);
    assert (b - a) % TwoTo32 == 0;
    assert (c + (s - a)) - (s - b + c) == b - a;
    ToInt32Congruent(c + (s - a), s - b + c);
  }

  /** While the unwrapped hash does not overflow 32 bits, the two hashes are equal. */
  lemma HashesAgreeWithoutOverflow(units: seq<CodeUnit>)
    requires IsInt32(UnwrappedHash(units))
    ensures UnwrappedHash(units) == WrappedHash(units)
  {
    HashesAgreeModulo(units);
  }

  /** `Math.abs(hash) % length`: the position a hash selects in a list of `length` entries. */
  function SelectIndex(hash: int, length: nat): (i: nat)
    requires length > 0
    ensures i < length
  {
    Abs(hash) % length
  }
}
