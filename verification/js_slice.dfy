/** The two pieces of the JavaScript runtime the table relies on: `Math.min`/`Math.max`
    on integers, and `Array.prototype.slice`, whose arguments are relative indices
    (negative ones count back from the end) clamped into the array's bounds. */
module Js {

  function Min(a: int, b: int): int { if a <= b then a else b }

  function Max(a: int, b: int): int { if a >= b then a else b }

  /** The absolute position `slice` resolves a relative argument to. */
  function RelativeIndex(rel: int, len: nat): (k: nat)
    ensures k <= len
    ensures 0 <= rel ==> k == Min(rel, len)
    ensures rel < 0 ==> k + Min(-rel, len) == len
  {
    if rel < 0 then Max(len + rel, 0) else Min(rel, len)
  }

  /** `s.slice(start, end)`: the elements from the resolved start up to (not
      including) the resolved end, empty when the end does not lie past the start. */
  function Slice<T>(s: seq<T>, start: int, end: int): (r: seq<T>)
    ensures |r| == Max(0, RelativeIndex(end, |s|) - RelativeIndex(start, |s|))
    ensures forall i :: 0 <= i < |r| ==> r[i] == s[RelativeIndex(start, |s|) + i]
  {
    var from := RelativeIndex(start, |s|);
    var to := RelativeIndex(end, |s|);
    if from < to then s[from..to] else []
  }

  /** With non-negative bounds in order, a slice is the clamped sub-sequence. */
  lemma SliceOfNonNegative<T>(s: seq<T>, start: nat, end: int)
    requires start <= end
    ensures Slice(s, start, end) == s[Min(start, |s|)..Min(end, |s|)]
  {
  }
}
