/** Shared vocabulary: the failures the program can stop with, a result
    type carrying them, and two facts about integer sequences. */
module Basics {

  /** Why a run stops before producing any track. */
  datatype Error =
    | MarkRefOutOfRange   // a chapter mark names a play item that does not exist (IndexError)
    | ZeroAlignment       // `samplerate / align` with align == 0 (ZeroDivisionError)
    | AlignNotDivisor     // align does not divide the sample rate (argument error)
    | NoSplits            // `splits[-1]` on an empty list (IndexError, legacy script only)

  datatype Result<+T> = Ok(value: T) | Err(error: Error)

  datatype Option<+T> = None | Some(value: T)

  /** Non-decreasing. */
  predicate Sorted(s: seq<int>) {
    forall i, j :: 0 <= i <= j < |s| ==> s[i] <= s[j]
  }

  /** Sum of the elements, accumulated from the back so that extending
      a prefix by one element adds that element. */
  function Sum(s: seq<int>): int {
    if s == [] then 0 else Sum(s[..|s| - 1]) + s[|s| - 1]
  }

  function Min(a: int, b: int): (m: int)
    ensures m <= a && m <= b && (m == a || m == b)
  {
    if a <= b then a else b
  }
}
