/**
 * Mismatch counting against a target base: the quantity that both boundary
 * scanners of the poly-A/poly-T trimmer accumulate in their `error` counter.
 */
module Counting {

  /** The number of positions `k` in `[lo, hi)` whose symbol differs from `base`. */
  function Mismatches(s: seq<char>, lo: int, hi: int, base: char): (n: nat)
    requires 0 <= lo <= hi <= |s|
    ensures n <= hi - lo
    decreases hi - lo
  {
    if lo == hi then 0
    else Mismatches(s, lo, hi - 1, base) + (if s[hi - 1] != base then 1 else 0)
  }

  /** A window holding only `base` has no mismatch, and a window with no mismatch holds only `base`. */
  lemma {:induction false} MismatchesNone(s: seq<char>, lo: int, hi: int, base: char)
    requires 0 <= lo <= hi <= |s|
    ensures Mismatches(s, lo, hi, base) == 0 <==> forall k :: lo <= k < hi ==> s[k] == base
    decreases hi - lo
  {
    if lo < hi {
      MismatchesNone(s, lo, hi - 1, base);
    }
  }

  /** Every position of a window mismatches exactly when the count is the window's width. */
  lemma {:induction false} MismatchesAll(s: seq<char>, lo: int, hi: int, base: char)
    requires 0 <= lo <= hi <= |s|
    ensures Mismatches(s, lo, hi, base) == hi - lo <==> forall k :: lo <= k < hi ==> s[k] != base
    decreases hi - lo
  {
    if lo < hi {
      MismatchesAll(s, lo, hi - 1, base);
    }
  }

  /** Counting over `[lo, hi)` is counting over `[lo, mid)` and then over `[mid, hi)`. */
  lemma {:induction false} MismatchesSplit(s: seq<char>, lo: int, mid: int, hi: int, base: char)
    requires 0 <= lo <= mid <= hi <= |s|
    ensures Mismatches(s, lo, hi, base) == Mismatches(s, lo, mid, base) + Mismatches(s, mid, hi, base)
    decreases hi - mid
  {
    if mid < hi {
      MismatchesSplit(s, lo, mid, hi - 1, base);
    }
  }

  /** Peeling the first position, as the backward scan does when it steps down. */
  lemma MismatchesFront(s: seq<char>, lo: int, hi: int, base: char)
    requires 0 <= lo < hi <= |s|
    ensures Mismatches(s, lo, hi, base) == (if s[lo] != base then 1 else 0) + Mismatches(s, lo + 1, hi, base)
  {
    MismatchesSplit(s, lo, lo + 1, hi, base);
  }

  /** A wider window never holds fewer mismatches. */
  lemma MismatchesMonotone(s: seq<char>, lo': int, lo: int, hi: int, hi': int, base: char)
    requires 0 <= lo' <= lo <= hi <= hi' <= |s|
    ensures Mismatches(s, lo, hi, base) <= Mismatches(s, lo', hi', base)
  {
    MismatchesSplit(s, lo', lo, hi', base);
    MismatchesSplit(s, lo, hi, hi', base);
  }
}
