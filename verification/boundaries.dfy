/**
 * The two boundary scanners, `trimm_end` and `trimm_begin`.
 *
 * Each scan stops at a "break": the first index, seen from the side it
 * starts on, where the running mismatch count exceeds `maxError`. The break
 * is characterised declaratively (`IsEndBreak`, `IsBeginBreak`), computed by
 * a reference definition that searches with `Mismatches` directly
 * (`EndBreak`, `BeginBreak`), and the boundary each scanner returns is a
 * function of its break (`EndBoundary`, `BeginBoundary`). The loop methods
 * `TrimEnd` and `TrimBegin` follow the source step by step and are proved to
 * return those boundaries.
 */
module Boundaries {
  import opened Counting

  // ---------------------------------------------------------------------
  // trimm_end: backward scan
  // ---------------------------------------------------------------------

  /**
   * `i` is where the backward scan stops: every suffix starting strictly
   * after `i` holds at most `maxError` mismatches, and, unless the scan ran
   * off the front (`i == -1`), the suffix starting at `i` holds more.
   */
  ghost predicate IsEndBreak(s: seq<char>, maxError: int, base: char, i: int)
  {
    -1 <= i < |s| &&
    (i >= 0 ==> Mismatches(s, i, |s|, base) > maxError) &&
    (forall j :: i < j < |s| ==> Mismatches(s, j, |s|, base) <= maxError)
  }

  /** The largest index `i <= k` whose suffix exceeds `maxError`, or -1 if none does. */
  function LastOverflowFrom(s: seq<char>, maxError: int, base: char, k: int): (i: int)
    requires -1 <= k < |s|
    ensures -1 <= i <= k
    decreases k + 1
  {
    if k < 0 then -1
    else if Mismatches(s, k, |s|, base) > maxError then k
    else LastOverflowFrom(s, maxError, base, k - 1)
  }

  /** `LastOverflowFrom` finds an overflowing suffix, and none starts between it and `k`. */
  lemma {:induction false} LastOverflowFromFinds(s: seq<char>, maxError: int, base: char, k: int)
    requires -1 <= k < |s|
    ensures var i := LastOverflowFrom(s, maxError, base, k);
      (i >= 0 ==> Mismatches(s, i, |s|, base) > maxError) &&
      (forall j :: i < j <= k ==> Mismatches(s, j, |s|, base) <= maxError)
    decreases k + 1
  {
    if k >= 0 && Mismatches(s, k, |s|, base) <= maxError {
      LastOverflowFromFinds(s, maxError, base, k - 1);
    }
  }

  /** The index at which the backward scan of `trimm_end` stops. */
  function EndBreak(s: seq<char>, maxError: int, base: char): (i: int)
    ensures -1 <= i < |s|
  {
    LastOverflowFrom(s, maxError, base, |s| - 1)
  }

  /** `EndBreak` is a break in the sense of `IsEndBreak`. */
  lemma EndBreakIsBreak(s: seq<char>, maxError: int, base: char)
    ensures IsEndBreak(s, maxError, base, EndBreak(s, maxError, base))
  {
    LastOverflowFromFinds(s, maxError, base, |s| - 1);
  }

  /** The break is unique, so `IsEndBreak` determines `EndBreak`. */
  lemma EndBreakUnique(s: seq<char>, maxError: int, base: char, i: int)
    requires IsEndBreak(s, maxError, base, i)
    ensures i == EndBreak(s, maxError, base)
  {
    EndBreakIsBreak(s, maxError, base);
  }

  /**
   * What `trimm_end` returns: `|s|` ("no trim") when the scanned run
   * `|s| - i - 1` is shorter than `minLength`, otherwise the break `i`,
   * used by the caller as an exclusive end.
   */
  function EndBoundary(s: seq<char>, minLength: int, maxError: int, base: char): (r: int)
    ensures r == |s| || (-1 <= r < |s| && |s| - r - 1 >= minLength)
  {
    var i := EndBreak(s, maxError, base);
    if |s| - i - 1 < minLength then |s| else i
  }

  /** `trimm_end`: scans from the last index down, stopping once the mismatches exceed `maxError`. */
  method TrimEnd(s: seq<char>, minLength: int, maxError: int, base: char) returns (r: int)
    ensures r == EndBoundary(s, minLength, maxError, base)
  {
    var i := |s| - 1;
    var error := 0;
    while i >= 0
      invariant -1 <= i < |s|
      invariant error == Mismatches(s, i + 1, |s|, base)
      invariant forall j :: i < j < |s| ==> Mismatches(s, j, |s|, base) <= maxError
    {
      MismatchesFront(s, i, |s|, base);
      error := error + if s[i] != base then 1 else 0;
      if error > maxError {
        break;
      }
      i := i - 1;
    }
    EndBreakUnique(s, maxError, base, i);
    if |s| - i - 1 < minLength {
      r := |s|;
    } else {
      r := i;
    }
  }

  /**
   * With a non-negative tolerance the run after the break is the longest
   * suffix with at most `maxError` mismatches: every shorter-or-equal suffix
   * stays within the tolerance and every longer one exceeds it.
   */
  lemma EndBreakLongestRun(s: seq<char>, maxError: int, base: char)
    requires maxError >= 0
    ensures var i := EndBreak(s, maxError, base);
      (forall j :: i < j <= |s| ==> Mismatches(s, j, |s|, base) <= maxError) &&
      (forall j :: 0 <= j <= i ==> Mismatches(s, j, |s|, base) > maxError)
  {
    var i := EndBreak(s, maxError, base);
    EndBreakIsBreak(s, maxError, base);
    forall j | 0 <= j <= i
      ensures Mismatches(s, j, |s|, base) > maxError
    {
      MismatchesMonotone(s, j, i, |s|, |s|, base);
    }
  }

  /**
   * With a non-negative tolerance the break sits on a mismatch and the
   * suffix starting there holds exactly `maxError + 1` mismatches.
   */
  lemma EndBreakCount(s: seq<char>, maxError: int, base: char)
    requires maxError >= 0
    ensures var i := EndBreak(s, maxError, base);
      Mismatches(s, i + 1, |s|, base) <= maxError &&
      (i >= 0 ==> s[i] != base && Mismatches(s, i, |s|, base) == maxError + 1)
  {
    var i := EndBreak(s, maxError, base);
    EndBreakLongestRun(s, maxError, base);
    if i >= 0 {
      MismatchesFront(s, i, |s|, base);
    }
  }

  /**
   * `trimm_end` answers "no trim" (`|s|`) exactly when no suffix of length at
   * least `minLength` stays within `maxError` mismatches.
   */
  lemma EndBoundaryNoTrim(s: seq<char>, minLength: int, maxError: int, base: char)
    requires maxError >= 0
    ensures EndBoundary(s, minLength, maxError, base) == |s| <==>
      forall j :: 0 <= j <= |s| && |s| - j >= minLength ==> Mismatches(s, j, |s|, base) > maxError
  {
    var i := EndBreak(s, maxError, base);
    EndBreakLongestRun(s, maxError, base);
    if |s| - i - 1 >= minLength {
      assert Mismatches(s, i + 1, |s|, base) <= maxError;
    }
  }

  /** A sequence made entirely of `base` and at least `minLength` long is all tail: the end is -1. */
  lemma EndAllBase(s: seq<char>, minLength: int, maxError: int, base: char)
    requires maxError >= 0 && |s| >= minLength
    requires forall k :: 0 <= k < |s| ==> s[k] == base
    ensures EndBoundary(s, minLength, maxError, base) == -1
  {
    forall j | -1 < j < |s|
      ensures Mismatches(s, j, |s|, base) == 0
    {
      MismatchesNone(s, j, |s|, base);
    }
    EndBreakUnique(s, maxError, base, -1);
  }

  /**
   * With no tolerance, a sequence ending in a pure run of `base` that is at
   * least `minLength` long is cut at the mismatch just before the run: that
   * index is the (exclusive) end, so the mismatch itself is dropped.
   */
  lemma EndCutsAtLastMismatch(s: seq<char>, k: int, minLength: int, base: char)
    requires 0 <= k < |s| && s[k] != base && |s| - k - 1 >= minLength
    requires forall j :: k < j < |s| ==> s[j] == base
    ensures EndBoundary(s, minLength, 0, base) == k
  {
    forall j | k < j < |s|
      ensures Mismatches(s, j, |s|, base) == 0
    {
      MismatchesNone(s, j, |s|, base);
    }
    MismatchesFront(s, k, |s|, base);
    EndBreakUnique(s, 0, base, k);
  }

  /** Without a single `base`, and with a tolerance below `minLength`, nothing is trimmed at the end. */
  lemma EndNoBase(s: seq<char>, minLength: int, maxError: int, base: char)
    requires 0 <= maxError < minLength
    requires forall k :: 0 <= k < |s| ==> s[k] != base
    ensures EndBoundary(s, minLength, maxError, base) == |s|
  {
    forall j | 0 <= j <= |s| && |s| - j >= minLength
      ensures Mismatches(s, j, |s|, base) > maxError
    {
      MismatchesAll(s, j, |s|, base);
    }
    EndBoundaryNoTrim(s, minLength, maxError, base);
  }

  /**
   * If the last `minLength` symbols already hold more than `maxError`
   * mismatches, no tail qualifies and `trimm_end` answers "no trim".
   */
  lemma EndTooManyMismatchesNearEnd(s: seq<char>, minLength: int, maxError: int, base: char)
    requires maxError >= 0 && 0 <= minLength <= |s|
    requires Mismatches(s, |s| - minLength, |s|, base) > maxError
    ensures EndBoundary(s, minLength, maxError, base) == |s|
  {
    forall j | 0 <= j <= |s| && |s| - j >= minLength
      ensures Mismatches(s, j, |s|, base) > maxError
    {
      MismatchesMonotone(s, j, |s| - minLength, |s|, |s|, base);
    }
    EndBoundaryNoTrim(s, minLength, maxError, base);
  }

  // ---------------------------------------------------------------------
  // trimm_begin: forward scan
  // ---------------------------------------------------------------------

  /**
   * `i` is where the forward scan stops: every prefix of length at most `i`
   * (and at least one) holds at most `maxError` mismatches, and, unless the
   * scan ran off the end (`i == |s|`), the prefix through `i` holds more.
   */
  ghost predicate IsBeginBreak(s: seq<char>, maxError: int, base: char, i: int)
  {
    0 <= i <= |s| &&
    (i < |s| ==> Mismatches(s, 0, i + 1, base) > maxError) &&
    (forall j :: 0 < j <= i ==> Mismatches(s, 0, j, base) <= maxError)
  }

  /** The smallest index `i >= k` whose prefix through `i` exceeds `maxError`, or `|s|` if none does. */
  function FirstOverflowFrom(s: seq<char>, maxError: int, base: char, k: int): (i: int)
    requires 0 <= k <= |s|
    ensures k <= i <= |s|
    decreases |s| - k
  {
    if k == |s| then |s|
    else if Mismatches(s, 0, k + 1, base) > maxError then k
    else FirstOverflowFrom(s, maxError, base, k + 1)
  }

  /** `FirstOverflowFrom` finds an overflowing prefix, and none ends between `k` and it. */
  lemma {:induction false} FirstOverflowFromFinds(s: seq<char>, maxError: int, base: char, k: int)
    requires 0 <= k <= |s|
    ensures var i := FirstOverflowFrom(s, maxError, base, k);
      (i < |s| ==> Mismatches(s, 0, i + 1, base) > maxError) &&
      (forall j :: k < j <= i ==> Mismatches(s, 0, j, base) <= maxError)
    decreases |s| - k
  {
    if k < |s| && Mismatches(s, 0, k + 1, base) <= maxError {
      FirstOverflowFromFinds(s, maxError, base, k + 1);
    }
  }

  /** The index at which the forward scan of `trimm_begin` stops. */
  function BeginBreak(s: seq<char>, maxError: int, base: char): (i: int)
    ensures 0 <= i <= |s|
  {
    FirstOverflowFrom(s, maxError, base, 0)
  }

  /** `BeginBreak` is a break in the sense of `IsBeginBreak`. */
  lemma BeginBreakIsBreak(s: seq<char>, maxError: int, base: char)
    ensures IsBeginBreak(s, maxError, base, BeginBreak(s, maxError, base))
  {
    FirstOverflowFromFinds(s, maxError, base, 0);
  }

  /** The break is unique, so `IsBeginBreak` determines `BeginBreak`. */
  lemma BeginBreakUnique(s: seq<char>, maxError: int, base: char, i: int)
    requires IsBeginBreak(s, maxError, base, i)
    ensures i == BeginBreak(s, maxError, base)
  {
    BeginBreakIsBreak(s, maxError, base);
  }

  /**
   * What `trimm_begin` returns: 0 ("no trim") when the break `i` is below
   * `minLength`, otherwise `i - 1`, used by the caller as an inclusive begin.
   */
  function BeginBoundary(s: seq<char>, minLength: int, maxError: int, base: char): (r: int)
    ensures r == 0 || (BeginBreak(s, maxError, base) == r + 1 && r + 1 >= minLength)
    ensures minLength >= 1 ==> 0 <= r && (r < |s| || r == 0)
  {
    var i := BeginBreak(s, maxError, base);
    if i < minLength then 0 else i - 1
  }

  /** `trimm_begin`: scans from index 0 up, stopping once the mismatches exceed `maxError`. */
  method TrimBegin(s: seq<char>, minLength: int, maxError: int, base: char) returns (r: int)
    ensures r == BeginBoundary(s, minLength, maxError, base)
  {
    var i := 0;
    var error := 0;
    while i < |s|
      invariant 0 <= i <= |s|
      invariant error == Mismatches(s, 0, i, base)
      invariant forall j :: 0 < j <= i ==> Mismatches(s, 0, j, base) <= maxError
    {
      error := error + if s[i] != base then 1 else 0;
      if error > maxError {
        break;
      }
      i := i + 1;
    }
    BeginBreakUnique(s, maxError, base, i);
    if i < minLength {
      r := 0;
    } else {
      r := i - 1;
    }
  }

  /**
   * With a non-negative tolerance the prefix before the break is the longest
   * prefix with at most `maxError` mismatches.
   */
  lemma BeginBreakLongestRun(s: seq<char>, maxError: int, base: char)
    requires maxError >= 0
    ensures var i := BeginBreak(s, maxError, base);
      (forall j :: 0 <= j <= i ==> Mismatches(s, 0, j, base) <= maxError) &&
      (forall j :: i < j <= |s| ==> Mismatches(s, 0, j, base) > maxError)
  {
    var i := BeginBreak(s, maxError, base);
    BeginBreakIsBreak(s, maxError, base);
    forall j | i < j <= |s|
      ensures Mismatches(s, 0, j, base) > maxError
    {
      MismatchesMonotone(s, 0, 0, i + 1, j, base);
    }
  }

  /**
   * With a non-negative tolerance the break sits on a mismatch and the
   * prefix through it holds exactly `maxError + 1` mismatches.
   */
  lemma BeginBreakCount(s: seq<char>, maxError: int, base: char)
    requires maxError >= 0
    ensures var i := BeginBreak(s, maxError, base);
      Mismatches(s, 0, i, base) <= maxError &&
      (i < |s| ==> s[i] != base && Mismatches(s, 0, i + 1, base) == maxError + 1)
  {
    BeginBreakIsBreak(s, maxError, base);
    BeginBreakLongestRun(s, maxError, base);
  }

  /**
   * `trimm_begin` in declarative terms: when no prefix of length at least
   * `minLength` stays within `maxError` mismatches it answers 0; otherwise
   * `r + 1` is the length of the longest prefix that does, and it is at
   * least `minLength`.
   */
  lemma BeginBoundaryLongestPrefix(s: seq<char>, minLength: int, maxError: int, base: char)
    requires maxError >= 0
    ensures var r := BeginBoundary(s, minLength, maxError, base);
      var qualifies := exists j :: 0 <= j <= |s| && j >= minLength && Mismatches(s, 0, j, base) <= maxError;
      (!qualifies ==> r == 0) &&
      (qualifies ==>
         r + 1 >= minLength && r + 1 <= |s| && Mismatches(s, 0, r + 1, base) <= maxError &&
         (forall j :: r + 1 < j <= |s| ==> Mismatches(s, 0, j, base) > maxError))
  {
    var i := BeginBreak(s, maxError, base);
    BeginBreakLongestRun(s, maxError, base);
    if i < minLength {
      forall j | 0 <= j <= |s| && j >= minLength
        ensures Mismatches(s, 0, j, base) > maxError
      {
      }
    } else {
      assert Mismatches(s, 0, i, base) <= maxError;
    }
  }

  /**
   * With a tolerance of at least one, a single symbol can never overflow,
   * so the break is at index 1 or later and `trimm_begin` answers an index
   * inside a non-empty sequence, whatever `minLength` is; only the empty
   * sequence can get -1 (when `minLength <= 0`).
   */
  lemma BeginBoundaryTolerant(s: seq<char>, minLength: int, maxError: int, base: char)
    requires maxError >= 1
    ensures var r := BeginBoundary(s, minLength, maxError, base);
      (|s| > 0 ==> 0 <= r < |s|) && (|s| == 0 ==> -1 <= r <= 0)
  {
    BeginBreakIsBreak(s, maxError, base);
    if |s| > 0 {
      assert Mismatches(s, 0, 1, base) <= 1;
    }
  }

  /** A sequence made entirely of `base` and at least `minLength` long is all head: the begin is `|s| - 1`. */
  lemma BeginAllBase(s: seq<char>, minLength: int, maxError: int, base: char)
    requires maxError >= 0 && |s| >= minLength
    requires forall k :: 0 <= k < |s| ==> s[k] == base
    ensures BeginBoundary(s, minLength, maxError, base) == |s| - 1
  {
    forall j | 0 < j <= |s|
      ensures Mismatches(s, 0, j, base) == 0
    {
      MismatchesNone(s, 0, j, base);
    }
    BeginBreakUnique(s, maxError, base, |s|);
  }

  /** Without a single `base`, and with a tolerance below `minLength`, nothing is trimmed at the begin. */
  lemma BeginNoBase(s: seq<char>, minLength: int, maxError: int, base: char)
    requires 0 <= maxError < minLength
    requires forall k :: 0 <= k < |s| ==> s[k] != base
    ensures BeginBoundary(s, minLength, maxError, base) == 0
  {
    var i := BeginBreak(s, maxError, base);
    BeginBreakIsBreak(s, maxError, base);
    MismatchesAll(s, 0, i, base);
  }

  /**
   * If the first `minLength` symbols already hold more than `maxError`
   * mismatches, no head qualifies and `trimm_begin` answers 0.
   */
  lemma BeginTooManyMismatchesNearStart(s: seq<char>, minLength: int, maxError: int, base: char)
    requires maxError >= 0 && 0 <= minLength <= |s|
    requires Mismatches(s, 0, minLength, base) > maxError
    ensures BeginBoundary(s, minLength, maxError, base) == 0
  {
    var i := BeginBreak(s, maxError, base);
    BeginBreakLongestRun(s, maxError, base);
    if i >= minLength {
      MismatchesMonotone(s, 0, 0, minLength, i, base);
    }
  }
}
