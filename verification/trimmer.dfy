/**
 * The per-read trimming decision and the record loop of the poly-A/poly-T
 * trimmer: both ends are scanned for an 'A' run with a fallback to 'T', a
 * read survives when what remains is at least `minReadLength` long, the
 * survivor is written as the same slice of its sequence and of its quality
 * string, and every removed base is added to a running total.
 */
module Trimmer {
  import opened Counting
  import opened Boundaries

  /** One FASTQ record as the parser hands it over. */
  datatype Read = Read(name: string, sequence: string, quality: string)

  /** The three positional thresholds: `min_length`, `max_error`, `min_read_length`. */
  datatype Config = Config(minLength: int, maxError: int, minReadLength: int)

  /** What happens to one read: kept or not, its slice `[begin, end)`, and the bases it adds to the total. */
  datatype Decision = Decision(keep: bool, begin: int, end: int, increment: int)

  /** A record the parser accepts: its quality string is as long as its sequence. */
  predicate WellFormed(r: Read)
  {
    |r.quality| == |r.sequence|
  }

  /**
   * The thresholds under which every slice the program writes lies inside
   * the read: a positive `minLength`, or a tolerance of at least one (so a
   * begin scan over a non-empty read never answers -1).
   */
  predicate SliceDefined(cfg: Config)
  {
    cfg.minLength >= 1 || cfg.maxError >= 1
  }

  // ---------------------------------------------------------------------
  // The per-read decision
  // ---------------------------------------------------------------------

  /** The end boundary: the 'A' scan, or the 'T' scan when the 'A' scan answered `|s|`. */
  function ReadEnd(s: string, cfg: Config): (r: int)
    ensures r == |s| || (-1 <= r < |s| && |s| - r - 1 >= cfg.minLength)
  {
    var e := EndBoundary(s, cfg.minLength, cfg.maxError, 'A');
    if e == |s| then EndBoundary(s, cfg.minLength, cfg.maxError, 'T') else e
  }

  /** The begin boundary: the 'A' scan, or the 'T' scan when the 'A' scan answered 0. */
  function ReadBegin(s: string, cfg: Config): (r: int)
    ensures r == 0 || r + 1 >= cfg.minLength
    ensures cfg.minLength >= 1 ==> 0 <= r && (r < |s| || r == 0)
  {
    var b := BeginBoundary(s, cfg.minLength, cfg.maxError, 'A');
    if b == 0 then BeginBoundary(s, cfg.minLength, cfg.maxError, 'T') else b
  }

  /** The whole decision for a read with sequence `s`. */
  function Decide(s: string, cfg: Config): Decision
  {
    var begin, end := ReadBegin(s, cfg), ReadEnd(s, cfg);
    var keep := end - begin >= cfg.minReadLength;
    Decision(keep, begin, end, if keep then |s| - (end - begin) else |s|)
  }

  /** The body of the record loop for one read, up to the writing of the record. */
  method TrimRead(s: string, cfg: Config) returns (keep: bool, begin: int, end: int, increment: int)
    ensures Decision(keep, begin, end, increment) == Decide(s, cfg)
  {
    var size := |s|;
    end := TrimEnd(s, cfg.minLength, cfg.maxError, 'A');
    if end == size {
      end := TrimEnd(s, cfg.minLength, cfg.maxError, 'T');
    }
    begin := TrimBegin(s, cfg.minLength, cfg.maxError, 'A');
    if begin == 0 {
      begin := TrimBegin(s, cfg.minLength, cfg.maxError, 'T');
    }
    keep := end - begin >= cfg.minReadLength;
    if keep {
      increment := size - (end - begin);
    } else {
      increment := size;
    }
  }

  /**
   * Under `SliceDefined` the boundaries stay inside the read: the end is in
   * `[-1, |s|]`, and a non-empty interval starts at a real index. With
   * `minLength >= 1` the begin is in `[0, |s|)` (or 0 for an empty read); with
   * only `maxError >= 1` it is -1 just for an empty read.
   */
  lemma DecisionInBounds(s: string, cfg: Config)
    requires SliceDefined(cfg)
    ensures var d := Decide(s, cfg);
      -1 <= d.end <= |s| && -1 <= d.begin &&
      (d.begin < d.end ==> 0 <= d.begin) &&
      (|s| > 0 ==> 0 <= d.begin < |s|) &&
      (cfg.minLength >= 1 ==> 0 <= d.begin && (d.begin < |s| || d.begin == 0))
  {
    if cfg.maxError >= 1 {
      BeginBoundaryTolerant(s, cfg.minLength, cfg.maxError, 'A');
      BeginBoundaryTolerant(s, cfg.minLength, cfg.maxError, 'T');
    }
  }

  /**
   * The keep rule: a read is kept exactly when `end - begin >= minReadLength`,
   * and under `SliceDefined` with `minReadLength >= 1` a kept read has a
   * non-empty interval inside the sequence.
   */
  lemma KeptInterval(s: string, cfg: Config)
    requires SliceDefined(cfg) && cfg.minReadLength >= 1
    ensures var d := Decide(s, cfg);
      (d.keep <==> d.end - d.begin >= cfg.minReadLength) &&
      (d.keep ==> 0 <= d.begin < d.end <= |s|)
  {
    DecisionInBounds(s, cfg);
  }

  /**
   * The accumulator step: a kept read adds what was cut off and a dropped
   * read adds its whole length. Under `SliceDefined` the step is never
   * negative, and with `minReadLength >= 0` it is at most `|s|`.
   */
  lemma IncrementBounds(s: string, cfg: Config)
    requires SliceDefined(cfg)
    ensures var d := Decide(s, cfg);
      (d.keep ==> d.increment == |s| - (d.end - d.begin)) &&
      (!d.keep ==> d.increment == |s|) &&
      0 <= d.increment &&
      (cfg.minReadLength >= 0 ==> d.increment <= |s|)
  {
    DecisionInBounds(s, cfg);
  }

  /**
   * The end falls back to 'T' only when no 'A' tail qualifies, and the read
   * keeps its full end exactly when neither an 'A' nor a 'T' suffix of at
   * least `minLength` symbols stays within `maxError` mismatches.
   */
  lemma ReadEndNoTrim(s: string, cfg: Config)
    requires cfg.maxError >= 0
    ensures ReadEnd(s, cfg) == |s| <==>
      forall j :: 0 <= j <= |s| && |s| - j >= cfg.minLength ==>
        Mismatches(s, j, |s|, 'A') > cfg.maxError && Mismatches(s, j, |s|, 'T') > cfg.maxError
  {
    EndBoundaryNoTrim(s, cfg.minLength, cfg.maxError, 'A');
    EndBoundaryNoTrim(s, cfg.minLength, cfg.maxError, 'T');
  }

  /**
   * The begin fallback keys on the value 0, not on "nothing found": here the
   * 'A' scan does find a qualifying run (its break is at index 1, which
   * reaches `minLength`) and answers 0, so the 'T' scan is consulted and
   * moves the begin to 4.
   */
  lemma BeginFallbackAfterGenuineTrim()
    ensures var s, cfg := "TTTTC", Config(1, 1, 0);
      BeginBreak(s, cfg.maxError, 'A') == 1 &&
      BeginBoundary(s, cfg.minLength, cfg.maxError, 'A') == 0 &&
      ReadBegin(s, cfg) == 4
  {
    var s := "TTTTC";
    assert Mismatches(s, 0, 1, 'A') == 1;
    assert Mismatches(s, 0, 2, 'A') == 2;
    BeginBreakUnique(s, 1, 'A', 1);
    assert forall j :: 0 < j <= 4 ==> Mismatches(s, 0, j, 'T') == 0;
    assert Mismatches(s, 0, 5, 'T') == 1;
    BeginBreakUnique(s, 1, 'T', 5);
  }

  /**
   * A read made only of 'A' and at least `minLength` long is all tail and all
   * head: its end is -1 and its begin `|s| - 1`, so the interval is reversed
   * and the read is dropped, adding its whole length. (For a one-base read
   * the 'A' begin is 0, and the 'T' fallback answers 0 as well.)
   */
  lemma AllAReadDropped(s: string, cfg: Config)
    requires cfg.maxError >= 0 && 1 <= cfg.minLength <= |s| && cfg.minReadLength >= 0
    requires forall k :: 0 <= k < |s| ==> s[k] == 'A'
    ensures ReadEnd(s, cfg) == -1 && ReadBegin(s, cfg) == |s| - 1
    ensures !Decide(s, cfg).keep && Decide(s, cfg).increment == |s|
  {
    EndAllBase(s, cfg.minLength, cfg.maxError, 'A');
    BeginAllBase(s, cfg.minLength, cfg.maxError, 'A');
  }

  /**
   * A read made only of 'T', at least `minLength` long, with a tolerance
   * below `minLength`: both 'A' scans find too many mismatches and answer
   * "no trim", and the 'T' fallbacks give end -1 and begin `|s| - 1`, so the
   * read is dropped, adding its whole length.
   */
  lemma AllTReadDropped(s: string, cfg: Config)
    requires 0 <= cfg.maxError < cfg.minLength <= |s| && cfg.minReadLength >= 0
    requires forall k :: 0 <= k < |s| ==> s[k] == 'T'
    ensures ReadEnd(s, cfg) == -1 && ReadBegin(s, cfg) == |s| - 1
    ensures !Decide(s, cfg).keep && Decide(s, cfg).increment == |s|
  {
    MismatchesAll(s, |s| - cfg.minLength, |s|, 'A');
    MismatchesAll(s, 0, cfg.minLength, 'A');
    EndTooManyMismatchesNearEnd(s, cfg.minLength, cfg.maxError, 'A');
    BeginTooManyMismatchesNearStart(s, cfg.minLength, cfg.maxError, 'A');
    EndAllBase(s, cfg.minLength, cfg.maxError, 'T');
    BeginAllBase(s, cfg.minLength, cfg.maxError, 'T');
  }

  /**
   * A read without any 'A' or 'T', with a tolerance below `minLength`, is
   * not trimmed at all: the interval is the whole sequence.
   */
  lemma NoTargetBaseUntrimmed(s: string, cfg: Config)
    requires 0 <= cfg.maxError < cfg.minLength
    requires forall k :: 0 <= k < |s| ==> s[k] != 'A' && s[k] != 'T'
    ensures ReadBegin(s, cfg) == 0 && ReadEnd(s, cfg) == |s|
  {
    EndNoBase(s, cfg.minLength, cfg.maxError, 'A');
    EndNoBase(s, cfg.minLength, cfg.maxError, 'T');
    BeginNoBase(s, cfg.minLength, cfg.maxError, 'A');
    BeginNoBase(s, cfg.minLength, cfg.maxError, 'T');
  }

  /**
   * "CGATAAAAA" with thresholds (3, 0, 5): the tail scan breaks on the 'T'
   * at index 3, so the kept interval is `[0, 3)` ("CGA"); 3 < 5, so the read
   * is dropped and all 9 bases are counted.
   */
  lemma ExampleShortTail()
    ensures Decide("CGATAAAAA", Config(3, 0, 5)) == Decision(false, 0, 3, 9)
  {
    var s := "CGATAAAAA";
    EndCutsAtLastMismatch(s, 3, 3, 'A');
    BeginBreakUnique(s, 0, 'A', 0);
    BeginBreakUnique(s, 0, 'T', 0);
  }

  /**
   * The same read with ten trailing 'A's is cut at the same place and is
   * still dropped: the surviving length, not the tail length, is compared
   * with `minReadLength`.
   */
  lemma ExampleLongTail()
    ensures Decide("CGATAAAAAAAAAA", Config(3, 0, 5)) == Decision(false, 0, 3, 14)
  {
    var s := "CGATAAAAAAAAAA";
    EndCutsAtLastMismatch(s, 3, 3, 'A');
    BeginBreakUnique(s, 0, 'A', 0);
    BeginBreakUnique(s, 0, 'T', 0);
  }

  /**
   * Why the record loop needs `SliceDefined`: with `minLength == 0` and
   * `maxError == 0` the begin scan of "CA" stops at index 0, which is not
   * below 0, so it answers -1; the read is kept and `print_substr` would
   * start at index -1, before the sequence.
   */
  lemma ZeroMinLengthBeginsBeforeStart()
    ensures Decide("CA", Config(0, 0, 1)) == Decision(true, -1, 0, 1)
  {
    var s := "CA";
    assert Mismatches(s, 1, 2, 'A') == 0;
    MismatchesFront(s, 0, 2, 'A');
    EndBreakUnique(s, 0, 'A', 0);
    BeginBreakUnique(s, 0, 'A', 0);
  }

  // ---------------------------------------------------------------------
  // print_substr and the emitted record
  // ---------------------------------------------------------------------

  /** The symbols at indices `begin .. end - 1`; empty when `begin >= end`. */
  function Substr(s: string, begin: int, end: int): (t: string)
    requires begin < end ==> 0 <= begin && end <= |s|
    ensures |t| == if begin < end then end - begin else 0
    ensures forall k :: 0 <= k < |t| ==> t[k] == s[begin + k]
  {
    if begin < end then s[begin..end] else []
  }

  /** `print_substr`: the line written for the slice `[begin, end)` of `s`, without its newline. */
  method PrintSubstr(s: string, begin: int, end: int) returns (line: string)
    requires begin < end ==> 0 <= begin && end <= |s|
    ensures |line| == if begin < end then end - begin else 0
    ensures forall k :: 0 <= k < |line| ==> line[k] == s[begin + k]
    ensures line == Substr(s, begin, end)
  {
    line := [];
    var i := begin;
    while i < end
      invariant begin <= i <= if begin < end then end else begin
      invariant |line| == i - begin
      invariant forall k :: 0 <= k < |line| ==> line[k] == s[begin + k]
    {
      line := line + [s[i]];
      i := i + 1;
    }
  }

  /** The record written for a kept read: same name, same slice `[begin, end)` of sequence and quality. */
  function Trimmed(r: Read, cfg: Config): Read
    requires SliceDefined(cfg) && WellFormed(r)
  {
    var d := Decide(r.sequence, cfg);
    DecisionInBounds(r.sequence, cfg);
    Read(r.name, Substr(r.sequence, d.begin, d.end), Substr(r.quality, d.begin, d.end))
  }

  /** The slice written for a kept read is as long as its interval, in both the sequence and the quality string. */
  lemma TrimmedShape(r: Read, cfg: Config)
    requires SliceDefined(cfg) && WellFormed(r)
    ensures var d, t := Decide(r.sequence, cfg), Trimmed(r, cfg);
      WellFormed(t) && t.name == r.name &&
      |t.sequence| == (if d.begin < d.end then d.end - d.begin else 0) &&
      (forall k :: 0 <= k < |t.sequence| ==> t.sequence[k] == r.sequence[d.begin + k] && t.quality[k] == r.quality[d.begin + k])
  {
    DecisionInBounds(r.sequence, cfg);
  }

  /**
   * The four lines written for a kept read: the `@` header with its name,
   * the sequence slice, the `+` separator with its name and the quality slice.
   */
  method WriteRecord(r: Read, begin: int, end: int) returns (written: Read)
    requires begin < end ==> 0 <= begin && end <= |r.sequence| && end <= |r.quality|
    ensures written == Read(r.name, Substr(r.sequence, begin, end), Substr(r.quality, begin, end))
  {
    var sequence := PrintSubstr(r.sequence, begin, end);
    var quality := PrintSubstr(r.quality, begin, end);
    written := Read(r.name, sequence, quality);
  }

  /** One pass of the record loop: decide, write the record if it is kept, and report the increment. */
  method ProcessRecord(r: Read, cfg: Config) returns (keep: bool, written: Read, increment: int)
    requires SliceDefined(cfg) && WellFormed(r)
    ensures keep == Decide(r.sequence, cfg).keep
    ensures keep ==> written == Trimmed(r, cfg)
    ensures increment == Decide(r.sequence, cfg).increment
  {
    var begin, end;
    keep, begin, end, increment := TrimRead(r.sequence, cfg);
    DecisionInBounds(r.sequence, cfg);
    written := r;
    if keep {
      written := WriteRecord(r, begin, end);
    }
  }

  // ---------------------------------------------------------------------
  // The record loop
  // ---------------------------------------------------------------------

  /** How many records the parser yields before the first one with a truncated quality string. */
  function ParsedCount(rs: seq<Read>): (n: nat)
    ensures n <= |rs|
    ensures forall j :: 0 <= j < n ==> WellFormed(rs[j])
    ensures n < |rs| ==> !WellFormed(rs[n])
  {
    if rs == [] || !WellFormed(rs[0]) then 0 else 1 + ParsedCount(rs[1..])
  }

  /** The records written for the first `n` records of `rs`, in order. */
  function Emitted(rs: seq<Read>, n: nat, cfg: Config): (out: seq<Read>)
    requires n <= |rs| && SliceDefined(cfg)
    requires forall j :: 0 <= j < n ==> WellFormed(rs[j])
    ensures |out| <= n
  {
    if n == 0 then []
    else
      var r := rs[n - 1];
      Emitted(rs, n - 1, cfg) + if Decide(r.sequence, cfg).keep then [Trimmed(r, cfg)] else []
  }

  /** `total_trimmed_bases` after the first `n` records of `rs`. */
  function TotalTrimmed(rs: seq<Read>, n: nat, cfg: Config): int
    requires n <= |rs|
  {
    if n == 0 then 0
    else TotalTrimmed(rs, n - 1, cfg) + Decide(rs[n - 1].sequence, cfg).increment
  }

  /** The number of bases in the sequences of `rs`. */
  function Bases(rs: seq<Read>): nat
  {
    if rs == [] then 0 else Bases(rs[..|rs| - 1]) + |rs[|rs| - 1].sequence|
  }

  lemma BasesSnoc(rs: seq<Read>, r: Read)
    ensures Bases(rs + [r]) == Bases(rs) + |r.sequence|
  {
    assert (rs + [r])[..|rs|] == rs;
  }

  /**
   * The loop of `main`: takes records until the input ends or a record has a
   * truncated quality string, writes each kept read's slice and accumulates
   * the removed bases.
   */
  method TrimAll(records: seq<Read>, cfg: Config) returns (out: seq<Read>, total: int, truncated: bool)
    requires SliceDefined(cfg)
    ensures var n := ParsedCount(records);
      truncated == (n < |records|) &&
      out == Emitted(records, n, cfg) &&
      total == TotalTrimmed(records, n, cfg)
  {
    out, total := [], 0;
    var i := 0;
    while i < |records| && WellFormed(records[i])
      invariant 0 <= i <= |records|
      invariant forall j :: 0 <= j < i ==> WellFormed(records[j])
      invariant out == Emitted(records, i, cfg)
      invariant total == TotalTrimmed(records, i, cfg)
    {
      var keep, written, increment := ProcessRecord(records[i], cfg);
      if keep {
        out := out + [written];
      }
      total := total + increment;
      i := i + 1;
    }
    truncated := i < |records|;
  }

  /** No record is written malformed: every emitted quality string is as long as its sequence. */
  lemma {:induction false} EmittedWellFormed(rs: seq<Read>, n: nat, cfg: Config)
    requires n <= |rs| && SliceDefined(cfg)
    requires forall j :: 0 <= j < n ==> WellFormed(rs[j])
    ensures forall k :: 0 <= k < |Emitted(rs, n, cfg)| ==> WellFormed(Emitted(rs, n, cfg)[k])
  {
    if n > 0 {
      EmittedWellFormed(rs, n - 1, cfg);
      TrimmedShape(rs[n - 1], cfg);
    }
  }

  /**
   * Every input base is either written out or counted: the total plus the
   * bases of the written sequences is the bases of the input (with
   * `minReadLength >= 0`, so that a kept interval is never reversed).
   */
  lemma {:induction false} TrimmedPlusEmittedIsInput(rs: seq<Read>, n: nat, cfg: Config)
    requires n <= |rs| && SliceDefined(cfg) && cfg.minReadLength >= 0
    requires forall j :: 0 <= j < n ==> WellFormed(rs[j])
    ensures TotalTrimmed(rs, n, cfg) + Bases(Emitted(rs, n, cfg)) == Bases(rs[..n])
  {
    if n > 0 {
      var r := rs[n - 1];
      TrimmedPlusEmittedIsInput(rs, n - 1, cfg);
      assert rs[..n] == rs[..n - 1] + [r];
      BasesSnoc(rs[..n - 1], r);
      IncrementBounds(r.sequence, cfg);
      TrimmedShape(r, cfg);
      if Decide(r.sequence, cfg).keep {
        BasesSnoc(Emitted(rs, n - 1, cfg), Trimmed(r, cfg));
      } else {
        assert Emitted(rs, n - 1, cfg) + [] == Emitted(rs, n - 1, cfg);
      }
    }
  }

  /** The total is never negative and never exceeds the bases read so far. */
  lemma {:induction false} TotalWithinBases(rs: seq<Read>, n: nat, cfg: Config)
    requires n <= |rs| && SliceDefined(cfg) && cfg.minReadLength >= 0
    ensures 0 <= TotalTrimmed(rs, n, cfg) <= Bases(rs[..n])
  {
    if n > 0 {
      TotalWithinBases(rs, n - 1, cfg);
      assert rs[..n] == rs[..n - 1] + [rs[n - 1]];
      BasesSnoc(rs[..n - 1], rs[n - 1]);
      IncrementBounds(rs[n - 1].sequence, cfg);
    }
  }

  /**
   * The total never decreases from one record to the next, and with
   * `minReadLength >= 0` each record raises it by at most its own length.
   */
  lemma TotalStep(rs: seq<Read>, n: nat, cfg: Config)
    requires n < |rs| && SliceDefined(cfg)
    ensures TotalTrimmed(rs, n, cfg) <= TotalTrimmed(rs, n + 1, cfg)
    ensures cfg.minReadLength >= 0 ==> TotalTrimmed(rs, n + 1, cfg) <= TotalTrimmed(rs, n, cfg) + |rs[n].sequence|
  {
    IncrementBounds(rs[n].sequence, cfg);
  }
}
