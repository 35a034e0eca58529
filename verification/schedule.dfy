/**
 The order in which one cycle of the main loop visits a pattern's bytes when
 nothing interrupts it: the forward scan shows consecutive pairs from the
 start of the pattern to its end; the reverse scan, when enabled, comes back
 over the inner pairs only, so that neither turnaround shows a pair twice.
 */
module Scan {
  import opened Catalog

  /** Two store offsets, shifted out first then second before one latch pulse. */
  datatype Pair = Pair(first: int, second: int)

  /** n frames of consecutive bytes from offset a upwards: (a, a + 1), (a + 2, a + 3), ... */
  function Ascending(a: int, n: nat): seq<Pair> {
    seq(n, k => Pair(a + 2 * k, a + 2 * k + 1))
  }

  /** The frames of a full forward scan: (start + 2k, start + 2k + 1) for each k. */
  function ForwardPairs(e: PatternDef): seq<Pair>
    requires WellFormedEntry(e)
  {
    Ascending(e.startLocation, e.size / 2)
  }

  /** The frames of a full reverse scan: from (end - 4, end - 3) down to (start + 2, start + 3). */
  function ReversePairs(e: PatternDef): seq<Pair>
    requires WellFormedEntry(e)
  {
    seq(e.size / 2 - 2, k => Pair(End(e) - 4 - 2 * k, End(e) - 3 - 2 * k))
  }

  /** What one undisturbed cycle shows for an entry and a direction flag. */
  function Schedule(e: PatternDef, reversing: bool): seq<Pair>
    requires WellFormedEntry(e)
  {
    ForwardPairs(e) + (if reversing then ReversePairs(e) else [])
  }

  /** Either schedule begins with the full forward scan. */
  lemma ScheduleStartsForward(e: PatternDef, reversing: bool)
    requires WellFormedEntry(e)
    ensures |ForwardPairs(e)| <= |Schedule(e, reversing)|
    ensures forall k :: 0 <= k < |ForwardPairs(e)| ==> Schedule(e, reversing)[k] == ForwardPairs(e)[k]
  {
  }

  /** The store offsets a sequence of frames reads, in the order they are read. */
  function Reads(ps: seq<Pair>): (rs: seq<int>)
    ensures |rs| == 2 * |ps|
    decreases |ps|
  {
    if |ps| == 0 then [] else [ps[0].first, ps[0].second] + Reads(ps[1..])
  }

  /** Frames of consecutive bytes read the bytes a, a + 1, ... one after another. */
  lemma {:induction false} AscendingReads(a: int, n: nat)
    ensures Reads(Ascending(a, n)) == seq(2 * n, j => a + j)
    decreases n
  {
    if n > 0 {
      assert Ascending(a, n)[1..] == Ascending(a + 2, n - 1);
      AscendingReads(a + 2, n - 1);
      var rs := Reads(Ascending(a, n));
      forall j | 0 <= j < 2 * n
        ensures rs[j] == a + j
      {
        if j >= 2 {
          assert rs[j] == Reads(Ascending(a + 2, n - 1))[j - 2];
        }
      }
    }
  }

  /** A full forward scan reads every byte of the entry once, in ascending order. */
  lemma ForwardReadsAscending(e: PatternDef)
    requires WellFormedEntry(e)
    ensures Reads(ForwardPairs(e)) == seq(e.size, j => e.startLocation + j)
  {
    AscendingReads(e.startLocation, e.size / 2);
  }

  /** Every offset read by frames whose offsets lie in [lo, hi] lies in [lo, hi]. */
  lemma {:induction false} ReadsWithin(ps: seq<Pair>, lo: int, hi: int)
    requires forall k :: 0 <= k < |ps| ==> lo <= ps[k].first <= hi && lo <= ps[k].second <= hi
    ensures forall j :: 0 <= j < |Reads(ps)| ==> lo <= Reads(ps)[j] <= hi
    decreases |ps|
  {
    if |ps| > 0 {
      ReadsWithin(ps[1..], lo, hi);
      var rs := Reads(ps);
      forall j | 0 <= j < |rs|
        ensures lo <= rs[j] <= hi
      {
        if j >= 2 {
          assert rs[j] == Reads(ps[1..])[j - 2];
        }
      }
    }
  }

  /**
   The reverse scan stays two bytes clear of both ends: it never reads the
   first two or the last two bytes of the entry, which the forward scan shows
   next to it.
   */
  lemma ReverseReadsInterior(e: PatternDef)
    requires WellFormedEntry(e)
    ensures forall j :: 0 <= j < |Reads(ReversePairs(e))| ==>
      e.startLocation + 2 <= Reads(ReversePairs(e))[j] <= End(e) - 3
  {
    ReadsWithin(ReversePairs(e), e.startLocation + 2, End(e) - 3);
  }

  /** The reverse scan shows the forward scan's inner frames, last first. */
  lemma ReverseMirrorsForward(e: PatternDef)
    requires WellFormedEntry(e)
    ensures |ReversePairs(e)| == |ForwardPairs(e)| - 2
    ensures forall k :: 0 <= k < |ReversePairs(e)| ==>
      ReversePairs(e)[k] == ForwardPairs(e)[|ForwardPairs(e)| - 2 - k]
  {
  }

  /**
   No frame is shown twice in a row: not inside a scan, not at the turnaround
   from the forward to the reverse scan, and not where the cycle starts over.
   */
  lemma NoFrameRepeats(e: PatternDef, reversing: bool)
    requires WellFormedEntry(e)
    ensures var sched := Schedule(e, reversing);
      && (forall k :: 0 <= k < |sched| - 1 ==> sched[k] != sched[k + 1])
      && sched[|sched| - 1] != sched[0]
  {
    var f := ForwardPairs(e);
    var sched := Schedule(e, reversing);
    forall k | 0 <= k < |sched| - 1
      ensures sched[k] != sched[k + 1]
    {
      if k + 1 < |f| {
        assert sched[k] == f[k] && sched[k + 1] == f[k + 1];
      }
    }
  }
}
