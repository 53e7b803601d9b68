/**
  The placement strategies `bestFit` and `worstFit`: pure scans over the
  encoded hole list that return the chosen hole's offset or -1 for no fit.
  Both keep the magic value 10000 of
  `MemoryManager/MemoryManager.cpp` as the "nothing chosen yet"
  offset (and, for best-fit, as the initial best size), so a chosen offset
  of 10000 is reported as no fit and best-fit never picks a hole of 10000
  words or more.
 */
module Placement {
  import opened HoleList

  const SENTINEL: nat := 10000
  const NO_FIT: int := -1

  /** What a scan returns for the offset it ended with. */
  function Reported(off: nat): int {
    if off == SENTINEL then NO_FIT else off
  }

  // ---------------------------------------------------------------------------
  // Best fit

  /** Hole k can be picked by best-fit: it is large enough and below the initial best size. */
  predicate BestCandidate(list: seq<nat>, req: nat, k: nat)
    requires WellFormedList(list)
  {
    k < list[0] && req <= SizeAt(list, k) < SENTINEL
  }

  /** Among the first m encoded holes, hole k is the first candidate of smallest size. */
  predicate BestAmong(list: seq<nat>, req: nat, m: nat, k: nat)
    requires WellFormedList(list) && m <= list[0]
  {
    && k < m
    && BestCandidate(list, req, k)
    && (forall j :: 0 <= j < m && BestCandidate(list, req, j) ==> SizeAt(list, k) <= SizeAt(list, j))
    && (forall j :: 0 <= j < k && BestCandidate(list, req, j) ==> SizeAt(list, k) < SizeAt(list, j))
  }

  /** The loop of `bestFit` from encoded hole k on, carrying the best offset and size so far. */
  function BestScan(list: seq<nat>, req: nat, k: nat, bestOff: nat, bestSize: nat): int
    requires WellFormedList(list) && k <= list[0]
    decreases list[0] - k
  {
    if k == list[0] then
      Reported(bestOff)
    else if SizeAt(list, k) >= req && SizeAt(list, k) < bestSize then
      BestScan(list, req, k + 1, OffsetAt(list, k), SizeAt(list, k))
    else
      BestScan(list, req, k + 1, bestOff, bestSize)
  }

  /**
    `bestFit(sizeInWords, list)`: -1 when no hole of at least `req` (and below
    10000) words exists; otherwise the offset of the first such hole of
    smallest size (-1 if that offset is 10000).
   */
  function BestFit(req: nat, list: seq<nat>): (r: int)
    requires WellFormedList(list)
    ensures BestOutcome(list, req, r)
  {
    BestScanOutcome(list, req, 0, SENTINEL, SENTINEL);
    BestScan(list, req, 0, SENTINEL, SENTINEL)
  }

  /** No candidate among the first k encoded holes. */
  predicate BestNone(list: seq<nat>, req: nat, k: nat)
    requires WellFormedList(list) && k <= list[0]
  {
    forall j :: 0 <= j < k ==> !BestCandidate(list, req, j)
  }

  /** The offset and size are those of the best candidate among the first k encoded holes. */
  predicate BestPicked(list: seq<nat>, req: nat, k: nat, off: nat, size: nat)
    requires WellFormedList(list) && k <= list[0]
  {
    exists b :: 0 <= b < k && BestAmong(list, req, k, b) && off == OffsetAt(list, b) && size == SizeAt(list, b)
  }

  /** The scan's accumulator after the first k holes: nothing picked, or the best so far. */
  predicate BestSoFar(list: seq<nat>, req: nat, k: nat, bestOff: nat, bestSize: nat)
    requires WellFormedList(list) && k <= list[0]
  {
    || (bestOff == SENTINEL && bestSize == SENTINEL && BestNone(list, req, k))
    || BestPicked(list, req, k, bestOff, bestSize)
  }

  /** The outcome a best-fit scan over the whole list must have. */
  predicate BestOutcome(list: seq<nat>, req: nat, r: int)
    requires WellFormedList(list)
  {
    || (r == NO_FIT && forall j :: 0 <= j < list[0] ==> !BestCandidate(list, req, j))
    || (exists b :: 0 <= b < list[0] && BestAmong(list, req, list[0], b) && r == Reported(OffsetAt(list, b)))
  }

  lemma BestExtend(list: seq<nat>, req: nat, k: nat, b: nat)
    requires WellFormedList(list) && k < list[0]
    requires BestAmong(list, req, k, b)
    requires !(BestCandidate(list, req, k) && SizeAt(list, k) < SizeAt(list, b))
    ensures BestAmong(list, req, k + 1, b)
  {
  }

  lemma BestReplace(list: seq<nat>, req: nat, k: nat, b: nat)
    requires WellFormedList(list) && k < list[0]
    requires BestAmong(list, req, k, b)
    requires BestCandidate(list, req, k) && SizeAt(list, k) < SizeAt(list, b)
    ensures BestAmong(list, req, k + 1, k)
  {
  }

  lemma BestFirst(list: seq<nat>, req: nat, k: nat)
    requires WellFormedList(list) && k < list[0]
    requires BestNone(list, req, k)
    requires BestCandidate(list, req, k)
    ensures BestAmong(list, req, k + 1, k)
  {
  }

  /** A best-fit step that picks hole k keeps the accumulator describing the holes seen so far. */
  lemma BestScanTake(list: seq<nat>, req: nat, k: nat, bestOff: nat, bestSize: nat)
    requires WellFormedList(list) && k < list[0]
    requires BestSoFar(list, req, k, bestOff, bestSize)
    requires SizeAt(list, k) >= req && SizeAt(list, k) < bestSize
    ensures BestSoFar(list, req, k + 1, OffsetAt(list, k), SizeAt(list, k))
  {
    if BestPicked(list, req, k, bestOff, bestSize) {
      var b :| 0 <= b < k && BestAmong(list, req, k, b) && bestOff == OffsetAt(list, b) && bestSize == SizeAt(list, b);
      BestReplace(list, req, k, b);
    } else {
      assert BestNone(list, req, k);
      BestFirst(list, req, k);
    }
    assert 0 <= k < k + 1 && BestAmong(list, req, k + 1, k);
  }

  /** A best-fit step that passes over hole k keeps the accumulator describing the holes seen so far. */
  lemma BestScanSkip(list: seq<nat>, req: nat, k: nat, bestOff: nat, bestSize: nat)
    requires WellFormedList(list) && k < list[0]
    requires BestSoFar(list, req, k, bestOff, bestSize)
    requires !(SizeAt(list, k) >= req && SizeAt(list, k) < bestSize)
    ensures BestSoFar(list, req, k + 1, bestOff, bestSize)
  {
    if BestPicked(list, req, k, bestOff, bestSize) {
      var b :| 0 <= b < k && BestAmong(list, req, k, b) && bestOff == OffsetAt(list, b) && bestSize == SizeAt(list, b);
      BestExtend(list, req, k, b);
      assert 0 <= b < k + 1 && BestAmong(list, req, k + 1, b);
      assert BestPicked(list, req, k + 1, bestOff, bestSize);
    } else {
      assert BestNone(list, req, k) && bestSize == SENTINEL;
      assert !BestCandidate(list, req, k);
      assert BestNone(list, req, k + 1);
    }
  }

  /** When the scan ends, the accumulator determines the outcome. */
  lemma BestScanFinish(list: seq<nat>, req: nat, bestOff: nat, bestSize: nat)
    requires WellFormedList(list)
    requires BestSoFar(list, req, list[0], bestOff, bestSize)
    ensures BestOutcome(list, req, Reported(bestOff))
  {
    if BestPicked(list, req, list[0], bestOff, bestSize) {
      var b :| 0 <= b < list[0] && BestAmong(list, req, list[0], b) && bestOff == OffsetAt(list, b) && bestSize == SizeAt(list, b);
    } else {
      assert BestNone(list, req, list[0]);
    }
  }

  lemma {:induction false} BestScanOutcome(list: seq<nat>, req: nat, k: nat, bestOff: nat, bestSize: nat)
    requires WellFormedList(list) && k <= list[0]
    requires BestSoFar(list, req, k, bestOff, bestSize)
    ensures BestOutcome(list, req, BestScan(list, req, k, bestOff, bestSize))
    decreases list[0] - k
  {
    if k == list[0] {
      BestScanFinish(list, req, bestOff, bestSize);
    } else {
      if SizeAt(list, k) >= req && SizeAt(list, k) < bestSize {
        BestScanTake(list, req, k, bestOff, bestSize);
        BestScanOutcome(list, req, k + 1, OffsetAt(list, k), SizeAt(list, k));
        assert BestScan(list, req, k, bestOff, bestSize) == BestScan(list, req, k + 1, OffsetAt(list, k), SizeAt(list, k));
      } else {
        BestScanSkip(list, req, k, bestOff, bestSize);
        BestScanOutcome(list, req, k + 1, bestOff, bestSize);
        assert BestScan(list, req, k, bestOff, bestSize) == BestScan(list, req, k + 1, bestOff, bestSize);
      }
    }
  }

  // ---------------------------------------------------------------------------
  // Worst fit

  /** Hole k can be picked by worst-fit: it is large enough and larger than the initial size 0. */
  predicate WorstCandidate(list: seq<nat>, req: nat, k: nat)
    requires WellFormedList(list)
  {
    k < list[0] && req <= SizeAt(list, k) && SizeAt(list, k) > 0
  }

  /** Among the first m encoded holes, hole k is the first candidate of largest size. */
  predicate WorstAmong(list: seq<nat>, req: nat, m: nat, k: nat)
    requires WellFormedList(list) && m <= list[0]
  {
    && k < m
    && WorstCandidate(list, req, k)
    && (forall j :: 0 <= j < m && WorstCandidate(list, req, j) ==> SizeAt(list, j) <= SizeAt(list, k))
    && (forall j :: 0 <= j < k && WorstCandidate(list, req, j) ==> SizeAt(list, j) < SizeAt(list, k))
  }

  /** The loop of `worstFit` from encoded hole k on. */
  function WorstScan(list: seq<nat>, req: nat, k: nat, worstOff: nat, worstSize: nat): int
    requires WellFormedList(list) && k <= list[0]
    decreases list[0] - k
  {
    if k == list[0] then
      Reported(worstOff)
    else if SizeAt(list, k) >= req && SizeAt(list, k) > worstSize then
      WorstScan(list, req, k + 1, OffsetAt(list, k), SizeAt(list, k))
    else
      WorstScan(list, req, k + 1, worstOff, worstSize)
  }

  /**
    `worstFit(sizeInWords, list)`: -1 when no non-empty hole of at least
    `req` words exists; otherwise the offset of the first such hole of
    largest size (-1 if that offset is 10000).
   */
  function WorstFit(req: nat, list: seq<nat>): (r: int)
    requires WellFormedList(list)
    ensures WorstOutcome(list, req, r)
  {
    WorstScanOutcome(list, req, 0, SENTINEL, 0);
    WorstScan(list, req, 0, SENTINEL, 0)
  }

  /** No candidate among the first k encoded holes. */
  predicate WorstNone(list: seq<nat>, req: nat, k: nat)
    requires WellFormedList(list) && k <= list[0]
  {
    forall j :: 0 <= j < k ==> !WorstCandidate(list, req, j)
  }

  /** The offset and size are those of the worst candidate among the first k encoded holes. */
  predicate WorstPicked(list: seq<nat>, req: nat, k: nat, off: nat, size: nat)
    requires WellFormedList(list) && k <= list[0]
  {
    exists b :: 0 <= b < k && WorstAmong(list, req, k, b) && off == OffsetAt(list, b) && size == SizeAt(list, b)
  }

  /** The scan's accumulator after the first k holes: nothing picked, or the worst so far. */
  predicate WorstSoFar(list: seq<nat>, req: nat, k: nat, worstOff: nat, worstSize: nat)
    requires WellFormedList(list) && k <= list[0]
  {
    || (worstOff == SENTINEL && worstSize == 0 && WorstNone(list, req, k))
    || WorstPicked(list, req, k, worstOff, worstSize)
  }

  predicate WorstOutcome(list: seq<nat>, req: nat, r: int)
    requires WellFormedList(list)
  {
    || (r == NO_FIT && forall j :: 0 <= j < list[0] ==> !WorstCandidate(list, req, j))
    || (exists b :: 0 <= b < list[0] && WorstAmong(list, req, list[0], b) && r == Reported(OffsetAt(list, b)))
  }

  lemma WorstExtend(list: seq<nat>, req: nat, k: nat, b: nat)
    requires WellFormedList(list) && k < list[0]
    requires WorstAmong(list, req, k, b)
    requires !(WorstCandidate(list, req, k) && SizeAt(list, k) > SizeAt(list, b))
    ensures WorstAmong(list, req, k + 1, b)
  {
  }

  lemma WorstReplace(list: seq<nat>, req: nat, k: nat, b: nat)
    requires WellFormedList(list) && k < list[0]
    requires WorstAmong(list, req, k, b)
    requires WorstCandidate(list, req, k) && SizeAt(list, k) > SizeAt(list, b)
    ensures WorstAmong(list, req, k + 1, k)
  {
  }

  lemma WorstFirst(list: seq<nat>, req: nat, k: nat)
    requires WellFormedList(list) && k < list[0]
    requires WorstNone(list, req, k)
    requires WorstCandidate(list, req, k)
    ensures WorstAmong(list, req, k + 1, k)
  {
  }

  /** A worst-fit step that picks hole k keeps the accumulator describing the holes seen so far. */
  lemma WorstScanTake(list: seq<nat>, req: nat, k: nat, worstOff: nat, worstSize: nat)
    requires WellFormedList(list) && k < list[0]
    requires WorstSoFar(list, req, k, worstOff, worstSize)
    requires SizeAt(list, k) >= req && SizeAt(list, k) > worstSize
    ensures WorstSoFar(list, req, k + 1, OffsetAt(list, k), SizeAt(list, k))
  {
    if WorstPicked(list, req, k, worstOff, worstSize) {
      var b :| 0 <= b < k && WorstAmong(list, req, k, b) && worstOff == OffsetAt(list, b) && worstSize == SizeAt(list, b);
      WorstReplace(list, req, k, b);
    } else {
      assert WorstNone(list, req, k);
      WorstFirst(list, req, k);
    }
    assert 0 <= k < k + 1 && WorstAmong(list, req, k + 1, k);
  }

  /** A worst-fit step that passes over hole k keeps the accumulator describing the holes seen so far. */
  lemma WorstScanSkip(list: seq<nat>, req: nat, k: nat, worstOff: nat, worstSize: nat)
    requires WellFormedList(list) && k < list[0]
    requires WorstSoFar(list, req, k, worstOff, worstSize)
    requires !(SizeAt(list, k) >= req && SizeAt(list, k) > worstSize)
    ensures WorstSoFar(list, req, k + 1, worstOff, worstSize)
  {
    if WorstPicked(list, req, k, worstOff, worstSize) {
      var b :| 0 <= b < k && WorstAmong(list, req, k, b) && worstOff == OffsetAt(list, b) && worstSize == SizeAt(list, b);
      WorstExtend(list, req, k, b);
      assert 0 <= b < k + 1 && WorstAmong(list, req, k + 1, b);
      assert WorstPicked(list, req, k + 1, worstOff, worstSize);
    } else {
      assert WorstNone(list, req, k) && worstSize == 0;
      assert !WorstCandidate(list, req, k);
      assert WorstNone(list, req, k + 1);
    }
  }

  /** When the scan ends, the accumulator determines the outcome. */
  lemma WorstScanFinish(list: seq<nat>, req: nat, worstOff: nat, worstSize: nat)
    requires WellFormedList(list)
    requires WorstSoFar(list, req, list[0], worstOff, worstSize)
    ensures WorstOutcome(list, req, Reported(worstOff))
  {
    if WorstPicked(list, req, list[0], worstOff, worstSize) {
      var b :| 0 <= b < list[0] && WorstAmong(list, req, list[0], b) && worstOff == OffsetAt(list, b) && worstSize == SizeAt(list, b);
    } else {
      assert WorstNone(list, req, list[0]);
    }
  }

  lemma {:induction false} WorstScanOutcome(list: seq<nat>, req: nat, k: nat, worstOff: nat, worstSize: nat)
    requires WellFormedList(list) && k <= list[0]
    requires WorstSoFar(list, req, k, worstOff, worstSize)
    ensures WorstOutcome(list, req, WorstScan(list, req, k, worstOff, worstSize))
    decreases list[0] - k, 1
  {
    if k == list[0] {
      WorstScanFinish(list, req, worstOff, worstSize);
    } else if SizeAt(list, k) >= req && SizeAt(list, k) > worstSize {
      WorstScanOutcomeTake(list, req, k, worstOff, worstSize);
    } else {
      WorstScanOutcomeSkip(list, req, k, worstOff, worstSize);
    }
  }

  /** The scan step that takes hole k as the new worst. */
  lemma {:induction false} WorstScanOutcomeTake(list: seq<nat>, req: nat, k: nat, worstOff: nat, worstSize: nat)
    requires WellFormedList(list) && k < list[0]
    requires WorstSoFar(list, req, k, worstOff, worstSize)
    requires SizeAt(list, k) >= req && SizeAt(list, k) > worstSize
    ensures WorstOutcome(list, req, WorstScan(list, req, k, worstOff, worstSize))
    decreases list[0] - k, 0
  {
    var off, size := OffsetAt(list, k), SizeAt(list, k);
    assert WorstScan(list, req, k, worstOff, worstSize) == WorstScan(list, req, k + 1, off, size);
    WorstScanTake(list, req, k, worstOff, worstSize);
    WorstScanOutcome(list, req, k + 1, off, size);
  }

  /** The scan step that keeps the current worst. */
  lemma {:induction false} WorstScanOutcomeSkip(list: seq<nat>, req: nat, k: nat, worstOff: nat, worstSize: nat)
    requires WellFormedList(list) && k < list[0]
    requires WorstSoFar(list, req, k, worstOff, worstSize)
    requires !(SizeAt(list, k) >= req && SizeAt(list, k) > worstSize)
    ensures WorstOutcome(list, req, WorstScan(list, req, k, worstOff, worstSize))
    decreases list[0] - k, 0
  {
    assert WorstScan(list, req, k, worstOff, worstSize) == WorstScan(list, req, k + 1, worstOff, worstSize);
    WorstScanSkip(list, req, k, worstOff, worstSize);
    WorstScanOutcome(list, req, k + 1, worstOff, worstSize);
  }

  // ---------------------------------------------------------------------------
  // The pluggable strategy

  datatype Strategy = BestFitStrategy | WorstFitStrategy

  /**
    Calls the configured strategy. Whatever it picks is -1 or the offset field
    of an encoded hole whose size field is at least the request.
   */
  function Choose(s: Strategy, req: nat, list: seq<nat>): (r: int)
    requires WellFormedList(list)
    ensures r == NO_FIT || exists k :: 0 <= k < list[0] && r == OffsetAt(list, k) && SizeAt(list, k) >= req
  {
    match s
    case BestFitStrategy => BestFit(req, list)
    case WorstFitStrategy => WorstFit(req, list)
  }

  /** Holes (0,4), (10,2), (20,10) and a 2-word request: best-fit picks 10, worst-fit picks 20. */
  lemma FitExample()
    ensures BestFit(2, GetList([Hole(0, 4), Hole(10, 2), Hole(20, 10)])) == 10
    ensures WorstFit(2, GetList([Hole(0, 4), Hole(10, 2), Hole(20, 10)])) == 20
  {
    var list := GetList([Hole(0, 4), Hole(10, 2), Hole(20, 10)]);
    assert list == [3, 0, 4, 10, 2, 20, 10];
  }

  /** A single free hole of 10000 words or more is invisible to best-fit. */
  lemma BestFitSkipsLargeHole()
    ensures BestFit(1, GetList([Hole(0, 10000)])) == NO_FIT
    ensures WorstFit(1, GetList([Hole(0, 10000)])) == 0
  {
    var list := GetList([Hole(0, 10000)]);
    assert list == [1, 0, 10000];
  }
}
