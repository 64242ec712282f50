/** Change-point segmentation of a signal column, shared by both trade
    simulators.

    The table code numbers the rows with `value_grp`, the cumulative count of
    rows whose signal differs from the row before (row 0 always counts, as it
    is compared with the NaN that `shift(1)` puts in front), drops every row
    carrying the last row's number, and groups the rest by number.  `Grouped`
    states that pipeline; `CompleteSegments` computes the same records in one
    pass that tracks the current signal and the start of its run. */
module Segmentation {

  /** One row of the price table: the columns the simulators read. */
  datatype Bar = Bar(time: int, close: real, signal: int)

  /** One closed run of equal signal, with the columns the groupby gives the
      trade table: type, open_time, open_price, close_time, close_price, length. */
  datatype Segment = Segment(kind: int, openTime: int, openPrice: real,
                             closeTime: int, closePrice: real, length: nat)

  function Signals(bars: seq<Bar>): seq<int>
  {
    seq(|bars|, i requires 0 <= i < |bars| => bars[i].signal)
  }

  /** Number of rows j in 1..i whose signal differs from that of row j - 1. */
  function Changes(signals: seq<int>, i: nat): nat
    requires i < |signals|
  {
    if i == 0 then 0
    else Changes(signals, i - 1) + (if signals[i] != signals[i - 1] then 1 else 0)
  }

  /** `value_grp`: the cumulative sum of the change flags.  Row 0 gets 1 and
      every later row gets its predecessor's number, plus one exactly when the
      signal changes there. */
  function SegmentIds(signals: seq<int>): (ids: seq<nat>)
    ensures |ids| == |signals|
  {
    seq(|signals|, i requires 0 <= i < |signals| => 1 + Changes(signals, i))
  }

  /** Row 0 is numbered 1; a later row has its predecessor's number, plus one
      exactly when its signal differs from its predecessor's. */
  lemma IdsStep(signals: seq<int>, i: nat)
    requires i < |signals|
    ensures i == 0 ==> SegmentIds(signals)[i] == 1
    ensures i > 0 ==>
              SegmentIds(signals)[i] ==
              SegmentIds(signals)[i - 1] + (if signals[i] != signals[i - 1] then 1 else 0)
  {
  }

  function Ids(bars: seq<Bar>): seq<nat>
  {
    SegmentIds(Signals(bars))
  }

  /** The number of the last row: its segment is the open trade that is dropped. */
  function LastId(bars: seq<Bar>): nat
    requires |bars| > 0
  {
    Ids(bars)[|bars| - 1]
  }

  /** Segment numbers never decrease along the rows. */
  lemma {:induction false} IdsMonotone(signals: seq<int>, i: nat, j: nat)
    requires i <= j < |signals|
    ensures SegmentIds(signals)[i] <= SegmentIds(signals)[j]
  {
    if i < j {
      IdsMonotone(signals, i, j - 1);
      IdsStep(signals, j);
    }
  }

  /** Two rows share a segment number exactly when the signal is the same on
      every row from the first to the second: segments are maximal runs. */
  lemma {:induction false} SameIdIffSteadySignal(signals: seq<int>, i: nat, j: nat)
    requires i <= j < |signals|
    ensures SegmentIds(signals)[i] == SegmentIds(signals)[j] <==>
            forall k :: i <= k <= j ==> signals[k] == signals[i]
  {
    var ids := SegmentIds(signals);
    if i < j {
      SameIdIffSteadySignal(signals, i, j - 1);
      IdsMonotone(signals, i, j - 1);
      IdsStep(signals, j);
      if ids[i] == ids[j] {
        assert ids[j - 1] == ids[i];
        assert signals[j - 1] == signals[i];
        assert forall k :: i <= k <= j ==> signals[k] == signals[i];
      } else if ids[j - 1] != ids[i] {
        var k :| i <= k <= j - 1 && signals[k] != signals[i];
      } else {
        assert signals[j - 1] == signals[i];
        assert signals[j] != signals[i];
      }
    }
  }

  /** Every number from 1 to that of row j is the number of some row. */
  lemma {:induction false} IdsCover(signals: seq<int>, j: nat, k: nat)
    requires j < |signals| && 1 <= k <= SegmentIds(signals)[j]
    ensures k in SegmentIds(signals)
  {
    IdsStep(signals, j);
    if k < SegmentIds(signals)[j] {
      IdsCover(signals, j - 1, k);
    }
  }

  /** Position of the first row numbered k: the row `groupby(...).first()` reads. */
  function FirstIndex(ids: seq<nat>, k: nat): (i: nat)
    requires k in ids
    ensures i < |ids| && ids[i] == k
    ensures forall j :: 0 <= j < i ==> ids[j] != k
  {
    if ids[0] == k then 0 else 1 + FirstIndex(ids[1..], k)
  }

  /** Position of the last row numbered k: the row `groupby(...).last()` reads. */
  function LastIndex(ids: seq<nat>, k: nat): (i: nat)
    requires k in ids
    ensures i < |ids| && ids[i] == k
    ensures forall j :: i < j < |ids| ==> ids[j] != k
  {
    if ids[|ids| - 1] == k then |ids| - 1 else LastIndex(ids[..|ids| - 1], k)
  }

  /** The trade record of group k, as the groupby builds it: type, open time
      and open price from the group's first row; close time and close price
      from the shifted columns of its last row, that is from the row after it;
      the length is the group's size. */
  function GroupRecord(bars: seq<Bar>, k: nat): Segment
    requires |bars| > 0 && 1 <= k < LastId(bars)
  {
    var ids := Ids(bars);
    IdsCover(Signals(bars), |bars| - 1, k);
    var first := FirstIndex(ids, k);
    var last := LastIndex(ids, k);
    Segment(bars[first].signal, bars[first].time, bars[first].close,
            bars[last + 1].time, bars[last + 1].close, multiset(ids)[k])
  }

  /** The trade table before pricing: one record per group left after the rows
      of the last group are removed, in ascending group order.  There is one
      record per signal change. */
  function Grouped(bars: seq<Bar>): (raws: seq<Segment>)
    requires |bars| > 0
    ensures |raws| == Changes(Signals(bars), |bars| - 1)
  {
    seq(LastId(bars) - 1, j requires 0 <= j < LastId(bars) - 1 => GroupRecord(bars, j + 1))
  }

  /** Rows s..e are a maximal run of one signal, and some row follows them. */
  predicate ClosedRun(signals: seq<int>, s: nat, e: nat)
  {
    s <= e && e + 1 < |signals| &&
    (forall k :: s <= k <= e ==> signals[k] == signals[s]) &&
    (s == 0 || signals[s - 1] != signals[s]) &&
    signals[e + 1] != signals[e]
  }

  /** The record of a trade entered on row s and exited on row e + 1. */
  function RunRecord(bars: seq<Bar>, s: nat, e: nat): Segment
    requires s <= e && e + 1 < |bars|
  {
    Segment(bars[s].signal, bars[s].time, bars[s].close,
            bars[e + 1].time, bars[e + 1].close, e - s + 1)
  }

  /** A sequence of copies of k holds k once per entry. */
  lemma {:induction false} CountOfConstant(xs: seq<nat>, k: nat)
    requires forall i :: 0 <= i < |xs| ==> xs[i] == k
    ensures multiset(xs)[k] == |xs|
  {
    if xs != [] {
      assert xs == [xs[0]] + xs[1..];
      CountOfConstant(xs[1..], k);
    }
  }

  /** The numbers of the rows around a closed run: all rows before it have
      smaller numbers, all its rows share one, the row after it has the next
      one, and that one is at most the last row's. */
  lemma RunNumbers(signals: seq<int>, s: nat, e: nat)
    requires ClosedRun(signals, s, e)
    ensures 1 <= SegmentIds(signals)[s]
    ensures SegmentIds(signals)[e + 1] == SegmentIds(signals)[s] + 1
    ensures SegmentIds(signals)[s] < SegmentIds(signals)[|signals| - 1]
    ensures forall x :: 0 <= x < s ==> SegmentIds(signals)[x] < SegmentIds(signals)[s]
    ensures forall x :: s <= x <= e ==> SegmentIds(signals)[x] == SegmentIds(signals)[s]
    ensures forall x :: e < x < |signals| ==> SegmentIds(signals)[x] > SegmentIds(signals)[s]
  {
    var ids := SegmentIds(signals);
    IdsStep(signals, s);
    IdsStep(signals, e + 1);
    SameIdIffSteadySignal(signals, s, e);
    IdsMonotone(signals, e + 1, |signals| - 1);
    forall x | 0 <= x < s
      ensures ids[x] < ids[s]
    {
      IdsMonotone(signals, x, s - 1);
    }
    forall x | s <= x <= e
      ensures ids[x] == ids[s]
    {
      SameIdIffSteadySignal(signals, s, x);
    }
    forall x | e < x < |signals|
      ensures ids[x] > ids[s]
    {
      IdsMonotone(signals, e + 1, x);
    }
  }

  /** When the entries equal to k are exactly those at positions s..e, the
      group of k starts at s, ends at e and has e - s + 1 rows. */
  lemma GroupSpan(ids: seq<nat>, k: nat, s: nat, e: nat)
    requires s <= e < |ids|
    requires forall x :: 0 <= x < |ids| ==> (ids[x] == k <==> s <= x <= e)
    ensures k in ids
    ensures FirstIndex(ids, k) == s && LastIndex(ids, k) == e
    ensures multiset(ids)[k] == e - s + 1
  {
    assert ids[s] == k;
    SpanCount(ids, k, s, e);
  }

  /** The entries equal to k at exactly positions s..e count e - s + 1. */
  lemma SpanCount(ids: seq<nat>, k: nat, s: nat, e: nat)
    requires s <= e < |ids|
    requires forall x :: 0 <= x < |ids| ==> (ids[x] == k <==> s <= x <= e)
    ensures multiset(ids)[k] == e - s + 1
  {
    assert ids == ids[..s] + ids[s..e + 1] + ids[e + 1..];
    CountOfConstant(ids[s..e + 1], k);
    assert k !in ids[..s];
    assert k !in ids[e + 1..];
  }

  /** Every closed maximal run is the group of its segment number, with the
      entry on its first row and the exit on the row after it. */
  lemma RunIsGroup(bars: seq<Bar>, s: nat, e: nat)
    requires ClosedRun(Signals(bars), s, e)
    ensures 1 <= Ids(bars)[s] < LastId(bars)
    ensures Ids(bars)[e + 1] == Ids(bars)[s] + 1
    ensures GroupRecord(bars, Ids(bars)[s]) == RunRecord(bars, s, e)
  {
    var ids := Ids(bars);
    RunNumbers(Signals(bars), s, e);
    GroupSpan(ids, ids[s], s, e);
  }

  /** So every closed maximal run becomes the trade record at position
      (its segment number - 1) of the grouped table. */
  lemma ClosedRunIsTrade(bars: seq<Bar>, s: nat, e: nat)
    requires ClosedRun(Signals(bars), s, e)
    ensures 1 <= Ids(bars)[s] <= |Grouped(bars)|
    ensures Grouped(bars)[Ids(bars)[s] - 1] == RunRecord(bars, s, e)
  {
    RunIsGroup(bars, s, e);
  }

  /** The rows numbered k, for any k below the last row's number, form a
      closed maximal run. */
  lemma GroupIsClosedRun(signals: seq<int>, k: nat)
    requires |signals| > 0 && k in SegmentIds(signals)
    requires k < SegmentIds(signals)[|signals| - 1]
    ensures ClosedRun(signals, FirstIndex(SegmentIds(signals), k), LastIndex(SegmentIds(signals), k))
  {
    var ids := SegmentIds(signals);
    var s, e := FirstIndex(ids, k), LastIndex(ids, k);
    assert s <= e;
    assert e + 1 < |signals|;
    SameIdIffSteadySignal(signals, s, e);
    IdsStep(signals, e + 1);
    if s > 0 {
      IdsStep(signals, s);
    }
  }

  /** Conversely, every trade record comes from a closed maximal run: the
      rows of its group, from the first to the last. */
  lemma TradeIsClosedRun(bars: seq<Bar>, j: nat)
    requires |bars| > 0 && j < |Grouped(bars)|
    ensures j + 1 in Ids(bars)
    ensures ClosedRun(Signals(bars), FirstIndex(Ids(bars), j + 1), LastIndex(Ids(bars), j + 1))
    ensures Grouped(bars)[j] == RunRecord(bars, FirstIndex(Ids(bars), j + 1), LastIndex(Ids(bars), j + 1))
  {
    var signals, ids, k := Signals(bars), Ids(bars), j + 1;
    IdsCover(signals, |bars| - 1, k);
    GroupIsClosedRun(signals, k);
    var s, e := FirstIndex(ids, k), LastIndex(ids, k);
    RunIsGroup(bars, s, e);
  }

  /** The first entry equal to k is the one at i when none before i is. */
  lemma FirstIndexAt(ids: seq<nat>, k: nat, i: nat)
    requires i < |ids| && ids[i] == k
    requires forall x :: 0 <= x < i ==> ids[x] != k
    ensures k in ids && FirstIndex(ids, k) == i
  {
  }

  /** The row after the last row of group k is the first row of group k + 1. */
  lemma NextGroupStarts(signals: seq<int>, k: nat)
    requires |signals| > 0 && 1 <= k && k + 1 < SegmentIds(signals)[|signals| - 1]
    ensures k in SegmentIds(signals) && k + 1 in SegmentIds(signals)
    ensures FirstIndex(SegmentIds(signals), k + 1) == LastIndex(SegmentIds(signals), k) + 1
  {
    var ids := SegmentIds(signals);
    IdsCover(signals, |signals| - 1, k);
    GroupIsClosedRun(signals, k);
    var s, e := FirstIndex(ids, k), LastIndex(ids, k);
    RunNumbers(signals, s, e);
    FirstIndexAt(ids, k + 1, e + 1);
  }

  /** Record j of the grouped table opens on the first row of group j + 1
      and closes on the row after its last. */
  lemma GroupedEnds(bars: seq<Bar>, j: nat)
    requires |bars| > 0 && j < |Grouped(bars)|
    ensures j + 1 in Ids(bars)
    ensures var first := FirstIndex(Ids(bars), j + 1);
            Grouped(bars)[j].openTime == bars[first].time &&
            Grouped(bars)[j].openPrice == bars[first].close
    ensures var last := LastIndex(Ids(bars), j + 1);
            last + 1 < |bars| &&
            Grouped(bars)[j].closeTime == bars[last + 1].time &&
            Grouped(bars)[j].closePrice == bars[last + 1].close
  {
    assert Grouped(bars)[j] == GroupRecord(bars, j + 1);
  }

  /** Each trade is exited on the row on which the next trade is entered. */
  lemma ConsecutiveTrades(bars: seq<Bar>, j: nat)
    requires |bars| > 0 && j + 1 < |Grouped(bars)|
    ensures Grouped(bars)[j].closeTime == Grouped(bars)[j + 1].openTime
    ensures Grouped(bars)[j].closePrice == Grouped(bars)[j + 1].openPrice
  {
    NextGroupStarts(Signals(bars), j + 1);
    GroupedEnds(bars, j);
    GroupedEnds(bars, j + 1);
  }

  /** A row is dropped with the last row's segment exactly when the signal
      stays the same from it to the end of the table. */
  lemma FinalRunDropped(bars: seq<Bar>, i: nat)
    requires i < |bars|
    ensures Ids(bars)[i] == LastId(bars) <==>
            forall k :: i <= k < |bars| ==> bars[k].signal == bars[i].signal
  {
    var signals := Signals(bars);
    SameIdIffSteadySignal(signals, i, |bars| - 1);
    assert forall k :: i <= k < |bars| ==> signals[k] == bars[k].signal;
  }

  /** The state of the single pass once rows 0..i-1 are read: rows start..i-1
      are the current run, a change of signal opened it, and `raws` holds the
      records of all groups before it. */
  ghost predicate Scanned(bars: seq<Bar>, raws: seq<Segment>, start: nat, i: nat)
  {
    start < i <= |bars| &&
    (forall k :: start <= k < i ==> bars[k].signal == bars[start].signal) &&
    (start == 0 || bars[start - 1].signal != bars[start].signal) &&
    1 <= Ids(bars)[start] <= LastId(bars) &&
    |raws| == Ids(bars)[start] - 1 &&
    forall j :: 0 <= j < |raws| ==> raws[j] == GroupRecord(bars, j + 1)
  }

  lemma ScanBegins(bars: seq<Bar>)
    requires |bars| > 0
    ensures Scanned(bars, [], 0, 1)
  {
    IdsStep(Signals(bars), 0);
    IdsMonotone(Signals(bars), 0, |bars| - 1);
  }

  /** A row with the current signal extends the current run. */
  lemma ScanExtends(bars: seq<Bar>, raws: seq<Segment>, start: nat, i: nat)
    requires Scanned(bars, raws, start, i) && i < |bars|
    requires bars[i].signal == bars[start].signal
    ensures Scanned(bars, raws, start, i + 1)
  {
  }

  /** Appending the record of the next group keeps the records in group order. */
  lemma AppendRecord(bars: seq<Bar>, raws: seq<Segment>, r: Segment)
    requires |bars| > 0 && |raws| + 1 < LastId(bars)
    requires forall j :: 0 <= j < |raws| ==> raws[j] == GroupRecord(bars, j + 1)
    requires r == GroupRecord(bars, |raws| + 1)
    ensures forall j :: 0 <= j < |raws| + 1 ==> (raws + [r])[j] == GroupRecord(bars, j + 1)
  {
  }

  /** The run a change of signal closes is the next group, and the row
      that changed opens the group after it. */
  lemma ClosingRun(bars: seq<Bar>, raws: seq<Segment>, start: nat, i: nat)
    requires Scanned(bars, raws, start, i) && i < |bars|
    requires bars[i].signal != bars[start].signal
    ensures |raws| + 1 < LastId(bars)
    ensures Ids(bars)[i] == |raws| + 2
    ensures RunRecord(bars, start, i - 1) == GroupRecord(bars, |raws| + 1)
  {
    var signals := Signals(bars);
    assert ClosedRun(signals, start, i - 1);
    RunIsGroup(bars, start, i - 1);
  }

  /** A row with another signal closes the current run, whose record is the
      next group's, and opens a run of its own. */
  lemma ScanCloses(bars: seq<Bar>, raws: seq<Segment>, start: nat, i: nat)
    requires Scanned(bars, raws, start, i) && i < |bars|
    requires bars[i].signal != bars[start].signal
    ensures Scanned(bars, raws + [RunRecord(bars, start, i - 1)], i, i + 1)
  {
    ClosingRun(bars, raws, start, i);
    IdsMonotone(Signals(bars), i, |bars| - 1);
    AppendRecord(bars, raws, RunRecord(bars, start, i - 1));
  }

  /** Once every row is read, the open run is the last row's segment and
      `raws` is the whole grouped table. */
  lemma ScanEnds(bars: seq<Bar>, raws: seq<Segment>, start: nat)
    requires Scanned(bars, raws, start, |bars|)
    ensures raws == Grouped(bars)
  {
    var signals := Signals(bars);
    assert forall k :: start <= k <= |bars| - 1 ==> signals[k] == signals[start];
    SameIdIffSteadySignal(signals, start, |bars| - 1);
    assert |raws| == LastId(bars) - 1;
    assert forall j :: 0 <= j < |raws| ==> raws[j] == Grouped(bars)[j];
  }

  /** One pass over the rows: the current signal and the first row of its run
      are tracked, and a record is appended whenever the signal changes.  The
      run still open at the end is never recorded. */
  method CompleteSegments(bars: seq<Bar>) returns (raws: seq<Segment>)
    requires |bars| > 0
    ensures raws == Grouped(bars)
  {
    raws := [];
    var current := bars[0].signal;
    var start := 0;
    ScanBegins(bars);
    for i := 1 to |bars|
      invariant Scanned(bars, raws, start, i)
      invariant current == bars[start].signal
    {
      if bars[i].signal != current {
        ScanCloses(bars, raws, start, i);
        raws := raws + [Segment(current, bars[start].time, bars[start].close,
                                bars[i].time, bars[i].close, i - start)];
        current := bars[i].signal;
        start := i;
      } else {
        ScanExtends(bars, raws, start, i);
      }
    }
    ScanEnds(bars, raws, start);
  }
}
