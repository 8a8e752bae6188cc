/**
  The life of one table's rows. Rows are accepted in order; each flush takes a contiguous run of them; rows
  that no flush took and that are no longer buffered were dropped.
 */
module Ledger {
  import opened Prelude
  import opened Sample
  import Queue

  datatype Fate = Buffered | InFlight | Shipped | Failed | Dropped

  /** One flushed batch: rows lo..hi of the accepted ones. */
  datatype Snap = Snap(lo: nat, hi: nat, fate: Fate)

  /** `start` is where the live buffer begins. */
  datatype History = History(accepted: seq<Any>, start: nat, snaps: seq<Snap>)

  const Blank: History := History([], 0, [])

  /** What the running system can show for a table. */
  datatype Lane = Lane(
    buffer: seq<Any>, inFlight: Option<seq<Any>>, delivered: seq<seq<Any>>, lost: seq<seq<Any>>, drops: nat)

  // ---- The four things that can happen to a table

  function Accept(h: History, rows: seq<Any>, q: nat): History
  {
    var accepted := h.accepted + rows;
    History(accepted, if |accepted| - h.start > q then |accepted| - q else h.start, h.snaps)
  }

  function Take(h: History): History
  {
    if h.start >= |h.accepted| then h
    else History(h.accepted, |h.accepted|, h.snaps + [Snap(h.start, |h.accepted|, InFlight)])
  }

  function Settle(h: History, ok: bool): History
  {
    if h.snaps == [] then h
    else h.(snaps := Front(h.snaps) + [Last(h.snaps).(fate := if ok then Shipped else Failed)])
  }

  // ---- The invariant

  /** Non-empty, disjoint runs, in order, all before `end`. */
  ghost predicate Ordered(snaps: seq<Snap>, end: nat)
  {
    snaps == [] || (var s := Last(snaps); s.lo < s.hi <= end && Ordered(Front(snaps), s.lo))
  }

  /** Every run but possibly the last has been settled. */
  ghost predicate SettledBefore(snaps: seq<Snap>)
  {
    forall k :: 0 <= k < |snaps| - 1 ==> snaps[k].fate in {Shipped, Failed}
  }

  ghost function Covered(snaps: seq<Snap>): int
  {
    if snaps == [] then 0 else Covered(Front(snaps)) + Last(snaps).hi - Last(snaps).lo
  }

  /** The batches of one fate, oldest first. */
  ghost function Batches(rows: seq<Any>, snaps: seq<Snap>, fate: Fate): seq<seq<Any>>
    requires Ordered(snaps, |rows|)
  {
    if snaps == [] then []
    else
      var s := Last(snaps);
      OrderedWider(Front(snaps), s.lo, |rows|);
      var older := Batches(rows, Front(snaps), fate);
      if s.fate == fate then older + [rows[s.lo..s.hi]] else older
  }

  lemma OrderedWider(snaps: seq<Snap>, end: nat, wider: nat)
    requires Ordered(snaps, end) && end <= wider
    ensures Ordered(snaps, wider)
  {
  }

  ghost predicate Tracks(h: History, lane: Lane, q: nat)
  {
    && h.start <= |h.accepted|
    && Ordered(h.snaps, h.start)
    && SettledBefore(h.snaps)
    && lane.buffer == h.accepted[h.start..]
    && |lane.buffer| <= q
    && (match lane.inFlight
        case None => h.snaps == [] || Last(h.snaps).fate in {Shipped, Failed}
        case Some(rows) =>
          h.snaps != [] && var s := Last(h.snaps); s.fate == InFlight && rows == h.accepted[s.lo..s.hi])
    && OrderedIn(h)
    && lane.delivered == Batches(h.accepted, h.snaps, Shipped)
    && lane.lost == Batches(h.accepted, h.snaps, Failed)
    && lane.drops == h.start - Covered(h.snaps)
  }

  ghost predicate OrderedIn(h: History)
  {
    Ordered(h.snaps, |h.accepted|)
  }

  lemma BlankTracks(q: nat)
    ensures Tracks(Blank, Lane([], None, [], [], 0), q)
  {
  }

  lemma {:induction false} BatchesGrow(rows: seq<Any>, more: seq<Any>, snaps: seq<Snap>, fate: Fate)
    requires Ordered(snaps, |rows|)
    ensures Ordered(snaps, |rows + more|)
    ensures Batches(rows + more, snaps, fate) == Batches(rows, snaps, fate)
  {
    OrderedWider(snaps, |rows|, |rows + more|);
    if snaps != [] {
      var s := Last(snaps);
      OrderedWider(Front(snaps), s.lo, |rows|);
      BatchesGrow(rows, more, Front(snaps), fate);
      assert (rows + more)[s.lo..s.hi] == rows[s.lo..s.hi];
    }
  }

  lemma AcceptTracks(h: History, lane: Lane, rows: seq<Any>, q: nat)
    requires Tracks(h, lane, q)
    ensures Tracks(Accept(h, rows, q),
                   lane.(buffer := Queue.Newest(lane.buffer + rows, q),
                         drops := lane.drops + Queue.Overflow(|lane.buffer|, |rows|, q)), q)
  {
    var h' := Accept(h, rows, q);
    OrderedWider(h.snaps, h.start, h'.start);
    BatchesGrow(h.accepted, rows, h.snaps, Shipped);
    BatchesGrow(h.accepted, rows, h.snaps, Failed);
    NewestIsSuffix(h.accepted, h.start, rows, q);
    if lane.inFlight.Some? {
      var s := Last(h.snaps);
      assert h'.accepted[s.lo..s.hi] == h.accepted[s.lo..s.hi];
    }
  }

  lemma NewestIsSuffix(accepted: seq<Any>, start: nat, rows: seq<Any>, q: nat)
    requires start <= |accepted|
    ensures var n := |accepted| + |rows|;
            Queue.Newest(accepted[start..] + rows, q)
            == (accepted + rows)[if n - start > q then n - q else start..]
  {
    assert accepted[start..] + rows == (accepted + rows)[start..];
  }

  lemma TakeTracks(h: History, lane: Lane, q: nat)
    requires Tracks(h, lane, q) && lane.inFlight == None
    ensures Tracks(Take(h), lane.(buffer := [], inFlight := if lane.buffer == [] then None else Some(lane.buffer)), q)
  {
    if lane.buffer != [] {
      var h' := Take(h);
      assert Front(h'.snaps) == h.snaps;
    }
  }

  lemma SettleTracks(h: History, lane: Lane, ok: bool, q: nat)
    requires Tracks(h, lane, q) && lane.inFlight.Some?
    ensures Tracks(Settle(h, ok),
                   if ok then lane.(inFlight := None, delivered := lane.delivered + [lane.inFlight.value])
                   else lane.(inFlight := None, lost := lane.lost + [lane.inFlight.value]), q)
  {
    var h' := Settle(h, ok);
    assert Front(h'.snaps) == Front(h.snaps);
  }

  // ---- What the invariant says about rows

  function FateAmong(snaps: seq<Snap>, i: nat): Fate
  {
    if snaps == [] || i >= Last(snaps).hi then Dropped
    else if i >= Last(snaps).lo then Last(snaps).fate
    else FateAmong(Front(snaps), i)
  }

  /** The fate of the i-th accepted row. */
  function FateOf(h: History, i: nat): Fate
  {
    if i >= h.start then Buffered else FateAmong(h.snaps, i)
  }

  /** The rows among the first n accepted ones that met this fate, in order of acceptance. */
  ghost function RowsWith(h: History, fate: Fate, n: nat): seq<Any>
    requires n <= |h.accepted|
  {
    if n == 0 then []
    else if FateOf(h, n - 1) == fate then RowsWith(h, fate, n - 1) + [h.accepted[n - 1]]
    else RowsWith(h, fate, n - 1)
  }

  /** Over a stretch of rows with one fate, RowsWith takes the whole stretch or none of it. */
  lemma {:induction false} RowsWithStretch(h: History, fate: Fate, lo: nat, hi: nat, same: Fate)
    requires lo <= hi <= |h.accepted|
    requires forall i :: lo <= i < hi ==> FateOf(h, i) == same
    ensures RowsWith(h, fate, hi)
            == if fate == same then RowsWith(h, fate, lo) + h.accepted[lo..hi] else RowsWith(h, fate, lo)
    decreases hi
  {
    if lo < hi {
      RowsWithStretch(h, fate, lo, hi - 1, same);
      assert h.accepted[lo..hi] == h.accepted[lo..hi - 1] + [h.accepted[hi - 1]];
    }
  }

  lemma FlatOneMore(batches: seq<seq<Any>>, batch: seq<Any>)
    ensures Flat(batches + [batch]) == Flat(batches) + batch
  {
    assert Front(batches + [batch]) == batches;
  }

  /** The rows of a flushed fate among the first n, read off the batches instead. */
  lemma {:induction false} RowsWithBatches(h: History, n: nat, fate: Fate, snaps: seq<Snap>)
    requires n <= h.start <= |h.accepted| && Ordered(snaps, n)
    requires forall i :: 0 <= i < n ==> FateOf(h, i) == FateAmong(snaps, i)
    requires fate in {InFlight, Shipped, Failed}
    ensures Ordered(snaps, |h.accepted|)
    ensures RowsWith(h, fate, n) == Flat(Batches(h.accepted, snaps, fate))
    decreases |snaps|
  {
    OrderedWider(snaps, n, |h.accepted|);
    if snaps == [] {
      RowsWithStretch(h, fate, 0, n, Dropped);
    } else {
      var s := Last(snaps);
      RowsWithBatches(h, s.lo, fate, Front(snaps));
      RowsWithStretch(h, fate, s.lo, s.hi, s.fate);
      RowsWithStretch(h, fate, s.hi, n, Dropped);
      FlatOneMore(Batches(h.accepted, Front(snaps), fate), h.accepted[s.lo..s.hi]);
    }
  }

  /** The rows before the buffer that no batch covers were dropped. */
  lemma {:induction false} DroppedAreGaps(h: History, n: nat, snaps: seq<Snap>)
    requires n <= h.start <= |h.accepted| && Ordered(snaps, n)
    requires forall i :: 0 <= i < n ==> FateOf(h, i) == FateAmong(snaps, i)
    requires forall k :: 0 <= k < |snaps| ==> snaps[k].fate != Dropped
    ensures |RowsWith(h, Dropped, n)| == n - Covered(snaps)
    decreases |snaps|
  {
    if snaps == [] {
      RowsWithStretch(h, Dropped, 0, n, Dropped);
    } else {
      var s := Last(snaps);
      DroppedAreGaps(h, s.lo, Front(snaps));
      RowsWithStretch(h, Dropped, s.lo, s.hi, s.fate);
      RowsWithStretch(h, Dropped, s.hi, n, Dropped);
    }
  }

  lemma {:induction false} NoneWith(h: History, fate: Fate, n: nat)
    requires n <= |h.accepted| && forall i :: 0 <= i < n ==> FateOf(h, i) != fate
    ensures RowsWith(h, fate, n) == []
  {
    if n != 0 {
      NoneWith(h, fate, n - 1);
    }
  }

  lemma {:induction false} FateAmongIs(snaps: seq<Snap>, i: nat)
    ensures FateAmong(snaps, i) == Dropped
            || exists k :: 0 <= k < |snaps| && snaps[k].lo <= i < snaps[k].hi && FateAmong(snaps, i) == snaps[k].fate
  {
    if snaps != [] && i < Last(snaps).lo {
      FateAmongIs(Front(snaps), i);
    }
  }

  /**
    Every accepted row has exactly one fate, and each place a row can be seen holds exactly the rows with that
    fate, in the order they were accepted: the buffer, the batch in flight, the batches delivered and the
    batches lost. The rows that are nowhere are as many as the drop counter says.
   */
  lemma RowsAccountedFor(h: History, lane: Lane, q: nat)
    requires Tracks(h, lane, q)
    ensures var all := |h.accepted|;
            && RowsWith(h, Buffered, all) == lane.buffer
            && RowsWith(h, InFlight, all) == (if lane.inFlight.Some? then lane.inFlight.value else [])
            && RowsWith(h, Shipped, all) == Flat(lane.delivered)
            && RowsWith(h, Failed, all) == Flat(lane.lost)
            && |RowsWith(h, Dropped, all)| == lane.drops
  {
    BufferedRows(h, lane, q);
    RowsWithTail(h, InFlight);
    RowsWithTail(h, Shipped);
    RowsWithTail(h, Failed);
    RowsWithTail(h, Dropped);
    FlushedRows(h, lane, q);
    DroppedAreGaps(h, h.start, h.snaps);
  }

  lemma BufferedRows(h: History, lane: Lane, q: nat)
    requires Tracks(h, lane, q)
    ensures RowsWith(h, Buffered, |h.accepted|) == lane.buffer
  {
    RowsWithTail(h, Buffered);
    forall i | 0 <= i < h.start
      ensures FateOf(h, i) != Buffered
    {
      FateAmongIs(h.snaps, i);
    }
    NoneWith(h, Buffered, h.start);
  }

  lemma RowsWithTail(h: History, fate: Fate)
    requires h.start <= |h.accepted|
    ensures RowsWith(h, fate, |h.accepted|)
            == RowsWith(h, fate, h.start) + if fate == Buffered then h.accepted[h.start..] else []
  {
    RowsWithStretch(h, fate, h.start, |h.accepted|, Buffered);
  }

  lemma FlushedRows(h: History, lane: Lane, q: nat)
    requires Tracks(h, lane, q)
    ensures RowsWith(h, InFlight, h.start) == if lane.inFlight.Some? then lane.inFlight.value else []
    ensures RowsWith(h, Shipped, h.start) == Flat(lane.delivered)
    ensures RowsWith(h, Failed, h.start) == Flat(lane.lost)
  {
    RowsWithBatches(h, h.start, Shipped, h.snaps);
    RowsWithBatches(h, h.start, Failed, h.snaps);
    RowsWithBatches(h, h.start, InFlight, h.snaps);
    OneInFlight(h, lane, q);
  }

  /** At most one batch is in flight, and it is the last one taken. */
  lemma {:induction false} OneInFlight(h: History, lane: Lane, q: nat)
    requires Tracks(h, lane, q)
    ensures Flat(Batches(h.accepted, h.snaps, InFlight))
            == if lane.inFlight.Some? then lane.inFlight.value else []
  {
    if lane.inFlight.Some? {
      OrderedWider(Front(h.snaps), Last(h.snaps).lo, |h.accepted|);
      NoBatches(h.accepted, Front(h.snaps), InFlight);
      assert Front([lane.inFlight.value]) == [];
    } else {
      NoBatches(h.accepted, h.snaps, InFlight);
    }
  }

  lemma {:induction false} NoBatches(rows: seq<Any>, snaps: seq<Snap>, fate: Fate)
    requires Ordered(snaps, |rows|) && forall k :: 0 <= k < |snaps| ==> snaps[k].fate != fate
    ensures Batches(rows, snaps, fate) == []
  {
    if snaps != [] {
      OrderedWider(Front(snaps), Last(snaps).lo, |rows|);
      NoBatches(rows, Front(snaps), fate);
    }
  }

  /** How often a row occurs among the first n accepted ones with this fate. */
  ghost function CountWith(h: History, fate: Fate, n: nat, row: Any): nat
    requires n <= |h.accepted|
  {
    if n == 0 then 0
    else CountWith(h, fate, n - 1, row) + if FateOf(h, n - 1) == fate && h.accepted[n - 1] == row then 1 else 0
  }

  lemma {:induction false} CountWithCountsRows(h: History, fate: Fate, n: nat, row: Any)
    requires n <= |h.accepted|
    ensures CountWith(h, fate, n, row) == multiset(RowsWith(h, fate, n))[row]
  {
    if n != 0 {
      CountWithCountsRows(h, fate, n - 1, row);
    }
  }

  /** How often a row occurs among the first n accepted ones, fate by fate. */
  ghost function CountByFate(h: History, n: nat, row: Any): nat
    requires n <= |h.accepted|
  {
    CountWith(h, Buffered, n, row) + CountWith(h, InFlight, n, row) + CountWith(h, Shipped, n, row)
    + CountWith(h, Failed, n, row) + CountWith(h, Dropped, n, row)
  }

  /** How often a row occurs among the first n of a sequence. */
  ghost function Occurs(rows: seq<Any>, n: nat, row: Any): nat
    requires n <= |rows|
  {
    if n == 0 then 0 else Occurs(rows, n - 1, row) + if rows[n - 1] == row then 1 else 0
  }

  /** Nothing is lost unaccounted for and nothing is counted twice. */
  lemma {:induction false} RowsConserved(h: History, n: nat, row: Any)
    requires n <= |h.accepted|
    ensures Occurs(h.accepted, n, row) == CountByFate(h, n, row)
  {
    if n != 0 {
      RowsConserved(h, n - 1, row);
    }
  }

  /** The batches lie one after the other among the accepted rows, and the live buffer is the tail behind them all. */
  lemma {:induction false} BatchesInOrder(snaps: seq<Snap>, end: nat, j: nat, k: nat)
    requires Ordered(snaps, end) && j <= k < |snaps|
    ensures snaps[j].lo < snaps[j].hi <= end
    ensures j < k ==> snaps[j].hi <= snaps[k].lo
    decreases |snaps|
  {
    var s := Last(snaps);
    if k < |snaps| - 1 {
      BatchesInOrder(Front(snaps), s.lo, j, k);
    } else if j < k {
      BatchesInOrder(Front(snaps), s.lo, j, j);
    }
  }

  /** The ways a row's fate may change in one step; shipped, failed and dropped are final. */
  predicate MayBecome(before: Fate, after: Fate)
  {
    || before == after
    || (before == Buffered && after in {Dropped, InFlight})
    || (before == InFlight && after in {Shipped, Failed})
  }

  lemma AcceptMovesFates(h: History, rows: seq<Any>, q: nat, i: nat)
    requires Ordered(h.snaps, h.start) && i < |h.accepted|
    ensures MayBecome(FateOf(h, i), FateOf(Accept(h, rows, q), i))
    ensures Accept(h, rows, q).accepted[..|h.accepted|] == h.accepted
  {
  }

  lemma TakeMovesFates(h: History, i: nat)
    requires Ordered(h.snaps, h.start) && i < |h.accepted|
    ensures MayBecome(FateOf(h, i), FateOf(Take(h), i))
    ensures h.start <= i ==> FateOf(Take(h), i) == InFlight
  {
    if h.start < |h.accepted| {
      assert Front(Take(h).snaps) == h.snaps;
    }
  }

  lemma SettleMovesFates(h: History, ok: bool, i: nat)
    requires i < |h.accepted| && Ordered(h.snaps, h.start)
    requires h.snaps != [] && Last(h.snaps).fate == InFlight
    ensures MayBecome(FateOf(h, i), FateOf(Settle(h, ok), i))
    ensures SettledBefore(h.snaps) ==> FateOf(Settle(h, ok), i) != InFlight
  {
    assert Front(Settle(h, ok).snaps) == Front(h.snaps);
    FateAmongIs(Front(h.snaps), i);
  }
}
