/** What every run of the pipeline keeps: each table's rows, their order, and what the collectors emitted. */
module Accounting {
  import opened Prelude
  import opened Sample
  import opened Ledger
  import opened Pipeline
  import Queue
  import Runner

  // ---- Rows of one table

  /**
    In every reachable state, for every table, each row ever accepted has exactly one fate (FateOf is a function
    of its position), and the buffer, the batch in flight, the delivered batches and the lost batches are exactly
    the rows with the matching fate, in order of acceptance. The rest were dropped, and the counter counts them.
   */
  lemma RunAccountsForRows(cfg: Config, run: seq<Action>, t: string)
    requires Exec(cfg, run).Some?
    ensures var s := Exec(cfg, run).value;
            var h, lane, all := HistoryOf(s, t), LaneOf(s, t), |HistoryOf(s, t).accepted|;
            && RowsWith(h, Buffered, all) == lane.buffer
            && RowsWith(h, InFlight, all) == (if lane.inFlight.Some? then lane.inFlight.value else [])
            && RowsWith(h, Shipped, all) == Flat(lane.delivered)
            && RowsWith(h, Failed, all) == Flat(lane.lost)
            && |RowsWith(h, Dropped, all)| == lane.drops
  {
    RunKeepsTables(cfg, run);
    var s := Exec(cfg, run).value;
    assert TableInv(cfg, s, t);
    RowsAccountedFor(HistoryOf(s, t), LaneOf(s, t), Queue.EffectiveSize(cfg.queueSize));
  }

  /** The same as a conservation law: a row occurs among the accepted ones as often as in all those places together. */
  lemma RunConservesRows(cfg: Config, run: seq<Action>, t: string, row: Any)
    requires Exec(cfg, run).Some?
    ensures var s := Exec(cfg, run).value;
            var h, lane, all := HistoryOf(s, t), LaneOf(s, t), |HistoryOf(s, t).accepted|;
            Occurs(h.accepted, all, row)
            == multiset(lane.buffer)[row]
               + multiset(if lane.inFlight.Some? then lane.inFlight.value else [])[row]
               + multiset(Flat(lane.delivered))[row]
               + multiset(Flat(lane.lost))[row]
               + multiset(RowsWith(h, Dropped, all))[row]
  {
    var s := Exec(cfg, run).value;
    var h, all := HistoryOf(s, t), |HistoryOf(s, t).accepted|;
    RunAccountsForRows(cfg, run, t);
    RowsConserved(h, all, row);
    CountWithCountsRows(h, Buffered, all, row);
    CountWithCountsRows(h, InFlight, all, row);
    CountWithCountsRows(h, Shipped, all, row);
    CountWithCountsRows(h, Failed, all, row);
    CountWithCountsRows(h, Dropped, all, row);
  }

  /**
    Order per table. The live buffer is the tail of the accepted rows, within the queue size; snapshots are non-empty
    contiguous runs before it, later ones further on; and no two batches of a table are in flight at once.
   */
  lemma RunKeepsOrder(cfg: Config, run: seq<Action>, t: string, j: nat, k: nat)
    requires Exec(cfg, run).Some?
    ensures var s := Exec(cfg, run).value;
            var h := HistoryOf(s, t);
            && h.start <= |h.accepted|
            && Queue.Held(s.exp.buffers, t) == h.accepted[h.start..]
            && |Queue.Held(s.exp.buffers, t)| <= (if cfg.queueSize > 0 then cfg.queueSize else 100_000)
            && (j <= k < |h.snaps| ==>
                  && h.snaps[j].lo < h.snaps[j].hi <= h.start
                  && (j < k ==> h.snaps[j].hi <= h.snaps[k].lo && h.snaps[j].fate in {Shipped, Failed}))
  {
    RunKeepsTables(cfg, run);
    var s := Exec(cfg, run).value;
    assert TableInv(cfg, s, t);
    if j <= k < |HistoryOf(s, t).snaps| {
      BatchesInOrder(HistoryOf(s, t).snaps, HistoryOf(s, t).start, j, k);
    }
  }

  // ---- Fates over time

  /** Reachable by any number of MayBecome steps. */
  predicate MayEndAs(before: Fate, after: Fate)
  {
    before == after || before == Buffered || (before == InFlight && after in {Shipped, Failed})
  }

  lemma ApplyMovesFates(cfg: Config, s: State, a: Action, t: string, i: nat)
    requires TablesInv(cfg, s) && Enabled(cfg, s, a) && i < |HistoryOf(s, t).accepted|
    ensures var h, h' := HistoryOf(s, t), HistoryOf(Apply(cfg, s, a), t);
            h.accepted <= h'.accepted && MayBecome(FateOf(h, i), FateOf(h', i))
  {
    var h := HistoryOf(s, t);
    assert TableInv(cfg, s, t);
    match a
    case Local(c, ev) =>
      if ev.SendPart? {
        var b := s.loops[c].pc.parts[0];
        if Rows(b) != [] && Table(b) == t {
          AcceptMovesFates(h, Rows(b), Queue.EffectiveSize(cfg.queueSize), i);
        }
      }
    case Snapshot =>
      SnapshotLane(s, t);
      TakeMovesFates(h, i);
    case Settle(u, ok) =>
      if u == t {
        SettleMovesFates(h, ok, i);
      }
    case _ =>
  }

  /** Between any two moments of a run, an accepted row stays accepted at its place, and a final fate stays. */
  lemma {:induction false} FatesOnlyAdvance(cfg: Config, run: seq<Action>, n: nat, t: string, i: nat)
    requires n <= |run| && Exec(cfg, run[..n]).Some? && Exec(cfg, run).Some?
    requires i < |HistoryOf(Exec(cfg, run[..n]).value, t).accepted|
    ensures var h, h' := HistoryOf(Exec(cfg, run[..n]).value, t), HistoryOf(Exec(cfg, run).value, t);
            h.accepted <= h'.accepted && MayEndAs(FateOf(h, i), FateOf(h', i))
  {
    if n == |run| {
      assert run[..n] == run;
    } else {
      assert Front(run)[..n] == run[..n];
      FatesOnlyAdvance(cfg, Front(run), n, t, i);
      RunKeepsTables(cfg, Front(run));
      ApplyMovesFates(cfg, Exec(cfg, Front(run)).value, Last(run), t, i);
    }
  }

  /** The buffer's start moves to the end of the accepted rows, or to where the newest fit, or not at all. */
  lemma StartMoves(cfg: Config, s: State, a: Action, t: string)
    requires TablesInv(cfg, s) && Enabled(cfg, s, a)
    ensures var h, h' := HistoryOf(s, t), HistoryOf(Apply(cfg, s, a), t);
            || h'.start == h.start
            || (h'.start == |h'.accepted| - Queue.EffectiveSize(cfg.queueSize) && h'.snaps == h.snaps)
            || (h'.start == |h'.accepted| == |h.accepted|)
  {
    assert TableInv(cfg, s, t);
    match a
    case Snapshot => SnapshotLane(s, t);
    case _ =>
  }

  /** A row that a step drops, or accepts and drops at once, has as many rows after it as the queue holds. */
  lemma NewlyDropped(cfg: Config, s: State, a: Action, t: string, i: nat)
    requires TablesInv(cfg, s) && Enabled(cfg, s, a) && i < |HistoryOf(Apply(cfg, s, a), t).accepted|
    requires FateOf(HistoryOf(Apply(cfg, s, a), t), i) == Dropped
    requires i < |HistoryOf(s, t).accepted| ==> FateOf(HistoryOf(s, t), i) != Dropped
    ensures i + Queue.EffectiveSize(cfg.queueSize) < |HistoryOf(Apply(cfg, s, a), t).accepted|
  {
    assert TableInv(cfg, s, t);
    StartMoves(cfg, s, a, t);
    if i < |HistoryOf(s, t).accepted| {
      ApplyMovesFates(cfg, s, a, t, i);
    }
  }

  /** A row is dropped only when as many rows as the queue holds were accepted after it. */
  lemma {:induction false} DroppedOnlyBeyondQueue(cfg: Config, run: seq<Action>, t: string, i: nat)
    requires Exec(cfg, run).Some? && i < |HistoryOf(Exec(cfg, run).value, t).accepted|
    requires FateOf(HistoryOf(Exec(cfg, run).value, t), i) == Dropped
    ensures i + (if cfg.queueSize > 0 then cfg.queueSize else 100_000)
            < |HistoryOf(Exec(cfg, run).value, t).accepted|
  {
    if run != [] {
      var s := Exec(cfg, Front(run)).value;
      RunKeepsTables(cfg, Front(run));
      Queue.EffectiveSizeIs(cfg.queueSize);
      if i < |HistoryOf(s, t).accepted| && FateOf(HistoryOf(s, t), i) == Dropped {
        DroppedOnlyBeyondQueue(cfg, Front(run), t, i);
        ApplyMovesFates(cfg, s, Last(run), t, i);
      } else {
        NewlyDropped(cfg, s, Last(run), t, i);
      }
    }
  }

  // ---- Emission and acceptance

  /** The rows of one table in the log. */
  function RowsFor(log: seq<Entry>, t: string): seq<Any>
  {
    if log == [] then []
    else RowsFor(Front(log), t) + if Last(log).table == t then [Last(log).row] else []
  }

  /** What one collector's sends put into the log, each row with its table. */
  function SentBy(log: seq<Entry>, c: nat): seq<(string, Any)>
  {
    if log == [] then []
    else SentBy(Front(log), c) + if Last(log).sender == c then [(Last(log).table, Last(log).row)] else []
  }

  lemma {:induction false} RowsForGrows(log: seq<Entry>, c: nat, table: string, rows: seq<Any>, t: string)
    ensures RowsFor(log + Entries(c, table, rows), t) == RowsFor(log, t) + if table == t then rows else []
    decreases |rows|
  {
    var grown := log + Entries(c, table, rows);
    if rows == [] {
      assert grown == log;
    } else {
      RowsForGrows(log, c, table, Front(rows), t);
      OneMoreEntry(log, c, table, rows);
      RowsForOneMore(log + Entries(c, table, Front(rows)), Entry(c, table, Last(rows)), t);
      assert rows == Front(rows) + [Last(rows)];
    }
  }

  lemma RowsForOneMore(log: seq<Entry>, e: Entry, t: string)
    ensures RowsFor(log + [e], t) == RowsFor(log, t) + if e.table == t then [e.row] else []
  {
    assert Front(log + [e]) == log;
  }

  lemma {:induction false} SentByGrows(log: seq<Entry>, c: nat, table: string, rows: seq<Any>, d: nat)
    ensures SentBy(log + Entries(c, table, rows), d)
            == SentBy(log, d) + if c == d then Labelled(table, rows) else []
    decreases |rows|
  {
    var grown := log + Entries(c, table, rows);
    if rows == [] {
      assert grown == log;
    } else {
      SentByGrows(log, c, table, Front(rows), d);
      OneMoreEntry(log, c, table, rows);
      SentByOneMore(log + Entries(c, table, Front(rows)), Entry(c, table, Last(rows)), d);
    }
  }

  lemma OneMoreEntry(log: seq<Entry>, c: nat, table: string, rows: seq<Any>)
    requires rows != []
    ensures log + Entries(c, table, rows) == log + Entries(c, table, Front(rows)) + [Entry(c, table, Last(rows))]
    ensures Labelled(table, rows) == Labelled(table, Front(rows)) + [(table, Last(rows))]
  {
  }

  lemma SentByOneMore(log: seq<Entry>, e: Entry, d: nat)
    ensures SentBy(log + [e], d) == SentBy(log, d) + if e.sender == d then [(e.table, e.row)] else []
  {
    assert Front(log + [e]) == log;
  }

  function Pending(l: Runner.Loop): seq<Batch>
  {
    if l.pc.Sending? then l.pc.parts else []
  }

  ghost predicate LoopEmits(s: State, c: nat)
    requires c < |s.loops|
  {
    var l := s.loops[c];
    SentBy(s.past.log, c) + Placed(Pending(l)) == l.emitted && |l.emitted| == l.rowsEmitted
  }

  ghost predicate LogInv(s: State)
  {
    && (forall t :: HistoryOf(s, t).accepted == RowsFor(s.past.log, t))
    && (forall c :: 0 <= c < |s.loops| ==> LoopEmits(s, c))
    && (forall k :: 0 <= k < |s.past.log| ==> s.past.log[k].sender < |s.loops|)
  }

  lemma EnqueueLogs(cfg: Config, s: State, c: nat, b: Batch, t: string)
    requires HistoryOf(s, t).accepted == RowsFor(s.past.log, t)
    ensures var s' := Enqueue(cfg, s, c, b); HistoryOf(s', t).accepted == RowsFor(s'.past.log, t)
  {
    RowsForGrows(s.past.log, c, Table(b), Rows(b), t);
  }

  lemma EnqueueAttributes(cfg: Config, s: State, c: nat, b: Batch, d: nat)
    ensures SentBy(Enqueue(cfg, s, c, b).past.log, d)
            == SentBy(s.past.log, d) + if c == d then Labelled(Table(b), Rows(b)) else []
  {
    SentByGrows(s.past.log, c, Table(b), Rows(b), d);
  }

  lemma SendEmits(cfg: Config, s: State, c: nat, d: nat)
    requires Enabled(cfg, s, Local(c, Runner.SendPart)) && d < |s.loops| && LoopEmits(s, d)
    ensures LoopEmits(Apply(cfg, s, Local(c, Runner.SendPart)), d)
  {
    var mid := StepLoop(cfg, s, c, Runner.SendPart);
    var b := s.loops[c].pc.parts[0];
    var s' := Enqueue(cfg, mid, c, b);
    assert s'.loops == mid.loops;
    EnqueueAttributes(cfg, mid, c, b, d);
    if c == d {
      FirstPending(s.loops[c].pc.parts);
    } else {
      assert s'.loops[d] == s.loops[d];
    }
  }

  lemma FirstPending(parts: seq<Batch>)
    requires parts != []
    ensures forall log: seq<(string, Any)> ::
              log + Placed(parts) == log + Labelled(Table(parts[0]), Rows(parts[0])) + Placed(parts[1..])
  {
  }

  lemma SendKeepsLog(cfg: Config, s: State, c: nat)
    requires LogInv(s) && Enabled(cfg, s, Local(c, Runner.SendPart))
    ensures LogInv(Apply(cfg, s, Local(c, Runner.SendPart)))
  {
    var s' := Apply(cfg, s, Local(c, Runner.SendPart));
    forall t
      ensures HistoryOf(s', t).accepted == RowsFor(s'.past.log, t)
    {
      var mid := StepLoop(cfg, s, c, Runner.SendPart);
      assert HistoryOf(mid, t) == HistoryOf(s, t);
      EnqueueLogs(cfg, mid, c, s.loops[c].pc.parts[0], t);
    }
    forall d: nat | d < |s.loops|
      ensures LoopEmits(s', d)
    {
      SendEmits(cfg, s, c, d);
    }
  }

  lemma OtherLocalKeepsLog(cfg: Config, s: State, c: nat, ev: Runner.Event)
    requires LogInv(s) && Enabled(cfg, s, Local(c, ev)) && !ev.SendPart?
    ensures LogInv(Apply(cfg, s, Local(c, ev)))
  {
    var s' := Apply(cfg, s, Local(c, ev));
    forall t
      ensures HistoryOf(s', t).accepted == RowsFor(s'.past.log, t)
    {
      assert HistoryOf(s', t) == HistoryOf(s, t);
    }
    forall d: nat | d < |s.loops|
      ensures LoopEmits(s', d)
    {
      assert LoopEmits(s, d);
      if d == c && ev.CollectGives? && ev.batch.Some? {
        FanoutKeepsRows(ev.batch.value);
      }
    }
  }

  lemma ApplyKeepsLog(cfg: Config, s: State, a: Action)
    requires LogInv(s) && Enabled(cfg, s, a)
    ensures LogInv(Apply(cfg, s, a))
  {
    var s' := Apply(cfg, s, a);
    if a.Local? {
      if a.event.SendPart? {
        SendKeepsLog(cfg, s, a.c);
      } else {
        OtherLocalKeepsLog(cfg, s, a.c, a.event);
      }
    } else {
      forall t
        ensures HistoryOf(s', t).accepted == RowsFor(s'.past.log, t)
      {
        assert HistoryOf(s, t).accepted == RowsFor(s.past.log, t);
      }
      forall d: nat | d < |s.loops|
        ensures LoopEmits(s', d)
      {
        assert LoopEmits(s, d);
      }
    }
  }

  lemma {:induction false} RunKeepsLog(cfg: Config, run: seq<Action>)
    requires Exec(cfg, run).Some?
    ensures LogInv(Exec(cfg, run).value)
  {
    if run != [] {
      RunKeepsLog(cfg, Front(run));
      ApplyKeepsLog(cfg, Exec(cfg, Front(run)).value, Last(run));
    }
  }

  /**
    Emission agrees with acceptance, row by row: what a collector has counted as emitted is what its sends have put
    into the tables, followed by what its current Send has yet to enqueue. Each table has accepted its own rows of
    the log, in order.
   */
  lemma EmittedIsAccepted(cfg: Config, run: seq<Action>, c: nat, t: string)
    requires Exec(cfg, run).Some? && c < |cfg.intervals|
    ensures var s := Exec(cfg, run).value;
            && c < |s.loops|
            && s.loops[c].emitted == SentBy(s.past.log, c) + Placed(Pending(s.loops[c]))
            && s.loops[c].rowsEmitted == |s.loops[c].emitted|
            && HistoryOf(s, t).accepted == RowsFor(s.past.log, t)
  {
    RunKeepsLog(cfg, run);
    RunKeepsLoops(cfg, run);
    assert LoopEmits(Exec(cfg, run).value, c);
  }

  lemma {:induction false} RunKeepsLoops(cfg: Config, run: seq<Action>)
    requires Exec(cfg, run).Some?
    ensures |Exec(cfg, run).value.loops| == |cfg.intervals|
  {
    if run != [] {
      RunKeepsLoops(cfg, Front(run));
    }
  }

  // ---- Totals

  function TotalEmitted(loops: seq<Runner.Loop>): nat
  {
    if loops == [] then 0 else TotalEmitted(Front(loops)) + Last(loops).rowsEmitted
  }

  function TotalPending(loops: seq<Runner.Loop>): nat
  {
    if loops == [] then 0 else TotalPending(Front(loops)) + |Placed(Pending(Last(loops)))|
  }

  function TotalSent(log: seq<Entry>, n: nat): nat
  {
    if n == 0 then 0 else TotalSent(log, n - 1) + |SentBy(log, n - 1)|
  }

  function TotalAccepted(log: seq<Entry>, tables: seq<string>): nat
  {
    if tables == [] then 0 else TotalAccepted(log, Front(tables)) + |RowsFor(log, Last(tables))|
  }

  lemma {:induction false} SendersShareLog(log: seq<Entry>, n: nat)
    requires forall k :: 0 <= k < |log| ==> log[k].sender < n
    ensures TotalSent(log, n) == |log|
  {
    if log == [] {
      NoSenders(n);
    } else {
      SendersShareLog(Front(log), n);
      OneMoreSent(log, n);
    }
  }

  lemma {:induction false} NoSenders(n: nat)
    ensures TotalSent([], n) == 0
  {
    if n != 0 {
      NoSenders(n - 1);
    }
  }

  lemma {:induction false} OneMoreSent(log: seq<Entry>, n: nat)
    requires log != []
    ensures TotalSent(log, n) == TotalSent(Front(log), n) + if Last(log).sender < n then 1 else 0
  {
    if n != 0 {
      OneMoreSent(log, n - 1);
    }
  }

  lemma {:induction false} TablesShareLog(log: seq<Entry>, tables: seq<string>)
    requires forall i, j :: 0 <= i < j < |tables| ==> tables[i] != tables[j]
    requires forall k :: 0 <= k < |log| ==> log[k].table in tables
    ensures TotalAccepted(log, tables) == |log|
  {
    if log == [] {
      NoTables(tables);
    } else {
      TablesShareLog(Front(log), tables);
      OneMoreAccepted(log, tables);
    }
  }

  lemma {:induction false} NoTables(tables: seq<string>)
    ensures TotalAccepted([], tables) == 0
  {
    if tables != [] {
      NoTables(Front(tables));
    }
  }

  lemma {:induction false} OneMoreAccepted(log: seq<Entry>, tables: seq<string>)
    requires log != [] && forall i, j :: 0 <= i < j < |tables| ==> tables[i] != tables[j]
    ensures TotalAccepted(log, tables)
            == TotalAccepted(Front(log), tables) + if Last(log).table in tables then 1 else 0
  {
    if tables != [] {
      OneMoreAccepted(log, Front(tables));
      assert tables == Front(tables) + [Last(tables)];
    }
  }

  lemma {:induction false} TotalsByLoop(s: State, n: nat)
    requires LogInv(s) && n <= |s.loops|
    ensures TotalEmitted(s.loops[..n]) == TotalSent(s.past.log, n) + TotalPending(s.loops[..n])
  {
    if n != 0 {
      TotalsByLoop(s, n - 1);
      assert LoopEmits(s, n - 1);
      assert Front(s.loops[..n]) == s.loops[..n - 1];
    }
  }

  /**
    In total, over all collectors and over any list of distinct tables that covers the log: the rows counted as
    emitted are the rows the tables accepted, plus those that sends in progress have yet to enqueue.
   */
  lemma TotalsAgree(cfg: Config, run: seq<Action>, tables: seq<string>)
    requires Exec(cfg, run).Some?
    requires forall i, j :: 0 <= i < j < |tables| ==> tables[i] != tables[j]
    requires forall k :: 0 <= k < |Exec(cfg, run).value.past.log| ==>
               Exec(cfg, run).value.past.log[k].table in tables
    ensures var s := Exec(cfg, run).value;
            TotalEmitted(s.loops) == TotalAccepted(s.past.log, tables) + TotalPending(s.loops)
  {
    var s := Exec(cfg, run).value;
    RunKeepsLog(cfg, run);
    TotalsByLoop(s, |s.loops|);
    assert s.loops[..|s.loops|] == s.loops;
    SendersShareLog(s.past.log, |s.loops|);
    TablesShareLog(s.past.log, tables);
  }
}
