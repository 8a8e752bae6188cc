/**
  The whole row pipeline as one interleaved machine: the collector loops of collector.Run, the critical sections
  of Exporter.enqueue, the flush loop with its parallel per-table shipments, and Close.
  What the environment decides (what Collect returns, whether a shipment succeeds, who moves next) is part of
  the action.
 */
module Pipeline {
  import opened Prelude
  import opened Sample
  import opened Ledger
  import Queue
  import Runner

  datatype Config = Config(intervals: seq<int>, errorBudget: int, queueSize: int)

  // ---- States

  /**
    The flush loop: in its select; inside flushAll before the lock; waiting for the shipments of a snapshot; or
    returned, with doneCh closed. `final` marks the flush that follows the stop signal.
   */
  datatype Flusher =
    | Selecting
    | Entering(final: bool)
    | Shipping(inFlight: Queue.Buffers, final: bool)
    | Stopped

  /**
    `stopped` is stopOnce's flag and `stopCloses` counts how often stopCh was closed. `closing` callers of Close
    wait for doneCh; `connCloses` of them have closed the connection and returned.
   */
  datatype Exporter = Exporter(
    buffers: Queue.Buffers, dropped: map<string, nat>, flusher: Flusher,
    stopped: bool, stopCloses: nat, closing: nat, connCloses: nat)

  /** What ClickHouse took and what flushes lost, batch by batch. */
  datatype Outside = Outside(delivered: map<string, seq<seq<Any>>>, lost: map<string, seq<seq<Any>>>)

  datatype Entry = Entry(sender: nat, table: string, row: Any)

  /** What happened: every accepted row in order, each table's history, and how many parts came too late. */
  datatype Past = Past(log: seq<Entry>, tables: map<string, History>, late: nat)

  datatype State = State(
    ctxDone: bool, runReturned: bool, loops: seq<Runner.Loop>, exp: Exporter, outside: Outside, past: Past)

  function Init(cfg: Config): State
  {
    State(false, false, seq(|cfg.intervals|, _ => Runner.NewLoop),
          Exporter(map[], map[], Selecting, false, 0, 0, 0), Outside(map[], map[]), Past([], map[], 0))
  }

  // ---- Actions

  datatype Action =
    | Cancel                                 // a signal cancels the context
    | Local(c: nat, event: Runner.Event)     // one step of a collector loop
    | RunReturns                             // collector.Run, past <-ctx.Done() and wg.Wait()
    | FlushTick                              // flushLoop's ticker
    | StopSeen                               // flushLoop's <-stopCh
    | Snapshot                               // the locked half of flushAll
    | Settle(table: string, ok: bool)        // one per-table goroutine ends
    | FlushReturns                           // flushAll's wg.Wait()
    | CloseCall                              // Close, up to <-doneCh
    | CloseReturn                            // Close, past <-doneCh

  /** The final snapshot has been taken: no later row can be shipped. */
  predicate FinalTaken(f: Flusher)
  {
    f.Stopped? || (f.Shipping? && f.final)
  }

  predicate Enabled(cfg: Config, s: State, a: Action)
  {
    match a
    case Cancel => !s.ctxDone
    case Local(c, ev) =>
      && c < |s.loops| && c < |cfg.intervals|
      && Runner.CanStep(s.loops[c], ev)
      && (ev.SeesDone? ==> s.ctxDone)
      && !ev.SendFails?  // this exporter's Send never fails
    case RunReturns => !s.runReturned && s.ctxDone && forall l :: l in s.loops ==> l.pc.Ended?
    case FlushTick => s.exp.flusher.Selecting?
    case StopSeen => s.exp.flusher.Selecting? && s.exp.stopCloses > 0
    case Snapshot => s.exp.flusher.Entering?
    case Settle(t, _) => s.exp.flusher.Shipping? && t in s.exp.flusher.inFlight
    case FlushReturns => s.exp.flusher.Shipping? && s.exp.flusher.inFlight == map[]
    case CloseCall => true
    case CloseReturn => s.exp.closing > 0 && s.exp.flusher.Stopped?
  }

  function Entries(c: nat, table: string, rows: seq<Any>): seq<Entry>
  {
    seq(|rows|, i requires 0 <= i < |rows| => Entry(c, table, rows[i]))
  }

  /** enqueue, on behalf of collector c. */
  function Enqueue(cfg: Config, s: State, c: nat, b: Batch): State
  {
    if Rows(b) == [] then s
    else
      var q := Queue.EffectiveSize(cfg.queueSize);
      var h := GetOr(s.past.tables, Table(b), Blank);
      s.(exp := s.exp.(buffers := Queue.Enqueue(s.exp.buffers, Table(b), Rows(b), q),
                       dropped := Queue.CountDrops(s.exp.dropped, s.exp.buffers, Table(b), Rows(b), q)),
         past := Past(s.past.log + Entries(c, Table(b), Rows(b)),
                      s.past.tables[Table(b) := Ledger.Accept(h, Rows(b), q)],
                      s.past.late + if FinalTaken(s.exp.flusher) then 1 else 0))
  }

  function AfterFlush(final: bool): Flusher
  {
    if final then Stopped else Selecting
  }

  function TakeSnapshot(s: State): State
    requires s.exp.flusher.Entering?
  {
    var snapshot := Queue.NonEmpty(s.exp.buffers);
    var final := s.exp.flusher.final;
    s.(exp := s.exp.(buffers := Queue.Cleared(s.exp.buffers),
                     flusher := if snapshot == map[] then AfterFlush(final) else Shipping(snapshot, final)),
       past := s.past.(tables := map t | t in s.past.tables :: Ledger.Take(s.past.tables[t])))
  }

  function Add(m: map<string, seq<seq<Any>>>, t: string, batch: seq<Any>): map<string, seq<seq<Any>>>
  {
    m[t := GetOr(m, t, []) + [batch]]
  }

  /** flushTable ends: the batch reached the server, or it is lost. Either way nothing is put back. */
  function SettleTable(s: State, t: string, ok: bool): State
    requires s.exp.flusher.Shipping? && t in s.exp.flusher.inFlight
  {
    var batch := s.exp.flusher.inFlight[t];
    s.(exp := s.exp.(flusher := Shipping(s.exp.flusher.inFlight - {t}, s.exp.flusher.final)),
       outside := if ok then s.outside.(delivered := Add(s.outside.delivered, t, batch))
                  else s.outside.(lost := Add(s.outside.lost, t, batch)),
       past := s.past.(tables := s.past.tables[t := Ledger.Settle(GetOr(s.past.tables, t, Blank), ok)]))
  }

  function StepLoop(cfg: Config, s: State, c: nat, ev: Runner.Event): State
    requires Enabled(cfg, s, Local(c, ev))
  {
    s.(loops := s.loops[c := Runner.Step(cfg.intervals[c], Runner.EffectiveBudget(cfg.errorBudget), s.loops[c], ev)])
  }

  function Apply(cfg: Config, s: State, a: Action): State
    requires Enabled(cfg, s, a)
  {
    match a
    case Cancel => s.(ctxDone := true)
    case Local(c, ev) =>
      var s' := StepLoop(cfg, s, c, ev);
      if ev.SendPart? then Enqueue(cfg, s', c, s.loops[c].pc.parts[0]) else s'
    case RunReturns => s.(runReturned := true)
    case FlushTick => s.(exp := s.exp.(flusher := Entering(false)))
    case StopSeen => s.(exp := s.exp.(flusher := Entering(true)))
    case Snapshot => TakeSnapshot(s)
    case Settle(t, ok) => SettleTable(s, t, ok)
    case FlushReturns => s.(exp := s.exp.(flusher := AfterFlush(s.exp.flusher.final)))
    case CloseCall =>
      s.(exp := s.exp.(stopped := true, stopCloses := if s.exp.stopped then s.exp.stopCloses else s.exp.stopCloses + 1,
                       closing := s.exp.closing + 1))
    case CloseReturn => s.(exp := s.exp.(closing := s.exp.closing - 1, connCloses := s.exp.connCloses + 1))
  }

  /** The state after a sequence of actions; None if it is not a run. */
  function Exec(cfg: Config, run: seq<Action>): Option<State>
  {
    if run == [] then Some(Init(cfg))
    else
      match Exec(cfg, Front(run))
      case None => None
      case Some(s) => if Enabled(cfg, s, Last(run)) then Some(Apply(cfg, s, Last(run))) else None
  }

  // ---- Tables

  /** What the system shows for one table. */
  function LaneOf(s: State, t: string): Lane
  {
    Lane(Queue.Held(s.exp.buffers, t),
         if s.exp.flusher.Shipping? && t in s.exp.flusher.inFlight then Some(s.exp.flusher.inFlight[t]) else None,
         GetOr(s.outside.delivered, t, []),
         GetOr(s.outside.lost, t, []),
         GetOr(s.exp.dropped, t, 0))
  }

  function HistoryOf(s: State, t: string): History
  {
    GetOr(s.past.tables, t, Blank)
  }

  ghost predicate TableInv(cfg: Config, s: State, t: string)
  {
    Tracks(HistoryOf(s, t), LaneOf(s, t), Queue.EffectiveSize(cfg.queueSize))
  }

  ghost predicate TablesInv(cfg: Config, s: State)
  {
    && s.past.tables.Keys == s.exp.buffers.Keys
    && forall t :: TableInv(cfg, s, t)
  }

  lemma EnqueueKeepsTables(cfg: Config, s: State, c: nat, b: Batch)
    requires TablesInv(cfg, s)
    ensures TablesInv(cfg, Enqueue(cfg, s, c, b))
  {
    var s' := Enqueue(cfg, s, c, b);
    forall t
      ensures TableInv(cfg, s', t)
    {
      assert TableInv(cfg, s, t);
      if t == Table(b) && Rows(b) != [] {
        AcceptTracks(HistoryOf(s, t), LaneOf(s, t), Rows(b), Queue.EffectiveSize(cfg.queueSize));
      }
    }
  }

  lemma SnapshotLane(s: State, t: string)
    requires s.exp.flusher.Entering? && s.past.tables.Keys == s.exp.buffers.Keys
    ensures var before := LaneOf(s, t);
            LaneOf(TakeSnapshot(s), t)
            == before.(buffer := [], inFlight := if before.buffer == [] then None else Some(before.buffer))
    ensures HistoryOf(TakeSnapshot(s), t) == Take(HistoryOf(s, t))
  {
    var snapshot := Queue.NonEmpty(s.exp.buffers);
    assert t in snapshot <==> t in s.exp.buffers && s.exp.buffers[t] != [];
    assert snapshot == map[] ==> t !in snapshot;
  }

  lemma SnapshotKeepsTables(cfg: Config, s: State)
    requires TablesInv(cfg, s) && s.exp.flusher.Entering?
    ensures TablesInv(cfg, TakeSnapshot(s))
  {
    forall t
      ensures TableInv(cfg, TakeSnapshot(s), t)
    {
      assert TableInv(cfg, s, t);
      SnapshotLane(s, t);
      TakeTracks(HistoryOf(s, t), LaneOf(s, t), Queue.EffectiveSize(cfg.queueSize));
    }
  }

  lemma SettleKeepsTables(cfg: Config, s: State, u: string, ok: bool)
    requires TablesInv(cfg, s) && s.exp.flusher.Shipping? && u in s.exp.flusher.inFlight
    ensures TablesInv(cfg, SettleTable(s, u, ok))
  {
    var s' := SettleTable(s, u, ok);
    forall t
      ensures TableInv(cfg, s', t)
    {
      assert TableInv(cfg, s, t);
      if t == u {
        SettleTracks(HistoryOf(s, t), LaneOf(s, t), ok, Queue.EffectiveSize(cfg.queueSize));
      }
    }
    assert u in s.past.tables by {
      assert TableInv(cfg, s, u);
    }
  }

  lemma ApplyKeepsTables(cfg: Config, s: State, a: Action)
    requires TablesInv(cfg, s) && Enabled(cfg, s, a)
    ensures TablesInv(cfg, Apply(cfg, s, a))
  {
    var s' := Apply(cfg, s, a);
    match a
    case Local(c, ev) =>
      var mid := StepLoop(cfg, s, c, ev);
      assert TablesInv(cfg, mid) by {
        forall t ensures TableInv(cfg, mid, t) { assert TableInv(cfg, s, t); }
      }
      if ev.SendPart? {
        EnqueueKeepsTables(cfg, mid, c, s.loops[c].pc.parts[0]);
      }
    case Snapshot => SnapshotKeepsTables(cfg, s);
    case Settle(u, ok) => SettleKeepsTables(cfg, s, u, ok);
    case _ =>
      forall t
        ensures TableInv(cfg, s', t)
      {
        assert TableInv(cfg, s, t);
      }
  }

  lemma {:induction false} RunKeepsTables(cfg: Config, run: seq<Action>)
    requires Exec(cfg, run).Some?
    ensures TablesInv(cfg, Exec(cfg, run).value)
  {
    if run == [] {
      forall t ensures TableInv(cfg, Init(cfg), t) { BlankTracks(Queue.EffectiveSize(cfg.queueSize)); }
    } else {
      RunKeepsTables(cfg, Front(run));
      ApplyKeepsTables(cfg, Exec(cfg, Front(run)).value, Last(run));
    }
  }
}
