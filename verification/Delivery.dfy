/** Without any Close, what is buffered gets to the server, or is lost, by the periodic flush alone. */
module Delivery {
  import opened Prelude
  import opened Sample
  import opened Ledger
  import opened Pipeline
  import opened Accounting
  import Queue

  /** A move of the periodic flush. */
  predicate FlushMove(a: Action)
  {
    a.FlushTick? || a.Snapshot? || a.Settle? || a.FlushReturns?
  }

  /** How many moves are left before the flush loop enters its next flush. */
  function UntilFlush(f: Flusher): nat
  {
    match f
    case Entering(_) => 0
    case Selecting => 1
    case Shipping(inFlight, _) => |inFlight| + 2
    case Stopped => 0
  }

  /** A flush move that touches neither the buffers nor what was accepted, and comes closer to the next flush. */
  ghost predicate Nears(cfg: Config, s: State, a: Action, t: string)
  {
    && FlushMove(a) && Enabled(cfg, s, a)
    && var s' := Apply(cfg, s, a);
       && UntilFlush(s'.exp.flusher) < UntilFlush(s.exp.flusher)
       && !FinalTaken(s'.exp.flusher)
       && s'.exp.buffers == s.exp.buffers
       && HistoryOf(s', t).accepted == HistoryOf(s, t).accepted && HistoryOf(s', t).start == HistoryOf(s, t).start
  }

  lemma SettleNears(cfg: Config, s: State, u: string, t: string)
    requires !FinalTaken(s.exp.flusher) && Enabled(cfg, s, Pipeline.Settle(u, true))
    ensures Nears(cfg, s, Pipeline.Settle(u, true), t)
  {
    var before := s.exp.flusher.inFlight;
    assert (before - {u}).Keys == before.Keys - {u};
    assert |before - {u}| == |(before - {u}).Keys|;
  }

  lemma SomeMoveNears(cfg: Config, s: State, t: string) returns (a: Action)
    requires !FinalTaken(s.exp.flusher) && !s.exp.flusher.Entering?
    ensures Nears(cfg, s, a, t)
  {
    if s.exp.flusher.Selecting? {
      a := FlushTick;
    } else if s.exp.flusher.inFlight == map[] {
      a := FlushReturns;
    } else {
      var u :| u in s.exp.flusher.inFlight;
      SettleNears(cfg, s, u, t);
      a := Pipeline.Settle(u, true);
    }
  }

  /** The loop gets to its next flush with the table's buffer and history as they are. */
  ghost predicate Enters(cfg: Config, run: seq<Action>, more: seq<Action>, t: string)
    requires Exec(cfg, run).Some?
  {
    && (forall a :: a in more ==> FlushMove(a))
    && Exec(cfg, run + more).Some?
    && var s, s' := Exec(cfg, run).value, Exec(cfg, run + more).value;
       && s'.exp.flusher.Entering? && s'.exp.buffers == s.exp.buffers
       && HistoryOf(s', t).accepted == HistoryOf(s, t).accepted && HistoryOf(s', t).start == HistoryOf(s, t).start
  }

  lemma OneMoreMove(cfg: Config, run: seq<Action>, a: Action)
    requires Exec(cfg, run).Some? && Enabled(cfg, Exec(cfg, run).value, a)
    ensures Exec(cfg, run + [a]) == Some(Apply(cfg, Exec(cfg, run).value, a))
  {
    assert Front(run + [a]) == run;
  }

  lemma EntersEarlier(cfg: Config, run: seq<Action>, a: Action, more: seq<Action>, t: string)
    requires Exec(cfg, run).Some? && FlushMove(a) && Exec(cfg, run + [a]).Some? && Enters(cfg, run + [a], more, t)
    requires var s, s' := Exec(cfg, run).value, Exec(cfg, run + [a]).value;
             && s'.exp.buffers == s.exp.buffers
             && HistoryOf(s', t).accepted == HistoryOf(s, t).accepted && HistoryOf(s', t).start == HistoryOf(s, t).start
    ensures Enters(cfg, run, [a] + more, t)
  {
    assert run + [a] + more == run + ([a] + more);
    forall b | b in [a] + more
      ensures FlushMove(b)
    {
      assert b == a || b in more;
    }
  }

  lemma {:induction false} CanEnter(cfg: Config, run: seq<Action>, t: string) returns (more: seq<Action>)
    requires Exec(cfg, run).Some? && !FinalTaken(Exec(cfg, run).value.exp.flusher)
    ensures Enters(cfg, run, more, t) && |more| <= UntilFlush(Exec(cfg, run).value.exp.flusher)
    decreases UntilFlush(Exec(cfg, run).value.exp.flusher)
  {
    var s := Exec(cfg, run).value;
    if s.exp.flusher.Entering? {
      assert run + [] == run;
      more := [];
    } else {
      var a := SomeMoveNears(cfg, s, t);
      OneMoreMove(cfg, run, a);
      more := CanEnter(cfg, run + [a], t);
      EntersEarlier(cfg, run, a, more, t);
      more := [a] + more;
    }
  }

  /** Taking a table's buffer and settling it gives all of its rows the fate of that shipment. */
  lemma TakenThenSettled(cfg: Config, s: State, t: string, ok: bool, i: nat)
    requires TablesInv(cfg, s) && s.exp.flusher.Entering? && Queue.Held(s.exp.buffers, t) != []
    requires HistoryOf(s, t).start <= i < |HistoryOf(s, t).accepted|
    ensures Enabled(cfg, s, Snapshot) && Enabled(cfg, Apply(cfg, s, Snapshot), Pipeline.Settle(t, ok))
    ensures var after := Apply(cfg, Apply(cfg, s, Snapshot), Pipeline.Settle(t, ok));
            && HistoryOf(after, t).accepted == HistoryOf(s, t).accepted
            && FateOf(HistoryOf(after, t), i) == if ok then Shipped else Failed
  {
    assert TableInv(cfg, s, t);
    SnapshotTakes(cfg, s, t);
    TakeSettleFate(HistoryOf(s, t), ok, i);
  }

  lemma SnapshotTakes(cfg: Config, s: State, t: string)
    requires TablesInv(cfg, s) && s.exp.flusher.Entering? && Queue.Held(s.exp.buffers, t) != []
    ensures var s' := Apply(cfg, s, Snapshot);
            && s'.exp.flusher.Shipping? && t in s'.exp.flusher.inFlight
            && HistoryOf(s', t) == Ledger.Take(HistoryOf(s, t))
  {
    assert t in Queue.NonEmpty(s.exp.buffers);
    SnapshotLane(s, t);
  }

  lemma TakeSettleFate(h: History, ok: bool, i: nat)
    requires h.start <= i < |h.accepted|
    ensures Ledger.Settle(Ledger.Take(h), ok).accepted == h.accepted
    ensures FateOf(Ledger.Settle(Ledger.Take(h), ok), i) == if ok then Shipped else Failed
  {
  }

  /**
    Every row that is buffered can still be shipped, and can still be lost, by the periodic flush alone: after a bounded
    number of its moves the row has the fate that its shipment met.
   */
  lemma BufferedRowsCanSettle(cfg: Config, run: seq<Action>, t: string, i: nat, ok: bool)
    returns (more: seq<Action>)
    requires Exec(cfg, run).Some? && !FinalTaken(Exec(cfg, run).value.exp.flusher)
    requires var h := HistoryOf(Exec(cfg, run).value, t); i < |h.accepted| && FateOf(h, i) == Buffered
    ensures |more| <= UntilFlush(Exec(cfg, run).value.exp.flusher) + 2
    ensures forall a :: a in more ==> FlushMove(a)
    ensures Exec(cfg, run + more).Some?
    ensures var h, h' := HistoryOf(Exec(cfg, run).value, t), HistoryOf(Exec(cfg, run + more).value, t);
            h'.accepted == h.accepted && FateOf(h', i) == if ok then Shipped else Failed
  {
    var s := Exec(cfg, run).value;
    RunKeepsTables(cfg, run);
    BufferedIsBehindStart(cfg, s, t, i);
    var before := CanEnter(cfg, run, t);
    var there := run + before;
    RunKeepsTables(cfg, there);
    TakenThenSettled(cfg, Exec(cfg, there).value, t, ok, i);
    OneMoreMove(cfg, there, Snapshot);
    OneMoreMove(cfg, there + [Snapshot], Pipeline.Settle(t, ok));
    more := before + [Snapshot] + [Pipeline.Settle(t, ok)];
    TwoMore(run, before, Snapshot, Pipeline.Settle(t, ok));
  }

  lemma TwoMore(run: seq<Action>, before: seq<Action>, a: Action, b: Action)
    ensures run + (before + [a] + [b]) == run + before + [a] + [b]
    ensures forall c :: c in before + [a] + [b] <==> c in before || c == a || c == b
  {
  }

  lemma BufferedIsBehindStart(cfg: Config, s: State, t: string, i: nat)
    requires TablesInv(cfg, s) && i < |HistoryOf(s, t).accepted| && FateOf(HistoryOf(s, t), i) == Buffered
    ensures HistoryOf(s, t).start <= i && Queue.Held(s.exp.buffers, t) != []
  {
    assert TableInv(cfg, s, t);
    if i < HistoryOf(s, t).start {
      FateAmongIs(HistoryOf(s, t).snaps, i);
    }
  }
}
