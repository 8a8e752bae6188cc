/** Closing the exporter: cmd/clicktrics/main.go's run calls Close only after collector.Run has returned. */
module Shutdown {
  import opened Prelude
  import opened Sample
  import opened Ledger
  import opened Pipeline
  import opened Accounting
  import Queue
  import Runner
  import Siblings

  // ---- What holds of any run, however Close is called

  ghost predicate ControlInv(s: State)
  {
    && s.exp.stopCloses == (if s.exp.stopped then 1 else 0)
    && (s.exp.closing > 0 || s.exp.connCloses > 0 ==> s.exp.stopped)
    && (s.exp.connCloses > 0 ==> s.exp.flusher.Stopped?)
    && (s.exp.flusher == Entering(true) || FinalTaken(s.exp.flusher) ==> s.exp.stopped)
    && (if FinalTaken(s.exp.flusher) then s.past.late == 0 <==> Queue.AllEmpty(s.exp.buffers) else s.past.late == 0)
  }

  lemma EnqueueKeepsControl(cfg: Config, s: State, c: nat, b: Batch)
    requires ControlInv(s)
    ensures ControlInv(Enqueue(cfg, s, c, b))
  {
    if Rows(b) != [] {
      var s' := Enqueue(cfg, s, c, b);
      assert s'.exp.buffers[Table(b)] != [];
    }
  }

  lemma ApplyKeepsControl(cfg: Config, s: State, a: Action)
    requires ControlInv(s) && Enabled(cfg, s, a)
    ensures ControlInv(Apply(cfg, s, a))
  {
    match a
    case Local(c, ev) =>
      if ev.SendPart? {
        EnqueueKeepsControl(cfg, StepLoop(cfg, s, c, ev), c, s.loops[c].pc.parts[0]);
      }
    case _ =>
  }

  lemma {:induction false} RunKeepsControl(cfg: Config, run: seq<Action>)
    requires Exec(cfg, run).Some?
    ensures ControlInv(Exec(cfg, run).value)
  {
    if run != [] {
      RunKeepsControl(cfg, Front(run));
      ApplyKeepsControl(cfg, Exec(cfg, Front(run)).value, Last(run));
    }
  }

  /** However often and whenever Close is called, stopCh is closed at most once. */
  lemma StopChannelClosedOnce(cfg: Config, run: seq<Action>)
    requires Exec(cfg, run).Some?
    ensures Exec(cfg, run).value.exp.stopCloses <= 1
    ensures (exists i :: 0 <= i < |run| && run[i].CloseCall?) ==> Exec(cfg, run).value.exp.stopCloses == 1
  {
    RunKeepsControl(cfg, run);
    StateRemembers(cfg, run);
    if i :| 0 <= i < |run| && run[i].CloseCall? {
      assert run[i] == CloseCall;
    }
  }

  /** The flush loop never leaves Stopped. */
  lemma {:induction false} StoppedForGood(cfg: Config, run: seq<Action>, n: nat)
    requires n <= |run| && Exec(cfg, run[..n]).Some? && Exec(cfg, run).Some?
    requires Exec(cfg, run[..n]).value.exp.flusher.Stopped?
    ensures Exec(cfg, run).value.exp.flusher.Stopped?
  {
    if n == |run| {
      assert run[..n] == run;
    } else {
      assert Front(run)[..n] == run[..n];
      StoppedForGood(cfg, Front(run), n);
    }
  }

  lemma {:induction false} PrefixIsARun(cfg: Config, run: seq<Action>, n: nat)
    requires n <= |run| && Exec(cfg, run).Some?
    ensures Exec(cfg, run[..n]).Some?
    ensures n < |run| ==> Enabled(cfg, Exec(cfg, run[..n]).value, run[n])
    ensures n < |run| ==> Exec(cfg, run[..n + 1]) == Some(Apply(cfg, Exec(cfg, run[..n]).value, run[n]))
  {
    if n == |run| {
      assert run[..n] == run;
    } else if n == |run| - 1 {
      assert run[..n] == Front(run) && run[..n + 1] == run;
    } else {
      PrefixIsARun(cfg, Front(run), n);
      assert Front(run)[..n] == run[..n] && Front(run)[..n + 1] == run[..n + 1];
    }
  }

  /** No shipment ends, and none is started, after any Close has closed the connection. */
  lemma NoFlushAfterConnectionClosed(cfg: Config, run: seq<Action>, i: nat, j: nat)
    requires Exec(cfg, run).Some? && i < j < |run| && run[i].CloseReturn?
    ensures !run[j].Settle? && !run[j].Snapshot?
  {
    PrefixIsARun(cfg, run, i);
    PrefixIsARun(cfg, run, j);
    assert run[..j][..i + 1] == run[..i + 1];
    StoppedForGood(cfg, run[..j], i + 1);
  }

  /**
    Once Close has returned, the buffers are empty if and only if no row was enqueued after the final snapshot:
    Send itself has no closed check.
   */
  lemma CloseDrainsIffNothingLate(cfg: Config, run: seq<Action>)
    requires Exec(cfg, run).Some? && Exec(cfg, run).value.exp.connCloses > 0
    ensures Queue.AllEmpty(Exec(cfg, run).value.exp.buffers)
            <==> forall i :: 0 <= i < |run| ==> !EnqueuesLate(cfg, run, i)
  {
    RunKeepsControl(cfg, run);
    LateIff(cfg, run);
  }

  /** The i-th action of a run enqueues a non-empty part although the final snapshot has been taken. */
  ghost predicate EnqueuesLate(cfg: Config, run: seq<Action>, i: nat)
    requires i < |run|
  {
    && run[i].Local? && run[i].event.SendPart? && Exec(cfg, run[..i]).Some?
    && var s := Exec(cfg, run[..i]).value;
       && FinalTaken(s.exp.flusher)
       && run[i].c < |s.loops| && s.loops[run[i].c].pc.Sending? && s.loops[run[i].c].pc.parts != []
       && Rows(s.loops[run[i].c].pc.parts[0]) != []
  }

  lemma {:induction false} LateIff(cfg: Config, run: seq<Action>)
    requires Exec(cfg, run).Some?
    ensures Exec(cfg, run).value.past.late > 0 <==> exists i :: 0 <= i < |run| && EnqueuesLate(cfg, run, i)
  {
    if run != [] {
      var before := Front(run);
      LateIff(cfg, before);
      LastMayBeLate(cfg, run);
      forall i | 0 <= i < |before|
        ensures EnqueuesLate(cfg, run, i) <==> EnqueuesLate(cfg, before, i)
      {
        assert before[..i] == run[..i];
      }
    }
  }

  lemma LastMayBeLate(cfg: Config, run: seq<Action>)
    requires run != [] && Exec(cfg, run).Some?
    ensures Exec(cfg, run).value.past.late
            == Exec(cfg, Front(run)).value.past.late + if EnqueuesLate(cfg, run, |run| - 1) then 1 else 0
  {
    assert run[..|run| - 1] == Front(run);
  }

  /** After the stop signal the flush loop always has a move until it has closed doneCh. */
  lemma DrainIsNeverStuck(cfg: Config, run: seq<Action>)
    requires Exec(cfg, run).Some? && Exec(cfg, run).value.exp.stopped
    ensures var s := Exec(cfg, run).value;
            || s.exp.flusher.Stopped?
            || Enabled(cfg, s, StopSeen)
            || Enabled(cfg, s, Snapshot)
            || Enabled(cfg, s, FlushReturns)
            || exists t :: Enabled(cfg, s, Pipeline.Settle(t, true)) && Enabled(cfg, s, Pipeline.Settle(t, false))
  {
    RunKeepsControl(cfg, run);
    var s := Exec(cfg, run).value;
    if s.exp.flusher.Shipping? && s.exp.flusher.inFlight != map[] {
      var t :| t in s.exp.flusher.inFlight;
      assert Enabled(cfg, s, Pipeline.Settle(t, true)) && Enabled(cfg, s, Pipeline.Settle(t, false));
    }
  }

  /** How many moves of the flush loop and of waiting callers are left before every Close has returned. */
  function MovesLeft(s: State): nat
  {
    var waiting := |Queue.NonEmpty(s.exp.buffers)|;
    s.exp.closing
    + match s.exp.flusher
      case Stopped => 0
      case Shipping(inFlight, true) => |inFlight| + 1
      case Entering(true) => waiting + 2
      case Selecting => waiting + 3
      case Shipping(inFlight, false) => |inFlight| + waiting + 4
      case Entering(false) => waiting + 5
  }

  /** A move of the flush loop, of a shipment, or of a waiting caller of Close. */
  predicate ClosingMove(a: Action)
  {
    a.StopSeen? || a.Snapshot? || a.Settle? || a.FlushReturns? || a.CloseReturn?
  }

  /** A move that brings the end closer and keeps account of the callers of Close. */
  predicate Helps(cfg: Config, s: State, a: Action)
  {
    && ClosingMove(a)
    && Enabled(cfg, s, a)
    && var s' := Apply(cfg, s, a);
       && MovesLeft(s') < MovesLeft(s)
       && s'.exp.stopped
       && s'.exp.closing + s'.exp.connCloses == s.exp.closing + s.exp.connCloses
  }

  /** The end of a shipment leaves one less in flight. */
  lemma SettleShrinks(cfg: Config, s: State, t: string, ok: bool)
    requires Enabled(cfg, s, Pipeline.Settle(t, ok)) && s.exp.stopped
    ensures var s' := Apply(cfg, s, Pipeline.Settle(t, ok));
            s'.exp.flusher.Shipping? && |s'.exp.flusher.inFlight| == |s.exp.flusher.inFlight| - 1
    ensures Helps(cfg, s, Pipeline.Settle(t, ok))
  {
    var before := s.exp.flusher.inFlight;
    assert (before - {t}).Keys == before.Keys - {t};
    assert |before - {t}| == |(before - {t}).Keys|;
  }

  lemma SnapshotHelps(cfg: Config, s: State)
    requires s.exp.flusher.Entering? && s.exp.stopped
    ensures Helps(cfg, s, Snapshot)
  {
    assert Queue.NonEmpty(Queue.Cleared(s.exp.buffers)) == map[];
  }

  /** One of the flush loop's own moves and the waiting callers' is always possible and helps. */
  lemma SomeMoveHelps(cfg: Config, s: State) returns (a: Action)
    requires ControlInv(s) && s.exp.stopped && !(s.exp.flusher.Stopped? && s.exp.closing == 0)
    ensures Helps(cfg, s, a)
  {
    match s.exp.flusher
    case Stopped => a := CloseReturn;
    case Selecting => a := StopSeen;
    case Entering(_) =>
      a := Snapshot;
      SnapshotHelps(cfg, s);
    case Shipping(inFlight, _) =>
      if inFlight == map[] {
        a := FlushReturns;
      } else {
        var t :| t in inFlight;
        a := Pipeline.Settle(t, true);
        SettleShrinks(cfg, s, t, true);
      }
  }

  /** Continuing this way stops the flush loop and lets every caller of Close return. */
  ghost predicate LetsCloseReturn(cfg: Config, run: seq<Action>, more: seq<Action>)
    requires Exec(cfg, run).Some?
  {
    && (forall a :: a in more ==> ClosingMove(a))
    && Exec(cfg, run + more).Some?
    && var exp, exp' := Exec(cfg, run).value.exp, Exec(cfg, run + more).value.exp;
       exp'.flusher.Stopped? && exp'.closing == 0 && exp'.connCloses == exp.connCloses + exp.closing
  }

  lemma OneMoveEarlier(cfg: Config, run: seq<Action>, a: Action, more: seq<Action>)
    requires Exec(cfg, run).Some? && Exec(cfg, run + [a]).Some? && ClosingMove(a)
    requires var exp, exp' := Exec(cfg, run).value.exp, Exec(cfg, run + [a]).value.exp;
             exp'.closing + exp'.connCloses == exp.closing + exp.connCloses
    requires LetsCloseReturn(cfg, run + [a], more)
    ensures LetsCloseReturn(cfg, run, [a] + more)
  {
    Runner.Regroup(run, a, more);
    forall b | b in [a] + more
      ensures ClosingMove(b)
    {
      assert b == a || b in more;
    }
  }

  /**
    Close cannot be stuck. From every state reached after the stop signal, whatever the rest of the system does not
    do, a bounded number of moves of the flush loop and of the waiting callers lets each of them return: one for
    each table in flight or with rows, one for each caller, and at most five more.
   */
  lemma {:induction false} CloseCanReturn(cfg: Config, run: seq<Action>)
    requires Exec(cfg, run).Some? && Exec(cfg, run).value.exp.stopped
    ensures exists more: seq<Action> ::
              |more| <= MovesLeft(Exec(cfg, run).value) && LetsCloseReturn(cfg, run, more)
    decreases MovesLeft(Exec(cfg, run).value)
  {
    RunKeepsControl(cfg, run);
    var s := Exec(cfg, run).value;
    if s.exp.flusher.Stopped? && s.exp.closing == 0 {
      assert run + [] == run;
      assert LetsCloseReturn(cfg, run, []);
    } else {
      var a := SomeMoveHelps(cfg, s);
      assert Front(run + [a]) == run;
      CloseCanReturn(cfg, run + [a]);
      var more: seq<Action> :|
        |more| <= MovesLeft(Exec(cfg, run + [a]).value) && LetsCloseReturn(cfg, run + [a], more);
      OneMoveEarlier(cfg, run, a, more);
    }
  }

  // ---- The order that run keeps

  /** Every Close comes after collector.Run has returned. */
  ghost predicate FollowsRun(cfg: Config, run: seq<Action>)
    requires Exec(cfg, run).Some?
  {
    forall i :: 0 <= i < |run| && run[i].CloseCall? ==>
      Exec(cfg, run[..i]).Some? && Exec(cfg, run[..i]).value.runReturned
  }

  lemma {:induction false} StopsAfterRun(cfg: Config, run: seq<Action>)
    requires Exec(cfg, run).Some? && FollowsRun(cfg, run)
    ensures var s := Exec(cfg, run).value; (s.exp.stopped ==> s.runReturned) && s.past.late == 0
  {
    if run != [] {
      var before := Front(run);
      forall i | 0 <= i < |before| && before[i].CloseCall?
        ensures Exec(cfg, before[..i]).Some? && Exec(cfg, before[..i]).value.runReturned
      {
        assert before[..i] == run[..i] && run[i].CloseCall?;
      }
      StopsAfterRun(cfg, before);
      var s, a := Exec(cfg, before).value, Last(run);
      RunKeepsControl(cfg, before);
      if a.CloseCall? {
        assert run[..|run| - 1] == before;
      }
      if s.runReturned {
        Siblings.RunReturnsLast(cfg, before);
      }
    }
  }

  /**
    Shutdown is complete. In any run that keeps this order, once a Close has returned: every loop has ended, every
    buffer is empty, nothing is in flight, everything any collector emitted was enqueued, and every accepted row of
    every table was shipped, lost with a failed flush, or dropped.
   */
  lemma ShutdownIsComplete(cfg: Config, run: seq<Action>, t: string)
    requires Exec(cfg, run).Some? && FollowsRun(cfg, run)
    requires Exec(cfg, run).value.exp.connCloses > 0
    ensures var s := Exec(cfg, run).value;
            && |s.loops| == |cfg.intervals|
            && (forall c :: 0 <= c < |s.loops| ==>
                  s.loops[c].pc.Ended? && s.loops[c].emitted == SentBy(s.past.log, c))
            && Queue.Held(s.exp.buffers, t) == []
            && s.exp.flusher.Stopped?
            && HistoryOf(s, t).accepted == RowsFor(s.past.log, t)
            && forall i :: 0 <= i < |HistoryOf(s, t).accepted| ==>
                 FateOf(HistoryOf(s, t), i) in {Shipped, Failed, Dropped}
  {
    var s := Exec(cfg, run).value;
    RunKeepsControl(cfg, run);
    StopsAfterRun(cfg, run);
    Siblings.RunReturnsLast(cfg, run);
    RunKeepsLoops(cfg, run);
    RunKeepsLog(cfg, run);
    forall c: nat | c < |s.loops|
      ensures s.loops[c].emitted == SentBy(s.past.log, c)
    {
      EmittedIsAccepted(cfg, run, c, t);
      assert s.loops[c].pc.Ended?;
    }
    RunKeepsTables(cfg, run);
    assert TableInv(cfg, s, t);
    AllSettled(HistoryOf(s, t), LaneOf(s, t), Queue.EffectiveSize(cfg.queueSize));
  }

  lemma AllSettled(h: History, lane: Lane, q: nat)
    requires Tracks(h, lane, q) && lane.buffer == [] && lane.inFlight == None
    ensures forall i :: 0 <= i < |h.accepted| ==> FateOf(h, i) in {Shipped, Failed, Dropped}
  {
    forall i | 0 <= i < |h.accepted|
      ensures FateOf(h, i) in {Shipped, Failed, Dropped}
    {
      FateAmongIs(h.snaps, i);
    }
  }

  // ---- A complete shutdown is always possible

  /** What has happened so far, as the state remembers it. */
  lemma {:induction false} StateRemembers(cfg: Config, run: seq<Action>)
    requires Exec(cfg, run).Some?
    ensures var s := Exec(cfg, run).value;
            && (s.ctxDone <==> Cancel in run)
            && (s.runReturned <==> RunReturns in run)
            && (s.exp.stopped <==> CloseCall in run)
            && multiset(run)[Cancel] <= 1 && multiset(run)[RunReturns] <= 1
            && s.exp.connCloses == multiset(run)[CloseReturn]
            && s.exp.closing + s.exp.connCloses == multiset(run)[CloseCall]
  {
    if run != [] {
      StateRemembers(cfg, Front(run));
      ApplyRemembers(cfg, Exec(cfg, Front(run)).value, Last(run));
      OneMoreAction(run);
    }
  }

  lemma ApplyRemembers(cfg: Config, s: State, a: Action)
    requires Enabled(cfg, s, a)
    ensures (a == Cancel ==> !s.ctxDone) && (a == RunReturns ==> !s.runReturned)
    ensures var s' := Apply(cfg, s, a);
            && s'.ctxDone == (s.ctxDone || a == Cancel)
            && s'.runReturned == (s.runReturned || a == RunReturns)
            && s'.exp.stopped == (s.exp.stopped || a == CloseCall)
            && s'.exp.connCloses == s.exp.connCloses + (if a == CloseReturn then 1 else 0)
            && s'.exp.closing + s'.exp.connCloses
               == s.exp.closing + s.exp.connCloses + (if a == CloseCall then 1 else 0)
  {
  }

  lemma OneMoreAction(run: seq<Action>)
    requires run != []
    ensures forall a :: a in run <==> a in Front(run) || a == Last(run)
    ensures forall a :: multiset(run)[a] == multiset(Front(run))[a] + if a == Last(run) then 1 else 0
  {
    assert run == Front(run) + [Last(run)];
    assert multiset(run) == multiset(Front(run)) + multiset{Last(run)};
  }

  /** A signal, a step of a collector loop, Run's return, a call of Close, or a move that lets Close return. */
  predicate ShutdownMove(a: Action)
  {
    a.Cancel? || a.Local? || a.RunReturns? || a.CloseCall? || ClosingMove(a)
  }

  /** The steps a loop has left if its current call fails; each part it is sending may fill one more buffer. */
  function StepsLeft(l: Runner.Loop): nat
  {
    match l.pc
    case Starting => 3
    case Collecting => 2
    case Sending(parts) => 2 * |parts| + 2
    case Waiting => 1
    case Ended(_) => 0
  }

  function LoopsLeft(loops: seq<Runner.Loop>): nat
  {
    if loops == [] then 0 else LoopsLeft(Front(loops)) + StepsLeft(Last(loops))
  }

  /** How many moves are left before some Close has returned. */
  function ShutdownLeft(s: State): nat
  {
    (if s.ctxDone then 0 else 1) + LoopsLeft(s.loops) + (if s.runReturned then 0 else 1)
    + (if s.exp.stopped then 0 else 2) + MovesLeft(s)
  }

  lemma {:induction false} LoopsLeftAfter(loops: seq<Runner.Loop>, c: nat, l: Runner.Loop)
    requires c < |loops|
    ensures LoopsLeft(loops[c := l]) + StepsLeft(loops[c]) == LoopsLeft(loops) + StepsLeft(l)
  {
    var after := loops[c := l];
    if c == |loops| - 1 {
      assert Front(after) == Front(loops);
    } else {
      LoopsLeftAfter(Front(loops), c, l);
      assert Front(after) == Front(loops)[c := l];
    }
  }

  /** The step that brings a loop closer to its end once the context is done. */
  function EndingStep(l: Runner.Loop): Runner.Event
    requires !l.pc.Ended?
  {
    match l.pc
    case Starting => Runner.Begin
    case Collecting => Runner.CollectFails
    case Sending(parts) => if parts == [] then Runner.SendReturns else Runner.SendPart
    case Waiting => Runner.SeesDone
  }

  lemma EndingStepHelps(interval: int, budget: int, l: Runner.Loop)
    requires !l.pc.Ended?
    ensures Runner.CanStep(l, EndingStep(l))
    ensures StepsLeft(Runner.Step(interval, budget, l, EndingStep(l)))
            + (if EndingStep(l).SendPart? then 2 else 1) <= StepsLeft(l)
  {
  }

  /** An enqueue leaves at most one more table with rows. */
  lemma EnqueueFillsOne(cfg: Config, s: State, c: nat, b: Batch)
    ensures MovesLeft(Enqueue(cfg, s, c, b)) <= MovesLeft(s) + 1
  {
    var before, after := s.exp.buffers, Enqueue(cfg, s, c, b).exp.buffers;
    var old', new' := Queue.NonEmpty(before), Queue.NonEmpty(after);
    assert new'.Keys <= old'.Keys + {Table(b)};
    Smaller(new'.Keys, old'.Keys + {Table(b)});
    assert |new'| == |new'.Keys| && |old'| == |old'.Keys|;
  }

  lemma {:induction false} Smaller(a: set<string>, b: set<string>)
    requires a <= b
    ensures |a| <= |b|
    decreases b
  {
    if a != {} {
      var x :| x in a;
      Smaller(a - {x}, b - {x});
    }
  }

  /** It helps the shutdown along, and calls Close only in the order that run keeps. */
  predicate Advances(cfg: Config, s: State, a: Action)
  {
    && ShutdownMove(a) && Enabled(cfg, s, a)
    && ShutdownLeft(Apply(cfg, s, a)) < ShutdownLeft(s)
    && (a.CloseCall? ==> s.runReturned)
  }

  lemma LoopAdvances(cfg: Config, s: State, c: nat)
    requires s.ctxDone && c < |s.loops| == |cfg.intervals| && !s.loops[c].pc.Ended?
    ensures Advances(cfg, s, Local(c, EndingStep(s.loops[c])))
  {
    var l, ev := s.loops[c], EndingStep(s.loops[c]);
    var l' := Runner.Step(cfg.intervals[c], Runner.EffectiveBudget(cfg.errorBudget), l, ev);
    EndingStepHelps(cfg.intervals[c], Runner.EffectiveBudget(cfg.errorBudget), l);
    LoopsLeftAfter(s.loops, c, l');
    var mid := StepLoop(cfg, s, c, ev);
    assert MovesLeft(mid) == MovesLeft(s);
    if ev.SendPart? {
      EnqueueFillsOne(cfg, mid, c, l.pc.parts[0]);
    }
  }

  /** Until Close is called there is always a move that advances the shutdown. */
  lemma SomeMoveAdvances(cfg: Config, s: State) returns (a: Action)
    requires |s.loops| == |cfg.intervals| && !s.exp.stopped
    ensures Advances(cfg, s, a)
  {
    if !s.ctxDone {
      a := Cancel;
    } else if c :| 0 <= c < |s.loops| && !s.loops[c].pc.Ended? {
      LoopAdvances(cfg, s, c);
      a := Local(c, EndingStep(s.loops[c]));
    } else if !s.runReturned {
      a := RunReturns;
    } else {
      a := CloseCall;
    }
  }

  /** Continuing this way, in the order that run keeps, some Close returns. */
  ghost predicate ShutsDown(cfg: Config, run: seq<Action>, more: seq<Action>)
  {
    && (forall a :: a in more ==> ShutdownMove(a))
    && Exec(cfg, run + more).Some? && FollowsRun(cfg, run + more)
    && Exec(cfg, run + more).value.exp.connCloses > 0
  }

  lemma FollowsOneMore(cfg: Config, run: seq<Action>, a: Action)
    requires Exec(cfg, run).Some? && FollowsRun(cfg, run) && Exec(cfg, run + [a]).Some?
    requires a.CloseCall? ==> Exec(cfg, run).value.runReturned
    ensures FollowsRun(cfg, run + [a])
  {
    var all := run + [a];
    forall i | 0 <= i < |all| && all[i].CloseCall?
      ensures Exec(cfg, all[..i]).Some? && Exec(cfg, all[..i]).value.runReturned
    {
      assert all[..i] == run[..i];
      if i == |run| {
        assert run[..i] == run;
      } else {
        assert run[i].CloseCall?;
      }
    }
  }

  lemma {:induction false} FollowsMore(cfg: Config, run: seq<Action>, more: seq<Action>)
    requires Exec(cfg, run).Some? && FollowsRun(cfg, run) && Exec(cfg, run + more).Some?
    requires forall a :: a in more ==> ClosingMove(a)
    ensures FollowsRun(cfg, run + more)
  {
    if more == [] {
      assert run + more == run;
    } else {
      assert Front(run + more) == run + Front(more);
      FollowsMore(cfg, run, Front(more));
      assert Last(more) in more;
      FollowsOneMore(cfg, run + Front(more), Last(more));
      assert run + more == run + Front(more) + [Last(more)];
    }
  }

  lemma OneAdvanceEarlier(cfg: Config, run: seq<Action>, a: Action, more: seq<Action>)
    requires ShutdownMove(a) && ShutsDown(cfg, run + [a], more)
    ensures ShutsDown(cfg, run, [a] + more)
  {
    Runner.Regroup(run, a, more);
    forall b | b in [a] + more
      ensures ShutdownMove(b)
    {
      assert b == a || b in more;
    }
  }

  /** Once Close has been called, it can return. */
  lemma CalledCloseReturns(cfg: Config, run: seq<Action>) returns (more: seq<Action>)
    requires Exec(cfg, run).Some? && FollowsRun(cfg, run) && Exec(cfg, run).value.exp.stopped
    ensures ShutsDown(cfg, run, more) && |more| <= ShutdownLeft(Exec(cfg, run).value)
  {
    var s := Exec(cfg, run).value;
    CloseCanReturn(cfg, run);
    more :| |more| <= MovesLeft(s) && LetsCloseReturn(cfg, run, more);
    StateRemembers(cfg, run);
    assert s.exp.closing + s.exp.connCloses > 0;
    FollowsMore(cfg, run, more);
  }

  lemma OneAdvance(cfg: Config, run: seq<Action>) returns (a: Action)
    requires Exec(cfg, run).Some? && FollowsRun(cfg, run) && !Exec(cfg, run).value.exp.stopped
    ensures ShutdownMove(a) && Exec(cfg, run + [a]).Some? && FollowsRun(cfg, run + [a])
    ensures ShutdownLeft(Exec(cfg, run + [a]).value) < ShutdownLeft(Exec(cfg, run).value)
  {
    RunKeepsLoops(cfg, run);
    a := SomeMoveAdvances(cfg, Exec(cfg, run).value);
    assert Front(run + [a]) == run;
    FollowsOneMore(cfg, run, a);
  }

  /**
    A complete shutdown can be reached from everywhere. Whatever a run without Close has done, a signal, the loops' own
    steps, Run's return, a call of Close and the moves that let it return bring it to an end in the order that run
    keeps, after no more of them than `ShutdownLeft` counts.
   */
  lemma {:induction false} ShutdownCanComplete(cfg: Config, run: seq<Action>) returns (more: seq<Action>)
    requires Exec(cfg, run).Some? && FollowsRun(cfg, run)
    ensures ShutsDown(cfg, run, more) && |more| <= ShutdownLeft(Exec(cfg, run).value)
    decreases ShutdownLeft(Exec(cfg, run).value)
  {
    var s := Exec(cfg, run).value;
    if s.exp.stopped {
      more := CalledCloseReturns(cfg, run);
    } else {
      var a := OneAdvance(cfg, run);
      more := ShutdownCanComplete(cfg, run + [a]);
      OneAdvanceEarlier(cfg, run, a, more);
      more := [a] + more;
    }
  }

  /** A run without any Close keeps the order, so that it can be completed. */
  lemma UnclosedFollowsRun(cfg: Config, run: seq<Action>)
    requires Exec(cfg, run).Some? && CloseCall !in run
    ensures FollowsRun(cfg, run)
  {
    forall i | 0 <= i < |run|
      ensures !run[i].CloseCall?
    {
      assert run[i] in run;
    }
  }

  lemma UnclosedShutsDown(cfg: Config, run: seq<Action>)
    requires Exec(cfg, run).Some? && CloseCall !in run
    ensures exists more: seq<Action> ::
              |more| <= ShutdownLeft(Exec(cfg, run).value) && ShutsDown(cfg, run, more)
  {
    UnclosedFollowsRun(cfg, run);
    var more := ShutdownCanComplete(cfg, run);
  }

  /** Right after a signal the context is done, and any waiting loop may end. */
  lemma SignalIsSeen(cfg: Config, run: seq<Action>, c: nat)
    requires Exec(cfg, run).Some? && Cancel !in run && c < |cfg.intervals|
    ensures Exec(cfg, run + [Cancel]).Some? && Exec(cfg, run + [Cancel]).value.ctxDone
    ensures c < |Exec(cfg, run).value.loops|
    ensures Exec(cfg, run).value.loops[c].pc.Waiting? ==>
              var ended := Exec(cfg, run + [Cancel] + [Local(c, Runner.SeesDone)]);
              ended.Some? && c < |ended.value.loops| && ended.value.loops[c].pc == Runner.Ended(Runner.Cancelled)
  {
    StateRemembers(cfg, run);
    RunKeepsLoops(cfg, run);
    var signalled := run + [Cancel];
    assert Front(signalled) == run;
    assert Front(signalled + [Local(c, Runner.SeesDone)]) == signalled;
  }

  const IDLE: Config := Config([], 10, 100_000)

  function Idle(closing: Exporter): State
  {
    State(true, true, [], closing, Outside(map[], map[]), Past([], map[], 0))
  }

  lemma {:induction false} AnIdleRunReturns(run: seq<Action>)
    requires run == [Cancel, RunReturns, CloseCall, StopSeen, Snapshot, CloseReturn]
    ensures Exec(IDLE, run[..2]) == Some(Idle(Exporter(map[], map[], Selecting, false, 0, 0, 0)))
  {
    assert run[..0] == [];
    assert Init(IDLE).loops == [];
    RunOneMore(IDLE, run, 0);
    RunOneMore(IDLE, run, 1);
  }

  lemma {:induction false} AnIdleRunStops(run: seq<Action>)
    requires run == [Cancel, RunReturns, CloseCall, StopSeen, Snapshot, CloseReturn]
    ensures Exec(IDLE, run[..4]) == Some(Idle(Exporter(map[], map[], Entering(true), true, 1, 1, 0)))
  {
    AnIdleRunReturns(run);
    RunOneMore(IDLE, run, 2);
    RunOneMore(IDLE, run, 3);
  }

  /** The plainest shutdown, with no collectors: a signal, Run's return, and a Close that drains. */
  lemma {:induction false} AnIdleShutdown(run: seq<Action>)
    requires run == [Cancel, RunReturns, CloseCall, StopSeen, Snapshot, CloseReturn]
    ensures Exec(IDLE, run).Some? && Exec(IDLE, run).value.exp.connCloses == 1
  {
    AnIdleRunStops(run);
    RunOneMore(IDLE, run, 4);
    RunOneMore(IDLE, run, 5);
    assert run[..6] == run;
  }

  // ---- Why the order matters

  const ONE_LOOP: Config := Config([1], 3, 10)

  /** Close first, and only then let the only collector tick and send one row. */
  const CLOSE_FIRST: seq<Action> := [
    CloseCall, StopSeen, Snapshot, CloseReturn,
    Local(0, Runner.Begin), Local(0, Runner.CollectGives(Some(STRAY))), Local(0, Runner.SendPart)]

  lemma {:induction false} RunOneMore(cfg: Config, run: seq<Action>, n: nat)
    requires n < |run| && Exec(cfg, run[..n]).Some? && Enabled(cfg, Exec(cfg, run[..n]).value, run[n])
    ensures Exec(cfg, run[..n + 1]) == Some(Apply(cfg, Exec(cfg, run[..n]).value, run[n]))
  {
    assert Front(run[..n + 1]) == run[..n];
  }

  function ClosedEarly(l: Runner.Loop): State
  {
    State(false, false, [l], Exporter(map[], map[], Stopped, true, 1, 0, 1), Outside(map[], map[]), Past([], map[], 0))
  }

  lemma {:induction false} CloseFirstStops()
    ensures Exec(ONE_LOOP, CLOSE_FIRST[..2])
            == Some(State(false, false, [Runner.NewLoop], Exporter(map[], map[], Entering(true), true, 1, 1, 0),
                          Outside(map[], map[]), Past([], map[], 0)))
  {
    assert CLOSE_FIRST[..0] == [];
    assert Init(ONE_LOOP).loops == [Runner.NewLoop];
    RunOneMore(ONE_LOOP, CLOSE_FIRST, 0);
    RunOneMore(ONE_LOOP, CLOSE_FIRST, 1);
  }

  lemma {:induction false} CloseFirstCloses()
    ensures Exec(ONE_LOOP, CLOSE_FIRST[..4]) == Some(ClosedEarly(Runner.NewLoop))
  {
    CloseFirstStops();
    RunOneMore(ONE_LOOP, CLOSE_FIRST, 2);
    RunOneMore(ONE_LOOP, CLOSE_FIRST, 3);
  }

  const STRAY: Batch := Typed("t", [Ref(7)])
  const TICKED: Runner.Loop := Runner.Loop(Runner.Sending([STRAY]), 0, [true], 1, [("t", Ref(7))])

  lemma LoopMovesAfterClose(l: Runner.Loop, ev: Runner.Event)
    requires Runner.CanStep(l, ev) && ev in {Runner.Begin, Runner.CollectGives(Some(STRAY))}
    ensures Enabled(ONE_LOOP, ClosedEarly(l), Local(0, ev))
    ensures Apply(ONE_LOOP, ClosedEarly(l), Local(0, ev)) == ClosedEarly(Runner.Step(1, 3, l, ev))
  {
    assert [l][0 := Runner.Step(1, 3, l, ev)] == [Runner.Step(1, 3, l, ev)];
  }

  lemma {:induction false} CloseFirstThenBegins()
    ensures Exec(ONE_LOOP, CLOSE_FIRST[..5]) == Some(ClosedEarly(Runner.NewLoop.(pc := Runner.Collecting)))
  {
    CloseFirstCloses();
    LoopMovesAfterClose(Runner.NewLoop, Runner.Begin);
    RunOneMore(ONE_LOOP, CLOSE_FIRST, 4);
  }

  lemma {:induction false} CloseFirstThenTicks()
    ensures Exec(ONE_LOOP, CLOSE_FIRST[..6]) == Some(ClosedEarly(TICKED))
  {
    var begun := Runner.NewLoop.(pc := Runner.Collecting);
    CloseFirstThenBegins();
    LoopMovesAfterClose(begun, Runner.CollectGives(Some(STRAY)));
    RunOneMore(ONE_LOOP, CLOSE_FIRST, 5);
    assert Labelled("t", [Ref(7)]) == [("t", Ref(7))];
    assert Placed([STRAY][1..]) == [];
    assert Placed([STRAY]) == [("t", Ref(7))];
    assert Fanout(STRAY) == [STRAY] && Rows(STRAY) == [Ref(7)];
    assert Runner.Step(1, 3, begun, Runner.CollectGives(Some(STRAY))) == TICKED;
  }

  /** Without that order a row can be accepted, after Close, into a buffer that nothing will ever flush. */
  lemma {:induction false} CloseFirstStrandsARow()
    ensures Exec(ONE_LOOP, CLOSE_FIRST).Some?
    ensures var s := Exec(ONE_LOOP, CLOSE_FIRST).value;
            && s.exp.connCloses == 1
            && Queue.Held(s.exp.buffers, "t") == [Ref(7)]
            && s.past.late == 1
  {
    CloseFirstThenTicks();
    RunOneMore(ONE_LOOP, CLOSE_FIRST, 6);
    assert CLOSE_FIRST[..7] == CLOSE_FIRST;
  }
}
