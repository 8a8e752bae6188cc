/** Collector loops do not disturb one another. */
module Siblings {
  import opened Prelude
  import opened Pipeline
  import Runner

  /** The events of one collector in a run of the whole pipeline. */
  function Project(run: seq<Action>, c: nat): seq<Runner.Event>
  {
    if run == [] then []
    else
      var a := Last(run);
      var before := Project(Front(run), c);
      if a.Local? && a.c == c then before + [a.event] else before
  }

  /** An action moves a loop only if it is that loop's own. */
  lemma ActionsMoveOneLoop(cfg: Config, s: State, a: Action, c: nat)
    requires Enabled(cfg, s, a) && c < |s.loops| == |cfg.intervals|
    ensures |Apply(cfg, s, a).loops| == |s.loops|
    ensures Apply(cfg, s, a).loops[c]
            == if a.Local? && a.c == c
               then Runner.Step(cfg.intervals[c], Runner.EffectiveBudget(cfg.errorBudget), s.loops[c], a.event)
               else s.loops[c]
  {
  }

  /**
    Seen from one collector, any interleaving is a run of that collector's own machine, and leaves the loop exactly
    where that run leaves it: siblings that fail, get disabled or send change nothing.
   */
  lemma {:induction false} ProjectionIsARun(cfg: Config, run: seq<Action>, c: nat)
    requires Exec(cfg, run).Some? && c < |cfg.intervals|
    ensures |Exec(cfg, run).value.loops| == |cfg.intervals|
    ensures Runner.Exec(cfg.intervals[c], Runner.EffectiveBudget(cfg.errorBudget), Project(run, c))
            == Some(Exec(cfg, run).value.loops[c])
  {
    if run != [] {
      ProjectionIsARun(cfg, Front(run), c);
      var a := Last(run);
      ActionsMoveOneLoop(cfg, Exec(cfg, Front(run)).value, a, c);
      if a.Local? && a.c == c {
        assert Front(Project(run, c)) == Project(Front(run), c);
      }
    }
  }

  /** So the error budget stays exact for every collector of a concurrent run. */
  lemma BudgetIsExactAmongSiblings(cfg: Config, run: seq<Action>, c: nat)
    requires Exec(cfg, run).Some? && c < |cfg.intervals|
    ensures c < |Exec(cfg, run).value.loops|
    ensures var l, budget := Exec(cfg, run).value.loops[c], if cfg.errorBudget != 0 then cfg.errorBudget else 10;
            && l.fails == Runner.Streak(l.outcomes)
            && (forall n :: 1 <= n < |l.outcomes| ==> !Runner.Exhausted(l.outcomes[..n], budget))
            && (l.pc == Runner.Ended(Runner.Disabled) ==> Runner.Exhausted(l.outcomes, budget))
            && (Runner.Exhausted(l.outcomes, budget) ==> !l.pc.Collecting? && !l.pc.Starting?)
  {
    ProjectionIsARun(cfg, run, c);
    Runner.BudgetIsExact(cfg.intervals[c], Runner.EffectiveBudget(cfg.errorBudget), Project(run, c));
  }

  /** Whatever the others do, a loop's own next step is never held up, unless it is to end. */
  lemma NeverHeldUp(cfg: Config, run: seq<Action>, c: nat, ev: Runner.Event)
    requires Exec(cfg, run).Some? && c < |cfg.intervals| && !ev.SeesDone? && !ev.SendFails?
    requires var budget := if cfg.errorBudget != 0 then cfg.errorBudget else 10;
             Runner.Exec(cfg.intervals[c], budget, Project(run, c) + [ev]).Some?
    ensures Exec(cfg, run + [Local(c, ev)]).Some?
  {
    ProjectionIsARun(cfg, run, c);
    assert Front(run + [Local(c, ev)]) == run;
    assert Front(Project(run, c) + [ev]) == Project(run, c);
  }

  /** A waiting loop may end as soon as a signal has cancelled the context, and not before. */
  lemma EndsOnSignalOnly(cfg: Config, run: seq<Action>, c: nat)
    requires Exec(cfg, run).Some? && c < |cfg.intervals|
    ensures c < |Exec(cfg, run).value.loops|
    ensures Exec(cfg, run + [Local(c, Runner.SeesDone)]).Some?
            <==> Exec(cfg, run).value.loops[c].pc.Waiting? && Cancel in run
  {
    ProjectionIsARun(cfg, run, c);
    CancelIsRemembered(cfg, run);
    assert Front(run + [Local(c, Runner.SeesDone)]) == run;
  }

  /** The context is done exactly once a signal has cancelled it. */
  lemma {:induction false} CancelIsRemembered(cfg: Config, run: seq<Action>)
    requires Exec(cfg, run).Some?
    ensures Exec(cfg, run).value.ctxDone <==> Cancel in run
  {
    if run != [] {
      CancelIsRemembered(cfg, Front(run));
      assert run == Front(run) + [Last(run)];
    }
  }

  /** Two runs that agree on one collector's events agree on its loop, whatever the others do in them. */
  lemma SiblingsAreIrrelevant(cfg: Config, run: seq<Action>, other: seq<Action>, c: nat)
    requires Exec(cfg, run).Some? && Exec(cfg, other).Some? && c < |cfg.intervals|
    requires Project(run, c) == Project(other, c)
    ensures |Exec(cfg, run).value.loops| == |Exec(cfg, other).value.loops| == |cfg.intervals|
    ensures Exec(cfg, run).value.loops[c] == Exec(cfg, other).value.loops[c]
  {
    ProjectionIsARun(cfg, run, c);
    ProjectionIsARun(cfg, other, c);
  }

  /** Once Run has returned the context is done and every loop has ended, and so it stays. */
  lemma {:induction false} RunReturnsLast(cfg: Config, run: seq<Action>)
    requires Exec(cfg, run).Some? && Exec(cfg, run).value.runReturned
    ensures var s := Exec(cfg, run).value; s.ctxDone && forall c :: 0 <= c < |s.loops| ==> s.loops[c].pc.Ended?
  {
    var before := Exec(cfg, Front(run)).value;
    if before.runReturned {
      RunReturnsLast(cfg, Front(run));
    } else {
      assert Last(run).RunReturns?;
      forall c | 0 <= c < |before.loops|
        ensures before.loops[c].pc.Ended?
      {
        assert before.loops[c] in before.loops;
      }
    }
  }
}
