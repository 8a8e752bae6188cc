/** The exporter's half of any pipeline run is a stretch of pushes and flushes, so the heap exporter refines it. */
module Refinement {
  import opened Prelude
  import opened Sample
  import opened Pipeline
  import Queue

  /** The critical section that an action is, if it is one. */
  function OpOf(s: State, a: Action): Option<Queue.Op>
  {
    if a.Snapshot? then Some(Queue.Flush)
    else if a.Local? && a.event.SendPart? && a.c < |s.loops| && s.loops[a.c].pc.Sending? && s.loops[a.c].pc.parts != []
      then Some(Queue.Push(s.loops[a.c].pc.parts[0]))
    else None
  }

  /** The critical sections of a run, in the order they took the lock. */
  function Ops(cfg: Config, run: seq<Action>): seq<Queue.Op>
    requires Exec(cfg, run).Some?
  {
    if run == [] then []
    else
      var op := OpOf(Exec(cfg, Front(run)).value, Last(run));
      Ops(cfg, Front(run)) + if op.Some? then [op.value] else []
  }

  ghost predicate Replays(s: State, o: Queue.Outcome)
  {
    && s.exp.buffers == o.bufs
    && s.exp.dropped == o.drops
    && (s.exp.flusher.Shipping? ==>
          o.taken != [] && forall t :: t in s.exp.flusher.inFlight ==>
            t in Last(o.taken) && s.exp.flusher.inFlight[t] == Last(o.taken)[t])
  }

  lemma ActionIsAnOp(cfg: Config, s: State, a: Action, o: Queue.Outcome)
    requires Enabled(cfg, s, a) && Replays(s, o)
    ensures var op := OpOf(s, a);
            Replays(Apply(cfg, s, a),
                    if op.Some? then Queue.Perform(o, op.value, Queue.EffectiveSize(cfg.queueSize)) else o)
  {
  }

  /**
    Buffers, drop counters and every batch in flight agree with the replay of those critical sections. It is the
    same replay that ClickHouseExporter.Replay proves of the slices on the heap.
   */
  lemma {:induction false} RunIsAReplay(cfg: Config, run: seq<Action>)
    requires Exec(cfg, run).Some?
    ensures Replays(Exec(cfg, run).value, Queue.Replay(Ops(cfg, run), Queue.EffectiveSize(cfg.queueSize)))
  {
    if run != [] {
      RunIsAReplay(cfg, Front(run));
      var s := Exec(cfg, Front(run)).value;
      var q := Queue.EffectiveSize(cfg.queueSize);
      ActionIsAnOp(cfg, s, Last(run), Queue.Replay(Ops(cfg, Front(run)), q));
      if OpOf(s, Last(run)).Some? {
        assert Front(Ops(cfg, run)) == Ops(cfg, Front(run));
      } else {
        assert Ops(cfg, run) == Ops(cfg, Front(run));
      }
    }
  }
}
