/**
  The runner's collector loop (internal/collector/runner.go, runCollector) as a machine of its own, and as the
  loop it is. Timeouts and the ticker's clock are not modelled: a loop may be woken at any moment.
 */
module Runner {
  import opened Prelude
  import opened Sample

  const DEFAULT_ERROR_BUDGET: int := 10

  /** RunnerConfig.ErrorBudget: only zero is replaced by the default. */
  function EffectiveBudget(configured: int): int
  {
    if configured == 0 then DEFAULT_ERROR_BUDGET else configured
  }

  /** Any other budget is taken as it is, and ten in place of zero. */
  lemma EffectiveBudgetIs(configured: int)
    ensures EffectiveBudget(configured) == if configured != 0 then configured else 10
  {
  }

  datatype Why = Skipped | Disabled | Cancelled

  /** Where a loop stands: `Sending` holds the parts that exp.Send has not yet enqueued. */
  datatype Pc = Starting | Collecting | Sending(parts: seq<Batch>) | Waiting | Ended(why: Why)

  /** `outcomes` lists the Collect calls made so far, true for success; `emitted` the rows counted as emitted. */
  datatype Loop = Loop(pc: Pc, fails: nat, outcomes: seq<bool>, rowsEmitted: nat, emitted: seq<(string, Any)>)

  const NewLoop: Loop := Loop(Starting, 0, [], 0, [])

  datatype Event =
    | Begin
    | CollectFails
    | CollectGives(batch: Option<Batch>)  // None: a nil batch
    | SendPart
    | SendReturns
    | SendFails                           // an exporter may give up on the rest of a batch
    | TickerFires
    | SeesDone

  predicate CanStep(l: Loop, ev: Event)
  {
    match ev
    case Begin => l.pc.Starting?
    case CollectFails => l.pc.Collecting?
    case CollectGives(_) => l.pc.Collecting?
    case SendPart => l.pc.Sending? && l.pc.parts != []
    case SendReturns => l.pc.Sending? && l.pc.parts == []
    case SendFails => l.pc.Sending?
    case TickerFires => l.pc.Waiting?
    case SeesDone => l.pc.Waiting?
  }

  function Step(interval: int, budget: int, l: Loop, ev: Event): Loop
    requires CanStep(l, ev)
  {
    match ev
    case Begin => l.(pc := if interval <= 0 then Ended(Skipped) else Collecting)
    case CollectFails => l.(pc := Waiting, fails := l.fails + 1, outcomes := l.outcomes + [false])
    case CollectGives(batch) =>
      var l' := l.(pc := Waiting, fails := 0, outcomes := l.outcomes + [true]);
      if batch == None || Rows(batch.value) == [] then l'
      else l'.(pc := Sending(Fanout(batch.value)),
               rowsEmitted := l.rowsEmitted + |Rows(batch.value)|,
               emitted := l.emitted + Placed(Fanout(batch.value)))
    case SendPart => l.(pc := Sending(l.pc.parts[1..]))
    case SendReturns => l.(pc := Waiting)
    case SendFails => l.(pc := Waiting)
    case TickerFires => l.(pc := if l.fails >= budget then Ended(Disabled) else Collecting)
    case SeesDone => l.(pc := Ended(Cancelled))
  }

  /** The loop after a sequence of events; None if they are not a run of it. */
  function Exec(interval: int, budget: int, evs: seq<Event>): Option<Loop>
  {
    if evs == [] then Some(NewLoop)
    else
      match Exec(interval, budget, Front(evs))
      case None => None
      case Some(l) => if CanStep(l, Last(evs)) then Some(Step(interval, budget, l, Last(evs))) else None
  }

  // ---- The error budget

  /** The number of failures at the end. */
  function Streak(outcomes: seq<bool>): nat
  {
    if outcomes == [] || Last(outcomes) then 0 else Streak(Front(outcomes)) + 1
  }

  /** The last n outcomes are all failures. */
  ghost predicate EndsInFailures(outcomes: seq<bool>, n: nat)
  {
    n <= |outcomes| && forall k :: |outcomes| - n <= k < |outcomes| ==> !outcomes[k]
  }

  lemma {:induction false} StreakMeaning(outcomes: seq<bool>, n: nat)
    ensures Streak(outcomes) >= n <==> EndsInFailures(outcomes, n)
  {
    if n != 0 && outcomes != [] && !Last(outcomes) {
      StreakMeaning(Front(outcomes), n - 1);
      if EndsInFailures(Front(outcomes), n - 1) {
        assert EndsInFailures(outcomes, n);
      }
      if EndsInFailures(outcomes, n) {
        forall k | |outcomes| - n <= k < |outcomes| - 1
          ensures !Front(outcomes)[k]
        {
          assert !outcomes[k];
        }
      }
    } else if n != 0 && outcomes != [] {
      assert outcomes[|outcomes| - 1];
    }
  }

  predicate Exhausted(outcomes: seq<bool>, budget: int)
  {
    outcomes != [] && Streak(outcomes) >= budget
  }

  ghost predicate LoopInv(interval: int, budget: int, l: Loop)
  {
    && l.fails == Streak(l.outcomes)
    && (forall n :: 1 <= n < |l.outcomes| ==> !Exhausted(l.outcomes[..n], budget))
    && (l.pc.Starting? || l.pc == Ended(Skipped) ==> l.outcomes == [])
    && (l.pc == Ended(Skipped) ==> interval <= 0)
    && (l.pc.Collecting? ==> !Exhausted(l.outcomes, budget))
    && (l.pc == Ended(Disabled) ==> Exhausted(l.outcomes, budget))
  }

  lemma StepKeepsLoopInv(interval: int, budget: int, l: Loop, ev: Event)
    requires LoopInv(interval, budget, l) && CanStep(l, ev)
    requires l.pc.Waiting? ==> l.outcomes != []
    ensures LoopInv(interval, budget, Step(interval, budget, l, ev))
  {
    var l' := Step(interval, budget, l, ev);
    if ev.CollectFails? || ev.CollectGives? {
      assert Front(l'.outcomes) == l.outcomes;
      forall n | 1 <= n < |l'.outcomes|
        ensures !Exhausted(l'.outcomes[..n], budget)
      {
        assert l'.outcomes[..n] == l.outcomes[..n];
        assert l.outcomes[..|l.outcomes|] == l.outcomes;
      }
    }
  }

  /**
    The error budget is exact. The Collect calls of any run never go past the shortest sequence of outcomes
    whose trailing failures reach the budget; a loop is disabled only then; and `fails` is always the length
    of the current failure streak. Failing exports leave no trace in any of this.
   */
  lemma {:induction false} BudgetIsExact(interval: int, budget: int, evs: seq<Event>)
    requires Exec(interval, budget, evs).Some?
    ensures var l := Exec(interval, budget, evs).value;
            && l.fails == Streak(l.outcomes)
            && (forall n :: 1 <= n < |l.outcomes| ==> !Exhausted(l.outcomes[..n], budget))
            && (l.pc == Ended(Disabled) ==> Exhausted(l.outcomes, budget))
            && (Exhausted(l.outcomes, budget) ==> !l.pc.Collecting? && !l.pc.Starting?)
            && (l.pc == Ended(Skipped) ==> interval <= 0 && l.outcomes == [])
  {
    RunKeepsLoopInv(interval, budget, evs);
  }

  lemma {:induction false} RunKeepsLoopInv(interval: int, budget: int, evs: seq<Event>)
    requires Exec(interval, budget, evs).Some?
    ensures var l := Exec(interval, budget, evs).value;
            LoopInv(interval, budget, l) && (l.pc.Waiting? || l.pc.Sending? ==> l.outcomes != [])
  {
    if evs != [] {
      RunKeepsLoopInv(interval, budget, Front(evs));
      StepKeepsLoopInv(interval, budget, Exec(interval, budget, Front(evs)).value, Last(evs));
    }
  }

  /** A loop waiting for its ticker collects again if its budget allows it and never again otherwise. */
  lemma TickObeysBudget(interval: int, budget: int, evs: seq<Event>)
    requires Exec(interval, budget, evs).Some? && Exec(interval, budget, evs).value.pc.Waiting?
    ensures var l := Exec(interval, budget, evs).value;
            var ticked := Exec(interval, budget, evs + [TickerFires]);
            && ticked.Some?
            && ticked.value.pc == (if Exhausted(l.outcomes, budget) then Ended(Disabled) else Collecting)
            && ticked.value.outcomes == l.outcomes
  {
    assert Front(evs + [TickerFires]) == evs;
    RunKeepsLoopInv(interval, budget, evs);
  }

  /** With a positive budget, a disabled loop's calls end in exactly that many failures. */
  lemma DisabledAfterExactlyBudget(interval: int, budget: nat, evs: seq<Event>)
    requires budget > 0 && Exec(interval, budget, evs).Some?
    requires Exec(interval, budget, evs).value.pc == Ended(Disabled)
    ensures var outcomes := Exec(interval, budget, evs).value.outcomes;
            && EndsInFailures(outcomes, budget)
            && !EndsInFailures(outcomes, budget + 1)
            && forall n :: 1 <= n < |outcomes| ==> !EndsInFailures(outcomes[..n], budget)
  {
    BudgetIsExact(interval, budget, evs);
    var outcomes := Exec(interval, budget, evs).value.outcomes;
    StreakMeaning(outcomes, budget);
    StreakMeaning(outcomes, budget + 1);
    forall n | 1 <= n < |outcomes|
      ensures !EndsInFailures(outcomes[..n], budget)
    {
      StreakMeaning(outcomes[..n], budget);
    }
    if |outcomes| > 1 {
      assert Front(outcomes) == outcomes[..|outcomes| - 1];
    }
  }

  // ---- The loop itself

  /** What Collect returns, and whether the export that follows a non-empty batch succeeds. */
  datatype Collected = CollectError | Collected(batch: Option<Batch>, sendOk: bool)

  datatype Wakeup = Ticker(result: Collected) | Done

  /** The number of Collect calls that a stream of results allows. */
  function Calls(results: seq<Collected>, budget: int): nat
  {
    if results == [] then 0
    else
      var n := Calls(Front(results), budget);
      if n < |results| - 1 || Exhausted(Outcomes(Front(results)), budget) then n else n + 1
  }

  function Outcomes(results: seq<Collected>): (outcomes: seq<bool>)
    ensures |outcomes| == |results|
  {
    seq(|results|, i requires 0 <= i < |results| => results[i].Collected?)
  }

  /** The batches worth exporting, in order. */
  function Batches(results: seq<Collected>): seq<Batch>
  {
    if results == [] then []
    else
      var r := Last(results);
      Batches(Front(results))
      + if r.Collected? && r.batch.Some? && Rows(r.batch.value) != [] then [r.batch.value] else []
  }

  /** `Calls` is the shortest prefix that exhausts the budget, or everything. */
  lemma {:induction false} CallsIsShortest(results: seq<Collected>, budget: int)
    ensures var n := Calls(results, budget);
            && n <= |results|
            && (forall k :: 0 <= k < n ==> !Exhausted(Outcomes(results)[..k], budget))
            && (n < |results| ==> Exhausted(Outcomes(results)[..n], budget))
  {
    if results != [] {
      CallsIsShortest(Front(results), budget);
      var n := Calls(Front(results), budget);
      assert forall k :: 0 <= k < |results| ==> Outcomes(Front(results))[..k] == Outcomes(results)[..k];
      assert Outcomes(Front(results)) == Outcomes(results)[..|results| - 1];
    }
  }

  lemma CallsAre(results: seq<Collected>, budget: int, n: nat)
    requires n <= |results|
    requires forall k :: 0 <= k < n ==> !Exhausted(Outcomes(results)[..k], budget)
    requires n < |results| ==> Exhausted(Outcomes(results)[..n], budget)
    ensures Calls(results, budget) == n
  {
    CallsIsShortest(results, budget);
  }

  /** The results that a run of wakeups brings before the context is done. */
  function ResultsUntilDone(wakeups: seq<Wakeup>): seq<Collected>
  {
    if wakeups == [] || wakeups[0].Done? then [] else [wakeups[0].result] + ResultsUntilDone(wakeups[1..])
  }

  /** The tick closure: one Collect, and one Send if there is anything to send. */
  method Tick(result: Collected, fails: nat, sent: seq<Batch>) returns (fails': nat, sent': seq<Batch>)
    ensures fails' == if result.Collected? then 0 else fails + 1
    ensures sent' == sent + Batches([result])
  {
    fails', sent' := fails, sent;
    assert Front([result]) == [];
    match result
    case CollectError =>
      fails' := fails' + 1;
    case Collected(batch, sendOk) =>
      fails' := 0;
      if batch.Some? {
        var n := Len(batch.value);
        if n != 0 {
          sent' := sent' + [batch.value];
        }
      }
  }

  /**
    runCollector, until its wakeups run out. Whatever the exports did, it makes exactly the calls the budget
    allows, sends exactly the non-empty batches they returned, and is disabled exactly when a tick finds the
    budget exhausted. LoopIsTheMachine says the same of the machine.
   */
  method RunCollector(interval: int, configuredBudget: int, first: Collected, wakeups: seq<Wakeup>)
    returns (calls: nat, fails: nat, sent: seq<Batch>, disabled: bool)
    ensures var results := if interval <= 0 then [] else [first] + ResultsUntilDone(wakeups);
            && calls == Calls(results, if configuredBudget != 0 then configuredBudget else 10)
            && calls <= |results|
            && fails == Streak(Outcomes(results[..calls]))
            && sent == Batches(results[..calls])
            && (disabled <==> calls < |results|)
  {
    var budget := if configuredBudget == 0 then DEFAULT_ERROR_BUDGET else configuredBudget;
    calls, fails, sent, disabled := 0, 0, [], false;
    if interval <= 0 {
      return;
    }
    ghost var results := [first] + ResultsUntilDone(wakeups);
    fails, sent := Tick(first, fails, sent);
    calls := 1;
    TrackFirst(results, budget);
    for i := 0 to |wakeups|
      invariant calls == i + 1 && Track(results, budget, calls, fails, sent)
      invariant results[calls..] == ResultsUntilDone(wakeups[i..])
    {
      NextWakeup(results, calls, wakeups, i);
      if wakeups[i].Done? {
        break;
      }
      TrackNext(results, budget, calls, fails, sent);
      if fails >= budget {
        disabled := true;
        return;
      }
      fails, sent := Tick(wakeups[i].result, fails, sent);
      calls := calls + 1;
    }
    assert calls == |results|;
    TrackEnd(results, budget, fails, sent);
  }

  /** The next wakeup brings the next result, or there is none. */
  lemma NextWakeup(results: seq<Collected>, calls: nat, wakeups: seq<Wakeup>, i: nat)
    requires calls <= |results| && i < |wakeups| && results[calls..] == ResultsUntilDone(wakeups[i..])
    ensures if wakeups[i].Done? then calls == |results|
            else && calls < |results| && results[calls] == wakeups[i].result
                 && results[calls + 1..] == ResultsUntilDone(wakeups[i + 1..])
  {
    if wakeups[i].Ticker? {
      assert results[calls..] == [wakeups[i].result] + ResultsUntilDone(wakeups[i..][1..]);
      assert wakeups[i..][1..] == wakeups[i + 1..] && results[calls..][1..] == results[calls + 1..];
      assert results[calls..][0] == results[calls];
    } else {
      assert |results[calls..]| == 0;
    }
  }

  /** The loop has made `calls` calls, and was right to make them. */
  ghost predicate Track(results: seq<Collected>, budget: int, calls: nat, fails: nat, sent: seq<Batch>)
  {
    && calls <= |results|
    && fails == Streak(Outcomes(results[..calls]))
    && sent == Batches(results[..calls])
    && (forall k :: 0 <= k < calls ==> !Exhausted(Outcomes(results)[..k], budget))
  }

  lemma TrackFirst(results: seq<Collected>, budget: int)
    requires results != []
    ensures Track(results, budget, 1, if results[0].Collected? then 0 else 1, Batches([results[0]]))
  {
    OneMore(results, 0);
  }

  lemma TrackNext(results: seq<Collected>, budget: int, calls: nat, fails: nat, sent: seq<Batch>)
    requires 0 < calls < |results| && Track(results, budget, calls, fails, sent)
    ensures if fails >= budget then Calls(results, budget) == calls
            else Track(results, budget, calls + 1, if results[calls].Collected? then 0 else fails + 1,
                       sent + Batches([results[calls]]))
  {
    OneMore(results, calls);
    if fails >= budget {
      CallsAre(results, budget, calls);
    }
  }

  lemma TrackEnd(results: seq<Collected>, budget: int, fails: nat, sent: seq<Batch>)
    requires Track(results, budget, |results|, fails, sent)
    ensures Calls(results, budget) == |results|
  {
    CallsAre(results, budget, |results|);
  }

  /** What the next result adds. */
  lemma OneMore(results: seq<Collected>, k: nat)
    requires k < |results|
    ensures Outcomes(results[..k]) == Outcomes(results)[..k]
    ensures Batches(results[..k + 1]) == Batches(results[..k]) + Batches([results[k]])
    ensures Streak(Outcomes(results[..k + 1]))
            == if results[k].Collected? then 0 else Streak(Outcomes(results[..k])) + 1
  {
    assert Front(results[..k + 1]) == results[..k] && Front([results[k]]) == [];
    assert Front(Outcomes(results[..k + 1])) == Outcomes(results[..k]);
  }

  // ---- The loop is the machine

  /** What one call of tick is to the machine: the Collect, and the Send of a batch that has rows. */
  function CallEvents(r: Collected): seq<Event>
  {
    match r
    case CollectError => [CollectFails]
    case Collected(batch, sendOk) => [CollectGives(batch)] + SendOf(batch, sendOk)
  }

  function SendOf(batch: Option<Batch>, sendOk: bool): seq<Event>
  {
    if batch == None || Rows(batch.value) == [] then []
    else if sendOk then SendEvents(|Fanout(batch.value)|)
    else [SendFails]
  }

  function SendEvents(parts: nat): seq<Event>
  {
    seq(parts, _ => SendPart) + [SendReturns]
  }

  /** What one wakeup adds to the run, from a loop that stands somewhere. */
  function Hears(budget: int, l: Loop, w: Wakeup): seq<Event>
  {
    if !l.pc.Waiting? then []
    else match w
         case Done => [SeesDone]
         case Ticker(r) => [TickerFires] + if l.fails >= budget then [] else CallEvents(r)
  }

  /** The run of the machine that a first call and a run of wakeups induce; once ended, the loop hears no more. */
  function Induced(interval: int, budget: int, first: Collected, wakeups: seq<Wakeup>): seq<Event>
  {
    if wakeups == [] then [Begin] + if interval <= 0 then [] else CallEvents(first)
    else
      var evs := Induced(interval, budget, first, Front(wakeups));
      var l := Exec(interval, budget, evs);
      if l.Some? then evs + Hears(budget, l.value, Last(wakeups)) else evs
  }

  /** The rows of some batches, each under the table that its part is sent to. */
  function PlacedAll(batches: seq<Batch>): seq<(string, Any)>
  {
    if batches == [] then [] else PlacedAll(Front(batches)) + Placed(Fanout(Last(batches)))
  }

  /** What a call does to a loop that is collecting. */
  function AfterCall(l: Loop, r: Collected): Loop
  {
    l.(pc := Waiting, fails := if r.Collected? then 0 else l.fails + 1, outcomes := l.outcomes + [r.Collected?],
       rowsEmitted := l.rowsEmitted + |PlacedAll(Batches([r]))|, emitted := l.emitted + PlacedAll(Batches([r])))
  }

  lemma ExecOneMore(interval: int, budget: int, evs: seq<Event>, ev: Event)
    requires Exec(interval, budget, evs).Some? && CanStep(Exec(interval, budget, evs).value, ev)
    ensures Exec(interval, budget, evs + [ev])
            == Some(Step(interval, budget, Exec(interval, budget, evs).value, ev))
  {
    assert Front(evs + [ev]) == evs;
  }

  lemma {:induction false} SendRuns(interval: int, budget: int, evs: seq<Event>, n: nat)
    requires Exec(interval, budget, evs).Some?
    requires var pc := Exec(interval, budget, evs).value.pc; pc.Sending? && n <= |pc.parts|
    ensures var l := Exec(interval, budget, evs).value;
            Exec(interval, budget, evs + seq(n, _ => SendPart)) == Some(l.(pc := Sending(l.pc.parts[n..])))
  {
    if n == 0 {
      assert evs + seq(0, _ => SendPart) == evs;
    } else {
      SendRuns(interval, budget, evs, n - 1);
      ExecOneMore(interval, budget, evs + seq(n - 1, _ => SendPart), SendPart);
      assert evs + seq(n, _ => SendPart) == evs + seq(n - 1, _ => SendPart) + [SendPart];
    }
  }

  lemma SendEventsRun(interval: int, budget: int, evs: seq<Event>)
    requires Exec(interval, budget, evs).Some? && Exec(interval, budget, evs).value.pc.Sending?
    ensures var l := Exec(interval, budget, evs).value;
            Exec(interval, budget, evs + SendEvents(|l.pc.parts|)) == Some(l.(pc := Waiting))
  {
    var n := |Exec(interval, budget, evs).value.pc.parts|;
    SendRuns(interval, budget, evs, n);
    ExecOneMore(interval, budget, evs + seq(n, _ => SendPart), SendReturns);
    assert evs + SendEvents(n) == evs + seq(n, _ => SendPart) + [SendReturns];
  }

  lemma BatchesOfOne(r: Collected)
    ensures PlacedAll(Batches([r]))
            == if r.Collected? && r.batch.Some? && Rows(r.batch.value) != [] then Placed(Fanout(r.batch.value)) else []
    ensures r.Collected? && r.batch.Some? ==> |Placed(Fanout(r.batch.value))| == |Rows(r.batch.value)|
  {
    assert Front([r]) == [];
    if r.Collected? && r.batch.Some? {
      FanoutKeepsRows(r.batch.value);
      assert |Strip(Placed(Fanout(r.batch.value)))| == |Placed(Fanout(r.batch.value))|;
      if Rows(r.batch.value) != [] {
        assert Front([r.batch.value]) == [];
      }
    }
  }

  /** A loop that has collected a batch with rows has counted them, and will be waiting when the Send is over. */
  lemma CollectCounts(interval: int, budget: int, l: Loop, batch: Option<Batch>, sendOk: bool)
    requires l.pc.Collecting?
    ensures var l' := Step(interval, budget, l, CollectGives(batch));
            AfterCall(l, Collected(batch, sendOk)) == l'.(pc := Waiting)
  {
    BatchesOfOne(Collected(batch, sendOk));
    assert l.emitted + [] == l.emitted;
  }

  lemma CallRuns(interval: int, budget: int, evs: seq<Event>, r: Collected)
    requires Exec(interval, budget, evs).Some? && Exec(interval, budget, evs).value.pc.Collecting?
    ensures Exec(interval, budget, evs + CallEvents(r)) == Some(AfterCall(Exec(interval, budget, evs).value, r))
  {
    var l := Exec(interval, budget, evs).value;
    match r
    case CollectError =>
      ExecOneMore(interval, budget, evs, CollectFails);
      BatchesOfOne(r);
      assert l.emitted + [] == l.emitted;
    case Collected(batch, sendOk) =>
      ExecOneMore(interval, budget, evs, CollectGives(batch));
      CollectCounts(interval, budget, l, batch, sendOk);
      SendFollows(interval, budget, evs + [CollectGives(batch)], batch, sendOk);
      Regroup(evs, CollectGives(batch), SendOf(batch, sendOk));
  }

  /** The Send that may follow a Collect leaves the loop waiting and changes nothing else. */
  lemma SendFollows(interval: int, budget: int, given: seq<Event>, batch: Option<Batch>, sendOk: bool)
    requires Exec(interval, budget, given).Some?
    requires var pc := Exec(interval, budget, given).value.pc;
             pc == if batch == None || Rows(batch.value) == [] then Waiting else Sending(Fanout(batch.value))
    ensures Exec(interval, budget, given + SendOf(batch, sendOk))
            == Some(Exec(interval, budget, given).value.(pc := Waiting))
  {
    if batch == None || Rows(batch.value) == [] {
      assert given + [] == given;
    } else if sendOk {
      SendEventsRun(interval, budget, given);
    } else {
      ExecOneMore(interval, budget, given, SendFails);
    }
  }

  /** The machine has made its first calls, one for each of these results. */
  ghost predicate Reflects(l: Loop, made: seq<Collected>)
  {
    l.outcomes == Outcomes(made) && l.emitted == PlacedAll(Batches(made)) && l.rowsEmitted == |l.emitted|
  }

  lemma PlacedOneMore(batches: seq<Batch>, b: Batch)
    ensures PlacedAll(batches + [b]) == PlacedAll(batches) + Placed(Fanout(b))
  {
    assert Front(batches + [b]) == batches;
  }

  lemma PlacedByOneMore(made: seq<Collected>, r: Collected)
    ensures PlacedAll(Batches(made + [r])) == PlacedAll(Batches(made)) + PlacedAll(Batches([r]))
  {
    assert Front(made + [r]) == made;
    BatchesOfOne(r);
    if r.Collected? && r.batch.Some? && Rows(r.batch.value) != [] {
      PlacedOneMore(Batches(made), r.batch.value);
    } else {
      assert Batches(made) + [] == Batches(made);
    }
  }

  lemma CallReflects(l: Loop, made: seq<Collected>, r: Collected)
    requires Reflects(l, made)
    ensures Reflects(AfterCall(l, r), made + [r])
  {
    PlacedByOneMore(made, r);
    assert Outcomes(made + [r]) == Outcomes(made) + [r.Collected?];
  }

  lemma {:induction false} ResultsByWakeup(wakeups: seq<Wakeup>)
    requires wakeups != []
    ensures ResultsUntilDone(wakeups)
            == ResultsUntilDone(Front(wakeups))
               + if Done in Front(wakeups) || Last(wakeups).Done? then [] else [Last(wakeups).result]
  {
    if |wakeups| > 1 && !wakeups[0].Done? {
      ResultsByWakeup(wakeups[1..]);
      assert Front(wakeups)[1..] == Front(wakeups[1..]);
      assert Front(wakeups) == [wakeups[0]] + Front(wakeups[1..]);
    }
  }

  /** Where the machine stands after some wakeups, of which it has heard those until it ended. */
  ghost predicate Stands(budget: int, l: Loop, results: seq<Collected>, done: bool)
  {
    var n := |l.outcomes|;
    && 0 < n <= |results| && Reflects(l, results[..n]) && l.fails == Streak(l.outcomes)
    && match l.pc
       case Waiting => n == |results| && !done
       case Ended(Cancelled) => n == |results| && done
       case Ended(Disabled) => n < |results| && l.fails >= budget
       case _ => false
  }

  /** Where a wakeup leaves the loop. */
  function AfterWakeup(budget: int, l: Loop, w: Wakeup): Loop
  {
    if !l.pc.Waiting? then l
    else match w
         case Done => l.(pc := Ended(Cancelled))
         case Ticker(r) => if l.fails >= budget then l.(pc := Ended(Disabled)) else AfterCall(l, r)
  }

  lemma WakeupRuns(interval: int, budget: int, evs: seq<Event>, w: Wakeup)
    requires Exec(interval, budget, evs).Some?
    ensures var l := Exec(interval, budget, evs).value;
            Exec(interval, budget, evs + Hears(budget, l, w)) == Some(AfterWakeup(budget, l, w))
  {
    var l := Exec(interval, budget, evs).value;
    if !l.pc.Waiting? {
      assert evs + [] == evs;
    } else if w.Done? {
      ExecOneMore(interval, budget, evs, SeesDone);
    } else if l.fails >= budget {
      ExecOneMore(interval, budget, evs, TickerFires);
      assert Hears(budget, l, w) == [TickerFires];
    } else {
      TickRuns(interval, budget, evs, w.result);
    }
  }

  lemma TickRuns(interval: int, budget: int, evs: seq<Event>, r: Collected)
    requires Exec(interval, budget, evs).Some?
    requires var l := Exec(interval, budget, evs).value; l.pc.Waiting? && l.fails < budget
    ensures var l := Exec(interval, budget, evs).value;
            Exec(interval, budget, evs + ([TickerFires] + CallEvents(r))) == Some(AfterCall(l, r))
  {
    var l := Exec(interval, budget, evs).value;
    var ticked := evs + [TickerFires];
    ExecOneMore(interval, budget, evs, TickerFires);
    CallRuns(interval, budget, ticked, r);
    PcIsReplaced(l, r);
    Regroup(evs, TickerFires, CallEvents(r));
  }

  lemma PcIsReplaced(l: Loop, r: Collected)
    ensures AfterCall(l.(pc := Collecting), r) == AfterCall(l, r)
  {
  }

  lemma Regroup<T>(a: seq<T>, x: T, b: seq<T>)
    ensures a + ([x] + b) == a + [x] + b
  {
  }

  lemma WakeupStands(budget: int, l: Loop, results: seq<Collected>, done: bool, w: Wakeup)
    requires Stands(budget, l, results, done)
    ensures Stands(budget, AfterWakeup(budget, l, w),
                   if done || w.Done? then results else results + [w.result], done || w.Done?)
  {
    assert results[..|results|] == results;
    if w.Ticker? {
      var more := results + [w.result];
      assert more[..|l.outcomes|] == results[..|l.outcomes|] && more[..|more|] == more;
      if l.pc.Waiting? && l.fails < budget {
        CallReflects(l, results, w.result);
        assert Front(l.outcomes + [w.result.Collected?]) == l.outcomes;
      }
    }
  }

  lemma BeginRuns(interval: int, budget: int)
    ensures Exec(interval, budget, [Begin])
            == Some(NewLoop.(pc := if interval <= 0 then Ended(Skipped) else Collecting))
  {
    assert Front([Begin]) == [];
  }

  lemma FirstReflects(l: Loop, budget: int, first: Collected)
    requires l == NewLoop.(pc := Collecting)
    ensures Stands(budget, AfterCall(l, first), [first], false)
  {
    assert Reflects(l, []);
    CallReflects(l, [], first);
    assert [] + [first] == [first] == [first][..1];
    assert Front(l.outcomes + [first.Collected?]) == [];
  }

  lemma FirstStands(interval: int, budget: int, first: Collected)
    requires interval > 0
    ensures var l := Exec(interval, budget, [Begin] + CallEvents(first));
            l.Some? && Stands(budget, l.value, [first], false)
  {
    BeginRuns(interval, budget);
    CallRuns(interval, budget, [Begin], first);
    FirstReflects(NewLoop.(pc := Collecting), budget, first);
  }

  /** What the wakeups bring, one more at a time. */
  lemma ResultsOneMore(first: Collected, wakeups: seq<Wakeup>)
    requires wakeups != []
    ensures var before, w := Front(wakeups), Last(wakeups);
            var results := [first] + ResultsUntilDone(before);
            [first] + ResultsUntilDone(wakeups)
            == if Done in before || w.Done? then results else results + [w.result]
    ensures Done in wakeups <==> Done in Front(wakeups) || Last(wakeups).Done?
  {
    ResultsByWakeup(wakeups);
    assert wakeups == Front(wakeups) + [Last(wakeups)];
  }

  lemma InducedOneMore(interval: int, budget: int, first: Collected, wakeups: seq<Wakeup>)
    requires wakeups != [] && Exec(interval, budget, Induced(interval, budget, first, Front(wakeups))).Some?
    ensures var l := Exec(interval, budget, Induced(interval, budget, first, Front(wakeups))).value;
            Exec(interval, budget, Induced(interval, budget, first, wakeups))
            == Some(AfterWakeup(budget, l, Last(wakeups)))
  {
    WakeupRuns(interval, budget, Induced(interval, budget, first, Front(wakeups)), Last(wakeups));
  }

  lemma {:induction false} InducedStands(interval: int, budget: int, first: Collected, wakeups: seq<Wakeup>)
    requires interval > 0
    ensures var l := Exec(interval, budget, Induced(interval, budget, first, wakeups));
            l.Some? && Stands(budget, l.value, [first] + ResultsUntilDone(wakeups), Done in wakeups)
  {
    if wakeups == [] {
      FirstStands(interval, budget, first);
      assert [first] + ResultsUntilDone([]) == [first];
    } else {
      var before, w := Front(wakeups), Last(wakeups);
      InducedStands(interval, budget, first, before);
      InducedOneMore(interval, budget, first, wakeups);
      ResultsOneMore(first, wakeups);
      var l := Exec(interval, budget, Induced(interval, budget, first, before)).value;
      WakeupStands(budget, l, [first] + ResultsUntilDone(before), Done in before, w);
    }
  }

  lemma StandsWhereCallsEnd(budget: int, l: Loop, results: seq<Collected>, done: bool)
    requires Stands(budget, l, results, done)
    requires forall n :: 1 <= n < |l.outcomes| ==> !Exhausted(l.outcomes[..n], budget)
    ensures Calls(results, budget) == |l.outcomes| && l.outcomes == Outcomes(results[..|l.outcomes|])
    ensures l.pc == Ended(Disabled) <==> |l.outcomes| < |results|
  {
    var n := |l.outcomes|;
    assert Outcomes(results[..n]) == Outcomes(results)[..n];
    forall k | 0 <= k < n
      ensures !Exhausted(Outcomes(results)[..k], budget)
    {
      assert Outcomes(results)[..k] == l.outcomes[..k];
    }
    CallsAre(results, budget, n);
  }

  /**
    The loop and the machine are the same: after any wakeups the machine has made as many calls as RunCollector
    makes, with the same outcomes, failure count and rows, and stands disabled exactly when RunCollector is.
   */
  lemma LoopIsTheMachine(interval: int, budget: int, first: Collected, wakeups: seq<Wakeup>)
    ensures var results := if interval <= 0 then [] else [first] + ResultsUntilDone(wakeups);
            var l, calls := Exec(interval, budget, Induced(interval, budget, first, wakeups)), Calls(results, budget);
            && calls <= |results| && l.Some?
            && l.value.outcomes == Outcomes(results[..calls])
            && l.value.fails == Streak(Outcomes(results[..calls]))
            && l.value.emitted == PlacedAll(Batches(results[..calls])) && l.value.rowsEmitted == |l.value.emitted|
            && (l.value.pc == Ended(Disabled) <==> calls < |results|)
  {
    if interval <= 0 {
      SkippedHearsNothing(interval, budget, first, wakeups);
    } else {
      InducedStands(interval, budget, first, wakeups);
      var evs := Induced(interval, budget, first, wakeups);
      BudgetIsExact(interval, budget, evs);
      StandsWhereCallsEnd(budget, Exec(interval, budget, evs).value, [first] + ResultsUntilDone(wakeups),
                          Done in wakeups);
    }
  }

  lemma {:induction false} SkippedHearsNothing(interval: int, budget: int, first: Collected, wakeups: seq<Wakeup>)
    requires interval <= 0
    ensures Exec(interval, budget, Induced(interval, budget, first, wakeups)) == Some(NewLoop.(pc := Ended(Skipped)))
  {
    if wakeups == [] {
      BeginRuns(interval, budget);
      assert [Begin] + [] == [Begin];
    } else {
      SkippedHearsNothing(interval, budget, first, Front(wakeups));
      InducedOneMore(interval, budget, first, wakeups);
    }
  }

  // ---- And the machine is the loop

  /** These wakeups bring the machine here. */
  predicate Reaches(interval: int, budget: int, first: Collected, wakeups: seq<Wakeup>, l: Loop)
  {
    Exec(interval, budget, Induced(interval, budget, first, wakeups)) == Some(l)
  }

  lemma ReachesOneMore(interval: int, budget: int, first: Collected, wakeups: seq<Wakeup>, l: Loop, w: Wakeup)
    requires Reaches(interval, budget, first, wakeups, l)
    ensures Reaches(interval, budget, first, wakeups + [w], AfterWakeup(budget, l, w))
  {
    assert Front(wakeups + [w]) == wakeups;
    InducedOneMore(interval, budget, first, wakeups + [w]);
  }

  lemma FirstReaches(interval: int, budget: int, first: Collected)
    requires interval > 0
    ensures Reaches(interval, budget, first, [], AfterCall(NewLoop.(pc := Collecting), first))
  {
    BeginRuns(interval, budget);
    CallRuns(interval, budget, [Begin], first);
  }

  /** A loop that has not ended or begun a call is where some wakeups bring it; in a call, where some had brought it. */
  ghost predicate Explained(interval: int, budget: int, l: Loop, first: Collected, wakeups: seq<Wakeup>)
  {
    match l.pc
    case Starting => l == NewLoop
    case Collecting =>
      || l == NewLoop.(pc := Collecting)
      || (Reaches(interval, budget, first, wakeups, l.(pc := Waiting)) && l.fails < budget)
    case Sending(_) => Reaches(interval, budget, first, wakeups, l.(pc := Waiting))
    case _ => Reaches(interval, budget, first, wakeups, l)
  }

  lemma CallExplained(interval: int, budget: int, l: Loop, r: Collected, first: Collected, wakeups: seq<Wakeup>)
    returns (first': Collected, wakeups': seq<Wakeup>)
    requires interval > 0 && l.pc.Collecting? && Explained(interval, budget, l, first, wakeups)
    ensures Reaches(interval, budget, first', wakeups', AfterCall(l, r))
  {
    if l == NewLoop.(pc := Collecting) {
      FirstReaches(interval, budget, r);
      first', wakeups' := r, [];
    } else {
      ReachesOneMore(interval, budget, first, wakeups, l.(pc := Waiting), Ticker(r));
      PcReplaced(l, r);
      first', wakeups' := first, wakeups + [Ticker(r)];
    }
  }

  lemma PcReplaced(l: Loop, r: Collected)
    ensures AfterCall(l.(pc := Waiting), r) == AfterCall(l, r)
  {
  }

  lemma StepExplained(interval: int, budget: int, l: Loop, ev: Event, first: Collected, wakeups: seq<Wakeup>)
    returns (first': Collected, wakeups': seq<Wakeup>)
    requires interval > 0 && CanStep(l, ev) && Explained(interval, budget, l, first, wakeups)
    ensures Explained(interval, budget, Step(interval, budget, l, ev), first', wakeups')
  {
    first', wakeups' := first, wakeups;
    match ev
    case CollectFails =>
      first', wakeups' := CallExplained(interval, budget, l, CollectError, first, wakeups);
      FailureCounts(interval, budget, l);
    case CollectGives(batch) =>
      first', wakeups' := CallExplained(interval, budget, l, Collected(batch, true), first, wakeups);
      CollectCounts(interval, budget, l, batch, true);
    case TickerFires =>
      if l.fails >= budget {
        ReachesOneMore(interval, budget, first, wakeups, l, Ticker(CollectError));
        wakeups' := wakeups + [Ticker(CollectError)];
      } else {
        assert l.(pc := Collecting).(pc := Waiting) == l;
      }
    case SeesDone =>
      ReachesOneMore(interval, budget, first, wakeups, l, Done);
      wakeups' := wakeups + [Done];
    case _ =>
  }

  lemma FailureCounts(interval: int, budget: int, l: Loop)
    requires l.pc.Collecting?
    ensures AfterCall(l, CollectError) == Step(interval, budget, l, CollectFails)
  {
    BatchesOfOne(CollectError);
    assert l.emitted + [] == l.emitted;
  }

  /**
    Every run of the machine that is not inside a call is the loop's, on some first result and some wakeups: the two
    have the same behaviours.
   */
  lemma {:induction false} MachineIsTheLoop(interval: int, budget: int, evs: seq<Event>)
    returns (first: Collected, wakeups: seq<Wakeup>)
    requires interval > 0 && Exec(interval, budget, evs).Some?
    ensures Explained(interval, budget, Exec(interval, budget, evs).value, first, wakeups)
    ensures var l := Exec(interval, budget, evs).value;
            l.pc.Waiting? || l.pc.Ended? ==>
              Exec(interval, budget, Induced(interval, budget, first, wakeups)) == Some(l)
  {
    if evs == [] {
      first, wakeups := CollectError, [];
    } else {
      first, wakeups := MachineIsTheLoop(interval, budget, Front(evs));
      var l := Exec(interval, budget, Front(evs)).value;
      first, wakeups := StepExplained(interval, budget, l, Last(evs), first, wakeups);
    }
  }
}
