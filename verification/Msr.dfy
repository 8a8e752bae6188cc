/**
  Per-core frequency, temperature and voltage from MSRs (internal/collector/cpu/cpu.go, msrCtx.sample), over real
  arithmetic. Reading the devices is the environment's part.
 */
module Msr {
  import opened Prelude
  import opened Machine

  datatype Sample = Sample(ts: real, tsc: uint64, mperf: uint64, aperf: uint64)

  datatype Reading = Reading(s: Sample, therm: uint64, perfStatus: uint64)

  datatype CoreReading = CoreReading(freqHz: uint64, freqUsedHz: uint64, tempC: real, voltageV: real)

  /** The registers read once at startup; zero where they could not be read. */
  datatype Calibration = Calibration(tjmax: real, baseHz: real, tscHz: real)

  /** One tick's attempts: every opened CPU, with what reading it gave. */
  type Tick = map<int, Option<Reading>>

  ghost predicate Succeeds(t: Tick, cpu: int)
  {
    cpu in t && t[cpu].Some?
  }

  /** The reference clock of the busy frequency. */
  function RefHz(cal: Calibration): real
  {
    if cal.baseHz == 0.0 then cal.tscHz else cal.baseHz
  }

  /** What a successful read reports, given the CPU's baseline. */
  ghost predicate Reports(cal: Calibration, prev: Option<Sample>, r: Reading, out: CoreReading)
  {
    && out.tempC == (if cal.tjmax > 0.0 then cal.tjmax - Bits(r.therm, 16, 128) as real else 0.0)
    && out.voltageV == Bits(r.perfStatus, 32, 0x1_0000) as real / 8192.0
    && (prev == None ==> out.freqUsedHz == 0 && out.freqHz == 0)
    && (prev.Some? ==> UsedHz(prev.value, r.s, out.freqUsedHz) && BusyHz(cal, prev.value, r.s, out.freqHz))
  }

  ghost predicate UsedHz(prev: Sample, cur: Sample, hz: uint64)
  {
    var elapsed := cur.ts - prev.ts;
    if elapsed > 0.0 then ConvertsTo(Sub64(cur.aperf, prev.aperf) as real / elapsed, hz) else hz == 0
  }

  ghost predicate BusyHz(cal: Calibration, prev: Sample, cur: Sample, hz: uint64)
  {
    var dm := Sub64(cur.mperf, prev.mperf);
    if dm > 0 && RefHz(cal) > 0.0
    then ConvertsTo(BusyRate(RefHz(cal), Sub64(cur.aperf, prev.aperf), dm), hz)
    else hz == 0
  }

  /** The reference clock, scaled by the share of its cycles that really ran. */
  function BusyRate(ref: real, da: uint64, dm: uint64): real
    requires dm > 0
  {
    ref * da as real / dm as real
  }

  function BaselineOf(prev: map<int, Sample>, cpu: int): Option<Sample>
  {
    if cpu in prev then Some(prev[cpu]) else None
  }

  /** The new baselines: a missed read keeps the old one. */
  function Rebase(prev: map<int, Sample>, t: Tick): map<int, Sample>
  {
    prev + map cpu | cpu in t && t[cpu].Some? :: t[cpu].value.s
  }

  ghost predicate Enumerates(order: seq<int>, keys: set<int>)
  {
    (forall i, j :: 0 <= i < j < |order| ==> order[i] != order[j]) && (forall c :: c in order <==> c in keys)
  }

  class Context {
    const cal: Calibration
    var prev: map<int, Sample>

    constructor (cal: Calibration)
      ensures this.cal == cal && prev == map[]
    {
      this.cal := cal;
      prev := map[];
    }

    /**
      sample. Exactly the CPUs that could be read are reported, each against its own last successful read, which
      the new one replaces.
     */
    method Sample(t: Tick, order: seq<int>) returns (out: map<int, CoreReading>)
      requires Enumerates(order, t.Keys)
      modifies this
      ensures prev == Rebase(old(prev), t)
      ensures forall cpu :: cpu in out <==> Succeeds(t, cpu)
      ensures forall cpu :: cpu in out ==>
                Succeeds(t, cpu) && Reports(cal, BaselineOf(old(prev), cpu), t[cpu].value, out[cpu])
    {
      var curr := ReadAll(t, order);
      out := map[];
      for i := 0 to |order|
        invariant forall cpu :: cpu in out <==> cpu in order[..i] && cpu in curr
        invariant forall cpu :: cpu in out ==> Reports(cal, BaselineOf(old(prev), cpu), curr[cpu], out[cpu])
        invariant forall cpu :: cpu in prev <==> cpu in old(prev) || cpu in out
        invariant forall cpu :: cpu in prev ==> prev[cpu] == if cpu in out then curr[cpu].s else old(prev)[cpu]
      {
        var cpu := order[i];
        if cpu in curr {
          var cr := ReadCore(cal, BaselineOf(prev, cpu), curr[cpu]);
          prev := prev[cpu := curr[cpu].s];
          out := out[cpu := cr];
        }
      }
      assert order[..|order|] == order;
      forall cpu
        ensures cpu in prev <==> cpu in Rebase(old(prev), t)
        ensures cpu in prev ==> prev[cpu] == Rebase(old(prev), t)[cpu]
      {
        assert cpu in curr ==> cpu in order;
      }
    }
  }

  /** The first loop: every CPU in turn, skipping those that cannot be read. */
  method ReadAll(t: Tick, order: seq<int>) returns (curr: map<int, Reading>)
    requires Enumerates(order, t.Keys)
    ensures forall cpu :: cpu in curr <==> Succeeds(t, cpu)
    ensures forall cpu :: cpu in curr ==> Succeeds(t, cpu) && curr[cpu] == t[cpu].value
  {
    curr := map[];
    for i := 0 to |order|
      invariant forall cpu :: cpu in curr <==> cpu in order[..i] && Succeeds(t, cpu)
      invariant forall cpu :: cpu in curr ==> curr[cpu] == t[cpu].value
    {
      var cpu := order[i];
      assert cpu in order;
      if t[cpu].Some? {
        curr := curr[cpu := t[cpu].value];
      }
    }
    assert order[..|order|] == order;
  }

  /** The body of the second loop. */
  method ReadCore(cal: Calibration, prev: Option<Sample>, r: Reading) returns (cr: CoreReading)
    ensures Reports(cal, prev, r, cr)
  {
    cr := CoreReading(0, 0, 0.0, 0.0);
    if cal.tjmax > 0.0 {
      cr := cr.(tempC := cal.tjmax - Bits(r.therm, 16, 128) as real);
    }
    var v := Bits(r.perfStatus, 32, 0x1_0000);
    if v > 0 {
      cr := cr.(voltageV := v as real / 8192.0);
    }
    if prev.Some? {
      var used := ReadUsed(prev.value, r.s);
      var busy := ReadBusy(cal, prev.value, r.s);
      cr := cr.(freqUsedHz := used, freqHz := busy);
    }
  }

  method ReadUsed(prev: Sample, cur: Sample) returns (hz: uint64)
    ensures UsedHz(prev, cur, hz)
  {
    hz := 0;
    var elapsed := cur.ts - prev.ts;
    var da := Sub64(cur.aperf, prev.aperf);
    if elapsed > 0.0 {
      hz := ToUint64(da as real / elapsed);
    }
  }

  method ReadBusy(cal: Calibration, prev: Sample, cur: Sample) returns (hz: uint64)
    ensures BusyHz(cal, prev, cur, hz)
  {
    hz := 0;
    var da, dm := Sub64(cur.aperf, prev.aperf), Sub64(cur.mperf, prev.mperf);
    if dm > 0 {
      var ref := cal.baseHz;
      if ref == 0.0 {
        ref := cal.tscHz;
      }
      if ref > 0.0 {
        hz := ToUint64(BusyRate(ref, da, dm));
      }
    }
  }

  // ---- Whole runs, seen from one CPU

  /**
    One attempt to read a CPU, if it succeeded: its clock, the true number of cycles it has run, and the true number
    that the reference counter ran alongside.
   */
  datatype Truth = Truth(ts: real, cycles: nat, reference: nat)

  function LastSeen(run: seq<Option<Truth>>): Option<Truth>
  {
    if run == [] then None else if Last(run).Some? then Last(run) else LastSeen(Front(run))
  }

  function FirstSeen(run: seq<Option<Truth>>): Option<Truth>
  {
    if run == [] then None
    else if FirstSeen(Front(run)).Some? then FirstSeen(Front(run))
    else Last(run)
  }

  function AsSample(t: Truth): Sample
  {
    Sample(t.ts, 0, t.reference % TWO64, t.cycles % TWO64)
  }

  /** Time moves on between successful reads, and neither the counters nor the frequency outgrow 64 bits. */
  predicate Paced(a: Truth, b: Truth)
  {
    && b.ts > a.ts
    && a.cycles <= b.cycles < a.cycles + TWO64
    && a.reference <= b.reference < a.reference + TWO64
    && (b.cycles - a.cycles) as real < TWO64 as real * (b.ts - a.ts)
  }

  /** The frequencies reported over a run: used[i] belongs to attempt i. */
  ghost predicate Reported(run: seq<Option<Truth>>, used: seq<uint64>)
    requires |run| == |used|
  {
    run == []
    || (var prev, cur := LastSeen(Front(run)), Last(run);
        && Reported(Front(run), Front(used))
        && (cur.Some? && prev.Some? ==>
              Paced(prev.value, cur.value) && UsedHz(AsSample(prev.value), AsSample(cur.value), Last(used))))
  }

  function CyclesIn(hz: uint64, elapsed: real): real
  {
    hz as real * elapsed
  }

  /** Frequency times elapsed time, over the successful reads of a run. */
  function Cycles(run: seq<Option<Truth>>, used: seq<uint64>): real
    requires |run| == |used|
  {
    if run == [] then 0.0
    else
      var prev, cur := LastSeen(Front(run)), Last(run);
      Cycles(Front(run), Front(used))
      + if cur.Some? && prev.Some? then CyclesIn(Last(used), cur.value.ts - prev.value.ts) else 0.0
  }

  lemma UsedHzBounds(a: Truth, b: Truth, hz: uint64)
    requires Paced(a, b) && UsedHz(AsSample(a), AsSample(b), hz)
    ensures var e, d := b.ts - a.ts, (b.cycles - a.cycles) as real; d - e < CyclesIn(hz, e) <= d
  {
    var e, d := b.ts - a.ts, b.cycles - a.cycles;
    Sub64IsAdvance(a.cycles, b.cycles);
    QuotientInRange(d as real, e, TWO64 as real);
    FloorTimes(d as real, e);
  }

  lemma FloorTimes(d: real, e: real)
    requires e > 0.0
    ensures var f := (d / e).Floor as real; d - e < f * e <= d
  {
    var x := d / e;
    var f := x.Floor as real;
    assert x * e == d;
    TimesGrows(f, x, e);
    TimesGrows(x, f + 1.0, e);
    assert (f + 1.0) * e == f * e + e;
  }

  lemma TimesGrows(a: real, b: real, e: real)
    requires e > 0.0
    ensures a <= b ==> a * e <= b * e
    ensures a < b ==> a * e < b * e
  {
    assert (b - a) * e == b * e - a * e;
  }

  lemma QuotientInRange(d: real, e: real, top: real)
    requires e > 0.0 && 0.0 <= d < top * e
    ensures 0.0 <= d / e < top
  {
    var x := d / e;
    assert x * e == d;
  }

  /**
    The used frequency telescopes across missed reads: summed over the successful reads, frequency times elapsed time
    never exceeds the cycles really run, and falls short of them by less than one per second.
   */
  lemma {:induction false} UsedHzTelescopes(run: seq<Option<Truth>>, used: seq<uint64>)
    requires |run| == |used| && Reported(run, used) && LastSeen(run).Some?
    ensures FirstSeen(run).Some?
    ensures var first, last := FirstSeen(run).value, LastSeen(run).value;
            var advance, time := (last.cycles - first.cycles) as real, last.ts - first.ts;
            if time > 0.0 then advance - time < Cycles(run, used) <= advance
            else time == 0.0 && Cycles(run, used) == advance == 0.0
  {
    var before := Front(run);
    SeenTogether(before);
    if LastSeen(before).Some? {
      UsedHzTelescopes(before, Front(used));
      if Last(run).Some? {
        var a, b := LastSeen(before).value, Last(run).value;
        UsedHzBounds(a, b, Last(used));
        var step := CyclesIn(Last(used), b.ts - a.ts);
        assert Cycles(run, used) == Cycles(before, Front(used)) + step;
        assert (b.cycles - a.cycles) as real - (b.ts - a.ts) < step <= (b.cycles - a.cycles) as real;
      }
    } else {
      NothingSeen(before, Front(used));
    }
  }

  lemma {:induction false} SeenTogether(run: seq<Option<Truth>>)
    ensures FirstSeen(run).Some? <==> LastSeen(run).Some?
  {
    if run != [] {
      SeenTogether(Front(run));
    }
  }

  lemma {:induction false} NothingSeen(run: seq<Option<Truth>>, used: seq<uint64>)
    requires |run| == |used| && LastSeen(run) == None
    ensures Cycles(run, used) == 0.0
  {
    if run != [] {
      NothingSeen(Front(run), Front(used));
    }
  }

  // ---- The collector over whole runs

  function Baselines(ticks: seq<Tick>): map<int, Sample>
  {
    if ticks == [] then map[] else Rebase(Baselines(Front(ticks)), Last(ticks))
  }

  ghost predicate TickOf(cal: Calibration, prev: map<int, Sample>, t: Tick, out: map<int, CoreReading>)
  {
    && (forall cpu :: cpu in out <==> Succeeds(t, cpu))
    && (forall cpu :: cpu in out ==>
          Succeeds(t, cpu) && Reports(cal, BaselineOf(prev, cpu), t[cpu].value, out[cpu]))
  }

  ghost predicate RunOf(cal: Calibration, ticks: seq<Tick>, outs: seq<map<int, CoreReading>>)
  {
    |ticks| == |outs|
    && (ticks == []
        || (RunOf(cal, Front(ticks), Front(outs)) && TickOf(cal, Baselines(Front(ticks)), Last(ticks), Last(outs))))
  }

  lemma RunOneMore(cal: Calibration, ticks: seq<Tick>, i: nat, outs: seq<map<int, CoreReading>>,
                   out: map<int, CoreReading>)
    requires i < |ticks| && RunOf(cal, ticks[..i], outs) && TickOf(cal, Baselines(ticks[..i]), ticks[i], out)
    ensures RunOf(cal, ticks[..i + 1], outs + [out])
    ensures Baselines(ticks[..i + 1]) == Rebase(Baselines(ticks[..i]), ticks[i])
  {
    assert Front(ticks[..i + 1]) == ticks[..i] && Front(outs + [out]) == outs;
  }

  /** One more tick, after i of them. */
  method Step(c: Context, ticks: seq<Tick>, i: nat, order: seq<int>, outs: seq<map<int, CoreReading>>)
    returns (outs': seq<map<int, CoreReading>>)
    requires i < |ticks| && Enumerates(order, ticks[i].Keys)
    requires c.prev == Baselines(ticks[..i]) && RunOf(c.cal, ticks[..i], outs)
    modifies c
    ensures c.prev == Baselines(ticks[..i + 1]) && RunOf(c.cal, ticks[..i + 1], outs')
  {
    var out := c.Sample(ticks[i], order);
    RunOneMore(c.cal, ticks, i, outs, out);
    outs' := outs + [out];
  }

  /** Any number of ticks on one context. */
  method Run(cal: Calibration, ticks: seq<Tick>, orders: seq<seq<int>>) returns (outs: seq<map<int, CoreReading>>)
    requires |orders| == |ticks| && forall i :: 0 <= i < |ticks| ==> Enumerates(orders[i], ticks[i].Keys)
    ensures RunOf(cal, ticks, outs)
  {
    var c := new Context(cal);
    outs := [];
    for i := 0 to |ticks|
      invariant fresh(c) && c.cal == cal && c.prev == Baselines(ticks[..i]) && RunOf(cal, ticks[..i], outs)
    {
      outs := Step(c, ticks, i, orders[i], outs);
    }
    assert ticks[..|ticks|] == ticks;
  }

  /** The attempts on one CPU are what the ticks saw of it. */
  ghost predicate Observes(ticks: seq<Tick>, cpu: int, run: seq<Option<Truth>>)
  {
    |ticks| == |run|
    && (ticks == []
        || (Observes(Front(ticks), cpu, Front(run)) && Sees(Last(ticks), cpu, Last(run))))
  }

  ghost predicate Sees(t: Tick, cpu: int, truth: Option<Truth>)
  {
    && (truth.Some? <==> Succeeds(t, cpu))
    && (truth.Some? ==>
          var s := t[cpu].value.s;
          && s.ts == truth.value.ts && s.aperf == truth.value.cycles % TWO64
          && s.mperf == truth.value.reference % TWO64)
  }

  ghost predicate AlwaysPaced(run: seq<Option<Truth>>)
  {
    run == []
    || (AlwaysPaced(Front(run))
        && (Last(run).Some? && LastSeen(Front(run)).Some? ==> Paced(LastSeen(Front(run)).value, Last(run).value)))
  }

  function UsedBy(outs: seq<map<int, CoreReading>>, cpu: int): (used: seq<uint64>)
    ensures |used| == |outs|
  {
    if outs == [] then []
    else UsedBy(Front(outs), cpu) + [if cpu in Last(outs) then Last(outs)[cpu].freqUsedHz else 0]
  }

  /** A baseline survives missed reads: it is always the last successful one. */
  lemma {:induction false} BaselineIsLastSeen(ticks: seq<Tick>, cpu: int, run: seq<Option<Truth>>)
    requires Observes(ticks, cpu, run)
    ensures var b, seen := BaselineOf(Baselines(ticks), cpu), LastSeen(run);
            && (b.Some? <==> seen.Some?)
            && (b.Some? ==> b.value.ts == seen.value.ts && b.value.aperf == seen.value.cycles % TWO64
                            && b.value.mperf == seen.value.reference % TWO64)
  {
    if ticks != [] {
      BaselineIsLastSeen(Front(ticks), cpu, Front(run));
    }
  }

  lemma {:induction false} RunIsReported(cal: Calibration, ticks: seq<Tick>, outs: seq<map<int, CoreReading>>,
                                         cpu: int, run: seq<Option<Truth>>)
    requires RunOf(cal, ticks, outs) && Observes(ticks, cpu, run) && AlwaysPaced(run)
    ensures Reported(run, UsedBy(outs, cpu))
  {
    if ticks != [] {
      RunIsReported(cal, Front(ticks), Front(outs), cpu, Front(run));
      BaselineIsLastSeen(Front(ticks), cpu, Front(run));
      assert Front(UsedBy(outs, cpu)) == UsedBy(Front(outs), cpu);
    }
  }

  /** So the frequencies that the collector really reports telescope, on every CPU of every run. */
  lemma ReportedFrequenciesTelescope(cal: Calibration, ticks: seq<Tick>, outs: seq<map<int, CoreReading>>,
                                     cpu: int, run: seq<Option<Truth>>)
    requires RunOf(cal, ticks, outs) && Observes(ticks, cpu, run) && AlwaysPaced(run) && LastSeen(run).Some?
    ensures FirstSeen(run).Some?
    ensures var first, last := FirstSeen(run).value, LastSeen(run).value;
            var advance, time := (last.cycles - first.cycles) as real, last.ts - first.ts;
            if time > 0.0 then advance - time < Cycles(run, UsedBy(outs, cpu)) <= advance
            else time == 0.0 && Cycles(run, UsedBy(outs, cpu)) == advance == 0.0
  {
    RunIsReported(cal, ticks, outs, cpu, run);
    UsedHzTelescopes(run, UsedBy(outs, cpu));
  }

  // ---- Every reported reading

  lemma {:induction false} TickInRun(cal: Calibration, ticks: seq<Tick>, outs: seq<map<int, CoreReading>>, cpu: int,
                                     run: seq<Option<Truth>>, i: nat)
    requires RunOf(cal, ticks, outs) && Observes(ticks, cpu, run) && i < |ticks|
    ensures TickOf(cal, Baselines(ticks[..i]), ticks[i], outs[i]) && Sees(ticks[i], cpu, run[i])
    ensures Observes(ticks[..i], cpu, run[..i])
  {
    if i < |ticks| - 1 {
      TickInRun(cal, Front(ticks), Front(outs), cpu, Front(run), i);
      assert Front(ticks)[..i] == ticks[..i] && Front(run)[..i] == run[..i];
    } else {
      assert ticks[..i] == Front(ticks) && run[..i] == Front(run);
    }
  }

  /** num / den, rounded down, with num and den both reals. */
  predicate IsQuotient(hz: int, num: real, den: real)
  {
    hz as real * den <= num < (hz + 1) as real * den
  }

  /** Cycles per second, as long as that is below 2^64. */
  predicate ShowsUsed(a: Truth, b: Truth, hz: uint64)
  {
    var cycles, elapsed := (b.cycles - a.cycles) as real, b.ts - a.ts;
    if elapsed > 0.0
    then cycles < 0x1_0000_0000_0000_0000 as real * elapsed ==> IsQuotient(hz, cycles, elapsed)
    else hz == 0
  }

  /** A clock times cycles run per reference cycle, as long as that is below 2^64. */
  predicate ShowsRate(ref: real, cycles: int, reference: int, hz: uint64)
  {
    if reference > 0 && ref > 0.0
    then
      ref * cycles as real < 0x1_0000_0000_0000_0000 as real * reference as real ==>
        IsQuotient(hz, ref * cycles as real, reference as real)
    else hz == 0
  }

  /** The clock is the nominal one, or the TSC's where that is not known. */
  predicate ShowsBusy(cal: Calibration, a: Truth, b: Truth, hz: uint64)
  {
    ShowsRate(if cal.baseHz != 0.0 then cal.baseHz else cal.tscHz, b.cycles - a.cycles, b.reference - a.reference, hz)
  }

  /** Neither counter goes on by 2^64 between two reads. */
  predicate WithinRegisters(a: Truth, b: Truth)
  {
    a.cycles <= b.cycles < a.cycles + TWO64 && a.reference <= b.reference < a.reference + TWO64
  }

  lemma FloorIsQuotient(num: real, den: real, hz: uint64)
    requires den > 0.0 && 0.0 <= num < TWO64 as real * den && ConvertsTo(num / den, hz)
    ensures IsQuotient(hz, num, den)
  {
    QuotientInRange(num, den, TWO64 as real);
    FloorTimes(num, den);
    assert (hz + 1) as real * den == hz as real * den + den;
  }

  lemma UsedShows(a: Truth, b: Truth, hz: uint64)
    requires WithinRegisters(a, b) && UsedHz(AsSample(a), AsSample(b), hz)
    ensures ShowsUsed(a, b, hz)
  {
    var e, d := b.ts - a.ts, b.cycles - a.cycles;
    Sub64IsAdvance(a.cycles, b.cycles);
    if e > 0.0 && d as real < TWO64 as real * e {
      FloorIsQuotient(d as real, e, hz);
    }
  }

  lemma BusyShows(cal: Calibration, a: Truth, b: Truth, hz: uint64)
    requires WithinRegisters(a, b) && BusyHz(cal, AsSample(a), AsSample(b), hz)
    ensures ShowsBusy(cal, a, b, hz)
  {
    Sub64IsAdvance(a.cycles, b.cycles);
    Sub64IsAdvance(a.reference, b.reference);
    RateShows(RefHz(cal), b.cycles - a.cycles, b.reference - a.reference, hz);
  }

  lemma RateShows(ref: real, d: uint64, m: uint64, hz: uint64)
    requires if m > 0 && ref > 0.0 then ConvertsTo(BusyRate(ref, d, m), hz) else hz == 0
    ensures ShowsRate(ref, d, m, hz)
  {
    if m > 0 && ref > 0.0 {
      BusyRateIsQuotient(ref, d, m, hz);
    }
  }

  lemma BusyRateIsQuotient(ref: real, d: uint64, m: uint64, hz: uint64)
    requires ref > 0.0 && m > 0 && ConvertsTo(BusyRate(ref, d, m), hz)
    ensures ref * d as real < TWO64 as real * m as real ==> IsQuotient(hz, ref * d as real, m as real)
  {
    var num, den := ref * d as real, m as real;
    assert num >= 0.0;
    if num < TWO64 as real * den {
      FloorIsQuotient(num, den, hz);
    }
  }

  /** A rate in range is zero exactly when there is nothing to measure by, or it comes to less than one. */
  lemma RateIsZeroIff(ref: real, cycles: nat, reference: nat, hz: uint64)
    requires ShowsRate(ref, cycles, reference, hz)
    requires ref * cycles as real < 0x1_0000_0000_0000_0000 as real * reference as real || reference == 0 || ref <= 0.0
    ensures hz == 0 <==> reference == 0 || ref <= 0.0 || ref * cycles as real < reference as real
  {
    if reference > 0 && ref > 0.0 {
      ZeroQuotient(hz, ref * cycles as real, reference as real);
    }
  }

  lemma ZeroQuotient(hz: uint64, num: real, den: real)
    requires den > 0.0 && IsQuotient(hz, num, den)
    ensures hz == 0 <==> num < den
  {
    if hz > 0 {
      TimesGrows(1.0, hz as real, den);
    }
  }

  /** Degrees below TjMax are in bits 16 to 22 of the thermal status; nothing is shown without a TjMax. */
  ghost predicate ShowsTemperature(cal: Calibration, therm: uint64, celsius: real)
  {
    if cal.tjmax > 0.0
    then exists below: nat :: HasField(therm, 65536, 128, below) && celsius == cal.tjmax - below as real
    else celsius == 0.0
  }

  /** Volts are in bits 32 to 47 of the performance status, in units of 1/8192. */
  ghost predicate ShowsVoltage(status: uint64, volts: real)
  {
    exists units: nat :: HasField(status, 0x1_0000_0000, 65536, units) && volts * 8192.0 == units as real
  }

  lemma TemperatureShows(cal: Calibration, therm: uint64, celsius: real)
    requires celsius == if cal.tjmax > 0.0 then cal.tjmax - Bits(therm, 16, 128) as real else 0.0
    ensures ShowsTemperature(cal, therm, celsius)
  {
    Pow2Literals();
    BitsIff(therm, 16, 128, Bits(therm, 16, 128));
  }

  lemma VoltageShows(status: uint64, volts: real)
    requires volts == Bits(status, 32, 0x1_0000) as real / 8192.0
    ensures ShowsVoltage(status, volts)
  {
    Pow2Literals();
    BitsIff(status, 32, 65536, Bits(status, 32, 65536));
  }

  /**
    What every reading of every run shows. Temperature and voltage are read off the registers; both frequencies are
    zero on a CPU's first successful read, and otherwise measured against its last one, however long ago.
   */
  lemma ReadingsShow(cal: Calibration, ticks: seq<Tick>, outs: seq<map<int, CoreReading>>, cpu: int,
                     run: seq<Option<Truth>>, i: nat)
    requires RunOf(cal, ticks, outs) && Observes(ticks, cpu, run) && i < |ticks|
    ensures cpu in outs[i] <==> run[i].Some?
    ensures cpu in outs[i] ==>
              var r, before := outs[i][cpu], LastSeen(run[..i]);
              && cpu in ticks[i] && ticks[i][cpu].Some?
              && ShowsTemperature(cal, ticks[i][cpu].value.therm, r.tempC)
              && ShowsVoltage(ticks[i][cpu].value.perfStatus, r.voltageV)
              && (before == None ==> r.freqHz == 0 && r.freqUsedHz == 0)
              && (before.Some? && WithinRegisters(before.value, run[i].value) ==>
                    && ShowsUsed(before.value, run[i].value, r.freqUsedHz)
                    && ShowsBusy(cal, before.value, run[i].value, r.freqHz))
  {
    TickInRun(cal, ticks, outs, cpu, run, i);
    if cpu in outs[i] {
      var r, before, reading := outs[i][cpu], LastSeen(run[..i]), ticks[i][cpu].value;
      TemperatureShows(cal, reading.therm, r.tempC);
      VoltageShows(reading.perfStatus, r.voltageV);
      BaselineIsLastSeen(ticks[..i], cpu, run[..i]);
      if before.Some? && WithinRegisters(before.value, run[i].value) {
        UsedShows(before.value, run[i].value, r.freqUsedHz);
        BusyShows(cal, before.value, run[i].value, r.freqHz);
      }
    }
  }

  // ---- The busy frequency over whole runs

  function BusyBy(outs: seq<map<int, CoreReading>>, cpu: int): (busy: seq<uint64>)
    ensures |busy| == |outs|
  {
    if outs == [] then []
    else BusyBy(Front(outs), cpu) + [if cpu in Last(outs) then Last(outs)[cpu].freqHz else 0]
  }

  /** The reported busy frequencies, each times the reference cycles of its step. */
  function BusyCycles(run: seq<Option<Truth>>, busy: seq<uint64>): real
    requires |run| == |busy|
  {
    if run == [] then 0.0
    else
      var prev, cur := LastSeen(Front(run)), Last(run);
      BusyCycles(Front(run), Front(busy))
      + if prev.Some? && cur.Some?
        then CyclesIn(Last(busy), (cur.value.reference - prev.value.reference) as real) else 0.0
  }

  /** The cycles run in steps without any reference cycle, in which no busy frequency is reported. */
  function Unclocked(run: seq<Option<Truth>>): int
  {
    if run == [] then 0
    else
      var prev, cur := LastSeen(Front(run)), Last(run);
      Unclocked(Front(run))
      + if prev.Some? && cur.Some? && cur.value.reference == prev.value.reference
        then cur.value.cycles - prev.value.cycles else 0
  }

  /** Neither the counters nor the busy frequency outgrow 64 bits. */
  predicate Clocked(ref: real, a: Truth, b: Truth)
  {
    && WithinRegisters(a, b)
    && (b.reference > a.reference ==>
          ref * (b.cycles - a.cycles) as real < TWO64 as real * (b.reference - a.reference) as real)
  }

  predicate AlwaysClocked(ref: real, run: seq<Option<Truth>>)
  {
    run == []
    || (AlwaysClocked(ref, Front(run))
        && var prev, cur := LastSeen(Front(run)), Last(run);
           prev.Some? && cur.Some? ==> Clocked(ref, prev.value, cur.value))
  }

  /** The clock times the cycles run, over the steps that have reference cycles. */
  function ClockedCycles(ref: real, run: seq<Option<Truth>>): real
  {
    if run == [] then 0.0
    else
      var prev, cur := LastSeen(Front(run)), Last(run);
      ClockedCycles(ref, Front(run))
      + if prev.Some? && cur.Some? then ClockedIn(ref, prev.value, cur.value) else 0.0
  }

  function ClockedIn(ref: real, a: Truth, b: Truth): real
  {
    if b.reference == a.reference then 0.0 else ref * (b.cycles - a.cycles) as real
  }

  /** What a step adds: no more than the clock times the cycles run, and less than that by at most one per cycle. */
  lemma BusyStep(cal: Calibration, ref: real, a: Truth, b: Truth, hz: uint64)
    requires ref == (if cal.baseHz != 0.0 then cal.baseHz else cal.tscHz) && ref > 0.0
    requires Clocked(ref, a, b) && ShowsBusy(cal, a, b, hz)
    ensures var m := (b.reference - a.reference) as real;
            if m > 0.0 then ClockedIn(ref, a, b) - m < CyclesIn(hz, m) <= ClockedIn(ref, a, b)
            else CyclesIn(hz, m) == 0.0 && ClockedIn(ref, a, b) == 0.0
  {
    var m := (b.reference - a.reference) as real;
    assert (hz + 1) as real * m == hz as real * m + m;
  }

  lemma ScaleAdds(ref: real, a: int, b: int)
    ensures ref * (a + b) as real == ref * a as real + ref * b as real
  {
    assert (a + b) as real == a as real + b as real;
  }

  /** The cycles run in steps that have reference cycles. */
  function ClockedAdvance(run: seq<Option<Truth>>): int
  {
    if run == [] then 0
    else
      var prev, cur := LastSeen(Front(run)), Last(run);
      ClockedAdvance(Front(run))
      + if prev.Some? && cur.Some? && cur.value.reference != prev.value.reference
        then cur.value.cycles - prev.value.cycles else 0
  }

  lemma {:induction false} ClockedCyclesScale(ref: real, run: seq<Option<Truth>>)
    ensures ClockedCycles(ref, run) == ref * ClockedAdvance(run) as real
  {
    if run != [] {
      ClockedCyclesScale(ref, Front(run));
      var prev, cur := LastSeen(Front(run)), Last(run);
      if prev.Some? && cur.Some? && cur.value.reference != prev.value.reference {
        ScaleAdds(ref, ClockedAdvance(Front(run)), cur.value.cycles - prev.value.cycles);
      } else {
        assert ClockedAdvance(run) == ClockedAdvance(Front(run));
      }
    }
  }

  lemma {:induction false} ClockedAdvanceIs(run: seq<Option<Truth>>)
    requires LastSeen(run).Some?
    ensures FirstSeen(run).Some?
    ensures ClockedAdvance(run) == LastSeen(run).value.cycles - FirstSeen(run).value.cycles - Unclocked(run)
  {
    var before := Front(run);
    SeenTogether(before);
    if LastSeen(before).Some? {
      ClockedAdvanceIs(before);
    } else {
      NothingClocked(0.0, before);
    }
  }

  lemma {:induction false} NothingClocked(ref: real, run: seq<Option<Truth>>)
    requires LastSeen(run) == None
    ensures ClockedCycles(ref, run) == 0.0 && Unclocked(run) == 0 && ClockedAdvance(run) == 0
  {
    if run != [] {
      NothingClocked(ref, Front(run));
    }
  }

  /** The columns that a run shows, one step after another. */
  ghost predicate ShowsAllBusy(cal: Calibration, run: seq<Option<Truth>>, busy: seq<uint64>)
    requires |run| == |busy|
  {
    run == []
    || (ShowsAllBusy(cal, Front(run), Front(busy))
        && (Last(run).Some? && LastSeen(Front(run)).Some? ==>
              ShowsBusy(cal, LastSeen(Front(run)).value, Last(run).value, Last(busy))))
  }

  lemma {:induction false} BusyHzTelescopes(cal: Calibration, ref: real, run: seq<Option<Truth>>, busy: seq<uint64>)
    requires |run| == |busy| && ShowsAllBusy(cal, run, busy) && LastSeen(run).Some?
    requires ref == (if cal.baseHz != 0.0 then cal.baseHz else cal.tscHz) && ref > 0.0 && AlwaysClocked(ref, run)
    ensures FirstSeen(run).Some?
    ensures var reference := (LastSeen(run).value.reference - FirstSeen(run).value.reference) as real;
            if reference > 0.0
            then ClockedCycles(ref, run) - reference < BusyCycles(run, busy) <= ClockedCycles(ref, run)
            else reference == 0.0 && BusyCycles(run, busy) == ClockedCycles(ref, run) == 0.0
  {
    var before := Front(run);
    SeenTogether(before);
    if LastSeen(before).Some? {
      BusyHzTelescopes(cal, ref, before, Front(busy));
      if Last(run).Some? {
        BusyStep(cal, ref, LastSeen(before).value, Last(run).value, Last(busy));
      }
    } else {
      NothingBusy(before, Front(busy));
      NothingClocked(ref, before);
    }
  }

  lemma {:induction false} NothingBusy(run: seq<Option<Truth>>, busy: seq<uint64>)
    requires |run| == |busy| && LastSeen(run) == None
    ensures BusyCycles(run, busy) == 0.0
  {
    if run != [] {
      NothingBusy(Front(run), Front(busy));
    }
  }

  lemma {:induction false} RunShowsAllBusy(cal: Calibration, ref: real, ticks: seq<Tick>,
                                           outs: seq<map<int, CoreReading>>, cpu: int, run: seq<Option<Truth>>)
    requires RunOf(cal, ticks, outs) && Observes(ticks, cpu, run) && AlwaysClocked(ref, run)
    ensures ShowsAllBusy(cal, run, BusyBy(outs, cpu))
  {
    if ticks != [] {
      RunShowsAllBusy(cal, ref, Front(ticks), Front(outs), cpu, Front(run));
      assert Front(BusyBy(outs, cpu)) == BusyBy(Front(outs), cpu);
      var prev, cur := LastSeen(Front(run)), Last(run);
      if prev.Some? && cur.Some? {
        BaselineIsLastSeen(Front(ticks), cpu, Front(run));
        BusyShows(cal, prev.value, cur.value, Last(outs)[cpu].freqHz);
      }
    }
  }

  /**
    So the busy frequencies that the collector really reports telescope as well, across missed reads: each times its
    step's reference cycles, they add up to the clock times the cycles run while the reference counter ran, short of
    it by less than the reference cycles.
   */
  lemma ReportedBusyTelescopes(cal: Calibration, ref: real, ticks: seq<Tick>, outs: seq<map<int, CoreReading>>,
                               cpu: int, run: seq<Option<Truth>>)
    requires RunOf(cal, ticks, outs) && Observes(ticks, cpu, run) && LastSeen(run).Some?
    requires ref == (if cal.baseHz != 0.0 then cal.baseHz else cal.tscHz) && ref > 0.0 && AlwaysClocked(ref, run)
    ensures FirstSeen(run).Some?
    ensures var reference := (LastSeen(run).value.reference - FirstSeen(run).value.reference) as real;
            var clocked, reported := ClockedCycles(ref, run), BusyCycles(run, BusyBy(outs, cpu));
            if reference > 0.0 then clocked - reference < reported <= clocked
            else reference == 0.0 && reported == clocked == 0.0
    ensures ClockedCycles(ref, run)
            == ref * (LastSeen(run).value.cycles - FirstSeen(run).value.cycles - Unclocked(run)) as real
  {
    RunShowsAllBusy(cal, ref, ticks, outs, cpu, run);
    BusyHzTelescopes(cal, ref, run, BusyBy(outs, cpu));
    ClockedCyclesAre(ref, run);
  }

  lemma ClockedCyclesAre(ref: real, run: seq<Option<Truth>>)
    requires LastSeen(run).Some?
    ensures FirstSeen(run).Some?
    ensures ClockedCycles(ref, run)
            == ref * (LastSeen(run).value.cycles - FirstSeen(run).value.cycles - Unclocked(run)) as real
  {
    ClockedCyclesScale(ref, run);
    ClockedAdvanceIs(run);
  }
}
