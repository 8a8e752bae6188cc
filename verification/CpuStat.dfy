/**
  Per-core CPU shares (internal/collector/cpu/cpu.go, Collect and deltaRow), over real arithmetic. Rounding to
  float32 and the hardware columns of a row are not part of this model.
 */
module CpuStat {
  import opened Prelude

  datatype Mode = User | Nice | System | Idle | Iowait | Irq | Softirq | Steal | Guest | GuestNice

  /** One value per mode: the counters of procfs.CPUStat, their deltas, or a row's percentages. */
  datatype PerMode = PerMode(
    user: real, nice: real, system: real, idle: real, iowait: real,
    irq: real, softirq: real, steal: real, guest: real, guestNice: real)
  {
    function Get(m: Mode): real
    {
      match m
      case User => user
      case Nice => nice
      case System => system
      case Idle => idle
      case Iowait => iowait
      case Irq => irq
      case Softirq => softirq
      case Steal => steal
      case Guest => guest
      case GuestNice => guestNice
    }

    /** cpuDelta.total */
    function Total(): real
    {
      user + nice + system + idle + iowait + irq + softirq + steal + guest + guestNice
    }
  }

  const ZERO: PerMode := PerMode(0.0, 0.0, 0.0, 0.0, 0.0, 0.0, 0.0, 0.0, 0.0, 0.0)

  function Delta(prev: PerMode, cur: PerMode): PerMode
  {
    PerMode(cur.user - prev.user, cur.nice - prev.nice, cur.system - prev.system, cur.idle - prev.idle,
            cur.iowait - prev.iowait, cur.irq - prev.irq, cur.softirq - prev.softirq, cur.steal - prev.steal,
            cur.guest - prev.guest, cur.guestNice - prev.guestNice)
  }

  /** The percentages of deltaRow; all zero when nothing was counted. */
  function Shares(prev: PerMode, cur: PerMode): PerMode
  {
    var d := Delta(prev, cur);
    var total := d.Total();
    if total == 0.0 then ZERO
    else PerMode(d.user / total * 100.0, d.nice / total * 100.0, d.system / total * 100.0, d.idle / total * 100.0,
                 d.iowait / total * 100.0, d.irq / total * 100.0, d.softirq / total * 100.0, d.steal / total * 100.0,
                 d.guest / total * 100.0, d.guestNice / total * 100.0)
  }

  /** deltaRow, as far as it depends on the counters. The row stores uint16(core). */
  datatype Row = Row(core: int, shares: PerMode)

  function DeltaRow(core: int, prev: PerMode, cur: PerMode): Row
  {
    Row(core % 0x1_0000, Shares(prev, cur))
  }

  ghost predicate Monotone(prev: PerMode, cur: PerMode)
  {
    forall m: Mode :: prev.Get(m) <= cur.Get(m)
  }

  lemma ShareOf(prev: PerMode, cur: PerMode, m: Mode)
    ensures Delta(prev, cur).Get(m) == cur.Get(m) - prev.Get(m)
    ensures var total := Delta(prev, cur).Total();
            Shares(prev, cur).Get(m) == if total == 0.0 then 0.0 else (cur.Get(m) - prev.Get(m)) / total * 100.0
  {
  }

  lemma PartOfTotal(prev: PerMode, cur: PerMode, m: Mode)
    requires Monotone(prev, cur)
    ensures 0.0 <= cur.Get(m) - prev.Get(m) <= Delta(prev, cur).Total()
  {
    var d := Delta(prev, cur);
    forall n: Mode
      ensures d.Get(n) >= 0.0
    {
      assert prev.Get(n) <= cur.Get(n);
    }
    assert d.Get(User) >= 0.0 && d.Get(Nice) >= 0.0 && d.Get(System) >= 0.0 && d.Get(Idle) >= 0.0
        && d.Get(Iowait) >= 0.0 && d.Get(Irq) >= 0.0 && d.Get(Softirq) >= 0.0 && d.Get(Steal) >= 0.0
        && d.Get(Guest) >= 0.0 && d.Get(GuestNice) >= 0.0;
    ShareOf(prev, cur, m);
  }

  lemma Fraction(part: real, total: real)
    requires 0.0 <= part <= total && total > 0.0
    ensures 0.0 <= part / total * 100.0 <= 100.0
  {
    var f := part / total;
    assert f * total == part;
    assert 0.0 <= f <= 1.0;
  }

  /** With counters that do not decrease, every share lies between 0 and 100. */
  lemma SharesArePercentages(prev: PerMode, cur: PerMode, m: Mode)
    requires Monotone(prev, cur)
    ensures 0.0 <= Shares(prev, cur).Get(m) <= 100.0
  {
    PartOfTotal(prev, cur, m);
    ShareOf(prev, cur, m);
    var total := Delta(prev, cur).Total();
    if total != 0.0 {
      Fraction(cur.Get(m) - prev.Get(m), total);
    }
  }

  /**
    Nothing re-baselines a decreasing counter: a row shows a negative share exactly when the mode's own delta and
    the sum of all ten have opposite signs.
   */
  lemma NegativeShareIff(prev: PerMode, cur: PerMode, m: Mode)
    ensures var d, total := cur.Get(m) - prev.Get(m), Delta(prev, cur).Total();
            Shares(prev, cur).Get(m) < 0.0 <==> (d < 0.0 < total) || (total < 0.0 < d)
  {
    ShareOf(prev, cur, m);
    var total := Delta(prev, cur).Total();
    if total != 0.0 {
      QuotientSign(cur.Get(m) - prev.Get(m), total);
    }
  }

  lemma QuotientSign(x: real, t: real)
    requires t != 0.0
    ensures x / t * 100.0 < 0.0 <==> (x < 0.0 < t) || (t < 0.0 < x)
  {
    var f := x / t;
    assert f * t == x;
  }

  /** Running a step backwards turns every delta and their sum around, and so changes no share. */
  lemma SharesAreSymmetric(prev: PerMode, cur: PerMode, m: Mode)
    ensures Delta(cur, prev).Total() == -Delta(prev, cur).Total()
    ensures Shares(prev, cur).Get(m) == Shares(cur, prev).Get(m)
  {
    ShareOf(prev, cur, m);
    ShareOf(cur, prev, m);
    var x, t := cur.Get(m) - prev.Get(m), Delta(prev, cur).Total();
    if t != 0.0 {
      NegatedQuotient(x, t);
    }
  }

  lemma NegatedQuotient(x: real, t: real)
    requires t != 0.0
    ensures (-x) / (-t) == x / t
  {
    var f := x / t;
    assert f * t == x;
    assert f * (-t) == -x;
  }

  /**
    The shares of a row are percentages if and only if its total is zero or its counters all moved the same way,
    upwards or downwards: a core whose counters all restarted is not told from one that ran.
   */
  lemma SharesArePercentagesIff(prev: PerMode, cur: PerMode)
    ensures (forall m: Mode :: 0.0 <= Shares(prev, cur).Get(m) <= 100.0)
            <==> Delta(prev, cur).Total() == 0.0 || Monotone(prev, cur) || Monotone(cur, prev)
  {
    var t := Delta(prev, cur).Total();
    if t == 0.0 || Monotone(prev, cur) || Monotone(cur, prev) {
      forall m: Mode
        ensures 0.0 <= Shares(prev, cur).Get(m) <= 100.0
      {
        ShareOf(prev, cur, m);
        if Monotone(prev, cur) {
          SharesArePercentages(prev, cur, m);
        } else if Monotone(cur, prev) {
          SharesArePercentages(cur, prev, m);
          SharesAreSymmetric(prev, cur, m);
        }
      }
    } else {
      var down: Mode :| !(prev.Get(down) <= cur.Get(down));
      var up: Mode :| !(cur.Get(up) <= prev.Get(up));
      NegativeShareIff(prev, cur, down);
      NegativeShareIff(prev, cur, up);
    }
  }

  /**
    What is seen of counters that decreased, since the row is emitted all the same: some share is negative if and
    only if other counters increased and the deltas do not cancel out.
   */
  lemma DecreaseShowsIff(prev: PerMode, cur: PerMode)
    requires !Monotone(prev, cur)
    ensures (exists m: Mode :: Shares(prev, cur).Get(m) < 0.0)
            <==> Delta(prev, cur).Total() != 0.0 && !Monotone(cur, prev)
  {
    SharesArePercentagesIff(prev, cur);
    if forall m: Mode :: Shares(prev, cur).Get(m) >= 0.0 {
      SharesSumToHundred(prev, cur);
      forall m: Mode
        ensures Shares(prev, cur).Get(m) <= 100.0
      {
        PartOfTotal(ZERO, Shares(prev, cur), m);
        assert ZERO.Get(m) == 0.0;
      }
    }
  }

  /** Counted user time drops from 5 to 4 while idle time grows by 3: the row's user share is negative. */
  lemma ADecreaseShowsAsNegative(prev: PerMode, cur: PerMode)
    requires prev == ZERO.(user := 5.0) && cur == ZERO.(user := 4.0, idle := 3.0)
    ensures Shares(prev, cur).Get(User) < 0.0
  {
    NegativeShareIff(prev, cur, User);
  }

  /** A core whose counters restart from zero: every counter that moved fell, and the row looks like half a load. */
  lemma ARestartLooksLikeLoad(prev: PerMode, cur: PerMode)
    requires prev == ZERO.(user := 5.0, idle := 5.0) && cur == ZERO
    ensures !Monotone(prev, cur) && Shares(prev, cur) == ZERO.(user := 50.0, idle := 50.0)
  {
    assert !(prev.Get(User) <= cur.Get(User));
    assert Delta(prev, cur).Total() == -10.0;
  }

  /** Whatever the counters did, the ten shares of a row sum to 100 unless its total is zero. */
  lemma SharesSumToHundred(prev: PerMode, cur: PerMode)
    ensures Shares(prev, cur).Total() == if Delta(prev, cur).Total() == 0.0 then 0.0 else 100.0
  {
    var d := Delta(prev, cur);
    var t := d.Total();
    if t != 0.0 {
      var k := 100.0 / t;
      Scaled(d.user, t); Scaled(d.nice, t); Scaled(d.system, t); Scaled(d.idle, t); Scaled(d.iowait, t);
      Scaled(d.irq, t); Scaled(d.softirq, t); Scaled(d.steal, t); Scaled(d.guest, t); Scaled(d.guestNice, t);
      assert Shares(prev, cur).Total()
          == d.user * k + d.nice * k + d.system * k + d.idle * k + d.iowait * k
             + d.irq * k + d.softirq * k + d.steal * k + d.guest * k + d.guestNice * k
          == t * k;
    }
  }

  lemma Scaled(x: real, t: real)
    requires t != 0.0
    ensures x / t * 100.0 == x * (100.0 / t)
  {
  }

  // ---- Field by field

  /** The time a core counted in a step, over all ten modes. */
  function Counted(prev: PerMode, cur: PerMode): real
  {
    (cur.user - prev.user) + (cur.nice - prev.nice) + (cur.system - prev.system) + (cur.idle - prev.idle)
    + (cur.iowait - prev.iowait) + (cur.irq - prev.irq) + (cur.softirq - prev.softirq) + (cur.steal - prev.steal)
    + (cur.guest - prev.guest) + (cur.guestNice - prev.guestNice)
  }

  /** Every share is its own mode's part of that time, in percent; without any time all are zero. */
  predicate PercentOf(share: real, before: real, after: real, counted: real)
  {
    if counted == 0.0 then share == 0.0 else share * counted == 100.0 * (after - before)
  }

  predicate AreShares(s: PerMode, prev: PerMode, cur: PerMode, counted: real)
  {
    && PercentOf(s.user, prev.user, cur.user, counted) && PercentOf(s.nice, prev.nice, cur.nice, counted)
    && PercentOf(s.system, prev.system, cur.system, counted) && PercentOf(s.idle, prev.idle, cur.idle, counted)
    && PercentOf(s.iowait, prev.iowait, cur.iowait, counted) && PercentOf(s.irq, prev.irq, cur.irq, counted)
    && PercentOf(s.softirq, prev.softirq, cur.softirq, counted) && PercentOf(s.steal, prev.steal, cur.steal, counted)
    && PercentOf(s.guest, prev.guest, cur.guest, counted)
    && PercentOf(s.guestNice, prev.guestNice, cur.guestNice, counted)
  }

  lemma TotalIsCounted(prev: PerMode, cur: PerMode)
    ensures Delta(prev, cur).Total() == Counted(prev, cur)
  {
  }

  lemma ShareIsPercent(x: real, before: real, after: real, t: real)
    requires t != 0.0 && x == (after - before) / t * 100.0
    ensures PercentOf(x, before, after, t)
  {
    var f := (after - before) / t;
    assert f * t == after - before;
    assert x * t == f * t * 100.0;
  }

  /** The ten shares, each by the field it is stored in, and their sum. */
  lemma SharesByField(prev: PerMode, cur: PerMode)
    ensures var s, counted := Shares(prev, cur), Counted(prev, cur);
            && AreShares(s, prev, cur, counted)
            && s.user + s.nice + s.system + s.idle + s.iowait + s.irq + s.softirq + s.steal + s.guest + s.guestNice
               == if counted == 0.0 then 0.0 else 100.0
  {
    TotalIsCounted(prev, cur);
    SharesSumToHundred(prev, cur);
    var s, t := Shares(prev, cur), Counted(prev, cur);
    if t != 0.0 {
      ShareIsPercent(s.user, prev.user, cur.user, t);
      ShareIsPercent(s.nice, prev.nice, cur.nice, t);
      ShareIsPercent(s.system, prev.system, cur.system, t);
      ShareIsPercent(s.idle, prev.idle, cur.idle, t);
      ShareIsPercent(s.iowait, prev.iowait, cur.iowait, t);
      ShareIsPercent(s.irq, prev.irq, cur.irq, t);
      ShareIsPercent(s.softirq, prev.softirq, cur.softirq, t);
      ShareIsPercent(s.steal, prev.steal, cur.steal, t);
      ShareIsPercent(s.guest, prev.guest, cur.guest, t);
      ShareIsPercent(s.guestNice, prev.guestNice, cur.guestNice, t);
    }
  }

  /** A core running a virtual machine, which counts the same time twice: user and guest get half each. */
  lemma GuestTimeCountsTwice(prev: PerMode, cur: PerMode)
    requires prev == ZERO && cur == ZERO.(user := 50.0, guest := 50.0)
    ensures Shares(prev, cur) == ZERO.(user := 50.0, guest := 50.0)
  {
    assert Delta(prev, cur).Total() == 100.0;
  }

  // ---- The collector

  type Stat = map<int, PerMode>

  /** The cores a tick can report on: those it shares with the baseline. */
  function Reported(prev: Option<Stat>, cur: Stat): set<int>
  {
    if prev == None then {} else prev.value.Keys * cur.Keys
  }

  /** An order in which Go may iterate over a map: every key once. */
  ghost predicate Enumerates(order: seq<int>, keys: set<int>)
  {
    && (forall i, j :: 0 <= i < j < |order| ==> order[i] != order[j])
    && (forall c :: c in order <==> c in keys)
  }

  /** One row per core, each computed from that core's two readings. */
  ghost predicate RowsFor(rows: seq<Row>, cores: seq<int>, prev: Stat, cur: Stat)
  {
    && |rows| == |cores|
    && forall i :: 0 <= i < |rows| ==>
         cores[i] in prev && cores[i] in cur && rows[i] == DeltaRow(cores[i], prev[cores[i]], cur[cores[i]])
  }

  /** The rows of one tick, and the cores they are about. */
  ghost predicate TickOf(prev: Option<Stat>, stat: Option<Stat>, rows: seq<Row>, cores: seq<int>)
  {
    if prev.Some? && stat.Some?
    then Enumerates(cores, Reported(prev, stat.value)) && RowsFor(rows, cores, prev.value, stat.value)
    else rows == [] && cores == []
  }

  class Collector {
    var prev: Option<Stat>

    constructor ()
      ensures prev == None
    {
      prev := None;
    }

    /**
      Collect. `stat` is what reading /proc/stat gave, None for an error; `order` is how the runtime iterates over
      it. There is exactly one row for each core that this reading shares with the last one that succeeded, and a
      failed reading changes nothing.
     */
    method Collect(stat: Option<Stat>, order: seq<int>) returns (ok: bool, rows: seq<Row>, ghost cores: seq<int>)
      requires stat.Some? ==> Enumerates(order, stat.value.Keys)
      modifies this
      ensures ok <==> stat.Some?
      ensures prev == if ok then stat else old(prev)
      ensures TickOf(old(prev), stat, rows, cores)
    {
      ok, rows, cores := stat.Some?, [], [];
      if stat == None {
        return;
      }
      if prev == None {
        prev := stat;
        return;
      }
      var base, cur := prev.value, stat.value;
      for i := 0 to |order|
        invariant RowsFor(rows, cores, base, cur)
        invariant forall j, k :: 0 <= j < k < |cores| ==> cores[j] != cores[k]
        invariant forall c :: c in cores <==> c in order[..i] && c in base
      {
        var core := order[i];
        if core in base {
          rows := rows + [DeltaRow(core, base[core], cur[core])];
          cores := cores + [core];
        }
      }
      assert order[..|order|] == order;
      prev := stat;
    }
  }

  // ---- Whole runs

  /** The baseline after a run of readings: the last successful one. */
  function Baseline(readings: seq<Option<Stat>>): Option<Stat>
  {
    if readings == [] then None else if Last(readings).Some? then Last(readings) else Baseline(Front(readings))
  }

  /** The counted time that a step's share stands for. */
  function Recovered(prev: PerMode, cur: PerMode, m: Mode): real
  {
    Shares(prev, cur).Get(m) * Delta(prev, cur).Total() / 100.0
  }

  /** What all the rows of a core account for in one mode, over a run. */
  function Accounted(readings: seq<Option<Stat>>, core: int, m: Mode): real
  {
    if readings == [] then 0.0
    else
      var before, prev, cur := Accounted(Front(readings), core, m), Baseline(Front(readings)), Last(readings);
      if cur.Some? && core in Reported(prev, cur.value)
      then before + Recovered(prev.value[core], cur.value[core], m)
      else before
  }

  /** A step loses nothing in a mode: its total is not zero, or the mode did not move. */
  predicate StepKeeps(prev: PerMode, cur: PerMode, m: Mode)
  {
    Delta(prev, cur).Total() != 0.0 || cur.Get(m) == prev.Get(m)
  }

  lemma RecoveredIsDelta(prev: PerMode, cur: PerMode, m: Mode)
    ensures Recovered(prev, cur, m) == cur.Get(m) - prev.Get(m) <==> StepKeeps(prev, cur, m)
  {
    ShareOf(prev, cur, m);
    var total := Delta(prev, cur).Total();
    if total != 0.0 {
      BackAgain(cur.Get(m) - prev.Get(m), total);
    }
  }

  lemma BackAgain(x: real, t: real)
    requires t != 0.0
    ensures x / t * 100.0 * t / 100.0 == x
  {
    assert x / t * t == x;
  }

  lemma MonotoneStepKeeps(prev: PerMode, cur: PerMode, m: Mode)
    requires Monotone(prev, cur)
    ensures StepKeeps(prev, cur, m)
  {
    PartOfTotal(prev, cur, m);
  }

  /** The core is in every successful reading. */
  ghost predicate Present(readings: seq<Option<Stat>>, core: int)
  {
    forall i :: 0 <= i < |readings| && readings[i].Some? ==> core in readings[i].value
  }

  /** What the rows fail to account for: movements in steps whose total is zero. */
  function Missed(readings: seq<Option<Stat>>, core: int, m: Mode): real
  {
    if readings == [] then 0.0
    else
      var before, prev, cur := Missed(Front(readings), core, m), Baseline(Front(readings)), Last(readings);
      if cur.Some? && core in Reported(prev, cur.value) && !StepKeeps(prev.value[core], cur.value[core], m)
      then before + cur.value[core].Get(m) - prev.value[core].Get(m)
      else before
  }

  function First(readings: seq<Option<Stat>>): Option<Stat>
  {
    if readings == [] then None
    else if First(Front(readings)).Some? then First(Front(readings))
    else Last(readings)
  }

  lemma {:induction false} EndsHave(readings: seq<Option<Stat>>, core: int)
    requires Present(readings, core)
    ensures First(readings).Some? <==> Baseline(readings).Some?
    ensures Baseline(readings).Some? ==> core in Baseline(readings).value && core in First(readings).value
  {
    if readings != [] {
      assert forall i :: 0 <= i < |readings| - 1 ==> Front(readings)[i] == readings[i];
      EndsHave(Front(readings), core);
    }
  }

  /**
    Over any run in which a core stays present, a mode's shares, each weighted by its row's total, add up to the
    last reading minus the first, short of what `Missed` counts, however many readings failed in between.
   */
  lemma {:induction false} SharesTelescope(readings: seq<Option<Stat>>, core: int, m: Mode)
    requires Present(readings, core) && Baseline(readings).Some?
    ensures First(readings).Some? && core in First(readings).value && core in Baseline(readings).value
    ensures Accounted(readings, core, m) + Missed(readings, core, m)
            == Baseline(readings).value[core].Get(m) - First(readings).value[core].Get(m)
  {
    EndsHave(readings, core);
    var before := Front(readings);
    assert forall i :: 0 <= i < |before| ==> before[i] == readings[i];
    EndsHave(before, core);
    if Baseline(before).Some? {
      SharesTelescope(before, core, m);
      if Last(readings).Some? {
        ZeroTotalRecoversNothing(Baseline(before).value[core], Last(readings).value[core], m);
      }
    } else {
      NothingYet(before, core, m);
    }
  }

  lemma ZeroTotalRecoversNothing(prev: PerMode, cur: PerMode, m: Mode)
    ensures Recovered(prev, cur, m) == if StepKeeps(prev, cur, m) then cur.Get(m) - prev.Get(m) else 0.0
  {
    RecoveredIsDelta(prev, cur, m);
    ShareOf(prev, cur, m);
  }

  lemma {:induction false} NothingYet(readings: seq<Option<Stat>>, core: int, m: Mode)
    requires Baseline(readings) == None
    ensures Accounted(readings, core, m) == 0.0 && Missed(readings, core, m) == 0.0
  {
    if readings != [] {
      NothingYet(Front(readings), core, m);
    }
  }

  /** Between successive successful readings, the core's counters do not decrease. */
  ghost predicate NeverDecreases(readings: seq<Option<Stat>>, core: int)
  {
    readings == []
    || (NeverDecreases(Front(readings), core)
        && (Last(readings).Some? && core in Reported(Baseline(Front(readings)), Last(readings).value) ==>
              Monotone(Baseline(Front(readings)).value[core], Last(readings).value[core])))
  }

  /** With counters that do not decrease nothing is missed, so the shares telescope exactly. */
  lemma {:induction false} MonotoneMissesNothing(readings: seq<Option<Stat>>, core: int, m: Mode)
    requires NeverDecreases(readings, core)
    ensures Missed(readings, core, m) == 0.0
  {
    if readings != [] {
      MonotoneMissesNothing(Front(readings), core, m);
      if Last(readings).Some? && core in Reported(Baseline(Front(readings)), Last(readings).value) {
        MonotoneStepKeeps(Baseline(Front(readings)).value[core], Last(readings).value[core], m);
      }
    }
  }

  // ---- The collector over whole runs

  /** The rows of a run of ticks, and the cores that they are about. */
  ghost predicate RunOf(readings: seq<Option<Stat>>, outs: seq<seq<Row>>, cores: seq<seq<int>>)
  {
    |readings| == |outs| == |cores|
    && (readings == []
        || (RunOf(Front(readings), Front(outs), Front(cores))
            && TickOf(Baseline(Front(readings)), Last(readings), Last(outs), Last(cores))))
  }

  lemma RunOneMore(readings: seq<Option<Stat>>, i: nat, outs: seq<seq<Row>>, rows: seq<Row>, cores: seq<seq<int>>,
                   about: seq<int>)
    requires i < |readings|
    requires RunOf(readings[..i], outs, cores) && TickOf(Baseline(readings[..i]), readings[i], rows, about)
    ensures RunOf(readings[..i + 1], outs + [rows], cores + [about])
    ensures Baseline(readings[..i + 1]) == if readings[i].Some? then readings[i] else Baseline(readings[..i])
  {
    assert Front(readings[..i + 1]) == readings[..i];
    assert Front(outs + [rows]) == outs && Front(cores + [about]) == cores;
  }

  /** One more tick, after i of them. */
  method Tick(c: Collector, readings: seq<Option<Stat>>, i: nat, order: seq<int>, outs: seq<seq<Row>>,
              ghost cores: seq<seq<int>>)
    returns (outs': seq<seq<Row>>, ghost cores': seq<seq<int>>)
    requires i < |readings| && (readings[i].Some? ==> Enumerates(order, readings[i].value.Keys))
    requires c.prev == Baseline(readings[..i]) && RunOf(readings[..i], outs, cores)
    modifies c
    ensures c.prev == Baseline(readings[..i + 1]) && RunOf(readings[..i + 1], outs', cores')
  {
    var ok, rows;
    ghost var about;
    ok, rows, about := c.Collect(readings[i], order);
    RunOneMore(readings, i, outs, rows, cores, about);
    outs', cores' := outs + [rows], cores + [about];
  }

  /** Any number of ticks on one collector: the rows of each. */
  method Run(readings: seq<Option<Stat>>, orders: seq<seq<int>>) returns (outs: seq<seq<Row>>)
    requires |orders| == |readings|
    requires forall i :: 0 <= i < |readings| && readings[i].Some? ==> Enumerates(orders[i], readings[i].value.Keys)
    ensures exists cores: seq<seq<int>> :: RunOf(readings, outs, cores)
  {
    var c := new Collector();
    outs := [];
    ghost var cores: seq<seq<int>> := [];
    for i := 0 to |readings|
      invariant fresh(c) && c.prev == Baseline(readings[..i]) && RunOf(readings[..i], outs, cores)
    {
      outs, cores := Tick(c, readings, i, orders[i], outs, cores);
    }
    assert readings[..|readings|] == readings;
  }

  lemma {:induction false} TickInRun(readings: seq<Option<Stat>>, outs: seq<seq<Row>>, cores: seq<seq<int>>, i: nat)
    requires RunOf(readings, outs, cores) && i < |readings|
    ensures TickOf(Baseline(readings[..i]), readings[i], outs[i], cores[i])
  {
    if i < |readings| - 1 {
      TickInRun(Front(readings), Front(outs), Front(cores), i);
      assert Front(readings)[..i] == readings[..i];
    } else {
      assert readings[..i] == Front(readings);
    }
  }

  /** A tick has exactly one row for each core that its reading shares with the last one that succeeded before it. */
  lemma OneRowPerSharedCore(readings: seq<Option<Stat>>, outs: seq<seq<Row>>, cores: seq<seq<int>>, i: nat, core: int)
    requires RunOf(readings, outs, cores) && i < |readings|
    ensures |outs[i]| == |cores[i]| && forall j, k :: 0 <= j < k < |cores[i]| ==> cores[i][j] != cores[i][k]
    ensures core in cores[i]
            <==> readings[i].Some? && core in Reported(Baseline(readings[..i]), readings[i].value)
  {
    TickInRun(readings, outs, cores, i);
  }

  /**
    What every row of every run says: its core's number in 16 bits, and each mode's share of the time that the core
    counted since the last successful reading.
   */
  lemma RowsShowShares(readings: seq<Option<Stat>>, outs: seq<seq<Row>>, cores: seq<seq<int>>, i: nat, j: nat)
    requires RunOf(readings, outs, cores) && i < |readings| && j < |outs[i]|
    ensures j < |cores[i]| && outs[i][j].core == cores[i][j] % 0x1_0000
    ensures var core, base := cores[i][j], Baseline(readings[..i]);
            && readings[i].Some? && base.Some? && core in base.value && core in readings[i].value
            && var prev, cur, s := base.value[core], readings[i].value[core], outs[i][j].shares;
               && AreShares(s, prev, cur, Counted(prev, cur))
               && s.user + s.nice + s.system + s.idle + s.iowait + s.irq + s.softirq + s.steal + s.guest + s.guestNice
                  == if Counted(prev, cur) == 0.0 then 0.0 else 100.0
  {
    TickInRun(readings, outs, cores, i);
    var core := cores[i][j];
    SharesByField(Baseline(readings[..i]).value[core], readings[i].value[core]);
  }

  /** The row about a core, if there is one. */
  function RowAbout(rows: seq<Row>, cores: seq<int>, core: int): Option<Row>
    requires |rows| == |cores|
  {
    if cores == [] then None
    else if Last(cores) == core then Some(Last(rows))
    else RowAbout(Front(rows), Front(cores), core)
  }

  lemma {:induction false} RowAboutCore(rows: seq<Row>, cores: seq<int>, prev: Stat, cur: Stat, core: int)
    requires RowsFor(rows, cores, prev, cur)
    ensures core in cores ==> core in prev && core in cur
    ensures RowAbout(rows, cores, core)
            == if core in cores then Some(DeltaRow(core, prev[core], cur[core])) else None
  {
    if cores != [] {
      RowAboutCore(Front(rows), Front(cores), prev, cur, core);
      assert cores == Front(cores) + [Last(cores)];
    }
  }

  /** A row's share, turned back into counted time. */
  function Shown(row: Row, prev: PerMode, cur: PerMode, m: Mode): real
  {
    row.shares.Get(m) * Delta(prev, cur).Total() / 100.0
  }

  function ShownInTick(prev: Option<Stat>, stat: Option<Stat>, rows: seq<Row>, cores: seq<int>, core: int,
                       m: Mode): real
    requires |rows| == |cores|
  {
    var row := RowAbout(rows, cores, core);
    if row.Some? && stat.Some? && core in Reported(prev, stat.value)
    then Shown(row.value, prev.value[core], stat.value[core], m)
    else 0.0
  }

  /** A core's rows over a run: each share times the time its row is about. */
  ghost function ShownBy(readings: seq<Option<Stat>>, outs: seq<seq<Row>>, cores: seq<seq<int>>, core: int,
                         m: Mode): real
    requires RunOf(readings, outs, cores)
  {
    if readings == [] then 0.0
    else
      ShownBy(Front(readings), Front(outs), Front(cores), core, m)
      + ShownInTick(Baseline(Front(readings)), Last(readings), Last(outs), Last(cores), core, m)
  }

  lemma ShownIsRecovered(prev: Option<Stat>, stat: Option<Stat>, rows: seq<Row>, cores: seq<int>, core: int, m: Mode)
    requires TickOf(prev, stat, rows, cores)
    ensures ShownInTick(prev, stat, rows, cores, core, m)
            == if stat.Some? && core in Reported(prev, stat.value)
               then Recovered(prev.value[core], stat.value[core], m) else 0.0
  {
    if prev.Some? && stat.Some? {
      RowAboutCore(rows, cores, prev.value, stat.value, core);
    }
  }

  lemma {:induction false} RowsAccount(readings: seq<Option<Stat>>, outs: seq<seq<Row>>, cores: seq<seq<int>>,
                                       core: int, m: Mode)
    requires RunOf(readings, outs, cores)
    ensures ShownBy(readings, outs, cores, core, m) == Accounted(readings, core, m)
  {
    if readings != [] {
      RowsAccount(Front(readings), Front(outs), Front(cores), core, m);
      ShownIsRecovered(Baseline(Front(readings)), Last(readings), Last(outs), Last(cores), core, m);
    }
  }

  /** So the rows that the collector really emits telescope, for every core of every run. */
  lemma EmittedSharesTelescope(readings: seq<Option<Stat>>, outs: seq<seq<Row>>, cores: seq<seq<int>>, core: int,
                               m: Mode)
    requires RunOf(readings, outs, cores) && Present(readings, core) && Baseline(readings).Some?
    ensures First(readings).Some? && core in First(readings).value && core in Baseline(readings).value
    ensures var advance := Baseline(readings).value[core].Get(m) - First(readings).value[core].Get(m);
            && ShownBy(readings, outs, cores, core, m) + Missed(readings, core, m) == advance
            && (NeverDecreases(readings, core) ==> ShownBy(readings, outs, cores, core, m) == advance)
  {
    RowsAccount(readings, outs, cores, core, m);
    SharesTelescope(readings, core, m);
    if NeverDecreases(readings, core) {
      MonotoneMissesNothing(readings, core, m);
    }
  }
}
