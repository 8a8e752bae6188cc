/**
  Package energy, temperature and throttling (internal/collector/cpu/power_linux.go, initPkgState and readPackage).
  MSR values are inputs, None for a failed read; float64 is known only through Machine.Rounds.
 */
module Rapl {
  import opened Prelude
  import opened Machine

  datatype PowerRow = PowerRow(
    energyPkgUj: uint64, energyPP0Uj: uint64, energyPP1Uj: uint64, energyDRAMUj: uint64,
    powerPkgWatts: real, tempPkgC: real, throttleEvents: uint64, uncoreFreqHz: uint64)

  // ---- Energy counters

  const MAX64: uint64 := TWO64 - 1

  /** The delta of readPackage, with its branch for a counter that went backwards. */
  function EnergyDelta(v: uint64, last: uint64): uint64
  {
    if v < last then Add64(Add64(v, Sub64(MAX64, last)), 1) else Sub64(v, last)
  }

  /** The branch changes nothing: it is what uint64 subtraction does anyway. */
  lemma WrapBranchIsSubtraction(v: uint64, last: uint64)
    ensures EnergyDelta(v, last) == Sub64(v, last)
  {
    if v < last {
      assert Add64(v, Sub64(MAX64, last)) == v + MAX64 - last;
    }
  }

  /** The delta of the 32-bit counter that the register really is. */
  function EnergyDelta32(v: int, last: int): int
  {
    (v - last) % TWO32
  }

  /**
    The energy counter has 32 bits. As long as less than 2^32 units are used between two reads, the code's delta is the
    energy used exactly when the counter did not wrap; the delta modulo 2^32 always is.
   */
  lemma DeltaIsEnergyIff(before: nat, after: nat)
    requires before <= after < before + TWO32
    ensures var v, last := after % TWO32, before % TWO32;
            && EnergyDelta32(v, last) == after - before
            && EnergyDelta(v, last) == after - before + (if v < last then TWO64 - TWO32 else 0)
            && (EnergyDelta(v, last) == after - before <==> v >= last)
  {
    ModAdvance(before, after, TWO32);
    WrapBranchIsSubtraction(after % TWO32, before % TWO32);
  }

  ghost predicate Metered(energies: seq<nat>)
  {
    forall i :: 0 < i < |energies| ==> energies[i - 1] <= energies[i] < energies[i - 1] + TWO32
  }

  function Register(energy: nat): uint64
  {
    energy % TWO32
  }

  /** The sum of the deltas over a run of successful reads, as coded. */
  function SumOfDeltas(energies: seq<nat>): nat
  {
    if |energies| <= 1 then 0
    else SumOfDeltas(Front(energies)) + EnergyDelta(Register(Last(energies)), Register(Last(Front(energies))))
  }

  function SumOfDeltas32(energies: seq<nat>): int
  {
    if |energies| <= 1 then 0
    else SumOfDeltas32(Front(energies)) + EnergyDelta32(Register(Last(energies)), Register(Last(Front(energies))))
  }

  function Wraps(energies: seq<nat>): nat
  {
    if |energies| <= 1 then 0
    else Wraps(Front(energies)) + if Register(Last(energies)) < Register(Last(Front(energies))) then 1 else 0
  }

  const EXCESS: nat := TWO64 - TWO32

  /** Over any run, the 32-bit deltas add up to the energy used; the coded ones exceed it by 2^64 - 2^32 per wrap. */
  lemma {:induction false} DeltasOverARun(energies: seq<nat>)
    requires energies != [] && Metered(energies)
    ensures energies[0] <= Last(energies)
    ensures SumOfDeltas32(energies) == Last(energies) - energies[0]
    ensures SumOfDeltas(energies) == Last(energies) - energies[0] + Wraps(energies) * EXCESS
  {
    if |energies| > 1 {
      var before := Front(energies);
      DeltasOverARun(before);
      assert energies[|energies| - 1 - 1] == Last(before);
      DeltaIsEnergyIff(Last(before), Last(energies));
      OneMoreTimes(Wraps(before), EXCESS);
    }
  }

  lemma OneMoreTimes(n: nat, k: nat)
    ensures (n + 1) * k == n * k + k
  {
  }

  /** So the coded deltas are right for a run if and only if the counter never wrapped in it. */
  lemma DeltasAgreeIffNoWrap(energies: seq<nat>)
    requires energies != [] && Metered(energies)
    ensures SumOfDeltas(energies) == SumOfDeltas32(energies) <==> Wraps(energies) == 0
  {
    DeltasOverARun(energies);
    NoneTimes(Wraps(energies), EXCESS);
  }

  lemma NoneTimes(n: nat, k: nat)
    requires k > 0
    ensures n * k == 0 <==> n == 0
  {
  }

  // ---- Microjoules

  /** uint64(float64(v) * energyUnitJ * 1e6), with a rounding after each operation. */
  ghost predicate Microjoules(v: uint64, exp: nat, uj: uint64)
  {
    exists f: real, joules: real, micros: real :: MicrojoulesVia(v, exp, f, joules, micros, uj)
  }

  ghost predicate MicrojoulesVia(v: uint64, exp: nat, f: real, joules: real, micros: real, uj: uint64)
  {
    && Rounds(v as real, f)
    && Rounds(f * UnitJ(exp), joules)
    && Rounds(joules * 1000000.0, micros)
    && ConvertsTo(micros, uj)
  }

  /** 1.0 / float64(uint64(1) << exp) */
  function UnitJ(exp: nat): real
  {
    1.0 / Pow2(exp) as real
  }

  /** n scaled by the unit: the numbers that the energy conversion passes through. */
  lemma ScaledIsRepresentable(n: nat, exp: nat, x: real)
    requires n <= TWO53 && exp <= 1074 && x == n as real * UnitJ(exp)
    ensures Representable(x)
  {
    Inverse(n as real, Pow2(exp) as real);
    assert IsDyadic(x, n, exp);
  }

  lemma Inverse(n: real, d: real)
    requires d > 0.0
    ensures n * (1.0 / d) * d == n
  {
    assert 1.0 / d * d == 1.0;
    assert n * (1.0 / d) * d == n * (1.0 / d * d);
  }

  lemma FloorOfScaled(n: nat, exp: nat)
    ensures (n as real * UnitJ(exp)).Floor == n / Pow2(exp)
  {
    var d := Pow2(exp);
    Inverse(n as real, d as real);
    FloorByBounds(n as real * UnitJ(exp), n, d);
  }

  lemma FloorByBounds(x: real, n: nat, d: nat)
    requires d > 0 && x * d as real == n as real
    ensures x.Floor == n / d
  {
    var q, r := n / d, n % d;
    assert n == q * d + r;
    var f := x - q as real;
    assert f * d as real == x * d as real - (q * d) as real == r as real;
    UnitInterval(f, r as real, d as real);
  }

  lemma UnitInterval(f: real, r: real, d: real)
    requires f * d == r && 0.0 <= r < d
    ensures 0.0 <= f < 1.0
  {
  }

  lemma ScaledInRange(n: nat, exp: nat)
    ensures 0.0 <= n as real * UnitJ(exp) <= n as real
  {
    var d := Pow2(exp) as real;
    var x := n as real * UnitJ(exp);
    Inverse(n as real, d);
    NotLarger(x, n as real, d);
  }

  lemma NotLarger(x: real, n: real, d: real)
    requires x * d == n && d >= 1.0 && n >= 0.0
    ensures 0.0 <= x <= n
  {
  }

  function Scaled(n: nat, exp: nat): real
  {
    n as real * UnitJ(exp)
  }

  /** Rounding leaves a scaled integer alone. */
  lemma RoundsToItself(n: nat, exp: nat, y: real)
    requires n <= TWO53 && exp < 32 && Rounds(Scaled(n, exp), y)
    ensures y == Scaled(n, exp)
  {
    ScaledIsRepresentable(n, exp, Scaled(n, exp));
  }

  lemma ConvertsToFloor(n: nat, exp: nat, uj: uint64)
    requires n <= TWO53 && ConvertsTo(Scaled(n, exp), uj)
    ensures uj == n / Pow2(exp)
  {
    ScaledInRange(n, exp);
    FloorOfScaled(n, exp);
  }

  /** For a 32-bit counter the microjoules are exact: no rounding happens, because v * 10^6 stays below 2^53. */
  lemma MicrojoulesAreExact(v: uint64, exp: nat, uj: uint64)
    requires v < TWO32 && exp < 32 && Microjoules(v, exp, uj)
    ensures uj == v * 1_000_000 / Pow2(exp)
  {
    var f: real, joules: real, micros: real :| MicrojoulesVia(v, exp, f, joules, micros, uj);
    RepresentableInt(v);
    assert f * UnitJ(exp) == Scaled(v, exp);
    RoundsToItself(v, exp, joules);
    Million(v, exp);
    assert joules * 1000000.0 == Scaled(v * 1_000_000, exp);
    RoundsToItself(v * 1_000_000, exp, micros);
    ConvertsToFloor(v * 1_000_000, exp, uj);
  }

  lemma Million(v: nat, exp: nat)
    ensures Scaled(v, exp) * 1000000.0 == Scaled(v * 1_000_000, exp)
  {
    MillionReal(v as real, UnitJ(exp));
    assert (v * 1_000_000) as real == v as real * 1000000.0;
  }

  lemma MillionReal(v: real, u: real)
    ensures v * u * 1000000.0 == v * 1000000.0 * u
  {
  }

  lemma RepresentableInt(v: nat)
    requires v <= TWO53
    ensures Representable(v as real)
  {
    assert Pow2(0) == 1;
    assert IsDyadic(v as real, v, 0);
  }

  // ---- One package

  /** One call of readPackage: when, and what each register gave. */
  datatype Attempt = Attempt(
    now: real, energy: Option<uint64>, pp0: Option<uint64>, pp1: Option<uint64>, dram: Option<uint64>,
    therm: Option<uint64>, uncore: Option<uint64>)

  /** The last successful energy read. */
  datatype Baseline = Baseline(at: real, energy: uint64)

  function Rebase(base: Option<Baseline>, a: Attempt): Option<Baseline>
  {
    if a.energy.Some? then Some(Baseline(a.now, a.energy.value)) else base
  }

  function Watts(exp: nat, delta: uint64, dt: real): real
    requires dt > 0.0
  {
    delta as real * UnitJ(exp) / dt
  }

  /** Power needs an energy read, one before it, and time to have passed in between. */
  function Power(exp: nat, base: Option<Baseline>, a: Attempt): real
  {
    if a.energy.Some? && base.Some? && a.now > base.value.at
    then Watts(exp, EnergyDelta(a.energy.value, base.value.energy), a.now - base.value.at)
    else 0.0
  }

  /** Bit 1 of the thermal status: the sticky log bit. */
  predicate Throttled(therm: uint64)
  {
    Bits(therm, 1, 2) == 1
  }

  function SeesThrottle(a: Attempt): (n: nat)
    ensures n <= 1
  {
    if a.therm.Some? && Throttled(a.therm.value) then 1 else 0
  }

  ghost predicate Converts(exp: nat, msr: Option<uint64>, uj: uint64)
  {
    if msr.Some? then Microjoules(msr.value, exp, uj) else uj == 0
  }

  /** What an attempt reports, given the baseline and the throttle count it leaves. */
  ghost predicate RowOf(exp: nat, tjMax: real, base: Option<Baseline>, events: uint64, a: Attempt, r: PowerRow)
  {
    && r.powerPkgWatts == Power(exp, base, a)
    && Converts(exp, a.energy, r.energyPkgUj) && Converts(exp, a.pp0, r.energyPP0Uj)
    && Converts(exp, a.pp1, r.energyPP1Uj) && Converts(exp, a.dram, r.energyDRAMUj)
    && r.throttleEvents == events
    && r.tempPkgC == (if a.therm.Some? then tjMax - Bits(a.therm.value, 16, 128) as real else 0.0)
    && r.uncoreFreqHz == (if a.uncore.Some? then a.uncore.value % 128 * 100_000_000 else 0)
  }

  /** The unit register has the energy exponent in bits 8 to 12, and the target register TjMax in bits 16 to 23. */
  ghost predicate Calibrated(unit: uint64, target: uint64, exp: nat, tjMax: real)
  {
    HasField(unit, 256, 32, exp) && exists t: nat :: HasField(target, 65536, 256, t) && tjMax == t as real
  }

  lemma CalibrationByLayout(unit: uint64, target: uint64)
    ensures Calibrated(unit, target, Bits(unit, 8, 32), Bits(target, 16, 256) as real)
  {
    Pow2Literals();
    BitsIff(unit, 8, 32, Bits(unit, 8, 32));
    BitsIff(target, 16, 256, Bits(target, 16, 256));
  }

  /** A register's layout leaves no choice. */
  lemma OneCalibration(unit: uint64, target: uint64, exp: nat, tjMax: real)
    ensures Calibrated(unit, target, exp, tjMax)
            <==> exp == Bits(unit, 8, 32) && tjMax == Bits(target, 16, 256) as real
  {
    CalibrationByLayout(unit, target);
    Pow2Literals();
    BitsIff(unit, 8, 32, exp);
    if t: nat :| HasField(target, 65536, 256, t) && tjMax == t as real {
      BitsIff(target, 16, 256, t);
    }
  }

  class Package {
    const energyExp: nat
    const tjMax: real
    var lastEnergy: uint64
    var lastEnergyAt: Option<real>
    var throttleEvents: uint64

    function Base(): Option<Baseline>
      reads this
    {
      if lastEnergyAt.Some? then Some(Baseline(lastEnergyAt.value, lastEnergy)) else None
    }

    /** initPkgState, from MSR_RAPL_POWER_UNIT and the temperature target. */
    constructor (unit: uint64, target: uint64)
      ensures energyExp == Bits(unit, 8, 32) && tjMax == Bits(target, 16, 256) as real
      ensures Calibrated(unit, target, energyExp, tjMax)
      ensures Base() == None && throttleEvents == 0
    {
      energyExp := Bits(unit, 8, 32);
      tjMax := Bits(target, 16, 256) as real;
      lastEnergy, lastEnergyAt, throttleEvents := 0, None, 0;
      CalibrationByLayout(unit, target);
    }

    /**
      readPackage. Only a successful energy read moves the baseline, whether or not time has passed; each read that
      finds the sticky bit set counts one throttle event and writes the status back without it.
     */
    method Read(a: Attempt) returns (r: PowerRow, cleared: Option<uint64>)
      modifies this
      ensures Base() == Rebase(old(Base()), a)
      ensures throttleEvents == Add64(old(throttleEvents), SeesThrottle(a))
      ensures RowOf(energyExp, tjMax, old(Base()), throttleEvents, a, r)
      ensures cleared == if SeesThrottle(a) == 1 then Some(a.therm.value - 2) else None
    {
      r, cleared := PowerRow(0, 0, 0, 0, 0.0, 0.0, 0, 0), None;
      var pkg := ReadEnergy(a.energy);
      var watts := Meter(a);
      r := r.(energyPkgUj := pkg, powerPkgWatts := watts);
      var e0 := ReadEnergy(a.pp0);
      var e1 := ReadEnergy(a.pp1);
      var e2 := ReadEnergy(a.dram);
      r := r.(energyPP0Uj := e0, energyPP1Uj := e1, energyDRAMUj := e2);
      if a.therm.Some? {
        r := r.(tempPkgC := tjMax - Bits(a.therm.value, 16, 128) as real);
      }
      cleared := CountThrottle(a);
      r := r.(throttleEvents := throttleEvents);
      if a.uncore.Some? {
        r := r.(uncoreFreqHz := a.uncore.value % 128 * 100_000_000);
      }
    }

    /** A set sticky bit is counted and cleared. */
    method CountThrottle(a: Attempt) returns (cleared: Option<uint64>)
      modifies this`throttleEvents
      ensures throttleEvents == Add64(old(throttleEvents), SeesThrottle(a))
      ensures cleared == if SeesThrottle(a) == 1 then Some(a.therm.value - 2) else None
    {
      cleared := None;
      if a.therm.Some? && Throttled(a.therm.value) {
        throttleEvents := Add64(throttleEvents, 1);
        BitOneIsTwo(a.therm.value);
        cleared := Some(a.therm.value - 2);
      }
    }

    /** The power of an attempt, and the move of the baseline. */
    method Meter(a: Attempt) returns (watts: real)
      modifies this`lastEnergy, this`lastEnergyAt
      ensures Base() == Rebase(old(Base()), a)
      ensures watts == Power(energyExp, old(Base()), a)
    {
      watts := 0.0;
      if a.energy.Some? {
        var v := a.energy.value;
        if lastEnergyAt.Some? {
          var dt := a.now - lastEnergyAt.value;
          if dt > 0.0 {
            var delta := Sub64(v, lastEnergy);
            if v < lastEnergy {
              delta := Add64(Add64(v, Sub64(MAX64, lastEnergy)), 1);
            }
            watts := Watts(energyExp, delta, dt);
          }
        }
        lastEnergy, lastEnergyAt := v, Some(a.now);
      }
    }

    method ReadEnergy(msr: Option<uint64>) returns (uj: uint64)
      ensures Converts(energyExp, msr, uj)
    {
      uj := 0;
      if msr.Some? {
        var f := Round(msr.value as real);
        var joules := Round(f * UnitJ(energyExp));
        var micros := Round(joules * 1000000.0);
        uj := ToUint64(micros);
        assert MicrojoulesVia(msr.value, energyExp, f, joules, micros, uj);
      }
    }
  }

  // ---- The package over whole runs

  function BaselineAfter(attempts: seq<Attempt>): Option<Baseline>
  {
    if attempts == [] then None else Rebase(BaselineAfter(Front(attempts)), Last(attempts))
  }

  /** The attempts that found the sticky bit set. */
  function Events(attempts: seq<Attempt>): nat
  {
    if attempts == [] then 0 else Events(Front(attempts)) + SeesThrottle(Last(attempts))
  }

  ghost predicate RunOf(exp: nat, tjMax: real, attempts: seq<Attempt>, rows: seq<PowerRow>)
  {
    |attempts| == |rows|
    && (attempts == []
        || (RunOf(exp, tjMax, Front(attempts), Front(rows))
            && RowOf(exp, tjMax, BaselineAfter(Front(attempts)), Events(attempts) % TWO64, Last(attempts), Last(rows))))
  }

  /** Any number of calls on one package, whichever of their reads fail. */
  method Run(unit: uint64, target: uint64, attempts: seq<Attempt>) returns (rows: seq<PowerRow>)
    ensures RunOf(Bits(unit, 8, 32), Bits(target, 16, 256) as real, attempts, rows)
    ensures exists exp: nat, tjMax: real :: Calibrated(unit, target, exp, tjMax) && RunOf(exp, tjMax, attempts, rows)
  {
    var p := new Package(unit, target);
    rows := [];
    for i := 0 to |attempts|
      invariant fresh(p) && p.energyExp == Bits(unit, 8, 32) && p.tjMax == Bits(target, 16, 256) as real
      invariant p.Base() == BaselineAfter(attempts[..i]) && p.throttleEvents == Events(attempts[..i]) % TWO64
      invariant RunOf(p.energyExp, p.tjMax, attempts[..i], rows)
    {
      var r, _ := p.Read(attempts[i]);
      rows := rows + [r];
      assert Front(attempts[..i + 1]) == attempts[..i] && Front(rows) == rows[..i];
      CountedModulo(Events(attempts[..i]), SeesThrottle(attempts[i]));
    }
    assert attempts[..|attempts|] == attempts;
  }

  lemma CountedModulo(n: nat, k: nat)
    requires k <= 1
    ensures Add64(n % TWO64, k) == (n + k) % TWO64
  {
  }

  /** One attempt to read the energy: the clock and the energy really used so far, if it succeeded. */
  datatype Truth = Truth(at: real, energy: nat)

  /** The attempts read the register that the energy used is counted in. */
  ghost predicate Observes(attempts: seq<Attempt>, run: seq<Option<Truth>>)
  {
    |attempts| == |run|
    && (attempts == [] || (Observes(Front(attempts), Front(run)) && Sees(Last(attempts), Last(run))))
  }

  ghost predicate Sees(a: Attempt, truth: Option<Truth>)
  {
    && (truth.Some? <==> a.energy.Some?)
    && (truth.Some? ==> a.now == truth.value.at && a.energy.value == Register(truth.value.energy))
  }

  function LastSeen(run: seq<Option<Truth>>): Option<Truth>
  {
    if run == [] then None else if Last(run).Some? then Last(run) else LastSeen(Front(run))
  }

  /** The energies that were read, in order. */
  function Energies(run: seq<Option<Truth>>): seq<nat>
  {
    if run == [] then []
    else Energies(Front(run)) + if Last(run).Some? then [Last(run).value.energy] else []
  }

  /** The baseline survives failed reads: it is always the last successful one. */
  lemma {:induction false} BaselineIsLastSeen(attempts: seq<Attempt>, run: seq<Option<Truth>>)
    requires Observes(attempts, run)
    ensures var seen := LastSeen(run);
            BaselineAfter(attempts)
            == if seen.Some? then Some(Baseline(seen.value.at, Register(seen.value.energy))) else None
    ensures Energies(run) == [] <==> LastSeen(run) == None
    ensures LastSeen(run).Some? ==> Last(Energies(run)) == LastSeen(run).value.energy
  {
    if attempts != [] {
      BaselineIsLastSeen(Front(attempts), Front(run));
    }
  }

  /** The energy that a row stands for: its power, times the time since the baseline. */
  function JoulesIn(base: Option<Baseline>, a: Attempt, r: PowerRow): real
  {
    if base.Some? && a.energy.Some? then r.powerPkgWatts * (a.now - base.value.at) else 0.0
  }

  function Joules(attempts: seq<Attempt>, rows: seq<PowerRow>): real
    requires |attempts| == |rows|
  {
    if attempts == [] then 0.0
    else
      Joules(Front(attempts), Front(rows)) + JoulesIn(BaselineAfter(Front(attempts)), Last(attempts), Last(rows))
  }

  /** The deltas that no row reports, because the clock had not advanced. */
  function Stalled(run: seq<Option<Truth>>): nat
  {
    if run == [] then 0
    else
      var prev, cur := LastSeen(Front(run)), Last(run);
      Stalled(Front(run))
      + if prev.Some? && cur.Some? && cur.value.at <= prev.value.at
        then EnergyDelta(Register(cur.value.energy), Register(prev.value.energy)) else 0
  }

  /** The clock advances between successful reads. */
  predicate Advances(run: seq<Option<Truth>>)
  {
    run == []
    || (Advances(Front(run))
        && (LastSeen(Front(run)).Some? && Last(run).Some? ==> Last(run).value.at > LastSeen(Front(run)).value.at))
  }

  /** A number of energy units in joules; halving for each power of two keeps sums of them linear. */
  function InJoules(units: int, exp: nat): real
    decreases exp
  {
    if exp == 0 then units as real else InJoules(units, exp - 1) / 2.0
  }

  lemma {:induction false} UnitsAre(units: int, exp: nat)
    ensures InJoules(units, exp) == units as real * UnitJ(exp)
    decreases exp
  {
    if exp > 0 {
      UnitsAre(units, exp - 1);
      Halved(units as real, Pow2(exp - 1) as real);
    }
  }

  lemma Halved(n: real, d: real)
    requires d > 0.0
    ensures n * (1.0 / d) / 2.0 == n * (1.0 / (2.0 * d))
  {
    assert 1.0 / d / 2.0 == 1.0 / (2.0 * d);
  }

  lemma {:induction false} UnitsAdd(a: int, b: int, exp: nat)
    ensures InJoules(a + b, exp) == InJoules(a, exp) + InJoules(b, exp)
    decreases exp
  {
    if exp > 0 {
      UnitsAdd(a, b, exp - 1);
    }
  }

  lemma {:induction false} SameUnits(a: int, b: int, exp: nat)
    ensures InJoules(a, exp) == InJoules(b, exp) <==> a == b
    decreases exp
  {
    if exp > 0 {
      SameUnits(a, b, exp - 1);
    }
  }

  lemma PowerTimesTime(exp: nat, delta: uint64, dt: real)
    requires dt > 0.0
    ensures Watts(exp, delta, dt) * dt == InJoules(delta, exp)
  {
    UnitsAre(delta, exp);
    var e := delta as real * UnitJ(exp);
    assert e / dt * dt == e;
  }

  /** A row stands for its delta, or for nothing if the clock did not advance. */
  lemma RowJoules(exp: nat, tjMax: real, base: Baseline, events: uint64, a: Attempt, r: PowerRow)
    requires RowOf(exp, tjMax, Some(base), events, a, r) && a.energy.Some?
    ensures JoulesIn(Some(base), a, r)
            == InJoules(if a.now > base.at then EnergyDelta(a.energy.value, base.energy) else 0, exp)
  {
    if a.now > base.at {
      PowerTimesTime(exp, EnergyDelta(a.energy.value, base.energy), a.now - base.at);
    } else {
      UnitsAdd(0, 0, exp);
    }
  }

  /** The reported deltas of a run: all of them, without those of stalled steps. */
  function Reported(run: seq<Option<Truth>>): int
  {
    SumOfDeltas(Energies(run)) - Stalled(run)
  }

  lemma ReportedByStep(run: seq<Option<Truth>>)
    requires run != [] && (Energies(Front(run)) == [] <==> LastSeen(Front(run)) == None)
    requires LastSeen(Front(run)).Some? ==> Last(Energies(Front(run))) == LastSeen(Front(run)).value.energy
    ensures var prev, cur := LastSeen(Front(run)), Last(run);
            Reported(run)
            == Reported(Front(run))
               + if prev.Some? && cur.Some? && cur.value.at > prev.value.at
                 then EnergyDelta(Register(cur.value.energy), Register(prev.value.energy)) else 0
  {
    if Last(run).Some? {
      assert Front(Energies(run)) == Energies(Front(run));
    } else {
      assert Energies(run) == Energies(Front(run));
    }
  }

  /** Row by row, power times time is the sum of the reported deltas. */
  lemma {:induction false} JoulesAreDeltas(exp: nat, tjMax: real, attempts: seq<Attempt>, rows: seq<PowerRow>,
                                           run: seq<Option<Truth>>)
    requires RunOf(exp, tjMax, attempts, rows) && Observes(attempts, run)
    ensures Joules(attempts, rows) == InJoules(Reported(run), exp)
  {
    if attempts == [] {
      UnitsAdd(0, 0, exp);
    } else {
      JoulesAreDeltas(exp, tjMax, Front(attempts), Front(rows), Front(run));
      BaselineIsLastSeen(Front(attempts), Front(run));
      ReportedByStep(run);
      var base, a := BaselineAfter(Front(attempts)), Last(attempts);
      if base.Some? && a.energy.Some? {
        RowJoules(exp, tjMax, base.value, Events(attempts) % TWO64, a, Last(rows));
        UnitsAdd(Reported(Front(run)), Reported(run) - Reported(Front(run)), exp);
      }
    }
  }

  /** The energy used between the first read and the last. */
  function Used(es: seq<nat>): int
    requires es != []
  {
    Last(es) as int - es[0] as int
  }

  /**
    The power that a run reports, however many reads failed in it: power times time adds up to the energy used from
    the first read to the last, plus 2^64 - 2^32 units for each wrap, less the deltas of steps in which the clock
    did not advance.
   */
  lemma PowerTelescopes(exp: nat, tjMax: real, attempts: seq<Attempt>, rows: seq<PowerRow>, run: seq<Option<Truth>>)
    requires RunOf(exp, tjMax, attempts, rows) && Observes(attempts, run)
    requires Energies(run) != [] && Metered(Energies(run))
    ensures var es := Energies(run);
            Joules(attempts, rows) == InJoules(Used(es) + Wraps(es) * EXCESS - Stalled(run), exp)
  {
    JoulesAreDeltas(exp, tjMax, attempts, rows, run);
    DeltasOverARun(Energies(run));
  }

  lemma {:induction false} AdvancingNeverStalls(run: seq<Option<Truth>>)
    requires Advances(run)
    ensures Stalled(run) == 0
  {
    if run != [] {
      AdvancingNeverStalls(Front(run));
    }
  }

  /**
    So a run reports the energy really used if and only if what its wraps added is what its stalled steps left out;
    with a clock that advances, if and only if the counter never wrapped.
   */
  lemma PowerIsEnergyUsedIff(exp: nat, tjMax: real, attempts: seq<Attempt>, rows: seq<PowerRow>,
                             run: seq<Option<Truth>>)
    requires RunOf(exp, tjMax, attempts, rows) && Observes(attempts, run)
    requires Energies(run) != [] && Metered(Energies(run))
    ensures var es := Energies(run);
            var right := Joules(attempts, rows) == InJoules(Used(es), exp);
            && (right <==> Wraps(es) * EXCESS == Stalled(run))
            && (Advances(run) ==> (right <==> Wraps(es) == 0))
  {
    var es := Energies(run);
    PowerTelescopes(exp, tjMax, attempts, rows, run);
    SameUnits(Used(es) + Wraps(es) * EXCESS - Stalled(run), Used(es), exp);
    NoneTimes(Wraps(es), EXCESS);
    if Advances(run) {
      AdvancingNeverStalls(run);
    }
  }

  /** The register wraps as one unit is used: the delta is not 1 but almost 2^64. */
  lemma AWrapIsNotTheEnergy(before: nat, after: nat)
    requires before == 0xFFFF_FFFF && after == 0x1_0000_0000
    ensures Register(before) == 0xFFFF_FFFF && Register(after) == 0
    ensures EnergyDelta(Register(after), Register(before)) == 0xFFFF_FFFF_0000_0001
    ensures EnergyDelta32(Register(after), Register(before)) == 1
  {
    DeltaIsEnergyIff(before, after);
  }

  lemma {:induction false} RowInRun(exp: nat, tjMax: real, attempts: seq<Attempt>, rows: seq<PowerRow>, i: nat)
    requires RunOf(exp, tjMax, attempts, rows) && i < |rows|
    ensures RowOf(exp, tjMax, BaselineAfter(attempts[..i]), Events(attempts[..i + 1]) % TWO64, attempts[i], rows[i])
  {
    if i < |rows| - 1 {
      RowInRun(exp, tjMax, Front(attempts), Front(rows), i);
      assert Front(attempts)[..i] == attempts[..i] && Front(attempts)[..i + 1] == attempts[..i + 1];
    } else {
      assert attempts[..i] == Front(attempts) && attempts[..i + 1] == attempts;
    }
  }

  /** An energy column: zero for a failed read, and the register's value in microjoules, rounded down, otherwise. */
  ghost predicate ShowsEnergy(exp: nat, msr: Option<uint64>, uj: uint64)
  {
    match msr
    case None => uj == 0
    case Some(v) => v < 0x1_0000_0000 ==> uj == v * 1_000_000 / Pow2(exp)
  }

  lemma ConvertsShows(exp: nat, msr: Option<uint64>, uj: uint64)
    requires exp < 32 && Converts(exp, msr, uj)
    ensures ShowsEnergy(exp, msr, uj)
  {
    if msr.Some? && msr.value < TWO32 {
      MicrojoulesAreExact(msr.value, exp, uj);
    }
  }

  /** Degrees below TjMax are in bits 16 to 22 of the thermal status. */
  ghost predicate ShowsTemperature(tjMax: real, msr: Option<uint64>, celsius: real)
  {
    match msr
    case None => celsius == 0.0
    case Some(v) => exists below: nat :: HasField(v, 65536, 128, below) && celsius == tjMax - below as real
  }

  /** The uncore ratio is in bits 0 to 6, in units of 100 MHz. */
  ghost predicate ShowsUncore(msr: Option<uint64>, hz: uint64)
  {
    match msr
    case None => hz == 0
    case Some(v) => exists ratio: nat :: HasField(v, 1, 128, ratio) && hz == ratio * 100_000_000
  }

  lemma TemperatureShows(tjMax: real, v: uint64)
    ensures ShowsTemperature(tjMax, Some(v), tjMax - Bits(v, 16, 128) as real)
  {
    Pow2Literals();
    BitsIff(v, 16, 128, Bits(v, 16, 128));
  }

  lemma UncoreShows(v: uint64)
    ensures v % 128 * 100_000_000 < TWO64 && ShowsUncore(Some(v), v % 128 * 100_000_000)
  {
    GivesHasField(v, 1, 128);
    assert v / 1 == v;
  }

  /** Power times the time since the baseline, in units: the difference of the two registers modulo 2^64. */
  ghost predicate ShowsPower(exp: nat, base: Option<Baseline>, a: Attempt, watts: real)
  {
    if base == None || a.energy == None || a.now <= base.value.at then watts == 0.0
    else
      var v, last := a.energy.value, base.value.energy;
      watts * (a.now - base.value.at) * Pow2(exp) as real
      == (if v >= last then v - last else v - last + 0x1_0000_0000_0000_0000) as real
  }

  lemma PowerShows(exp: nat, base: Option<Baseline>, a: Attempt)
    ensures ShowsPower(exp, base, a, Power(exp, base, a))
  {
    if base.Some? && a.energy.Some? && a.now > base.value.at {
      var v, last, dt := a.energy.value, base.value.energy, a.now - base.value.at;
      WrapBranchIsSubtraction(v, last);
      var delta := EnergyDelta(v, last);
      var e := delta as real * UnitJ(exp);
      assert e / dt * dt == e;
      Inverse(delta as real, Pow2(exp) as real);
    }
  }

  /** What every row of every run shows, in terms of the registers' layout. */
  lemma RowsShow(exp: nat, tjMax: real, attempts: seq<Attempt>, rows: seq<PowerRow>, i: nat)
    requires RunOf(exp, tjMax, attempts, rows) && exp < 32 && i < |rows|
    ensures var a, r := attempts[i], rows[i];
            && ShowsEnergy(exp, a.energy, r.energyPkgUj) && ShowsEnergy(exp, a.pp0, r.energyPP0Uj)
            && ShowsEnergy(exp, a.pp1, r.energyPP1Uj) && ShowsEnergy(exp, a.dram, r.energyDRAMUj)
            && ShowsTemperature(tjMax, a.therm, r.tempPkgC)
            && ShowsUncore(a.uncore, r.uncoreFreqHz)
            && ShowsPower(exp, BaselineAfter(attempts[..i]), a, r.powerPkgWatts)
  {
    var a, r := attempts[i], rows[i];
    RowInRun(exp, tjMax, attempts, rows, i);
    ConvertsShows(exp, a.energy, r.energyPkgUj);
    ConvertsShows(exp, a.pp0, r.energyPP0Uj);
    ConvertsShows(exp, a.pp1, r.energyPP1Uj);
    ConvertsShows(exp, a.dram, r.energyDRAMUj);
    if a.therm.Some? {
      TemperatureShows(tjMax, a.therm.value);
    }
    if a.uncore.Some? {
      UncoreShows(a.uncore.value);
    }
    PowerShows(exp, BaselineAfter(attempts[..i]), a);
  }

  /** An instance of the layout: exponent 14 and a TjMax of 100 degrees. */
  lemma ACalibration(unit: uint64, target: uint64)
    requires unit == 0xA0E03 && target == 0x640000
    ensures Calibrated(unit, target, 14, 100.0)
  {
    assert LaidOut(unit, 256, 32, 14, 3, 80);
    assert LaidOut(target, 65536, 256, 100, 0, 0);
    var t: nat := 100;
    assert HasField(target, 65536, 256, t) && 100.0 == t as real;
  }

  predicate Sticky(a: Attempt)
  {
    a.therm.Some? && a.therm.value / 2 % 2 == 1
  }

  lemma StickyIsSeen(a: Attempt)
    ensures SeesThrottle(a) == if Sticky(a) then 1 else 0
  {
    Pow2Literals();
  }

  lemma {:induction false} EventsAreSticky(attempts: seq<Attempt>)
    ensures Events(attempts) == |set k: nat | k < |attempts| && Sticky(attempts[k])|
  {
    var all := set k: nat | k < |attempts| && Sticky(attempts[k]);
    if attempts == [] {
      assert all == {};
    } else {
      var before, n := Front(attempts), |attempts| - 1;
      EventsAreSticky(before);
      StickyIsSeen(Last(attempts));
      var fewer := set k: nat | k < |before| && Sticky(before[k]);
      assert all == if Sticky(attempts[n]) then fewer + {n} else fewer;
    }
  }

  /** The throttle column is the number of calls that have found the sticky bit, modulo 2^64. */
  lemma ThrottleColumnCounts(exp: nat, tjMax: real, attempts: seq<Attempt>, rows: seq<PowerRow>, i: nat)
    requires RunOf(exp, tjMax, attempts, rows) && i < |rows|
    ensures rows[i].throttleEvents
            == |set k: nat | k <= i && attempts[k].therm.Some? && attempts[k].therm.value / 2 % 2 == 1|
               % 0x1_0000_0000_0000_0000
  {
    RowInRun(exp, tjMax, attempts, rows, i);
    var seen := attempts[..i + 1];
    EventsAreSticky(seen);
    assert (set k: nat | k <= i && attempts[k].therm.Some? && attempts[k].therm.value / 2 % 2 == 1)
        == set k: nat | k < |seen| && Sticky(seen[k]);
  }

  lemma BitOneIsTwo(therm: uint64)
    requires Throttled(therm)
    ensures therm >= 2
  {
    assert Pow2(1) == 2 * Pow2(0) == 2;
  }

  /** Clearing the sticky bit clears that bit and no other. */
  lemma ClearsOneBit(therm: uint64, b: nat)
    requires Throttled(therm)
    ensures therm >= 2 && Bits(therm - 2, b, 2) == if b == 1 then 0 else Bits(therm, b, 2)
  {
    BitOneIsTwo(therm);
    assert Pow2(0) == 1 && Pow2(1) == 2;
    if b >= 2 {
      assert Pow2(b) == 2 * Pow2(b - 1) == 4 * Pow2(b - 2);
      SameQuarter(therm);
      DivTwice(therm, Pow2(b - 2));
      DivTwice(therm - 2, Pow2(b - 2));
    } else {
      LowBits(therm);
    }
  }

  lemma SameQuarter(v: nat)
    requires v >= 2 && v / 2 % 2 == 1
    ensures (v - 2) / 4 == v / 4
  {
  }

  lemma LowBits(v: nat)
    requires v >= 2 && v / 2 % 2 == 1
    ensures (v - 2) % 2 == v % 2 && (v - 2) / 2 % 2 == 0
    ensures v / 1 == v && (v - 2) / 1 == v - 2
  {
  }

  lemma DivTwice(v: nat, d: nat)
    requires d > 0
    ensures v / (4 * d) == v / 4 / d
  {
    var q := v / 4 / d;
    var r, s := v % 4, v / 4 % d;
    assert v == 4 * (q * d + s) + r;
    assert v == (4 * d) * q + (4 * s + r) && 0 <= 4 * s + r < 4 * d;
    QuotientIs(v, 4 * d, q, 4 * s + r);
  }
}
