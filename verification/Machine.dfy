/** Go's uint64 arithmetic, and what is known of its float64 conversions. */
module Machine {
  import opened Prelude

  function Add64(a: uint64, b: uint64): uint64
  {
    (a + b) % TWO64
  }

  function Sub64(a: uint64, b: uint64): uint64
  {
    if a >= b then a - b else a - b + TWO64
  }

  /** A counter's 64-bit register gives its true advance back as long as that is below 2^64. */
  lemma Sub64IsAdvance(before: nat, after: nat)
    requires before <= after < before + TWO64
    ensures Sub64(after % TWO64, before % TWO64) == after - before
  {
    ModAdvance(before, after, TWO64);
  }

  lemma ModAdvance(before: nat, after: nat, m: nat)
    requires m > 0 && before <= after < before + m
    ensures var a, b := after % m, before % m; after - before == if a >= b then a - b else a - b + m
  {
    var q, p := after / m, before / m;
    assert after == q * m + after % m && before == p * m + before % m;
    Multiple(q, p, m);
  }

  lemma Multiple(q: int, p: int, m: nat)
    ensures q >= p + 2 ==> q * m >= p * m + 2 * m
    ensures q == p + 1 ==> q * m == p * m + m
    ensures q < p ==> q * m <= p * m - m
  {
    if q >= p + 2 {
      Grows(p + 2, q, m);
    } else if q < p {
      Grows(q, p - 1, m);
    }
  }

  lemma Grows(p: int, q: int, m: nat)
    requires p <= q
    ensures p * m <= q * m
  {
  }

  /** uint64(x) truncates; outside the range of uint64 the language leaves the result open. */
  ghost predicate ConvertsTo(x: real, n: uint64)
  {
    0.0 <= x < TWO64 as real ==> n == x.Floor
  }

  method ToUint64(x: real) returns (n: uint64)
    ensures ConvertsTo(x, n)
  {
    if 0.0 <= x < TWO64 as real {
      FloorFits(x);
      n := x.Floor;
    } else {
      n := *;
    }
  }

  lemma FloorFits(x: real)
    requires 0.0 <= x < TWO64 as real
    ensures 0 <= x.Floor < TWO64
  {
  }

  function Pow2(n: nat): nat
    ensures Pow2(n) > 0
  {
    if n == 0 then 1 else 2 * Pow2(n - 1)
  }

  /** v shifted right, reduced modulo a power of two: a bit field. */
  function Bits(v: uint64, shift: nat, size: nat): nat
    requires size > 0
  {
    (v / Pow2(shift)) % size
  }

  /** A register laid out as some bits below 2^k, the field f of that many values, and the rest. */
  ghost predicate HasField(v: int, below: int, values: int, f: int)
  {
    exists low: nat, high: nat :: LaidOut(v, below, values, f, low, high)
  }

  ghost predicate LaidOut(v: int, below: int, values: int, f: int, low: nat, high: nat)
  {
    low < below && 0 <= f < values && v == low + below * f + below * values * high
  }

  lemma {:induction false} Pow2Literals()
    ensures Pow2(1) == 2 && Pow2(8) == 256 && Pow2(16) == 65536 && Pow2(32) == 0x1_0000_0000
  {
    assert Pow2(2) == 4;
    assert Pow2(4) == 4 * Pow2(2);
    assert Pow2(6) == 4 * Pow2(4);
    assert Pow2(8) == 4 * Pow2(6);
    assert Pow2(10) == 4 * Pow2(8);
    assert Pow2(12) == 4 * Pow2(10);
    assert Pow2(14) == 4 * Pow2(12);
    assert Pow2(16) == 4 * Pow2(14);
    assert Pow2(18) == 4 * Pow2(16);
    assert Pow2(20) == 4 * Pow2(18);
    assert Pow2(22) == 4 * Pow2(20);
    assert Pow2(24) == 4 * Pow2(22);
    assert Pow2(26) == 4 * Pow2(24);
    assert Pow2(28) == 4 * Pow2(26);
    assert Pow2(30) == 4 * Pow2(28);
    assert Pow2(32) == 4 * Pow2(30);
  }

  lemma QuotientIs(v: nat, d: nat, q: nat, r: nat)
    requires d > 0 && v == d * q + r && r < d
    ensures v / d == q && v % d == r
  {
    var p := v / d;
    assert v == p * d + v % d;
    Multiple(p, q, d);
    Multiple(q, p, d);
  }

  lemma Distribute(d: nat, f: int, size: nat, high: nat)
    ensures d * (f + size * high) == d * f + d * size * high
  {
    assert d * (size * high) == d * size * high;
  }

  lemma LaidOutGives(v: nat, d: nat, size: nat, f: nat, low: nat, high: nat)
    requires d > 0 && size > 0 && LaidOut(v, d, size, f, low, high)
    ensures (v / d) % size == f
  {
    Distribute(d, f, size, high);
    var q := f + size * high;
    QuotientIs(v, d, q, low);
    QuotientIs(q, size, high, f);
  }

  lemma GivesLaidOut(v: nat, d: nat, size: nat)
    requires d > 0 && size > 0
    ensures LaidOut(v, d, size, (v / d) % size, v % d, v / d / size)
  {
    var q := v / d;
    var f, high := q % size, q / size;
    Distribute(d, f, size, high);
    DividedBack(q, size);
    DividedBack(v, d);
  }

  lemma DividedBack(v: nat, d: nat)
    requires d > 0
    ensures v == d * (v / d) + v % d && v % d < d
  {
  }

  lemma HasFieldGives(v: nat, d: nat, size: nat, f: int)
    requires d > 0 && size > 0 && HasField(v, d, size, f)
    ensures (v / d) % size == f
  {
    var low: nat, high: nat :| LaidOut(v, d, size, f, low, high);
    LaidOutGives(v, d, size, f, low, high);
  }

  lemma GivesHasField(v: nat, d: nat, size: nat)
    requires d > 0 && size > 0
    ensures HasField(v, d, size, (v / d) % size)
  {
    GivesLaidOut(v, d, size);
  }

  /** Reading a bit field gives the field of the register's layout, and there is only one such field. */
  lemma BitsIff(v: uint64, shift: nat, size: nat, f: int)
    requires size > 0
    ensures Bits(v, shift, size) == f <==> HasField(v, Pow2(shift), size, f)
  {
    GivesHasField(v, Pow2(shift), size);
    if HasField(v, Pow2(shift), size, f) {
      HasFieldGives(v, Pow2(shift), size, f);
    }
  }

  const TWO53: int := 0x20_0000_0000_0000

  /** A float64 value: at most 53 significant bits, scaled by a power of two within range. */
  ghost predicate Representable(x: real)
  {
    exists m: int, k: nat :: IsDyadic(x, m, k) && -TWO53 <= m <= TWO53 && k <= 1074
  }

  ghost predicate IsDyadic(x: real, m: int, k: nat)
  {
    x * Pow2(k) as real == m as real
  }

  /** Rounding leaves a representable value alone; nothing more is assumed of it. */
  ghost predicate Rounds(x: real, y: real)
  {
    Representable(x) ==> y == x
  }

  /** Some rounding; callers know no more of it than `Rounds` says. */
  method Round(x: real) returns (y: real)
    ensures Rounds(x, y)
  {
    y := x;
  }
}
