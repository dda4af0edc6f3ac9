/** The fixed-point arithmetic of kernel/cfs.c: how elapsed time becomes virtual
    time.  Numbers are natural numbers; where the C code computes in 32 or 64
    bits the wrap-around is written out. */
module FixedPoint {
  import opened Powers

  const U32: nat := 0x1_0000_0000
  const U64: nat := 0x1_0000_0000_0000_0000
  const NICE_0_LOAD: nat := 1024
  const WMULT_SHIFT: nat := 32

  /** `mul_u64_u32_shr`: a 64-by-32-bit product shifted right, computed from two
      halves.  The halves lose nothing: the result is the exact quotient, up to
      the width of the result type. */
  function MulShr(a: nat, mul: nat, shift: nat): (r: nat)
    requires a < U64 && mul < U32 && shift <= 32
    ensures r == Shr(a * mul, shift) % U64
  {
    if a / U32 != 0 then HighShr(a, a % U32, a / U32, mul, shift) else LowShr(a % U32, mul, shift)
  }

  /** The product of the low half, shifted. */
  function LowShr(al: nat, mul: nat, shift: nat): (r: nat)
    requires al < U32 && mul < U32
    ensures r == Shr(al * mul, shift) == r % U64
  {
    var lo := Wide(al, mul);
    ShrGrows(lo, lo, shift);
    Shr(lo, shift)
  }

  /** The products of both halves, shifted and added. */
  function HighShr(a: nat, al: nat, ah: nat, mul: nat, shift: nat): (r: nat)
    requires a == ah * U32 + al && al < U32 && ah < U32 && mul < U32 && shift <= 32
    ensures r == Shr(a * mul, shift) % U64
  {
    var hi := Wide(ah, mul);
    MulShrHalves(a, al, ah, mul, a * mul, al * mul, hi, shift);
    Add64(LowShr(al, mul, shift), hi * Pow2(32 - shift))
  }

  /** A 64-bit addition whose second operand has wrapped around already. */
  function Add64(x: nat, y: nat): (r: nat)
    ensures r == (x + y) % U64
  {
    (x + y % U64) % U64
  }

  /** The 64-bit product of two 32-bit numbers does not wrap. */
  function Wide(a: nat, b: nat): (r: nat)
    requires a < U32 && b < U32
    ensures r == a * b && r < U64
  {
    MulMono(a, a, b, U32);
    a * b
  }

  lemma {:induction false} MulShrHalves(a: nat, al: nat, ah: nat, mul: nat, x: nat, lo: nat, hi: nat, shift: nat)
    requires a == ah * U32 + al && x == a * mul && lo == al * mul && hi == ah * mul && shift <= 32
    ensures Shr(x, shift) == Shr(lo, shift) + hi * Pow2(32 - shift)
  {
    WordSplit(shift);
    JoinHalves(a, ah, al, mul, Pow2(shift), Pow2(32 - shift), U32, x, lo, hi, hi * Pow2(32 - shift));
    ShrJoin(x, lo, hi * Pow2(32 - shift), shift);
  }

  lemma {:induction false} WordSplit(shift: nat)
    requires shift <= 32
    ensures Pow2(shift) * Pow2(32 - shift) == U32
  {
    Pow2Add(shift, 32 - shift);
    Pow2Values();
  }

  lemma {:induction false} ShrJoin(x: nat, lo: nat, high: nat, m: nat)
    requires x == high * Pow2(m) + lo
    ensures Shr(x, m) == Shr(lo, m) + high
  {
    var r := Dropped(lo, m);
    var q := Shr(lo, m);
    Distribute(high + q, high, q, Pow2(m));
    ShrIs(x, m, high + q, r);
  }

  lemma {:induction false} JoinHalves(a: nat, ah: nat, al: nat, mul: nat, s: nat, u: nat, w: nat, x: nat, lo: nat,
                                      hi: nat, high: nat)
    requires a == ah * w + al && w == s * u && x == a * mul && lo == al * mul && hi == ah * mul && high == hi * u
    ensures x == high * s + lo
  {
    Distribute(a, ah * w, al, mul);
    Swap(ah, mul, w, mul * w);
    Swap(hi, s, u, w);
  }

  /** Sums and products under a name, so that each step is one law of arithmetic. */
  lemma {:induction false} Distribute(sum: nat, a: nat, b: nat, c: nat)
    requires sum == a + b
    ensures sum * c == a * c + b * c
  {
  }

  lemma {:induction false} Swap(x: nat, a: nat, b: nat, w: nat)
    requires w == a * b
    ensures x * w == x * b * a == x * a * b
  {
    assert x * (a * b) == x * b * a;
  }

  // ---------- the normalising loop ----------

  /** How often `p` is halved before it fits 32 bits. */
  function Halvings(p: nat): nat {
    if p < U32 then 0 else 1 + Halvings(p / 2)
  }

  /** `__calc_delta_vruntime` without its 64-bit wrap-around. */
  function Scaled(delta: nat, p: nat): nat
    requires Halvings(p) <= 32
  {
    Shr(delta * Shr(p, Halvings(p)), 32 - Halvings(p))
  }

  /** The loop stops within 32 rounds, as soon as the factor fits 32 bits. */
  lemma {:induction false} HalvingsFit(p: nat, n: nat)
    requires p < U32 * Pow2(n)
    ensures Halvings(p) <= n
    ensures Shr(p, Halvings(p)) < U32
    ensures Halvings(p) > 0 ==> Shr(p, Halvings(p)) >= U32 / 2
  {
    if p >= U32 {
      HalvingsFit(p / 2, n - 1);
    }
  }

  /** `__calc_delta_vruntime`. */
  method CalcDelta(delta: nat, weight: nat, inv: nat) returns (r: nat)
    requires delta < U64 && weight < U32 && inv < U32
    ensures Halvings(weight * inv) <= 32
    ensures r == Scaled(delta, weight * inv) % U64
  {
    var fact, shift := Normalise(Wide(weight % U32, inv));
    r := MulShr(delta, fact, shift);
  }

  /** The loop that halves `fact` until it fits 32 bits. */
  method Normalise(p: nat) returns (fact: nat, shift: nat)
    requires p < U64
    ensures Halvings(p) <= 32 && shift == 32 - Halvings(p)
    ensures fact == Shr(p, Halvings(p)) && fact < U32
  {
    assert U32 * Pow2(32) == U64 by { Pow2Values(); }
    HalvingsFit(p, 32);
    fact, shift := p, WMULT_SHIFT;
    while fact / U32 != 0
      invariant 0 <= shift <= 32
      invariant fact == Shr(p, 32 - shift)
      invariant Halvings(p) == (32 - shift) + Halvings(fact)
      decreases fact
    {
      ShrShr(p, 32 - shift, 1);
      fact := fact / 2;
      shift := shift - 1;
    }
  }

  /** Against the exact product delta*p/2^32 the scaled charge is never too big,
      and too small by less than one unit plus the bits the loop dropped. */
  lemma {:induction false} ScaledError(delta: nat, p: nat)
    requires p < U64
    ensures Halvings(p) <= 32
    ensures 0 <= delta * p - U32 * Scaled(delta, p) < U32 + delta * Pow2(Halvings(p))
  {
    assert U32 * Pow2(32) == U64 && Pow2(32) == U32 by { Pow2Values(); }
    HalvingsFit(p, 32);
    TwoShifts(delta, p, Halvings(p), 32 - Halvings(p));
  }

  lemma {:induction false} TwoShifts(delta: nat, p: nat, k: nat, m: nat)
    ensures var r := Shr(delta * Shr(p, k), m);
            0 <= delta * p - Pow2(k + m) * r < Pow2(k + m) + delta * Pow2(k)
  {
    Pow2Add(k, m);
    var fact := Shr(p, k);
    var rem := Dropped(p, k);
    var rem' := Dropped(delta * fact, m);
    DroppedBits(delta, p, Pow2(k), Pow2(m), Pow2(k + m), fact, rem, Shr(delta * fact, m), rem');
  }

  lemma {:induction false} DroppedBits(delta: nat, p: nat, a: nat, b: nat, w: nat, fact: nat, rem: nat, r: nat,
                                       rem': nat)
    requires a > 0 && b > 0 && a * b == w
    requires p == fact * a + rem && rem < a && delta * fact == r * b + rem' && rem' < b
    ensures 0 <= delta * p - w * r < w + delta * a
  {
    DroppedIs(delta, p, a, b, w, fact, rem, r, rem', delta * fact);
    DroppedBelow(rem', b, a);
    MulMono(delta, delta, rem, a);
  }

  /** What the two shifts drop, exactly. */
  lemma {:induction false} DroppedIs(delta: nat, p: nat, a: nat, b: nat, w: nat, fact: nat, rem: nat, r: nat,
                                     rem': nat, x: nat)
    requires a * b == w && p == fact * a + rem && x == delta * fact && x == r * b + rem'
    ensures delta * p == w * r + rem' * a + delta * rem
  {
    Distribute(p, fact * a, rem, delta);
    Regroup(delta, fact, a, x);
    Distribute(x, r * b, rem', a);
    Swap(r, a, b, w);
  }

  lemma {:induction false} Regroup(x: nat, y: nat, z: nat, xy: nat)
    requires xy == x * y
    ensures y * z * x == xy * z
  {
  }

  lemma {:induction false} DroppedBelow(rem: nat, b: nat, a: nat)
    requires rem < b && a > 0
    ensures rem * a < b * a
  {
    MulMono(rem, b - 1, a, a);
    Distribute(b, b - 1, 1, a);
  }

  // ---------- the charge ----------

  /** With the nice-0 weight on top nothing is dropped: the charge is exactly the
      elapsed time scaled by inv/2^22. */
  lemma {:induction false} ScaledExact(delta: nat, inv: nat)
    requires inv < U32
    ensures Halvings(NICE_0_LOAD * inv) <= 10
    ensures Scaled(delta, NICE_0_LOAD * inv) == Shr(delta * inv, 22)
  {
    assert Pow2(10) == NICE_0_LOAD by { Pow2Values(); }
    HalvingsFit(inv * Pow2(10), 10);
    var k := Halvings(inv * Pow2(10));
    NothingDropped(delta, inv, k, 10 - k, 22);
  }

  lemma {:induction false} NothingDropped(delta: nat, inv: nat, k: nat, m: nat, n: nat)
    ensures Shr(delta * Shr(inv * Pow2(k + m), k), n + m) == Shr(delta * inv, n)
  {
    Pow2Add(k, m);
    Swap(inv, Pow2(k), Pow2(m), Pow2(k + m));
    ShrExact(inv * Pow2(m), k);
    Swap(delta, inv, Pow2(m), Shr(inv * Pow2(k + m), k));
    ShrCancel(delta * inv, n, m);
  }

  /** `sched_prio_to_weight`, from nice -20 to nice 19. */
  const WEIGHTS: seq<nat> := [
    88761, 71755, 56483, 46273, 36291,
    29154, 23254, 18705, 14949, 11916,
    9548, 7620, 6100, 4904, 3906,
    3121, 2501, 1991, 1586, 1277,
    1024, 820, 655, 526, 423,
    335, 272, 215, 172, 137,
    110, 87, 70, 56, 45,
    36, 29, 23, 18, 15]

  /** `sched_prio_to_wmult`: about 2^32 divided by the weight. */
  const WMULTS: seq<nat> := [
    48388, 59856, 76040, 92818, 118348,
    147320, 184698, 229616, 287308, 360437,
    449829, 563644, 704093, 875809, 1099582,
    1376151, 1717300, 2157191, 2708050, 3363326,
    4194304, 5237765, 6557202, 8165337, 10153587,
    12820798, 15790321, 19976592, 24970740, 31350126,
    39045157, 49367440, 61356676, 76695844, 95443717,
    119304647, 148102320, 186737708, 238609294, 286331153]

  const INV_MIN: nat := 48388
  const INV_MAX: nat := 286331153

  /** One step up in nice never lowers the inverse weight; only nice 0 has weight
      1024. */
  lemma {:induction false} TableStep(i: nat)
    requires i < 40
    ensures |WEIGHTS| == |WMULTS| == 40
    ensures INV_MIN <= WMULTS[i] <= INV_MAX
    ensures i < 39 ==> WMULTS[i] < WMULTS[i + 1] && WEIGHTS[i] > WEIGHTS[i + 1]
    ensures WEIGHTS[i] == NICE_0_LOAD <==> i == 20
    ensures i == 20 ==> WMULTS[i] == 0x40_0000
  {
  }

  /** Each inverse is 2^32 divided by the weight, to within one. */
  lemma {:induction false} TableInverse(i: nat)
    requires i < 40
    ensures |WEIGHTS| == |WMULTS| == 40
    ensures U32 - WEIGHTS[i] < WEIGHTS[i] * WMULTS[i] < U32 + WEIGHTS[i]
  {
  }

  /** The entries that are rounded up. */
  const ROUNDED_UP: set<nat> := {2, 3, 12, 13, 16, 18, 19, 21, 22, 24, 25, 26, 32}

  /** The comment on the table gives the quotient 2^32/weight.  Exactly the thirteen
      entries rounded up differ from it, each by one. */
  lemma {:induction false} TableQuotient(i: nat)
    requires i < 40
    ensures |WEIGHTS| == |WMULTS| == 40 && WEIGHTS[i] > 0
    ensures WMULTS[i] == U32 / WEIGHTS[i] <==> i !in ROUNDED_UP
    ensures WMULTS[i] == U32 / WEIGHTS[i] + if i in ROUNDED_UP then 1 else 0
  {
  }

  lemma {:induction false} TableSorted(i: nat, j: nat)
    requires i <= j < 40
    ensures |WMULTS| == 40 && WMULTS[i] <= WMULTS[j]
  {
    if i < j {
      TableStep(j - 1);
      TableSorted(i, j - 1);
    }
  }

  /** Virtual time for `delta` of real time at inverse weight `inv`. */
  function Charge(delta: nat, inv: nat): nat {
    Shr(delta * inv, 22)
  }

  /** The charge is the exact quotient by 2^22, rounded down. */
  lemma {:induction false} ChargeIs(delta: nat, inv: nat)
    ensures Charge(delta, inv) * 0x40_0000 <= delta * inv < (Charge(delta, inv) + 1) * 0x40_0000
  {
    assert Pow2(22) == 0x40_0000 by { Pow2Values(); }
    var rem := Dropped(delta * inv, 22);
  }

  /** So a task is charged its real time times 1024 over its weight, up to rounding: the
      charge times the weight is the elapsed time times 1024, to within the weight times
      the elapsed time over 2^22, and the weight itself below. */
  lemma {:induction false} ChargeByWeight(delta: nat, i: nat)
    requires i < 40
    ensures |WEIGHTS| == |WMULTS| == 40
    ensures var paid := Charge(delta, WMULTS[i]) * WEIGHTS[i] * 0x40_0000;
            var owed, slack := delta * NICE_0_LOAD * 0x40_0000, delta * WEIGHTS[i];
            owed - slack - WEIGHTS[i] * 0x40_0000 <= paid <= owed + slack
  {
    TableInverse(i);
    ChargeIs(delta, WMULTS[i]);
    WeightBounds(delta, WMULTS[i], WEIGHTS[i], Charge(delta, WMULTS[i]), 0x40_0000, delta * WMULTS[i]);
    assert delta * NICE_0_LOAD * 0x40_0000 == delta * U32;
  }

  lemma {:induction false} WeightBounds(delta: nat, inv: nat, w: nat, c: nat, q: nat, x: nat)
    requires U32 - w < w * inv < U32 + w && x == delta * inv && c * q <= x < (c + 1) * q
    ensures delta * U32 - delta * w - w * q <= c * w * q <= delta * U32 + delta * w
  {
    Rearrange(delta, inv, w, x);
    Rearrange(c, q, w, c * q);
    MulMono(c * q, x, w, w);
    MulMono(x, (c + 1) * q, w, w);
    Between(delta, w * inv, U32, w);
    OneMore(c, q, w);
  }

  lemma {:induction false} Rearrange(a: nat, b: nat, c: nat, ab: nat)
    requires ab == a * b
    ensures ab * c == a * (c * b) == a * c * b
  {
  }

  lemma {:induction false} OneMore(c: nat, q: nat, w: nat)
    ensures (c + 1) * q * w == c * q * w + w * q
  {
    Distribute(c + 1, c, 1, q);
    Distribute((c + 1) * q, c * q, q, w);
  }

  lemma {:induction false} Between(d: nat, z: nat, u: nat, w: nat)
    requires u - w < z < u + w
    ensures d * u - d * w <= d * z <= d * u + d * w
  {
    MulMono(d, d, z, u + w);
    Distribute(u + w, u, w, d);
    MulMono(d, d, u, z + w);
    Distribute(z + w, z, w, d);
  }

  /** A higher nice level has less weight and is charged more for the same time. */
  lemma {:induction false} NicerIsLighter(nice: int, nicer: int, delta: nat)
    requires -20 <= nice < nicer < 20
    ensures LoadWeight(nicer).0 < LoadWeight(nice).0 && LoadWeight(nice).1 < LoadWeight(nicer).1
    ensures Charge(delta, LoadWeight(nice).1) <= Charge(delta, LoadWeight(nicer).1)
  {
    TableFalls(nice + 20, nicer + 20);
    ChargeMonotone(delta, delta, nice + 20, nicer + 20);
  }

  lemma {:induction false} TableFalls(i: nat, j: nat)
    requires i < j < 40
    ensures |WEIGHTS| == |WMULTS| == 40 && WEIGHTS[j] < WEIGHTS[i] && WMULTS[i] < WMULTS[j]
  {
    TableStep(j - 1);
    if i < j - 1 { TableFalls(i, j - 1); }
  }

  /** At nice 0 the weight is 1024, and weights are those of the table: nice 5, the level
      of the shells, has 335. */
  lemma {:induction false} KnownLoads()
    ensures LoadWeight(0) == (1024, 0x40_0000) && LoadWeight(5) == (335, 12820798)
    ensures LoadWeight(-20) == (88761, 48388) && LoadWeight(19) == (15, 286331153)
  {
  }

  /** `set_load_weight`: the weight and inverse weight of a nice level. */
  function LoadWeight(nice: int): (l: (nat, nat))
    requires -20 <= nice < 20
    ensures Load(l.0, l.1)
  {
    TableStep(nice + 20);
    (WEIGHTS[nice + 20], WMULTS[nice + 20])
  }

  /** What every pair of table entries satisfies. */
  predicate Load(weight: nat, inv: nat) {
    INV_MIN <= inv <= INV_MAX && (weight == NICE_0_LOAD ==> inv == 0x40_0000)
  }

  /** `calc_delta_vruntime`: the general path and the nice-0 shortcut compute the
      same charge. */
  method CalcDeltaVruntime(delta: nat, weight: nat, inv: nat) returns (r: nat)
    requires delta < U64 && Load(weight, inv)
    ensures r == Charge(delta, inv) % U64
  {
    r := delta;
    if weight != NICE_0_LOAD {
      ScaledExact(delta, inv);
      r := CalcDelta(delta, NICE_0_LOAD, inv);
    } else {
      assert Pow2(22) == 0x40_0000 by { Pow2Values(); }
      ShrExact(delta, 22);
    }
  }

  /** The charge grows with elapsed time and with nice level. */
  lemma {:induction false} ChargeMonotone(delta: nat, delta': nat, i: nat, j: nat)
    requires delta <= delta' && i <= j < 40
    ensures |WMULTS| == 40 && Charge(delta, WMULTS[i]) <= Charge(delta', WMULTS[j])
  {
    TableSorted(i, j);
    MulMono(delta, delta', WMULTS[i], WMULTS[j]);
    ShrGrows(delta * WMULTS[i], delta' * WMULTS[j], 22);
  }

  /** A charge is at most 69 times the elapsed time. */
  lemma {:induction false} ChargeBound(delta: nat, inv: nat)
    requires inv <= INV_MAX
    ensures Charge(delta, inv) <= 69 * delta
  {
    assert Pow2(22) == 0x40_0000 by { Pow2Values(); }
    MulMono(delta, delta, inv, 69 * 0x40_0000);
    ShrGrows(delta * inv, 69 * delta * 0x40_0000, 22);
    ShrExact(69 * delta, 22);
  }

  /** A millisecond is charged at least 11536 at every nice level. */
  lemma {:induction false} TickCharge(inv: nat)
    requires INV_MIN <= inv
    ensures Charge(1_000_000, inv) >= 11536
  {
    assert Pow2(22) == 0x40_0000 by { Pow2Values(); }
    ShrIs(1_000_000 * INV_MIN, 22, 11536, 1_000_000 * INV_MIN - 11536 * 0x40_0000);
    ShrGrows(1_000_000 * INV_MIN, 1_000_000 * inv, 22);
  }
}
