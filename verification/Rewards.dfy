/** Rewards drawn for an epoch, and the tax taken from them, in machine integers. */
module Rewards {
  import opened Arithmetic
  import opened Wrappers

  const U64: nat := 0x1_0000_0000_0000_0000
  const U128: nat := 0x1_0000_0000_0000_0000_0000_0000_0000_0000

  datatype Ratio = Ratio(numerator: nat, denominator: nat) {
    predicate Valid() {
      numerator < U64 && 0 < denominator < U64
    }

    predicate AtMostOne() {
      numerator <= denominator
    }
  }

  datatype CompoundingType = Linear | Halvening

  datatype Limit = NoLimit | ByStakeAbsolute(ratio: Ratio)

  datatype Parameters = Parameters(
    initialValue: nat,
    compoundingRatio: Ratio,
    compoundingType: CompoundingType,
    epochRate: nat,
    epochStart: nat,
    rewardDrawingLimitMax: Limit)
  {
    predicate Valid() {
      && initialValue < U64 && compoundingRatio.Valid()
      && 0 < epochRate < 0x1_0000_0000 && epochStart < 0x1_0000_0000
      && (rewardDrawingLimitMax.ByStakeAbsolute? ==> rewardDrawingLimitMax.ratio.Valid())
    }
  }

  // ---- What is drawn ----

  const SCALE: nat := 1_000_000_000_000_000_000

  /** Multiplying and dividing `k` times in 128 bits. */
  function Accumulated(start: nat, ratio: Ratio, k: nat): (r: Result<nat, Overflow>)
    requires ratio.Valid()
    ensures r.Err? ==> r == Err(Overflow)
  {
    if k == 0 then Ok(start) else
      var acc := Accumulated(start, ratio, k - 1);
      if acc.Err? then acc
      else if acc.value * ratio.numerator >= U128 then Err(Overflow)
      else Ok(Quotient(acc.value * ratio.numerator, ratio.denominator))
  }

  function Quotient(a: nat, d: nat): (q: nat)
    requires d > 0
    ensures q * d <= a < q * d + d
  {
    assert a == a / d * d + a % d;
    a / d
  }

  function Zone(epoch: nat, params: Parameters): nat
    requires params.Valid() && epoch >= params.epochStart
  {
    Quotient(epoch - params.epochStart, params.epochRate)
  }

  function Drawn(zone: nat, params: Parameters): Result<nat, Overflow>
    requires params.Valid()
  {
    var rr := params.compoundingRatio;
    match params.compoundingType
    case Linear =>
      if rr.numerator * zone >= U64 then Err(Overflow)
      else
        var reduceBy := Quotient(rr.numerator * zone, rr.denominator);
        Ok(if params.initialValue >= reduceBy then params.initialValue - reduceBy else 0)
    case Halvening =>
      var acc := Accumulated(params.initialValue * SCALE, rr, zone);
      if acc.Err? then acc else Ok(acc.value / SCALE % U64)
  }

  function Limited(drawn: nat, params: Parameters, declaredStake: nat): nat
    requires params.Valid()
  {
    match params.rewardDrawingLimitMax
    case NoLimit => drawn
    case ByStakeAbsolute(ratio) =>
      var x := Quotient(declaredStake * ratio.numerator, ratio.denominator) % U64;
      if drawn <= x then drawn else x
  }

  function Contribution(epoch: nat, params: Parameters, declaredStake: nat): Result<nat, Overflow>
    requires params.Valid()
  {
    if epoch < params.epochStart then Ok(0) else
      var drawn := Drawn(Zone(epoch, params), params);
      if drawn.Err? then drawn else Ok(Limited(drawn.value, params, declaredStake))
  }

  method RewardsContributionCalculation(epoch: nat, params: Parameters, declaredStake: nat)
    returns (r: Result<nat, Overflow>)
    requires params.Valid() && epoch < 0x1_0000_0000 && declaredStake < U64
    ensures r == Contribution(epoch, params, declaredStake)
  {
    if epoch < params.epochStart {
      return Ok(0);
    }
    var zone := Quotient(epoch - params.epochStart, params.epochRate);
    var drawn: nat;
    var rr := params.compoundingRatio;
    match params.compoundingType {
      case Linear =>
        if rr.numerator * zone >= U64 {
          return Err(Overflow);
        }
        var reduceBy := Quotient(rr.numerator * zone, rr.denominator);
        drawn := if params.initialValue >= reduceBy then params.initialValue - reduceBy else 0;
      case Halvening =>
        assert params.initialValue * SCALE < U128;
        var acc := Accumulate(params.initialValue * SCALE, rr, zone);
        if acc.Err? {
          return Err(acc.error);
        }
        drawn := acc.value / SCALE % U64;
    }
    match params.rewardDrawingLimitMax {
      case NoLimit =>
        r := Ok(drawn);
      case ByStakeAbsolute(ratio) =>
        StakeFits(declaredStake, ratio);
        var x := Quotient(declaredStake * ratio.numerator, ratio.denominator) % U64;
        r := Ok(if drawn <= x then drawn else x);
    }
  }

  /** The loop of the halving. */
  method Accumulate(start: nat, rr: Ratio, zone: nat) returns (r: Result<nat, Overflow>)
    requires rr.Valid()
    ensures r == Accumulated(start, rr, zone)
  {
    var acc := start;
    for k := 0 to zone
      invariant acc >= 0 && Accumulated(start, rr, k) == Ok(acc)
    {
      if acc * rr.numerator >= U128 {
        OverflowStays(start, rr, k + 1, zone);
        return Err(Overflow);
      }
      acc := Quotient(acc * rr.numerator, rr.denominator);
    }
    r := Ok(acc);
  }

  lemma {:induction false} OverflowStays(start: nat, ratio: Ratio, k: nat, m: nat)
    requires ratio.Valid() && k <= m && Accumulated(start, ratio, k).Err?
    ensures Accumulated(start, ratio, m) == Err(Overflow)
    decreases m
  {
    if k < m {
      OverflowStays(start, ratio, k, m - 1);
    }
  }

  /** The limit by stake never overflows 128 bits. */
  lemma StakeFits(stake: nat, ratio: Ratio)
    requires stake < U64 && ratio.Valid()
    ensures stake * ratio.numerator < U128
  {
    MulLe(stake, U64, ratio.numerator);
  }

  // ---- The zone, and the linear reward ----

  /** Nothing is contributed before the start epoch. From then on every `epochRate` epochs make a
      zone, and without a limit all that is drawn is contributed. An overflow stops it. */
  lemma ContributionByZone(params: Parameters, epoch: nat, declaredStake: nat)
    requires params.Valid()
    ensures epoch < params.epochStart ==> Contribution(epoch, params, declaredStake) == Ok(0)
    ensures epoch >= params.epochStart ==>
              var zone := Zone(epoch, params);
              && zone * params.epochRate <= epoch - params.epochStart < (zone + 1) * params.epochRate
              && (params.rewardDrawingLimitMax.NoLimit? || Drawn(zone, params).Err? ==>
                    Contribution(epoch, params, declaredStake) == Drawn(zone, params))
  {
    if epoch >= params.epochStart {
      var zone := Zone(epoch, params);
      assert (zone + 1) * params.epochRate == zone * params.epochRate + params.epochRate;
    }
  }

  /** The linear reward falls by the floor of `n * zone / d` down to zero. It overflows exactly if the
      product does not fit 64 bits. */
  lemma LinearFalls(params: Parameters, zone: nat)
    requires params.Valid() && params.compoundingType.Linear?
    ensures var (c, n, d) := (params.initialValue, params.compoundingRatio.numerator, params.compoundingRatio.denominator);
            var drawn := Drawn(zone, params);
            && (drawn.Err? <==> n * zone >= 0x1_0000_0000_0000_0000)
            && (drawn.Ok? ==>
                  && drawn.value <= c
                  && if n * zone < (c + 1) * d then (c - drawn.value) * d <= n * zone < (c - drawn.value) * d + d
                     else drawn.value == 0)
  {
    var (c, n, d) := (params.initialValue, params.compoundingRatio.numerator, params.compoundingRatio.denominator);
    var q := Quotient(n * zone, d);
    assert (c + 1) * d == c * d + d;
    if n * zone < (c + 1) * d {
      CancelFloor(q, c, d);
    } else if q < c + 1 {
      MulLe(q, c, d);
    }
  }

  // ---- How exact the halving is ----

  function Power(base: nat, k: nat): (p: nat)
    ensures base > 0 ==> p > 0
  {
    if k == 0 then 1 else
      assert base > 0 ==> base * Power(base, k - 1) > 0;
      base * Power(base, k - 1)
  }

  /** The same without a bound on the integers. */
  function Compounded(start: nat, ratio: Ratio, k: nat): nat
    requires ratio.Valid()
  {
    if k == 0 then start else Quotient(Compounded(start, ratio, k - 1) * ratio.numerator, ratio.denominator)
  }

  lemma {:induction false} AccumulatedIsCompounded(start: nat, ratio: Ratio, k: nat)
    requires ratio.Valid() && Accumulated(start, ratio, k).Ok?
    ensures Accumulated(start, ratio, k) == Ok(Compounded(start, ratio, k))
    decreases k
  {
    if k > 0 {
      AccumulatedIsCompounded(start, ratio, k - 1);
    }
  }

  lemma QuotientShrinks(a: nat, ratio: Ratio)
    requires ratio.Valid() && ratio.AtMostOne()
    ensures Quotient(a * ratio.numerator, ratio.denominator) <= a
  {
    var q := Quotient(a * ratio.numerator, ratio.denominator);
    MulLe(ratio.numerator, ratio.denominator, a);
    MulStep(ratio.denominator, a, q);
  }

  lemma QuotientGrows(a: nat, ratio: Ratio)
    requires ratio.Valid() && !ratio.AtMostOne()
    ensures a <= Quotient(a * ratio.numerator, ratio.denominator)
  {
    MulLe(ratio.denominator, ratio.numerator, a);
    CancelFloor(a, Quotient(a * ratio.numerator, ratio.denominator), ratio.denominator);
  }

  lemma {:induction false} CompoundedMonotone(start: nat, ratio: Ratio, k: nat, m: nat)
    requires ratio.Valid() && k <= m
    ensures if ratio.AtMostOne() then Compounded(start, ratio, m) <= Compounded(start, ratio, k)
            else Compounded(start, ratio, k) <= Compounded(start, ratio, m)
    decreases m
  {
    if k < m {
      CompoundedMonotone(start, ratio, k, m - 1);
      if ratio.AtMostOne() {
        QuotientShrinks(Compounded(start, ratio, m - 1), ratio);
      } else {
        QuotientGrows(Compounded(start, ratio, m - 1), ratio);
      }
    }
  }

  /** The largest product is the first one for a ratio of at most one, and the last one otherwise. */
  function LargestProduct(start: nat, ratio: Ratio, k: nat): nat
    requires ratio.Valid() && k > 0
  {
    Compounded(start, ratio, if ratio.AtMostOne() then 0 else k - 1) * ratio.numerator
  }

  /** It alone decides whether all of them fit. */
  lemma {:induction false} OverflowsWhen(start: nat, ratio: Ratio, k: nat)
    requires ratio.Valid()
    ensures Accumulated(start, ratio, k).Ok? <==> k == 0 || LargestProduct(start, ratio, k) < U128
    decreases k
  {
    if k > 0 {
      OverflowsWhen(start, ratio, k - 1);
      if Accumulated(start, ratio, k - 1).Ok? {
        AccumulatedIsCompounded(start, ratio, k - 1);
      }
      if ratio.AtMostOne() {
        CompoundedMonotone(start, ratio, 0, k - 1);
        MulLe(Compounded(start, ratio, k - 1), start, ratio.numerator);
      } else if k > 1 {
        CompoundedMonotone(start, ratio, k - 2, k - 1);
        MulLe(Compounded(start, ratio, k - 2), Compounded(start, ratio, k - 1), ratio.numerator);
      }
    }
  }

  /** What `k` roundings lose at most, in units of `1 / d^k`: each loses less than one, and the
      ratio applies to former losses. */
  function Losses(n: nat, d: nat, k: nat): nat {
    if k == 0 then 0 else Power(d, k) + n * Losses(n, d, k - 1)
  }

  lemma LossStep(n: nat, d: nat, l: nat, k: nat, p: nat)
    requires n <= d && l <= k * p
    ensures d * p + n * l <= (k + 1) * (d * p)
  {
    MulLe(n, d, l);
    MulLe(l, k * p, d);
    Regroup(k, p, d);
    assert k * (d * p) + d * p == (k + 1) * (d * p);
  }

  /** For a ratio of at most one losses do not grow. */
  lemma {:induction false} LossesSmall(n: nat, d: nat, k: nat)
    requires n <= d
    ensures Losses(n, d, k) <= k * Power(d, k)
  {
    if k > 0 {
      LossesSmall(n, d, k - 1);
      LossStep(n, d, Losses(n, d, k - 1), k - 1, Power(d, k - 1));
    }
  }

  /** After `k` zones the accumulator is at most `start * (n/d)^k`, and short of it by less than
      the losses: by less than `k` if the ratio is at most one. */
  lemma {:induction false} AccumulatorBounds(start: nat, ratio: Ratio, k: nat)
    requires ratio.Valid() && Accumulated(start, ratio, k).Ok?
    ensures var (acc, n, d) := (Accumulated(start, ratio, k).value, ratio.numerator, ratio.denominator);
            var exact := start * Power(n, k);
            && acc * Power(d, k) <= exact <= acc * Power(d, k) + Losses(n, d, k)
            && (k > 0 ==> exact < acc * Power(d, k) + Losses(n, d, k))
            && (ratio.AtMostOne() ==> Losses(n, d, k) <= k * Power(d, k))
    decreases k
  {
    var (n, d) := (ratio.numerator, ratio.denominator);
    if ratio.AtMostOne() {
      LossesSmall(n, d, k);
    }
    if k > 0 {
      AccumulatorBounds(start, ratio, k - 1);
      Regroup(start, Power(n, k - 1), n);
      BoundStep(start * Power(n, k - 1), n, d, Accumulated(start, ratio, k - 1).value,
                Accumulated(start, ratio, k).value, Power(d, k - 1), Losses(n, d, k - 1));
    }
  }

  /** One zone: rounding loses less than one, and the former loss is multiplied. */
  lemma BoundStep(x: nat, n: nat, d: nat, a: nat, q: nat, p: nat, l: nat)
    requires q * d <= a * n < q * d + d && p > 0
    requires a * p <= x <= a * p + l
    ensures q * (d * p) <= x * n < q * (d * p) + (d * p + n * l)
  {
    // multiply the hypothesis by n
    MulLe(a * p, x, n);
    MulLe(x, a * p + l, n);
    assert (a * p + l) * n == a * p * n + n * l;
    Regroup(a, p, n);
    // multiply the rounding by p
    MulLe(q * d, a * n, p);
    MulLe(a * n + 1, q * d + d, p);
    assert (a * n + 1) * p == a * n * p + p;
    assert (q * d + d) * p == q * d * p + d * p;
    Regroup(q, d, p);
  }

  lemma Regroup(a: nat, b: nat, c: nat)
    ensures a * b * c == a * (c * b) == a * (b * c) == a * c * b
  {
    assert b * c == c * b;
    assert a * b * c == a * (b * c);
    assert a * c * b == a * (c * b);
  }

  lemma Cancel(a: nat, b: nat, c: nat)
    requires c > 0 && a * c <= b * c
    ensures a <= b
  {
    MulStep(c, b, a);
  }

  lemma CancelFloor(a: nat, b: nat, c: nat)
    requires a * c < b * c + c
    ensures a <= b
  {
    MulStep(c, b, a);
    assert c * a == a * c && c * b == b * c;
  }

  lemma FloorFromAbove(drawn: nat, s: nat, acc: nat, p: nat, x: nat)
    requires s > 0 && drawn * s <= acc && acc * p <= x * s
    ensures drawn * p <= x
  {
    MulLe(drawn * s, acc, p);
    Regroup(drawn, s, p);
    Cancel(drawn * p, x, s);
  }

  lemma FloorFromBelow(f: nat, s: nat, p: nat, x: nat, acc: nat, l: nat, drawn: nat)
    requires p > 0 && s > 0 && f * p <= x && x * s <= acc * p + l && acc < drawn * s + s
    ensures f <= drawn + 1 + Quotient(l, s * p)
  {
    var (u, q) := (s * p, Quotient(l, s * p));
    MulLe(f * p, x, s);
    Regroup(f, p, s);
    MulLe(acc + 1, (drawn + 1) * s, p);
    Regroup(drawn + 1, s, p);
    assert (acc + 1) * p == acc * p + p;
    assert (drawn + 1) * u + q * u == (drawn + 1 + q) * u;
    CancelFloor(f, drawn + 1 + q, u);
  }

  lemma FloorUpTo(x: nat, s: nat, acc: nat, l: nat, p: nat)
    requires p > 0 && s > 0
    requires acc * p <= x * s <= acc * p + l
    ensures var (f, drawn) := (Quotient(x, p), Quotient(acc, s)); drawn <= f <= drawn + 1 + Quotient(l, s * p)
  {
    var (f, drawn) := (Quotient(x, p), Quotient(acc, s));
    FloorFromAbove(drawn, s, acc, p, x);
    CancelFloor(drawn, f, p);
    FloorFromBelow(f, s, p, x, acc, l, drawn);
  }

  lemma SmallLosses(l: nat, k: nat, p: nat, s: nat)
    requires p > 0 && l <= k * p && k < s
    ensures Quotient(l, s * p) == 0
  {
    MulLe(k + 1, s, p);
    assert (k + 1) * p == k * p + p;
    CancelFloor(Quotient(l, s * p), 0, s * p);
  }

  /** The accumulator of the halving at the end. */
  function HalvingAccumulator(params: Parameters, zone: nat): nat
    requires params.Valid()
  {
    Compounded(params.initialValue * SCALE, params.compoundingRatio, zone)
  }

  /** The conversion to 64 bits keeps the scaled accumulator exactly if it fits, and it always
      fits if the ratio is at most one. */
  lemma DrawnFitsWhen(params: Parameters, zone: nat)
    requires params.Valid() && params.compoundingType.Halvening? && Drawn(zone, params).Ok?
    ensures Drawn(zone, params).value == HalvingAccumulator(params, zone) / 1_000_000_000_000_000_000 <==>
            HalvingAccumulator(params, zone) / 1_000_000_000_000_000_000 < 0x1_0000_0000_0000_0000
    ensures params.compoundingRatio.AtMostOne() ==> HalvingAccumulator(params, zone) / 1_000_000_000_000_000_000 < 0x1_0000_0000_0000_0000
  {
    var start := params.initialValue * SCALE;
    AccumulatedIsCompounded(start, params.compoundingRatio, zone);
    if params.compoundingRatio.AtMostOne() {
      CompoundedMonotone(start, params.compoundingRatio, 0, zone);
    }
  }

  /** If the result fits, the halving reward is at most the floor of `C * (n/d)^zone`, and short of
      it by at most one and the scaled losses. For a ratio of at most one, which always fits,
      it is the floor or one less. */
  lemma DrawnIsFloor(params: Parameters, zone: nat)
    requires params.Valid() && params.compoundingType.Halvening? && Drawn(zone, params).Ok?
    requires zone < 0x1_0000_0000
    ensures var (drawn, n, d) :=
              (Drawn(zone, params).value, params.compoundingRatio.numerator, params.compoundingRatio.denominator);
            var exact := Quotient(params.initialValue * Power(n, zone), Power(d, zone));
            && (HalvingAccumulator(params, zone) / SCALE < U64 ==>
                  drawn <= exact <= drawn + 1 + Quotient(Losses(n, d, zone), SCALE * Power(d, zone)))
            && (params.compoundingRatio.AtMostOne() ==> drawn <= exact <= drawn + 1)
  {
    var (c, rr) := (params.initialValue, params.compoundingRatio);
    var (n, d) := (rr.numerator, rr.denominator);
    DrawnFitsWhen(params, zone);
    AccumulatorBounds(c * SCALE, rr, zone);
    AccumulatedIsCompounded(c * SCALE, rr, zone);
    Regroup(c, SCALE, Power(n, zone));
    FloorUpTo(c * Power(n, zone), SCALE, HalvingAccumulator(params, zone), Losses(n, d, zone), Power(d, zone));
    if rr.AtMostOne() {
      SmallLosses(Losses(n, d, zone), zone, Power(d, zone), SCALE);
    }
  }

  /** The halving overflows from the first zone on, exactly if its largest product does not fit. */
  lemma DrawnOverflowsWhen(params: Parameters, zone: nat)
    requires params.Valid() && params.compoundingType.Halvening?
    ensures Drawn(zone, params).Ok? <==>
            zone == 0 || LargestProduct(params.initialValue * 1_000_000_000_000_000_000, params.compoundingRatio, zone)
                         < 0x1_0000_0000_0000_0000_0000_0000_0000_0000
  {
    OverflowsWhen(params.initialValue * SCALE, params.compoundingRatio, zone);
  }

  lemma DrawnOnce(params: Parameters)
    requires params.Valid() && params.compoundingType.Halvening? && params.compoundingRatio.denominator == 1
    requires params.initialValue * SCALE * params.compoundingRatio.numerator < U128
    ensures Drawn(1, params) == Ok(params.initialValue * SCALE * params.compoundingRatio.numerator / SCALE % U64)
  {
    var start := params.initialValue * SCALE;
    assert Accumulated(start, params.compoundingRatio, 0) == Ok(start);
  }

  lemma FirstZone(params: Parameters, declaredStake: nat)
    requires params.Valid() && params.epochRate == 1 && params.epochStart == 0 && params.rewardDrawingLimitMax.NoLimit?
    ensures Contribution(1, params, declaredStake) == Drawn(1, params)
  {
    assert Zone(1, params) == 1;
  }

  /** A ratio of four, which is read without complaint, turns a quarter of 2^64 into nothing. */
  lemma DrawnWraps(params: Parameters)
    requires params == Parameters(0x4000_0000_0000_0000, Ratio(4, 1), Halvening, 1, 0, NoLimit)
    ensures Contribution(1, params, 0) == Ok(0)
    ensures params.initialValue * params.compoundingRatio.numerator / params.compoundingRatio.denominator == U64
  {
    DrawnOnce(params);
    FirstZone(params, 0);
  }

  /** Both outcomes of the rounding occur. */
  lemma OneLessHappens()
    ensures var params := Parameters(6_000_000_001, Ratio(2_999_999_999, 3_000_000_000), Halvening, 1, 0, NoLimit);
            var rr := params.compoundingRatio;
            && Drawn(2, params) == Ok(5_999_999_996)
            && Quotient(params.initialValue * Power(rr.numerator, 2), Power(rr.denominator, 2)) == 5_999_999_997
  {
    var params := Parameters(6_000_000_001, Ratio(2_999_999_999, 3_000_000_000), Halvening, 1, 0, NoLimit);
    var rr := params.compoundingRatio;
    var start := params.initialValue * SCALE;
    assert Accumulated(start, rr, 0) == Ok(6_000_000_001_000_000_000_000_000_000);
    assert Accumulated(start, rr, 1) == Ok(5_999_999_998_999_999_999_666_666_666);
    assert Accumulated(start, rr, 2) == Ok(5_999_999_996_999_999_999_999_999_999);
    assert Power(rr.numerator, 1) == 2_999_999_999 && Power(rr.denominator, 1) == 3_000_000_000;
  }

  lemma QuotientMonotone(a: nat, b: nat, d: nat)
    requires d > 0 && a <= b
    ensures Quotient(a, d) <= Quotient(b, d)
  {
    var (p, q) := (Quotient(a, d), Quotient(b, d));
    MulStep(d, q, p);
    assert d * q == q * d && d * p == p * d;
  }

  lemma ReductionGrows(numerator: nat, denominator: nat, z1: nat, z2: nat)
    requires denominator > 0 && z1 <= z2
    ensures numerator * z1 <= numerator * z2
    ensures Quotient(numerator * z1, denominator) <= Quotient(numerator * z2, denominator)
  {
    MulLe(z1, z2, numerator);
    QuotientMonotone(numerator * z1, numerator * z2, denominator);
  }

  lemma DrawnFalls(params: Parameters, z1: nat, z2: nat)
    requires params.Valid() && z1 <= z2 && Drawn(z2, params).Ok?
    requires params.compoundingType.Halvening? ==> params.compoundingRatio.AtMostOne()
    ensures Drawn(z1, params).Ok? && Drawn(z2, params).value <= Drawn(z1, params).value
  {
    var rr := params.compoundingRatio;
    if params.compoundingType.Linear? {
      ReductionGrows(rr.numerator, rr.denominator, z1, z2);
    } else {
      var start := params.initialValue * SCALE;
      OverflowsWhen(start, rr, z1);
      OverflowsWhen(start, rr, z2);
      AccumulatedIsCompounded(start, rr, z1);
      AccumulatedIsCompounded(start, rr, z2);
      CompoundedMonotone(start, rr, z1, z2);
      DrawnFitsWhen(params, z1);
      DrawnFitsWhen(params, z2);
    }
  }

  /** From the start epoch on the contribution never grows. */
  lemma ContributionNeverGrows(params: Parameters, e1: nat, e2: nat, declaredStake: nat)
    requires params.Valid() && params.epochStart <= e1 <= e2
    requires params.compoundingType.Halvening? ==> params.compoundingRatio.AtMostOne()
    requires Contribution(e2, params, declaredStake).Ok?
    ensures Contribution(e1, params, declaredStake).Ok?
    ensures Contribution(e2, params, declaredStake).value <= Contribution(e1, params, declaredStake).value
  {
    QuotientMonotone(e1 - params.epochStart, e2 - params.epochStart, params.epochRate);
    DrawnFalls(params, Zone(e1, params), Zone(e2, params));
  }

  /** The share of the stake that the limit asks for. */
  function Share(params: Parameters, declaredStake: nat): nat
    requires params.Valid() && params.rewardDrawingLimitMax.ByStakeAbsolute?
  {
    var ratio := params.rewardDrawingLimitMax.ratio;
    Quotient(declaredStake * ratio.numerator, ratio.denominator)
  }

  lemma CutLimit(drawn: nat, share: nat)
    requires drawn < U64
    ensures var x := share % U64;
            (if drawn <= x then drawn else x) == (if drawn <= share then drawn else share) <==> share < U64 || drawn <= x
  {
  }

  lemma DrawnBelow(params: Parameters, zone: nat)
    requires params.Valid() && Drawn(zone, params).Ok?
    ensures Drawn(zone, params).value < U64
  {
  }

  /** The contribution is the lesser of what is drawn and the exact share of the stake exactly if
      the share fits 64 bits, or what it is cut to is still no limit. A limit of at most the whole
      stake always fits. */
  lemma ContributionIsLimited(params: Parameters, epoch: nat, declaredStake: nat)
    requires params.Valid() && epoch >= params.epochStart && declaredStake < U64
    requires params.rewardDrawingLimitMax.ByStakeAbsolute?
    requires Drawn(Zone(epoch, params), params).Ok?
    ensures var (share, drawn) := (Share(params, declaredStake), Drawn(Zone(epoch, params), params).value);
            && share * params.rewardDrawingLimitMax.ratio.denominator
               <= declaredStake * params.rewardDrawingLimitMax.ratio.numerator
               < share * params.rewardDrawingLimitMax.ratio.denominator + params.rewardDrawingLimitMax.ratio.denominator
            && (Contribution(epoch, params, declaredStake) == Ok(if drawn <= share then drawn else share) <==>
                share < 0x1_0000_0000_0000_0000 || drawn <= share % 0x1_0000_0000_0000_0000)
            && Contribution(epoch, params, declaredStake)
               == Ok(if drawn <= share % 0x1_0000_0000_0000_0000 then drawn else share % 0x1_0000_0000_0000_0000)
            && (params.rewardDrawingLimitMax.ratio.AtMostOne() ==> share <= declaredStake)
  {
    var (share, drawn) := (Share(params, declaredStake), Drawn(Zone(epoch, params), params).value);
    DrawnBelow(params, Zone(epoch, params));
    CutLimit(drawn, share);
    if params.rewardDrawingLimitMax.ratio.AtMostOne() {
      QuotientShrinks(declaredStake, params.rewardDrawingLimitMax.ratio);
    }
  }

  /** A limit of 2^63 times a stake of two lets nothing through, whatever is drawn. */
  lemma LimitWraps(params: Parameters, epoch: nat)
    requires params.Valid() && epoch >= params.epochStart
    requires params.rewardDrawingLimitMax == ByStakeAbsolute(Ratio(0x8000_0000_0000_0000, 1))
    requires Drawn(Zone(epoch, params), params).Ok?
    ensures Share(params, 2) == U64 && Contribution(epoch, params, 2) == Ok(0)
  {
  }

  // ---- Tax ----

  datatype TaxType = TaxType(fixed: nat, ratio: Ratio, maxLimit: Option<nat>) {
    predicate Valid() {
      fixed < U64 && ratio.Valid() && (maxLimit.Some? ==> 0 < maxLimit.value < U64)
    }
  }

  datatype TaxDistribution = TaxDistribution(taxed: nat, afterTax: nat)

  const TAX_SCALE: nat := 1_000_000_000

  /** The share of what is left after the fixed part, scaled up and down again. */
  function ScaledShare(left: nat, ratio: Ratio): nat
    requires ratio.Valid()
  {
    Quotient(left * TAX_SCALE * ratio.numerator, ratio.denominator) / TAX_SCALE % U64
  }

  function TreasuryCut(left: nat, tax: TaxType): nat
    requires tax.Valid()
  {
    var out := ScaledShare(left, tax.ratio);
    if tax.maxLimit.Some? && tax.maxLimit.value < out then tax.maxLimit.value else out
  }

  /** All is taxed if the fixed part exceeds the value. A cut above the rest is dropped, and
      the rest with it. */
  function Taxed(v: nat, tax: TaxType): Result<TaxDistribution, Overflow>
    requires tax.Valid()
  {
    if v < tax.fixed then Ok(TaxDistribution(v, 0))
    else
      var left := v - tax.fixed;
      var cut := TreasuryCut(left, tax);
      if left * TAX_SCALE * tax.ratio.numerator >= U128 then Err(Overflow)
      else if cut <= left then Ok(TaxDistribution(tax.fixed + cut, left - cut))
      else Ok(TaxDistribution(tax.fixed, 0))
  }

  /** The sums of values never overflow. */
  method TaxCut(v: nat, tax: TaxType) returns (r: Result<TaxDistribution, Overflow>)
    requires v < U64 && tax.Valid()
    ensures r == Taxed(v, tax)
  {
    var left, taxed := v, 0;
    if left < tax.fixed {
      return Ok(TaxDistribution(v, 0));
    }
    left := left - tax.fixed;
    taxed := taxed + tax.fixed;
    assert taxed < U64;
    if left * TAX_SCALE * tax.ratio.numerator >= U128 {
      return Err(Overflow);
    }
    var out := ScaledShare(left, tax.ratio);
    var treasuryCut := if tax.maxLimit.Some? && tax.maxLimit.value < out then tax.maxLimit.value else out;
    if treasuryCut <= left {
      left := left - treasuryCut;
      taxed := taxed + treasuryCut;
    } else {
      left := 0;
      taxed := taxed + left;
    }
    assert taxed < U64;
    r := Ok(TaxDistribution(taxed, left));
  }

  /** Scaling does not change the share: two divisions round like one. */
  lemma ScalingIsExact(left: nat, ratio: Ratio)
    requires left < U64 && ratio.Valid()
    ensures ScaledShare(left, ratio) == Quotient(left * ratio.numerator, ratio.denominator) % 0x1_0000_0000_0000_0000
    ensures ratio.AtMostOne() ==> ScaledShare(left, ratio) == Quotient(left * ratio.numerator, ratio.denominator) <= left
  {
    var (n, d) := (ratio.numerator, ratio.denominator);
    Regroup(left, TAX_SCALE, n);
    TwoFloors(left * n, d);
    if ratio.AtMostOne() {
      QuotientShrinks(left, ratio);
      FitsAlready(Quotient(left * n, d));
    }
  }

  lemma FitsAlready(x: nat)
    requires x < U64
    ensures x % U64 == x
  {
  }

  lemma TwoFloors(x: nat, d: nat)
    requires d > 0
    ensures Quotient(x * TAX_SCALE, d) / TAX_SCALE == Quotient(x, d)
  {
    var (exact, scaled) := (Quotient(x, d), Quotient(x * TAX_SCALE, d));
    var rest := scaled - TAX_SCALE * exact;
    assert rest * d == scaled * d - TAX_SCALE * (exact * d);
    SmallMultiple(rest, d);
  }

  lemma MulNegative(t: int, d: nat)
    ensures t < 0 ==> t * d + d <= 0
  {
    if t < 0 {
      MulLe(1, -t, d);
      assert (-t) * d == -(t * d);
    }
  }

  lemma SmallMultiple(t: int, d: nat)
    requires 0 < t * d + d && t * d < TAX_SCALE * d
    ensures 0 <= t < TAX_SCALE
  {
    MulNegative(t, d);
    CancelFloor(t, TAX_SCALE - 1, d);
  }

  /** A tax of at most the whole conserves the value and takes the exact share, up to its limit. */
  lemma TaxConserves(v: nat, tax: TaxType)
    requires v < U64 && tax.Valid() && tax.ratio.AtMostOne() && Taxed(v, tax).Ok?
    ensures var d := Taxed(v, tax).value;
            && d.taxed + d.afterTax == v
            && (v < tax.fixed ==> d.taxed == v)
            && (v >= tax.fixed ==>
                  var share := Quotient((v - tax.fixed) * tax.ratio.numerator, tax.ratio.denominator);
                  d.taxed == tax.fixed + if tax.maxLimit.Some? && tax.maxLimit.value < share then tax.maxLimit.value else share)
  {
    if v >= tax.fixed {
      ScalingIsExact(v - tax.fixed, tax.ratio);
    }
  }

  /** For any ratio: the tax, and when it overflows. Money is lost exactly if the cut, which is the
      share as far as it fits 64 bits, capped by the limit, exceeds what is left. */
  lemma TaxConservesWhen(v: nat, tax: TaxType)
    requires v < U64 && tax.Valid()
    ensures v < tax.fixed ==> Taxed(v, tax) == Ok(TaxDistribution(v, 0))
    ensures v >= tax.fixed ==>
              var (left, r) := (v - tax.fixed, Taxed(v, tax));
              var share := Quotient(left * tax.ratio.numerator, tax.ratio.denominator) % 0x1_0000_0000_0000_0000;
              var cut := if tax.maxLimit.Some? && tax.maxLimit.value < share then tax.maxLimit.value else share;
              && (r.Err? <==>
                  left * 1_000_000_000 * tax.ratio.numerator >= 0x1_0000_0000_0000_0000_0000_0000_0000_0000)
              && (r.Ok? ==> r.value == if cut <= left then TaxDistribution(tax.fixed + cut, left - cut)
                                       else TaxDistribution(tax.fixed, 0))
              && (r.Ok? ==> (r.value.taxed + r.value.afterTax == v <==> left == 0 || cut <= left))
  {
    if v >= tax.fixed {
      ScalingIsExact(v - tax.fixed, tax.ratio);
      if v == tax.fixed {
        assert 0 * tax.ratio.numerator == 0;
      }
    }
  }

  /** With a ratio of two, six of ten coins vanish. Only a tax that is constructed directly can
      have such a ratio: reading one rejects ratios above one. */
  lemma TaxLoses()
    ensures Taxed(10, TaxType(4, Ratio(2, 1), None)) == Ok(TaxDistribution(4, 0))
  {
    assert ScaledShare(6, Ratio(2, 1)) == 12;
  }
}
