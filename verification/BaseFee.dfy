/** The base-fee update of the Specification section of EIP-1559, with a minimum fee. */
module BaseFee {
  import opened Common
  import opened Arithmetic

  datatype Params = Params(elasticity: u64, denominator: u64, minimum: u128)

  /** Unchecked 128-bit product: it wraps. */
  function WrapMul(a: u128, b: nat): u128 { (a * b) % 0x1_0000_0000_0000_0000_0000_0000_0000_0000 }

  /** Fee change for a gas distance from the target. */
  function Delta(fee: u128, gasDelta: nat, target: nat, denominator: nat): nat
    requires target >= 1 && denominator >= 1
  {
    QuotientBound(WrapMul(fee, gasDelta), target);
    QuotientBound(WrapMul(fee, gasDelta) / target, denominator);
    WrapMul(fee, gasDelta) / target / denominator
  }

  function NextBaseFee(parentFee: Option<u128>, gasLimit: u64, gasUsed: u64, p: Params): nat {
    if parentFee.None? then 0
    else if p.elasticity == 0 || p.denominator == 0 then parentFee.value
    else
      var fee := parentFee.value;
      QuotientBound(gasLimit, p.elasticity);
      var target := gasLimit / p.elasticity;
      if target == 0 || gasUsed == target then Max(fee, p.minimum)
      else if gasUsed > target then
        var d := Max(Delta(fee, gasUsed - target, target, p.denominator), 1);
        Max(if fee + d > U128_MAX then U128_MAX else fee + d, p.minimum)
      else
        var d := Delta(fee, target - gasUsed, target, p.denominator);
        Max(SatSub(fee, d), p.minimum)
  }

  function Target(gasLimit: u64, p: Params): nat
    requires p.elasticity >= 1
  {
    QuotientBound(gasLimit, p.elasticity);
    gasLimit / p.elasticity
  }

  function Distance(a: nat, b: nat): nat { if a <= b then b - a else a - b }

  /** The product the update forms fits in 128 bits. */
  predicate Fits(fee: u128, gasLimit: u64, gasUsed: u64, p: Params)
    requires p.elasticity >= 1
  {
    fee * Distance(gasUsed, Target(gasLimit, p)) <= U128_MAX
  }

  lemma DeltaMono(fee: u128, g1: nat, g2: nat, target: nat, den: nat)
    requires target >= 1 && den >= 1 && g1 <= g2 && fee * g2 <= U128_MAX
    ensures Delta(fee, g1, target, den) <= Delta(fee, g2, target, den)
  {
    MulMono2(fee, g1, g2);
    SmallMod(fee * g1);
    SmallMod(fee * g2);
    QuotientMono(fee * g1, fee * g2, target);
    QuotientBound(fee * g1, target);
    QuotientBound(fee * g2, target);
    QuotientMono((fee * g1) / target, (fee * g2) / target, den);
  }

  lemma SmallMod(a: nat)
    requires a <= U128_MAX
    ensures a % 0x1_0000_0000_0000_0000_0000_0000_0000_0000 == a
  {
  }

  /** A gas distance of at most `k` targets changes the fee by at most `k * fee / den`. */
  lemma DeltaAtMost(fee: u128, g: nat, k: nat, target: nat, den: nat)
    requires target >= 1 && den >= 1 && fee * g <= U128_MAX && g <= k * target
    ensures Delta(fee, g, target, den) <= (k * fee) / den
  {
    SmallMod(fee * g);
    MulMono2(fee, g, k * target);
    assert fee * (k * target) == (k * fee) * target;
    QuotientMono(fee * g, (k * fee) * target, target);
    ExactQuotient(k * fee, target);
    QuotientBound(fee * g, target);
    QuotientMono((fee * g) / target, k * fee, den);
  }

  /** More gas used never gives a lower next fee. */
  lemma MonotoneInGas(fee: u128, gasLimit: u64, used1: u64, used2: u64, p: Params)
    requires p.elasticity >= 1 && p.denominator >= 1 && used1 <= used2
    requires Fits(fee, gasLimit, used1, p) && Fits(fee, gasLimit, used2, p)
    ensures NextBaseFee(Some(fee), gasLimit, used1, p) <= NextBaseFee(Some(fee), gasLimit, used2, p)
  {
    hide Delta;
    var target := Target(gasLimit, p);
    if target >= 1 {
      if used1 > target { DeltaMono(fee, used1 - target, used2 - target, target, p.denominator); }
      if used2 < target { DeltaMono(fee, target - used2, target - used1, target, p.denominator); }
    }
  }

  /** The next fee respects the floor, falls by at most parent/denominator, and rises by at
      most max(1, (elasticity-1)*parent/denominator) while gas used is within elasticity
      targets; the floor is the only other way up. */
  lemma BoundedChange(fee: u128, gasLimit: u64, used: u64, p: Params)
    requires p.elasticity >= 1 && p.denominator >= 1 && Fits(fee, gasLimit, used, p)
    ensures var next := NextBaseFee(Some(fee), gasLimit, used, p);
      && next >= p.minimum
      && next >= fee - fee / p.denominator
      && (used <= p.elasticity * Target(gasLimit, p) ==>
            next <= Max(fee + Max(1, ((p.elasticity - 1) * fee) / p.denominator), p.minimum))
  {
    hide Delta;
    var target := Target(gasLimit, p);
    QuotientBound(fee, p.denominator);
    if target >= 1 {
      if used < target {
        DeltaAtMost(fee, target - used, 1, target, p.denominator);
      } else if target < used <= p.elasticity * target {
        assert (p.elasticity - 1) * target == p.elasticity * target - target;
        DeltaAtMost(fee, used - target, p.elasticity - 1, target, p.denominator);
      }
    }
  }

  /** When the product overflows the fee can fall as gas use rises. */
  lemma OverflowBreaksMonotonicity() returns (fee: u128, gasLimit: u64, used1: u64, used2: u64, p: Params)
    ensures used1 <= used2 && p.elasticity >= 1 && p.denominator >= 1
    ensures Fits(fee, gasLimit, used1, p) && !Fits(fee, gasLimit, used2, p)
    ensures NextBaseFee(Some(fee), gasLimit, used1, p) > NextBaseFee(Some(fee), gasLimit, used2, p)
  {
    fee, gasLimit, used1, used2, p := 0x8000_0000_0000_0000_0000_0000_0000_0000, 6, 4, 5, Params(2, 8, 0);
    assert WrapMul(fee, 1) == fee && WrapMul(fee, 2) == 0;
  }

  /** The two floors are one: the change is the whole part of fee * distance / (target * den). */
  lemma DeltaExact(fee: u128, g: nat, target: nat, den: nat)
    requires target >= 1 && den >= 1 && fee * g <= U128_MAX
    ensures var d := Delta(fee, g, target, den);
      d * (target * den) <= fee * g < (d + 1) * (target * den)
  {
    SmallMod(fee * g);
    QuotientBound(fee * g, target);
    NestedFloor(fee * g, target, den);
  }

  lemma NestedFloor(x: nat, t: nat, d: nat)
    requires t >= 1 && d >= 1 && 0 <= x / t
    ensures var q := (x / t) / d; q * (t * d) <= x < (q + 1) * (t * d)
  {
    var y := x / t;
    var q := y / d;
    QuotientSpec(x, t);
    QuotientSpec(y, d);
    Regroup(q, t, d);
    Regroup(q + 1, t, d);
    MulMono(q * d, y, t);
    MulMono(y + 1, (q + 1) * d, t);
  }

  /** The update against its exact meaning: above the target the fee rises by the exact share,
      at least one, up to the 128-bit limit; below it falls by the exact share; the floor is
      applied last. */
  lemma UpdateExact(fee: u128, gasLimit: u64, used: u64, p: Params, share: nat)
    requires p.elasticity >= 1 && p.denominator >= 1 && Fits(fee, gasLimit, used, p)
    requires Target(gasLimit, p) >= 1
    requires var t := Target(gasLimit, p);
      share * (t * p.denominator) <= fee * Distance(used, t) < (share + 1) * (t * p.denominator)
    ensures var next, t := NextBaseFee(Some(fee), gasLimit, used, p), Target(gasLimit, p);
      && (used > t ==> next == Max(Min(U128_MAX, fee + Max(share, 1)), p.minimum))
      && (used < t ==> share <= fee && next == Max(fee - share, p.minimum))
      && (used == t ==> next == Max(fee, p.minimum))
  {
    hide Delta;
    var t := Target(gasLimit, p);
    var d := Delta(fee, Distance(used, t), t, p.denominator);
    DeltaExact(fee, Distance(used, t), t, p.denominator);
    FloorUnique(fee * Distance(used, t), t * p.denominator, share, d);
    QuotientBound(fee, p.denominator);
    if used < t { DeltaAtMost(fee, t - used, 1, t, p.denominator); }
  }

  /** The target is the whole part of the gas limit over the elasticity. */
  lemma TargetExact(gasLimit: u64, p: Params)
    requires p.elasticity >= 1
    ensures Target(gasLimit, p) * p.elasticity <= gasLimit < (Target(gasLimit, p) + 1) * p.elasticity
  {
    QuotientSpec(gasLimit, p.elasticity);
  }

  /** The cases without an update: no parent fee gives zero; a zero elasticity or denominator gives
      the parent fee, even below the minimum; a gas limit below the elasticity leaves no target
      and only the minimum applies. */
  lemma NoUpdate(fee: u128, gasLimit: u64, used: u64, p: Params)
    ensures NextBaseFee(None, gasLimit, used, p) == 0
    ensures p.elasticity == 0 || p.denominator == 0 ==> NextBaseFee(Some(fee), gasLimit, used, p) == fee
    ensures p.elasticity > gasLimit && p.denominator > 0 ==>
              NextBaseFee(Some(fee), gasLimit, used, p) == if fee >= p.minimum then fee else p.minimum
  {
    if p.elasticity > gasLimit { SmallQuotient(gasLimit, p.elasticity); }
  }

  // ----- the overflowing product, exactly

  const TWO128: nat := 0x1_0000_0000_0000_0000_0000_0000_0000_0000

  /** `d` is the whole part of fee * g / (target * den). */
  predicate IsShare(fee: u128, g: nat, target: nat, den: nat, d: nat) {
    d * (target * den) <= fee * g < (d + 1) * (target * den)
  }

  lemma WrapLoses(x: nat)
    requires x > U128_MAX
    ensures x % TWO128 + TWO128 <= x
  {
    var k := x / TWO128;
    assert x == k * TWO128 + x % TWO128 && k >= 1;
  }

  lemma DivisorFits(target: u64, den: u64)
    ensures target * den < TWO128
  {
    MulMono(target, U64_MAX, den);
    MulMono2(U64_MAX, den, U64_MAX);
  }

  /** Once the product wraps, the computed change is short of the exact share. */
  lemma WrappedDeltaShort(fee: u128, g: u64, target: u64, den: u64, share: nat)
    requires target >= 1 && den >= 1 && fee * g > U128_MAX && IsShare(fee, g, target, den, share)
    ensures Delta(fee, g, target, den) < share
  {
    var x, w, m := fee * g, WrapMul(fee, g), target * den;
    WrapLoses(x);
    DivisorFits(target, den);
    QuotientBound(w, target);
    NestedFloor(w, target, den);
    var d := Delta(fee, g, target, den);
    assert (d + 1) * m == d * m + m;
    if d >= share { MulMono(share + 1, d + 1, m); }
  }

  /** The computed change is the exact share exactly when the product fits in 128 bits. */
  lemma DeltaExactIff(fee: u128, g: u64, target: u64, den: u64)
    requires target >= 1 && den >= 1
    ensures IsShare(fee, g, target, den, Delta(fee, g, target, den)) <==> fee * g <= U128_MAX
  {
    hide Delta;
    if fee * g <= U128_MAX {
      DeltaExact(fee, g, target, den);
    } else if IsShare(fee, g, target, den, Delta(fee, g, target, den)) {
      WrappedDeltaShort(fee, g, target, den, Delta(fee, g, target, den));
    }
  }

  /** What the next fee should be, given the exact share. */
  function ExactNext(fee: u128, used: u64, target: nat, share: nat, minimum: u128): int {
    if used > target then Max(Min(U128_MAX, fee + Max(share, 1)), minimum)
    else if used < target then Max(fee - share, minimum)
    else Max(fee, minimum)
  }

  /** The update meets its exact meaning exactly when the product fits or the error is hidden:
      on a rise because the share is one (the least rise), because even the short rise meets
      the 128-bit limit, or because the exact fee is still at the minimum; on a fall because
      even the short fall reaches the minimum. */
  lemma UpdateExactIff(fee: u128, gasLimit: u64, used: u64, p: Params, share: nat)
    requires p.elasticity >= 1 && p.denominator >= 1 && Target(gasLimit, p) >= 1
    requires IsShare(fee, Distance(used, Target(gasLimit, p)), Target(gasLimit, p), p.denominator, share)
    ensures var t := Target(gasLimit, p);
      var d := Delta(fee, Distance(used, t), t, p.denominator);
      NextBaseFee(Some(fee), gasLimit, used, p) == ExactNext(fee, used, t, share, p.minimum) <==>
        || Fits(fee, gasLimit, used, p)
        || (used > t && (share == 1 || fee + Max(d, 1) >= U128_MAX || Min(U128_MAX, fee + share) <= p.minimum))
        || (used < t && fee - d <= p.minimum)
  {
    hide Delta, NextBaseFee;
    var t := Target(gasLimit, p);
    var g := Distance(used, t);
    if Fits(fee, gasLimit, used, p) {
      UpdateExact(fee, gasLimit, used, p, share);
    } else {
      NextFromDelta(fee, gasLimit, used, p);
      WrappedDeltaShort(fee, g, t, p.denominator, share);
      if used < t { ShareAtMostFee(fee, g, t, p.denominator, share); }
      hide IsShare, Fits, Target, Distance;
    }
  }

  lemma NextFromDelta(fee: u128, gasLimit: u64, used: u64, p: Params)
    requires p.elasticity >= 1 && p.denominator >= 1 && Target(gasLimit, p) >= 1
    ensures var t := Target(gasLimit, p);
      var d := Delta(fee, Distance(used, t), t, p.denominator);
      NextBaseFee(Some(fee), gasLimit, used, p) ==
        if used > t then Max(Min(U128_MAX, fee + Max(d, 1)), p.minimum)
        else if used < t then Max(SatSub(fee, d), p.minimum)
        else Max(fee, p.minimum)
  {
    hide Delta;
  }

  lemma ShareAtMostFee(fee: u128, g: nat, target: nat, den: nat, share: nat)
    requires g <= target && den >= 1 && target >= 1 && IsShare(fee, g, target, den, share)
    ensures share <= fee
  {
    MulMono2(fee, g, target);
    MulAtLeast(den, target);
    MulMono2(share, target, target * den);
    CancelFactor(share, fee, target);
  }

  // ----- monotonicity in gas used, wrap by wrap

  /** The product crosses a multiple of 2^128 between two neighbouring gas distances. */
  predicate Wraps(fee: u128, g: nat) {
    g >= 1 && (fee * g) / TWO128 != (fee * (g - 1)) / TWO128
  }

  lemma NoWrapGrows(fee: u128, g: nat)
    requires g >= 1 && !Wraps(fee, g)
    ensures WrapMul(fee, g - 1) <= WrapMul(fee, g)
  {
    var a, b := fee * (g - 1), fee * g;
    assert b == a + fee;
    assert a == (a / TWO128) * TWO128 + a % TWO128;
    assert b == (b / TWO128) * TWO128 + b % TWO128;
  }

  lemma NoWrapDelta(fee: u128, g: nat, target: nat, den: nat)
    requires g >= 1 && target >= 1 && den >= 1 && !Wraps(fee, g)
    ensures Delta(fee, g - 1, target, den) <= Delta(fee, g, target, den)
  {
    var a, b := WrapMul(fee, g - 1), WrapMul(fee, g);
    NoWrapGrows(fee, g);
    QuotientMono(a, b, target);
    QuotientBound(a, target);
    QuotientBound(b, target);
    QuotientMono(a / target, b / target, den);
  }

  /** A wrap between `used` and `used + 1` does not show in the fee: the changes round alike, or
      the 128-bit limit or the minimum hides the difference. */
  predicate Hidden(fee: u128, used: u64, target: nat, p: Params)
    requires target >= 1 && p.denominator >= 1
  {
    if used >= target then
      var before, after := Delta(fee, used - target, target, p.denominator), Delta(fee, used + 1 - target, target, p.denominator);
      || before <= Max(after, 1)
      || fee + Max(after, 1) >= U128_MAX
      || Min(U128_MAX, fee + before) <= p.minimum
    else
      var before, after := Delta(fee, target - used, target, p.denominator), Delta(fee, target - used - 1, target, p.denominator);
      after <= before || SatSub(fee, before) <= p.minimum
  }

  /** The gas distance whose product is formed last between `used` and `used + 1`. */
  function Farther(used: u64, target: nat): nat { if used >= target then used + 1 - target else target - used }

  /** From one gas amount to the next the fee does not fall exactly when no wrap shows. */
  lemma StepMonotoneIff(fee: u128, gasLimit: u64, used: u64, p: Params)
    requires p.elasticity >= 1 && p.denominator >= 1 && Target(gasLimit, p) >= 1 && used < U64_MAX
    ensures var t := Target(gasLimit, p);
      NextBaseFee(Some(fee), gasLimit, used, p) <= NextBaseFee(Some(fee), gasLimit, used + 1, p) <==>
        !Wraps(fee, Farther(used, t)) || Hidden(fee, used, t, p)
  {
    hide Delta, Wraps;
    var t := Target(gasLimit, p);
    ZeroDelta(fee, t, p.denominator);
    if !Wraps(fee, Farther(used, t)) { NoWrapDelta(fee, Farther(used, t), t, p.denominator); }
  }

  lemma ZeroDelta(fee: u128, target: nat, den: nat)
    requires target >= 1 && den >= 1
    ensures Delta(fee, 0, target, den) == 0
  {
    SmallQuotient(0, target);
    SmallQuotient(0, den);
  }

  ghost predicate NoDrop(fee: u128, gasLimit: u64, lo: u64, hi: u64, p: Params) {
    forall u: u64 :: lo <= u < hi ==>
      NextBaseFee(Some(fee), gasLimit, u, p) <= NextBaseFee(Some(fee), gasLimit, u + 1, p)
  }

  lemma {:induction false} NoDropChains(fee: u128, gasLimit: u64, lo: u64, hi: u64, p: Params)
    requires lo <= hi && NoDrop(fee, gasLimit, lo, hi, p)
    ensures NextBaseFee(Some(fee), gasLimit, lo, p) <= NextBaseFee(Some(fee), gasLimit, hi, p)
    decreases hi - lo
  {
    hide NextBaseFee;
    if lo < hi {
      NoDropChains(fee, gasLimit, lo, hi - 1, p);
      var u: u64 := hi - 1;
      assert NextBaseFee(Some(fee), gasLimit, u, p) <= NextBaseFee(Some(fee), gasLimit, u + 1, p);
    }
  }

  /** The next fee never falls as gas used grows up to `most` exactly when every wrap of the
      product on the way is hidden. */
  lemma MonotoneIff(fee: u128, gasLimit: u64, most: u64, p: Params)
    requires p.elasticity >= 1 && p.denominator >= 1 && Target(gasLimit, p) >= 1
    ensures (forall a: u64, b: u64 :: a <= b <= most ==>
               NextBaseFee(Some(fee), gasLimit, a, p) <= NextBaseFee(Some(fee), gasLimit, b, p))
            <==>
            (forall u: u64 :: u < most && Wraps(fee, Farther(u, Target(gasLimit, p))) ==>
               Hidden(fee, u, Target(gasLimit, p), p))
  {
    hide NextBaseFee, Wraps, Hidden;
    var t := Target(gasLimit, p);
    forall u: u64 | u < most
      ensures NextBaseFee(Some(fee), gasLimit, u, p) <= NextBaseFee(Some(fee), gasLimit, u + 1, p) <==>
              !Wraps(fee, Farther(u, t)) || Hidden(fee, u, t, p)
    {
      StepMonotoneIff(fee, gasLimit, u, p);
    }
    if forall u: u64 :: u < most && Wraps(fee, Farther(u, t)) ==> Hidden(fee, u, t, p) {
      forall a: u64, b: u64 | a <= b <= most
        ensures NextBaseFee(Some(fee), gasLimit, a, p) <= NextBaseFee(Some(fee), gasLimit, b, p)
      {
        NoDropChains(fee, gasLimit, a, b, p);
      }
    } else {
      var u: u64 :| u < most && Wraps(fee, Farther(u, t)) && !Hidden(fee, u, t, p);
      var v: u64 := u + 1;
      assert NextBaseFee(Some(fee), gasLimit, u, p) > NextBaseFee(Some(fee), gasLimit, v, p);
    }
  }

  // ----- monotonicity in gas used, by a guard on the two ends

  /** More gas used never lowers the next fee, for gas used between `lo` and `hi`. */
  ghost predicate NeverFalls(fee: u128, gasLimit: u64, lo: u64, hi: u64, p: Params) {
    forall a: u64, b: u64 :: lo <= a <= b <= hi ==>
      NextBaseFee(Some(fee), gasLimit, a, p) <= NextBaseFee(Some(fee), gasLimit, b, p)
  }

  /** The first gas distance whose product overflows. */
  lemma {:induction false} FirstOverflow(fee: u128, g: nat) returns (k: nat)
    requires fee * g > U128_MAX
    ensures 2 <= k <= g && fee * (k - 1) <= U128_MAX < fee * k
    decreases g
  {
    if fee * (g - 1) <= U128_MAX {
      k := g;
      assert g == 1 ==> fee * g == fee;
    } else {
      k := FirstOverflow(fee, g - 1);
    }
  }

  /** There the product drops by 2^128 - fee, to less than the fee. */
  lemma ProductDrops(fee: u128, k: nat)
    requires k >= 1 && fee * (k - 1) <= U128_MAX < fee * k
    ensures WrapMul(fee, k - 1) == fee * (k - 1) && WrapMul(fee, k) == fee * k - TWO128 < fee
    ensures WrapMul(fee, k - 1) == WrapMul(fee, k) + TWO128 - fee
  {
    assert fee * k == fee * (k - 1) + fee;
  }

  /** So the computed change drops by two at least, to less than half the fee unless the
      divisor is one. */
  lemma DeltaDrops(fee: u128, k: nat, target: u64, den: u64)
    requires k >= 1 && fee * (k - 1) <= U128_MAX < fee * k
    requires target >= 1 && den >= 1 && 2 * fee < TWO128 && 4 * (target * den) <= TWO128
    ensures var before, after := Delta(fee, k - 1, target, den), Delta(fee, k, target, den);
      after + 2 <= before && after < fee && (target >= 2 ==> 2 * after < fee)
  {
    hide WrapMul;
    var x, y := WrapMul(fee, k - 1), WrapMul(fee, k);
    ProductDrops(fee, k);
    QuotientBound(x, target);
    QuotientBound(y, target);
    NestedFloor(x, target, den);
    NestedFloor(y, target, den);
    DropOfFloors(x / target / den, y / target / den, target * den, x, y);
    SmallShare(y / target / den, target, den, fee);
  }

  /** A share of less than the fee is less than the fee, and than half of it over a target of two. */
  lemma SmallShare(share: nat, target: nat, den: nat, fee: nat)
    requires target >= 1 && den >= 1 && share * (target * den) < fee
    ensures share < fee && (target >= 2 ==> 2 * share < fee)
  {
    MulAtLeast(den, target);
    MulMono2(share, 1, target * den);
    if target >= 2 { MulMono2(share, 2, target * den); }
  }

  lemma DropOfFloors(before: nat, after: nat, m: nat, x: nat, y: nat)
    requires x < (before + 1) * m && after * m <= y && y + 2 * m <= x
    ensures after + 2 <= before
  {
    assert (after + 2) * m == after * m + 2 * m;
    if before + 1 <= after + 2 { MulMono(before + 1, after + 2, m); }
  }

  /** Common inputs: fee below 2^127 and a divisor of at most 2^126. */
  predicate Moderate(fee: u128, gasLimit: u64, p: Params) {
    && p.elasticity >= 1 && p.denominator >= 1 && Target(gasLimit, p) >= 1
    && 2 * fee < TWO128 && 4 * (Target(gasLimit, p) * p.denominator) <= TWO128
  }

  lemma FitsBetween(fee: u128, gasLimit: u64, lo: u64, hi: u64, used: u64, p: Params)
    requires p.elasticity >= 1 && lo <= used <= hi
    requires Fits(fee, gasLimit, lo, p) && Fits(fee, gasLimit, hi, p)
    ensures Fits(fee, gasLimit, used, p)
  {
    hide Target;
    var t := Target(gasLimit, p);
    if Distance(used, t) <= Distance(lo, t) {
      MulMono2(fee, Distance(used, t), Distance(lo, t));
    } else {
      MulMono2(fee, Distance(used, t), Distance(hi, t));
    }
  }

  lemma FittingNeverFalls(fee: u128, gasLimit: u64, lo: u64, hi: u64, p: Params)
    requires p.elasticity >= 1 && p.denominator >= 1 && lo <= hi
    requires Fits(fee, gasLimit, lo, p) && Fits(fee, gasLimit, hi, p)
    ensures NeverFalls(fee, gasLimit, lo, hi, p)
  {
    hide Fits, NextBaseFee;
    forall a: u64, b: u64 | lo <= a <= b <= hi
      ensures NextBaseFee(Some(fee), gasLimit, a, p) <= NextBaseFee(Some(fee), gasLimit, b, p)
    {
      FitsBetween(fee, gasLimit, lo, hi, a, p);
      FitsBetween(fee, gasLimit, lo, hi, b, p);
      MonotoneInGas(fee, gasLimit, a, b, p);
    }
  }

  /** Above the target an overflow always shows: neither the cap nor a minimum that does not
      exceed the fee hides the first drop. */
  lemma OverflowFallsAbove(fee: u128, gasLimit: u64, most: u64, p: Params)
    requires Moderate(fee, gasLimit, p) && Target(gasLimit, p) <= most && p.minimum <= fee
    requires !Fits(fee, gasLimit, most, p)
    ensures !NeverFalls(fee, gasLimit, Target(gasLimit, p), most, p)
  {
    hide Delta, NextBaseFee;
    var t := Target(gasLimit, p);
    var k := FirstOverflow(fee, Distance(most, t));
    DeltaDrops(fee, k, t, p.denominator);
    var a: u64, b: u64 := t + k - 1, t + k;
    NextFromDelta(fee, gasLimit, a, p);
    NextFromDelta(fee, gasLimit, b, p);
    assert NextBaseFee(Some(fee), gasLimit, a, p) > NextBaseFee(Some(fee), gasLimit, b, p);
  }

  /** Below it one shows unless the minimum is above half the fee. */
  lemma OverflowFallsBelow(fee: u128, gasLimit: u64, p: Params)
    requires Moderate(fee, gasLimit, p) && 2 * p.minimum <= fee && !Fits(fee, gasLimit, 0, p)
    ensures !NeverFalls(fee, gasLimit, 0, Target(gasLimit, p), p)
  {
    hide Delta, NextBaseFee;
    var t := Target(gasLimit, p);
    var k := FirstOverflow(fee, Distance(0, t));
    DeltaDrops(fee, k, t, p.denominator);
    var a: u64, b: u64 := t - k, t - k + 1;
    NextFromDelta(fee, gasLimit, a, p);
    NextFromDelta(fee, gasLimit, b, p);
    assert NextBaseFee(Some(fee), gasLimit, a, p) > NextBaseFee(Some(fee), gasLimit, b, p);
  }

  /** From the target up, the fee never falls exactly when the product fits at the top. */
  lemma MonotoneAboveIff(fee: u128, gasLimit: u64, most: u64, p: Params)
    requires Moderate(fee, gasLimit, p) && Target(gasLimit, p) <= most && p.minimum <= fee
    ensures NeverFalls(fee, gasLimit, Target(gasLimit, p), most, p) <==> Fits(fee, gasLimit, most, p)
  {
    hide NeverFalls;
    if Fits(fee, gasLimit, most, p) {
      FittingNeverFalls(fee, gasLimit, Target(gasLimit, p), most, p);
    } else {
      OverflowFallsAbove(fee, gasLimit, most, p);
    }
  }

  /** Over all gas amounts up to `most`, the fee never falls exactly when the product fits at
      both ends. */
  lemma MonotoneGuard(fee: u128, gasLimit: u64, most: u64, p: Params)
    requires Moderate(fee, gasLimit, p) && Target(gasLimit, p) <= most && 2 * p.minimum <= fee
    ensures NeverFalls(fee, gasLimit, 0, most, p) <==>
            Fits(fee, gasLimit, 0, p) && Fits(fee, gasLimit, most, p)
  {
    hide NextBaseFee;
    if Fits(fee, gasLimit, 0, p) && Fits(fee, gasLimit, most, p) {
      FittingNeverFalls(fee, gasLimit, 0, most, p);
    } else if Fits(fee, gasLimit, 0, p) {
      OverflowFallsAbove(fee, gasLimit, most, p);
    } else {
      OverflowFallsBelow(fee, gasLimit, p);
    }
  }

  /** A minimum at or above the fee pins the whole lower range, so only the upper range counts. */
  lemma PinnedBelow(fee: u128, gasLimit: u64, p: Params)
    requires p.elasticity >= 1 && p.denominator >= 1 && fee <= p.minimum
    ensures NeverFalls(fee, gasLimit, 0, Target(gasLimit, p), p)
  {
    hide Delta;
  }
}
