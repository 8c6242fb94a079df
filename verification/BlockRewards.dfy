/** Reward percentiles of a block: one pass over the rewards sorted by fee. */
module BlockRewards {
  import opened Common

  datatype Reward = Reward(fee: u128, gas: u64)
  datatype Transaction = Transaction(gasPrice: u128, maxFee: Option<u128>, maxPriority: Option<u128>)
  datatype Receipt = Receipt(gasUsed: u64, effectiveGasPrice: u128)
  datatype RpcError = MissingBlockBody

  /** What a transaction paid above the base fee; when the receipt says less than the base
      fee, what it was willing to pay. */
  function EffectiveReward(tx: Transaction, receiptPrice: u128, baseFee: u128): u128 {
    if receiptPrice >= baseFee then receiptPrice - baseFee
    else
      match (tx.maxFee, tx.maxPriority)
      case (Some(maxFee), Some(maxPriority)) => Min(SatSub(maxFee, baseFee), maxPriority)
      case _ => SatSub(tx.gasPrice, baseFee)
  }

  /** On receipts that charge min(max fee, base fee + priority fee) the price read from the
      receipt and the one read from the transaction agree. */
  lemma RewardBranchesAgree(tx: Transaction, baseFee: u128)
    requires tx.maxFee.Some? && tx.maxPriority.Some?
    ensures var charged := Min(tx.maxFee.value, baseFee + tx.maxPriority.value);
      EffectiveReward(tx, charged, baseFee) == Min(SatSub(tx.maxFee.value, baseFee), tx.maxPriority.value)
  {
  }

  /** The transaction was willing to pay `x` on top of the base fee. */
  predicate Affordable(tx: Transaction, baseFee: u128, x: nat) {
    if tx.maxFee.Some? && tx.maxPriority.Some? then x <= tx.maxPriority.value && baseFee + x <= tx.maxFee.value
    else baseFee + x <= tx.gasPrice
  }

  /** `r` is the reward of a transaction: what its receipt says it paid above the base fee or, when
      the receipt says less than the base fee, the most it was willing to pay, if anything. */
  ghost predicate IsReward(tx: Transaction, receiptPrice: u128, baseFee: u128, r: nat) {
    if receiptPrice >= baseFee then baseFee + r == receiptPrice
    else (r == 0 || Affordable(tx, baseFee, r)) && forall x: nat :: Affordable(tx, baseFee, x) ==> x <= r
  }

  /** Every transaction, old or new style, gets its reward. */
  lemma RewardExact(tx: Transaction, receiptPrice: u128, baseFee: u128)
    ensures forall r: nat :: IsReward(tx, receiptPrice, baseFee, r) <==> r == EffectiveReward(tx, receiptPrice, baseFee)
  {
    var e := EffectiveReward(tx, receiptPrice, baseFee);
    assert receiptPrice < baseFee && e > 0 ==> Affordable(tx, baseFee, e);
    assert IsReward(tx, receiptPrice, baseFee, e);
    forall r: nat | IsReward(tx, receiptPrice, baseFee, r) ensures r == e {}
  }

  /** The rewards of a block, one for each transaction with the gas of its receipt. */
  ghost predicate AreRewards(txs: seq<Transaction>, receipts: seq<Receipt>, baseFee: u128, rs: seq<Reward>) {
    && |rs| == |txs| == |receipts|
    && forall i :: 0 <= i < |rs| ==>
         IsReward(txs[i], receipts[i].effectiveGasPrice, baseFee, rs[i].fee) && rs[i].gas == receipts[i].gasUsed
  }

  function RewardsOf(txs: seq<Transaction>, receipts: seq<Receipt>, baseFee: u128): (rs: seq<Reward>)
    requires |txs| == |receipts|
    ensures |rs| == |txs|
    ensures forall i :: 0 <= i < |rs| ==>
              && rs[i].fee == EffectiveReward(txs[i], receipts[i].effectiveGasPrice, baseFee)
              && rs[i].gas == receipts[i].gasUsed
  {
    seq(|txs|, i requires 0 <= i < |txs| && |txs| == |receipts| =>
      Reward(EffectiveReward(txs[i], receipts[i].effectiveGasPrice, baseFee), receipts[i].gasUsed))
  }

  /** A block has exactly one list of rewards. */
  lemma RewardsExact(txs: seq<Transaction>, receipts: seq<Receipt>, baseFee: u128, rs: seq<Reward>)
    requires |txs| == |receipts|
    ensures AreRewards(txs, receipts, baseFee, rs) <==> rs == RewardsOf(txs, receipts, baseFee)
  {
    hide EffectiveReward, IsReward;
    var exact := RewardsOf(txs, receipts, baseFee);
    forall i | 0 <= i < |txs|
      ensures forall r: nat :: IsReward(txs[i], receipts[i].effectiveGasPrice, baseFee, r) <==> r == exact[i].fee
    {
      RewardExact(txs[i], receipts[i].effectiveGasPrice, baseFee);
    }
    if AreRewards(txs, receipts, baseFee, rs) {
      forall i | 0 <= i < |rs| ensures rs[i] == exact[i] {
        assert IsReward(txs[i], receipts[i].effectiveGasPrice, baseFee, rs[i].fee);
      }
      assert rs == exact;
    }
  }

  ghost predicate Sorted(rs: seq<Reward>) {
    forall i, j :: 0 <= i < j < |rs| ==> rs[i].fee <= rs[j].fee
  }

  /** One way to sort by fee; the properties below do not depend on which. */
  function Insert(r: Reward, rs: seq<Reward>): seq<Reward> {
    if rs == [] || r.fee <= rs[0].fee then [r] + rs else [rs[0]] + Insert(r, rs[1..])
  }

  function SortByFee(rs: seq<Reward>): seq<Reward> {
    if rs == [] then [] else Insert(rs[0], SortByFee(rs[1..]))
  }

  lemma InsertUnfolds(r: Reward, rs: seq<Reward>)
    ensures Insert(r, rs) == if rs == [] || r.fee <= rs[0].fee then [r] + rs else [rs[0]] + Insert(r, rs[1..])
  {
  }

  lemma {:induction false} InsertSorts(r: Reward, rs: seq<Reward>)
    requires Sorted(rs)
    ensures Sorted(Insert(r, rs))
    decreases |rs|
  {
    hide Insert;
    InsertUnfolds(r, rs);
    if rs != [] && r.fee > rs[0].fee {
      InsertSorts(r, rs[1..]);
      var ins := Insert(r, rs[1..]);
      forall k | 0 <= k < |ins| ensures rs[0].fee <= ins[k].fee {
        InsertMembers(r, rs[1..], k);
      }
      SortedCons(rs[0], ins);
    } else {
      SortedCons(r, rs);
    }
  }

  lemma SortedCons(r: Reward, rs: seq<Reward>)
    requires Sorted(rs) && forall k :: 0 <= k < |rs| ==> r.fee <= rs[k].fee
    ensures Sorted([r] + rs)
  {
  }

  lemma {:induction false} InsertAdds(r: Reward, rs: seq<Reward>)
    ensures multiset(Insert(r, rs)) == multiset(rs) + multiset{r}
    decreases |rs|
  {
    hide Insert;
    InsertUnfolds(r, rs);
    if rs != [] && r.fee > rs[0].fee {
      InsertAdds(r, rs[1..]);
      assert rs == [rs[0]] + rs[1..];
    }
  }

  lemma {:induction false} InsertMembers(r: Reward, rs: seq<Reward>, k: nat)
    requires k < |Insert(r, rs)|
    ensures Insert(r, rs)[k] == r || Insert(r, rs)[k] in rs
    decreases |rs|
  {
    if rs != [] && r.fee > rs[0].fee && k > 0 { InsertMembers(r, rs[1..], k - 1); }
  }

  lemma {:induction false} SortPermutes(rs: seq<Reward>)
    ensures multiset(SortByFee(rs)) == multiset(rs)
  {
    if rs != [] {
      hide Insert;
      SortPermutes(rs[1..]);
      InsertAdds(rs[0], SortByFee(rs[1..]));
      assert rs == [rs[0]] + rs[1..];
    }
  }

  lemma {:induction false} SortSorts(rs: seq<Reward>)
    ensures Sorted(SortByFee(rs)) && multiset(SortByFee(rs)) == multiset(rs)
    ensures |SortByFee(rs)| == |rs|
  {
    if rs != [] {
      hide Insert, Sorted;
      SortSorts(rs[1..]);
      InsertSorts(rs[0], SortByFee(rs[1..]));
    }
    hide SortByFee;
    SortPermutes(rs);
    assert |multiset(SortByFee(rs))| == |multiset(rs)|;
  }

  /** Gas of the first `n` rewards. */
  function Cumulative(rs: seq<Reward>, n: nat): nat
    requires n <= |rs|
  {
    if n == 0 then 0 else Cumulative(rs, n - 1) + rs[n - 1].gas
  }

  lemma {:induction false} CumulativeGrows(rs: seq<Reward>, i: nat, n: nat)
    requires i <= n <= |rs|
    ensures Cumulative(rs, i) <= Cumulative(rs, n)
    decreases n
  {
    if i < n { CumulativeGrows(rs, i, n - 1); }
  }

  /** `k` is the first position whose cumulative gas reaches the target, or the last one. */
  ghost predicate IsReach(rs: seq<Reward>, target: nat, k: nat) {
    && k < |rs|
    && (Cumulative(rs, k + 1) >= target || k == |rs| - 1)
    && (forall i :: 1 <= i <= k ==> Cumulative(rs, i) < target)
  }

  /** `fee` is the fee at that position. */
  ghost predicate Answers(rs: seq<Reward>, target: nat, fee: u128) {
    exists k: nat :: IsReach(rs, target, k) && rs[k].fee == fee
  }

  function RunningMax(targets: seq<u64>, j: nat): u64
    requires 1 <= j <= |targets|
  {
    if j == 1 then targets[0] else Max(RunningMax(targets, j - 1), targets[j - 1])
  }

  /** The single pass: for any targets the answer for each is the one a fresh search would
      give for the largest target so far. The saturating sum makes no difference. */
  method Walk(rs: seq<Reward>, targets: seq<u64>) returns (out: seq<u128>)
    requires rs != []
    ensures |out| == |targets|
    ensures forall j :: 0 <= j < |targets| ==> Answers(rs, RunningMax(targets, j + 1), out[j])
  {
    out := [];
    var index: nat := 0;
    var cumulative: u64 := rs[0].gas;
    assert Cumulative(rs, 1) == Cumulative(rs, 0) + rs[0].gas;
    for j := 0 to |targets|
      invariant index < |rs| && |out| == j
      invariant cumulative == Min(U64_MAX, Cumulative(rs, index + 1))
      invariant j == 0 ==> index == 0
      invariant j > 0 ==> IsReach(rs, RunningMax(targets, j), index)
      invariant forall k :: 0 <= k < j ==> Answers(rs, RunningMax(targets, k + 1), out[k])
    {
      ghost var goal := RunningMax(targets, j + 1);
      while cumulative < targets[j] && index + 1 < |rs|
        invariant index < |rs| && cumulative == Min(U64_MAX, Cumulative(rs, index + 1))
        invariant forall i :: 1 <= i <= index ==> Cumulative(rs, i) < goal
        invariant j > 0 ==> Cumulative(rs, index + 1) >= RunningMax(targets, j) || index == |rs| - 1
        decreases |rs| - index
      {
        index := index + 1;
        cumulative := SatAdd64(cumulative, rs[index].gas);
      }
      assert IsReach(rs, goal, index);
      out := out + [rs[index].fee];
    }
  }

  // ----- what the answer means, without sorting

  /** Gas of all rewards with fee at most `f`. */
  function GasUpTo(rs: seq<Reward>, f: u128): nat {
    if rs == [] then 0
    else GasUpTo(rs[..|rs| - 1], f) + if rs[|rs| - 1].fee <= f then rs[|rs| - 1].gas else 0
  }

  /** The least fee paid in the block at or below which the target gas was spent, or the
      greatest fee when the target is out of reach. */
  ghost predicate IsQuantile(rs: seq<Reward>, target: nat, f: u128) {
    && (exists i :: 0 <= i < |rs| && rs[i].fee == f)
    && (GasUpTo(rs, f) >= target || forall i :: 0 <= i < |rs| ==> rs[i].fee <= f)
    && (forall i :: 0 <= i < |rs| && rs[i].fee < f ==> GasUpTo(rs, rs[i].fee) < target)
  }

  lemma QuantileUnique(rs: seq<Reward>, target: nat, f: u128, g: u128)
    requires IsQuantile(rs, target, f) && IsQuantile(rs, target, g)
    ensures f == g
  {
    var i :| 0 <= i < |rs| && rs[i].fee == f;
    var j :| 0 <= j < |rs| && rs[j].fee == g;
  }

  lemma {:induction false} GasSplit(a: seq<Reward>, b: seq<Reward>, f: u128)
    ensures GasUpTo(a + b, f) == GasUpTo(a, f) + GasUpTo(b, f)
    decreases |b|
  {
    if b == [] {
      assert a + b == a;
    } else {
      GasSplit(a, b[..|b| - 1], f);
      assert (a + b)[..|a| + |b| - 1] == a + b[..|b| - 1];
    }
  }

  lemma {:induction false} GasPermuted(a: seq<Reward>, b: seq<Reward>, f: u128)
    requires multiset(a) == multiset(b)
    ensures GasUpTo(a, f) == GasUpTo(b, f)
    decreases |a|
  {
    hide GasUpTo;
    if a == [] {
      assert |multiset(b)| == 0;
    } else {
      var n := |a| - 1;
      Occurs(b, a, n);
      var i :| 0 <= i < |b| && b[i] == a[n];
      TakeOut(a, n, f);
      TakeOut(b, i, f);
      RestPermuted(a, b, n, i);
      GasPermuted(Without(a, n), Without(b, i), f);
    }
  }

  function Without(b: seq<Reward>, i: nat): seq<Reward>
    requires i < |b|
  {
    b[..i] + b[i + 1..]
  }

  lemma RestPermuted(a: seq<Reward>, b: seq<Reward>, n: nat, i: nat)
    requires n < |a| && i < |b| && a[n] == b[i] && multiset(a) == multiset(b)
    requires multiset(a) == multiset(Without(a, n)) + multiset{a[n]}
    requires multiset(b) == multiset(Without(b, i)) + multiset{b[i]}
    ensures multiset(Without(a, n)) == multiset(Without(b, i))
  {
    hide Without;
    assert multiset(Without(a, n)) == multiset(a) - multiset{a[n]};
    assert multiset(Without(b, i)) == multiset(b) - multiset{b[i]};
  }

  lemma TakeOut(b: seq<Reward>, i: nat, f: u128)
    requires i < |b|
    ensures var b' := Without(b, i);
      && multiset(b) == multiset(b') + multiset{b[i]}
      && GasUpTo(b, f) == GasUpTo(b', f) + if b[i].fee <= f then b[i].gas else 0
  {
    hide GasUpTo;
    var x := b[i];
    assert b == b[..i] + [x] + b[i + 1..];
    GasSplit(b[..i], b[i + 1..], f);
    GasSplit(b[..i] + [x], b[i + 1..], f);
    GasSplit(b[..i], [x], f);
    OneReward(x, f);
  }

  lemma OneReward(x: Reward, f: u128)
    ensures GasUpTo([x], f) == if x.fee <= f then x.gas else 0
  {
    assert [x][..0] == [];
  }

  lemma {:induction false} GasOfPrefix(rs: seq<Reward>, f: u128, n: nat)
    requires n <= |rs| && forall i :: 0 <= i < n ==> rs[i].fee <= f
    ensures GasUpTo(rs[..n], f) == Cumulative(rs, n)
    decreases n
  {
    if n > 0 {
      GasOfPrefix(rs, f, n - 1);
      assert rs[..n][..n - 1] == rs[..n - 1];
    }
  }

  lemma {:induction false} GasOfSuffix(rs: seq<Reward>, f: u128)
    requires forall i :: 0 <= i < |rs| ==> rs[i].fee > f
    ensures GasUpTo(rs, f) == 0
  {
    if rs != [] { GasOfSuffix(rs[..|rs| - 1], f); }
  }

  lemma GasBelow(rs: seq<Reward>, f: u128, k: nat)
    requires Sorted(rs) && k <= |rs| && (k < |rs| ==> f < rs[k].fee)
    ensures GasUpTo(rs, f) <= Cumulative(rs, k)
  {
    hide GasUpTo, Cumulative;
    GasSplit(rs[..k], rs[k..], f);
    assert rs == rs[..k] + rs[k..];
    forall i | 0 <= i < |rs[k..]| ensures rs[k..][i].fee > f { assert rs[k..][i] == rs[k + i]; }
    GasOfSuffix(rs[k..], f);
    GasAtMost(rs, f, k);
  }

  lemma {:induction false} GasAtMost(rs: seq<Reward>, f: u128, n: nat)
    requires n <= |rs|
    ensures GasUpTo(rs[..n], f) <= Cumulative(rs, n)
    decreases n
  {
    if n > 0 {
      GasAtMost(rs, f, n - 1);
      assert rs[..n][..n - 1] == rs[..n - 1];
    }
  }

  /** The position found in any sorting of the rewards carries the quantile of the unsorted
      rewards, so ties in the sort cannot matter. */
  lemma ReachIsQuantile(rs: seq<Reward>, sorted: seq<Reward>, target: nat, k: nat)
    requires Sorted(sorted) && multiset(sorted) == multiset(rs) && IsReach(sorted, target, k)
    ensures IsQuantile(rs, target, sorted[k].fee)
  {
    hide GasUpTo, Cumulative;
    var f := sorted[k].fee;
    GasPermuted(sorted, rs, f);
    GasThrough(sorted, k);
    Occurs(rs, sorted, k);
    forall i | 0 <= i < |rs|
      ensures rs[i].fee < f ==> GasUpTo(rs, rs[i].fee) < target
      ensures k == |sorted| - 1 ==> rs[i].fee <= f
    {
      Occurs(sorted, rs, i);
      var j :| 0 <= j < |sorted| && sorted[j] == rs[i];
      if rs[i].fee < f {
        assert j < k;
        GasPermuted(sorted, rs, rs[i].fee);
        GasBelow(sorted, rs[i].fee, k);
      }
    }
  }

  lemma GasThrough(sorted: seq<Reward>, k: nat)
    requires Sorted(sorted) && k < |sorted|
    ensures GasUpTo(sorted, sorted[k].fee) >= Cumulative(sorted, k + 1)
  {
    hide GasUpTo, Cumulative;
    var f := sorted[k].fee;
    GasOfPrefix(sorted, f, k + 1);
    GasSplit(sorted[..k + 1], sorted[k + 1..], f);
    assert sorted == sorted[..k + 1] + sorted[k + 1..];
  }

  lemma Occurs(rs: seq<Reward>, sorted: seq<Reward>, k: nat)
    requires multiset(sorted) == multiset(rs) && k < |sorted|
    ensures exists i :: 0 <= i < |rs| && rs[i] == sorted[k]
  {
    assert sorted[k] in multiset(sorted);
    assert sorted[k] in multiset(rs);
  }

  lemma ReachMonotone(rs: seq<Reward>, t1: nat, t2: nat, k1: nat, k2: nat)
    requires IsReach(rs, t1, k1) && IsReach(rs, t2, k2) && t1 <= t2
    ensures k1 <= k2 < |rs|
  {
  }

  lemma AnswersMonotone(rs: seq<Reward>, t1: nat, t2: nat, f1: u128, f2: u128)
    requires Sorted(rs) && Answers(rs, t1, f1) && Answers(rs, t2, f2) && t1 <= t2
    ensures f1 <= f2
  {
    var k1: nat :| IsReach(rs, t1, k1) && rs[k1].fee == f1;
    var k2: nat :| IsReach(rs, t2, k2) && rs[k2].fee == f2;
    ReachMonotone(rs, t1, t2, k1, k2);
  }

  lemma AnswerIsQuantile(rs: seq<Reward>, sorted: seq<Reward>, target: nat, f: u128)
    requires Sorted(sorted) && multiset(sorted) == multiset(rs) && Answers(sorted, target, f)
    ensures IsQuantile(rs, target, f)
  {
    hide IsQuantile, Sorted;
    var k: nat :| IsReach(sorted, target, k) && sorted[k].fee == f;
    ReachIsQuantile(rs, sorted, target, k);
  }

  lemma {:induction false} RunningMaxOfSorted(targets: seq<u64>, j: nat)
    requires 1 <= j <= |targets| && forall a, b :: 0 <= a < b < |targets| ==> targets[a] <= targets[b]
    ensures RunningMax(targets, j) == targets[j - 1]
  {
    if j > 1 { RunningMaxOfSorted(targets, j - 1); }
  }

  lemma {:induction false} RunningMaxGrows(targets: seq<u64>, i: nat, j: nat)
    requires 1 <= i <= j <= |targets|
    ensures RunningMax(targets, i) <= RunningMax(targets, j)
    decreases j
  {
    if i < j { RunningMaxGrows(targets, i, j - 1); }
  }

  // ----- percentiles

  /** A floating-point number: its value, an infinity, or not a number. */
  datatype Float = NaN | NegInf | Finite(x: real) | PosInf {
    /** Comparison as the hardware does it: never true of not-a-number. */
    predicate Le(b: Float) {
      match (this, b)
      case (NaN, _) => false
      case (_, NaN) => false
      case (Finite(x), Finite(y)) => x <= y
      case (NegInf, _) => true
      case (_, PosInf) => true
      case _ => false
    }
  }

  /** All that is used of rounding to the nearest float: it keeps order and keeps zero. */
  ghost predicate IsRounding(rnd: real -> real) {
    rnd(0.0) == 0.0 && forall x, y :: x <= y ==> rnd(x) <= rnd(y)
  }

  /** Rounded down and clamped into 64 bits. */
  function ToU64(x: real): u64 {
    if x <= 0.0 then 0 else if x > U64_MAX as real then U64_MAX else x.Floor
  }

  function Scale(g: real, x: real): real { g * x }

  /** A percentage of the block's gas, each operation rounded. */
  function Share(rnd: real -> real, gasUsed: u64, x: real): real {
    rnd(rnd(Scale(rnd(gasUsed as real), x)) / 100.0)
  }

  /** The gas a percentile of the block stands for. */
  function TargetGas(rnd: real -> real, gasUsed: u64, percentile: Float): u64 {
    match percentile
    case NaN => 0
    case NegInf => 0
    case Finite(x) => ToU64(Share(rnd, gasUsed, x))
    case PosInf => if gasUsed == 0 then 0 else U64_MAX
  }

  lemma RoundMono(rnd: real -> real, a: real, b: real)
    requires IsRounding(rnd) && a <= b
    ensures rnd(a) <= rnd(b) && (0.0 <= a ==> 0.0 <= rnd(a))
  {
  }

  lemma ScaleMono(g: real, a: real, b: real)
    requires 0.0 <= g && a <= b
    ensures Scale(g, a) <= Scale(g, b)
  {
    assert g * b == g * a + g * (b - a);
  }

  lemma ShareMonotone(rnd: real -> real, gasUsed: u64, a: real, b: real)
    requires IsRounding(rnd) && a <= b
    ensures Share(rnd, gasUsed, a) <= Share(rnd, gasUsed, b)
  {
    hide IsRounding, Scale;
    var g := gasUsed as real;
    RoundMono(rnd, g, g);
    ScaleMono(rnd(g), a, b);
    RoundMono(rnd, Scale(rnd(g), a), Scale(rnd(g), b));
    RoundMono(rnd, rnd(Scale(rnd(g), a)) / 100.0, rnd(Scale(rnd(g), b)) / 100.0);
  }

  /** Under every rounding, a larger percentile has a target at least as large. */
  lemma TargetMonotone(rnd: real -> real, gasUsed: u64, a: Float, b: Float)
    requires IsRounding(rnd) && gasUsed != 0 && a.Le(b)
    ensures TargetGas(rnd, gasUsed, a) <= TargetGas(rnd, gasUsed, b)
  {
    hide Share;
    if a.Finite? && b.Finite? { ShareMonotone(rnd, gasUsed, a.x, b.x); }
  }

  lemma ExactEnds(gasUsed: u64)
    ensures Share(x => x, gasUsed, 0.0) == 0.0 && Share(x => x, gasUsed, 100.0) == gasUsed as real
  {
  }

  /** Without rounding error, and up to 100 percent, the target is the whole part of that share of
      the block's gas, and never more than the block used. */
  lemma TargetIsShare(gasUsed: u64, x: real)
    requires 0.0 <= x <= 100.0
    ensures var t, share := TargetGas(y => y, gasUsed, Finite(x)), gasUsed as real * x / 100.0;
      t as real <= share < t as real + 1.0 && t <= gasUsed
  {
    hide Share;
    var id := (y: real) => y;
    ShareMonotone(id, gasUsed, 0.0, x);
    ShareMonotone(id, gasUsed, x, 100.0);
    ExactEnds(gasUsed);
    ExactShare(gasUsed, x);
  }

  lemma ExactShare(gasUsed: u64, x: real)
    ensures Share(y => y, gasUsed, x) == gasUsed as real * x / 100.0
  {
  }

  /** Accepts a list of one or none outright; otherwise exactly the lists of numbers that never
      fall and pass 100 at most at their last element. */
  method ValidatePercentiles(ps: seq<Float>) returns (ok: bool)
    ensures ok <==> |ps| < 2 || (Nondecreasing(ps) && forall i :: 0 <= i < |ps| - 1 ==> ps[i].Le(Finite(100.0)))
  {
    if |ps| < 2 { return true; }
    for i := 0 to |ps| - 1
      invariant Nondecreasing(ps[..i + 1]) && forall k :: 0 <= k < i ==> ps[k].Le(Finite(100.0))
    {
      if !(ps[i].Le(Finite(100.0)) && ps[i].Le(ps[i + 1])) { return false; }
      assert ps[..i + 2] == ps[..i + 1] + [ps[i + 1]];
    }
    assert ps[..|ps|] == ps;
    ok := true;
  }

  ghost predicate Nondecreasing(ps: seq<Float>) {
    forall a, b :: 0 <= a < b < |ps| ==> ps[a].Le(ps[b])
  }

  function Targets(rnd: real -> real, gasUsed: u64, ps: seq<Float>): (ts: seq<u64>)
    ensures |ts| == |ps| && forall i :: 0 <= i < |ps| ==> ts[i] == TargetGas(rnd, gasUsed, ps[i])
  {
    seq(|ps|, i requires 0 <= i < |ps| => TargetGas(rnd, gasUsed, ps[i]))
  }

  lemma RunningTarget(rnd: real -> real, gasUsed: u64, ps: seq<Float>, j: nat)
    requires IsRounding(rnd) && gasUsed != 0 && Nondecreasing(ps) && j < |ps|
    ensures RunningMax(Targets(rnd, gasUsed, ps), j + 1) == TargetGas(rnd, gasUsed, ps[j])
  {
    hide TargetGas, RunningMax, IsRounding;
    var ts := Targets(rnd, gasUsed, ps);
    forall a, b | 0 <= a < b < |ts| ensures ts[a] <= ts[b] { TargetMonotone(rnd, gasUsed, ps[a], ps[b]); }
    RunningMaxOfSorted(ts, j + 1);
  }

  /** Rewards of a block at the given percentiles: zeros for an empty block, otherwise the
      quantile of the transactions' rewards at each running target; nondecreasing always, and for
      percentiles that never fall the answer to each percentile on its own. */
  method RewardPercentiles(rnd: real -> real, txs: seq<Transaction>, receipts: seq<Receipt>, gasUsed: u64, baseFee: u128,
                           ps: seq<Float>)
    returns (r: Result<seq<u128>, RpcError>)
    requires IsRounding(rnd)
    ensures r.Err? <==> |txs| != |receipts|
    ensures r.Ok? ==> |r.value| == |ps| && forall i, j :: 0 <= i < j < |ps| ==> r.value[i] <= r.value[j]
    ensures r.Ok? && (txs == [] || gasUsed == 0) ==> forall j :: 0 <= j < |ps| ==> r.value[j] == 0
    ensures r.Ok? && txs != [] && gasUsed != 0 ==>
              forall rs :: AreRewards(txs, receipts, baseFee, rs) ==>
                && (forall j :: 0 <= j < |ps| ==> IsQuantile(rs, RunningMax(Targets(rnd, gasUsed, ps), j + 1), r.value[j]))
                && (Nondecreasing(ps) ==>
                      forall j :: 0 <= j < |ps| ==> IsQuantile(rs, TargetGas(rnd, gasUsed, ps[j]), r.value[j]))
  {
    hide IsQuantile, Answers, Sorted, RewardsOf, SortByFee, RunningMax, TargetGas, Nondecreasing, IsRounding, AreRewards;
    if |txs| != |receipts| { return Err(MissingBlockBody); }
    if txs == [] || gasUsed == 0 { return Ok(seq(|ps|, _ => 0)); }
    var rewards := RewardsOf(txs, receipts, baseFee);
    var sorted := SortByFee(rewards);
    SortSorts(rewards);
    var targets := Targets(rnd, gasUsed, ps);
    var out := Walk(sorted, targets);
    forall i, j | 0 <= i < j < |ps| ensures out[i] <= out[j] {
      RunningMaxGrows(targets, i + 1, j + 1);
      AnswersMonotone(sorted, RunningMax(targets, i + 1), RunningMax(targets, j + 1), out[i], out[j]);
    }
    forall j | 0 <= j < |ps| ensures IsQuantile(rewards, RunningMax(targets, j + 1), out[j]) {
      AnswerIsQuantile(rewards, sorted, RunningMax(targets, j + 1), out[j]);
    }
    forall j | 0 <= j < |ps| && Nondecreasing(ps) ensures IsQuantile(rewards, TargetGas(rnd, gasUsed, ps[j]), out[j]) {
      RunningTarget(rnd, gasUsed, ps, j);
    }
    forall rs | AreRewards(txs, receipts, baseFee, rs) ensures rs == rewards { RewardsExact(txs, receipts, baseFee, rs); }
    r := Ok(out);
  }

  /** What the special floats and negative percentiles stand for. */
  lemma TargetSpecial(rnd: real -> real, gasUsed: u64, x: real)
    requires IsRounding(rnd) && x <= 0.0
    ensures TargetGas(rnd, gasUsed, NaN) == TargetGas(rnd, gasUsed, NegInf) == TargetGas(rnd, gasUsed, Finite(x)) == 0
    ensures gasUsed != 0 ==> TargetGas(rnd, gasUsed, PosInf) == 0xFFFF_FFFF_FFFF_FFFF
  {
    hide Share, IsRounding;
    ShareMonotone(rnd, gasUsed, x, 0.0);
    NoShare(rnd, gasUsed);
  }

  lemma NoShare(rnd: real -> real, gasUsed: u64)
    requires IsRounding(rnd)
    ensures Share(rnd, gasUsed, 0.0) == 0.0
  {
    assert Scale(rnd(gasUsed as real), 0.0) == 0.0;
  }
}
