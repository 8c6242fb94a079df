/** The blob base fee: a truncated exponential series in saturating 128-bit arithmetic. */
module FakeExponential {
  import opened Common
  import opened Arithmetic

  const BLOB_DENOMINATOR: u128 := 3_338_477

  function SatMul(a: u128, b: u128): u128 { if a * b > U128_MAX then U128_MAX else a * b }

  function SatAdd(a: u128, b: u128): u128 { if a + b > U128_MAX then U128_MAX else a + b }

  /** The accumulator after term `i`; a zero divisor yields the default, zero. */
  function NextTerm(acc: u128, num: u128, den: u128, i: u128): u128 {
    var d := SatMul(den, i);
    if d == 0 then 0 else QuotientBound(SatMul(acc, num), d); SatMul(acc, num) / d
  }

  /** The counter is a 128-bit number that wraps, as in a release build. */
  function Next(i: u128): u128 { if i == U128_MAX then 0 else i + 1 }

  lemma DivisorPositive(den: u128, i: u128)
    requires den >= 1 && i >= 1
    ensures SatMul(den, i) >= i
  {
    MulAtLeast(den, i);
  }

  /** Turns the loop can still take: a counter that has wrapped to zero kills the accumulator. */
  function Budget(acc: u128, i: u128): nat {
    if acc == 0 then 0 else if i == 0 then 1 else U128_MAX + 2 - i
  }

  lemma BudgetFalls(acc: u128, num: u128, den: u128, i: u128)
    requires acc != 0
    ensures Budget(NextTerm(acc, num, den, i), Next(i)) < Budget(acc, i)
  {
    assert SatMul(den, 0) == 0;
  }

  /** Sum of the remaining terms. */
  ghost function Series(acc: u128, num: u128, den: u128, i: u128): nat
    decreases Budget(acc, i)
  {
    if acc == 0 then 0
    else
      BudgetFalls(acc, num, den, i);
      acc + Series(NextTerm(acc, num, den, i), num, den, Next(i))
  }

  /** Number of remaining turns of the loop. */
  ghost function Turns(acc: u128, num: u128, den: u128, i: u128): nat
    decreases Budget(acc, i)
  {
    if acc == 0 then 0
    else
      BudgetFalls(acc, num, den, i);
      1 + Turns(NextTerm(acc, num, den, i), num, den, Next(i))
  }

  ghost function FakeExp(factor: u128, num: u128, den: u128): nat
    requires den >= 1
  {
    QuotientBound(Min(U128_MAX, Series(SatMul(factor, den), num, den, 1)), den);
    Min(U128_MAX, Series(SatMul(factor, den), num, den, 1)) / den
  }

  /** The loop ends on every input; only the last division can fail, on a zero denominator. */
  method FakeExponential(factor: u128, num: u128, den: u128) returns (r: Option<nat>, ghost turns: nat)
    ensures r == if den == 0 then None else Some(FakeExp(factor, num, den))
    ensures turns == Turns(SatMul(factor, den), num, den, 1)
  {
    hide NextTerm, SatMul;
    var output: u128 := 0;
    var acc := SatMul(factor, den);
    var i: u128 := 1;
    turns := 0;
    ghost var full, all := Series(acc, num, den, 1), Turns(acc, num, den, 1);
    while acc > 0
      invariant output == Min(U128_MAX, full - Series(acc, num, den, i)) && Series(acc, num, den, i) <= full
      invariant all == turns + Turns(acc, num, den, i)
      decreases Turns(acc, num, den, i)
    {
      output := SatAdd(output, acc);
      acc := NextTerm(acc, num, den, i);
      i := Next(i);
      turns := turns + 1;
    }
    r := if den == 0 then None else Some(output / den);
  }

  // ----- when the counter overflows, exactly

  /** While the counter is at most the numerator, and the divisor does not exceed it, a live
      accumulator stays alive. */
  lemma TermStays(acc: u128, num: u128, den: u128, i: u128)
    requires acc >= 1 && den >= 1 && i >= 1 && SatMul(den, i) <= num
    ensures NextTerm(acc, num, den, i) >= 1
  {
    DivisorPositive(den, i);
    MulAtLeast(acc, num);
    WholeDivision(SatMul(acc, num), SatMul(den, i));
  }

  /** Past half the counter's range a term is at most one. */
  lemma TermAtMostOne(acc: u128, num: u128, den: u128, i: u128)
    requires den >= 1 && 2 * i > U128_MAX
    ensures NextTerm(acc, num, den, i) <= 1
  {
    DivisorPositive(den, i);
    var d := SatMul(den, i);
    var q := NextTerm(acc, num, den, i);
    assert q * d <= SatMul(acc, num);
    if q >= 2 { MulMono(2, q, d); }
  }

  /** A last unit dies as soon as the divisor passes the numerator. */
  lemma UnitDies(acc: u128, num: u128, den: u128, i: u128)
    requires acc <= 1 && den >= 1 && i >= 1 && SatMul(den, i) > num
    ensures NextTerm(acc, num, den, i) == 0
  {
    assert SatMul(acc, num) <= num by { assert acc == 0 || acc * num == num; }
    SmallQuotient(SatMul(acc, num), SatMul(den, i));
  }

  /** With a divisor that stays within the numerator to the end, every turn is taken. */
  lemma {:induction false} TurnsToTheEnd(acc: u128, num: u128, den: u128, i: u128)
    requires acc >= 1 && den >= 1 && i >= 1
    requires num == U128_MAX || (num == U128_MAX - 1 && den == 1)
    ensures Turns(acc, num, den, i) >= U128_MAX + 1 - i
    decreases U128_MAX - i
  {
    if i < U128_MAX {
      assert den == 1 ==> SatMul(den, i) == i;
      TermStays(acc, num, den, i);
      TurnsToTheEnd(NextTerm(acc, num, den, i), num, den, i + 1);
    }
  }

  /** The first counter value past half the range. */
  const HALF: u128 := 0x8000_0000_0000_0000_0000_0000_0000_0000

  /** Past half the range, and one more turn after that, only a unit can be alive; it dies at
      the first divisor above the numerator. */
  lemma {:induction false} UnitTurns(acc: u128, num: u128, den: u128, i: u128, last: u128)
    requires acc <= 1 && den >= 1 && HALF < i <= last && SatMul(den, last) > num
    ensures Turns(acc, num, den, i) <= last + 1 - i
    decreases last - i
  {
    if acc != 0 {
      if i == last {
        UnitDies(acc, num, den, i);
      } else {
        TermAtMostOne(acc, num, den, i);
        UnitTurns(NextTerm(acc, num, den, i), num, den, i + 1, last);
      }
    }
  }

  lemma {:induction false} TurnsWithin(acc: u128, num: u128, den: u128, i: u128, last: u128)
    requires den >= 1 && 1 <= i <= HALF < last && SatMul(den, last) > num
    ensures Turns(acc, num, den, i) <= last + 1 - i
    decreases HALF - i
  {
    if acc != 0 {
      var next := NextTerm(acc, num, den, i);
      if i < HALF {
        TurnsWithin(next, num, den, i + 1, last);
      } else {
        TermAtMostOne(acc, num, den, i);
        UnitTurns(next, num, den, i + 1, last);
      }
    }
  }

  /** The 128-bit counter, which starts at one and grows by one a turn, overflows exactly for
      the two largest numerators, the second only over denominator one; in a checked build
      these are the inputs that panic. */
  lemma CounterOverflowsIff(factor: u128, num: u128, den: u128)
    ensures 1 + Turns(SatMul(factor, den), num, den, 1) > U128_MAX <==>
            factor >= 1 && den >= 1 && (num == U128_MAX || (num == U128_MAX - 1 && den == 1))
  {
    if factor == 0 || den == 0 {
      assert SatMul(factor, den) == 0;
    } else {
      MulAtLeast(factor, den);
      if num == U128_MAX || (num == U128_MAX - 1 && den == 1) {
        TurnsToTheEnd(SatMul(factor, den), num, den, 1);
      } else {
        var last := U128_MAX - 1;
        if den >= 2 { MulMono(2, den, last); } else { assert SatMul(1, last) == last; }
        TurnsWithin(SatMul(factor, den), num, den, 1, last);
      }
    }
  }

  // ----- for 64-bit numerators the loop is short

  function Pow2(k: nat): nat { if k == 0 then 1 else 2 * Pow2(k - 1) }

  lemma TermHalves(acc: u128, num: u64, den: u128, i: u128)
    requires den >= 1 && i >= 1 && i >= 2 * num
    ensures 2 * NextTerm(acc, num, den, i) <= acc
  {
    DivisorPositive(den, i);
    if num == 0 {
      SmallQuotient(0, SatMul(den, i));
    } else {
      HalfQuotient(acc, num, SatMul(acc, num), SatMul(den, i));
    }
  }

  lemma {:induction false} TurnsLogarithmic(acc: u128, num: u64, den: u128, i: u128, k: nat)
    requires den >= 1 && i >= 1 && i >= 2 * num && acc < Pow2(k) && i + k <= U128_MAX
    ensures Turns(acc, num, den, i) <= k
    decreases k
  {
    if acc > 0 {
      TermHalves(acc, num, den, i);
      TurnsLogarithmic(NextTerm(acc, num, den, i), num, den, i + 1, k - 1);
    }
  }

  lemma {:induction false} TurnsBounded(acc: u128, num: u64, den: u128, i: u128)
    requires den >= 1 && 1 <= i <= 2 * num + 1
    ensures Turns(acc, num, den, i) <= (if i <= 2 * num then 2 * num - i else 0) + 128
    decreases 2 * num + 1 - i
  {
    if i >= 2 * num {
      PowersOfTwo();
      TurnsLogarithmic(acc, num, den, i, 128);
    } else if acc > 0 {
      TurnsBounded(NextTerm(acc, num, den, i), num, den, i + 1);
    }
  }

  lemma {:induction false} Pow2Add(a: nat, b: nat)
    ensures Pow2(a + b) == Pow2(a) * Pow2(b)
    decreases a
  {
    if a > 0 {
      Pow2Add(a - 1, b);
      assert Pow2(a + b) == 2 * Pow2(a - 1 + b);
      Regroup(Pow2(b), Pow2(a - 1), 2);
    }
  }

  lemma PowersOfTwo()
    ensures Pow2(128) == U128_MAX + 1
  {
    PowEight();
    hide Pow2;
    Pow2Add(8, 8);
    assert Pow2(16) == 0x1_0000;
    Pow2Add(16, 16);
    assert Pow2(32) == 0x1_0000_0000;
    Pow2Add(32, 32);
    assert Pow2(64) == 0x1_0000_0000_0000_0000;
    Pow2Add(64, 64);
  }

  lemma PowEight()
    ensures Pow2(8) == 256
  {
    assert Pow2(4) == 16;
  }

  /** For the 64-bit numerators the blob fee passes, a turn count linear in the numerator. */
  lemma CounterFits(factor: u128, num: u64, den: u128)
    ensures Turns(SatMul(factor, den), num, den, 1) <= 2 * num + 128
  {
    if den == 0 {
      assert SatMul(factor, den) == 0;
    } else {
      TurnsBounded(SatMul(factor, den), num, den, 1);
    }
  }

  // ----- agreement with the unbounded definition of the Helpers section of EIP-4844

  lemma ExactTermShrinks(acc: nat, num: nat, den: nat, i: nat)
    requires den >= 1 && i > num && acc >= 1
    ensures ExactTerm(acc, num, den, i) < acc
  {
    MulAtLeast(den, i);
    QuotientShrinks(acc, num, den * i);
  }

  function ExactTerm(acc: nat, num: nat, den: nat, i: nat): nat
    requires den >= 1 && i >= 1
  {
    MulAtLeast(den, i);
    QuotientBound(acc * num, den * i);
    (acc * num) / (den * i)
  }

  ghost function ExactSeries(acc: nat, num: nat, den: nat, i: nat): nat
    requires den >= 1 && i >= 1
    decreases if i <= num then num + 1 - i else 0, acc
  {
    if acc == 0 then 0
    else
      var next := ExactTerm(acc, num, den, i);
      assert i > num ==> next < acc by { if i > num { ExactTermShrinks(acc, num, den, i); } }
      acc + ExactSeries(next, num, den, i + 1)
  }

  /** The standard's own value, in unbounded integers. */
  ghost function ExactExp(factor: nat, num: nat, den: nat): nat
    requires den >= 1
  {
    ExactSeries(factor * den, num, den, 1) / den
  }

  /** No term's product exceeds the 128-bit limit, and one that meets it exactly is divided by
      a divisor within the limit. */
  ghost predicate TermsFit(acc: nat, num: nat, den: nat, i: nat)
    requires den >= 1 && i >= 1
    decreases if i <= num then num + 1 - i else 0, acc
  {
    acc == 0 ||
    (&& acc * num <= U128_MAX && (acc * num < U128_MAX || den * i <= U128_MAX)
     && var next := ExactTerm(acc, num, den, i);
       assert i > num ==> next < acc by { if i > num { ExactTermShrinks(acc, num, den, i); } }
       TermsFit(next, num, den, i + 1))
  }

  lemma TermsAgree(acc: u128, num: u128, den: u128, i: u128)
    requires den >= 1 && i >= 1 && acc * num <= U128_MAX && (acc * num < U128_MAX || den * i <= U128_MAX)
    ensures NextTerm(acc, num, den, i) == ExactTerm(acc, num, den, i)
  {
    MulAtLeast(den, i);
    if den * i > U128_MAX {
      SmallQuotient(acc * num, den * i);
      SmallQuotient(acc * num, U128_MAX);
    }
  }

  /** Each live term adds at least one, so a sum within the limit also keeps the counter in range. */
  lemma {:induction false} SeriesAgree(acc: u128, num: u128, den: u128, i: u128)
    requires den >= 1 && i >= 1 && TermsFit(acc, num, den, i)
    requires i - 1 + ExactSeries(acc, num, den, i) <= U128_MAX
    ensures Series(acc, num, den, i) == ExactSeries(acc, num, den, i)
    decreases if i <= num then num + 1 - i else 0, acc
  {
    if acc > 0 {
      TermsAgree(acc, num, den, i);
      var next := NextTerm(acc, num, den, i);
      if i > num { ExactTermShrinks(acc, num, den, i); }
      if next > 0 { SeriesAgree(next, num, den, i + 1); }
    }
  }

  lemma FirstTermCounts(acc: nat, num: nat, den: nat)
    requires den >= 1
    ensures acc <= ExactSeries(acc, num, den, 1)
  {
  }

  /** When nothing saturates, neither a product nor the sum, the result is the standard's. */
  lemma AgreesWithStandard(factor: u128, num: u128, den: u128)
    requires den >= 1 && TermsFit(factor * den, num, den, 1)
    requires ExactSeries(factor * den, num, den, 1) <= U128_MAX
    ensures FakeExp(factor, num, den) == ExactExp(factor, num, den)
  {
    hide TermsFit, Series;
    FirstTermCounts(factor * den, num, den);
    hide ExactSeries;
    SeriesAgree(factor * den, num, den, 1);
  }

  // ----- monotonicity

  lemma TermMono(acc1: u128, num1: u128, acc2: u128, num2: u128, den: u128, i: u128)
    requires acc1 <= acc2 && num1 <= num2
    ensures NextTerm(acc1, num1, den, i) <= NextTerm(acc2, num2, den, i)
  {
    MulMono(acc1, acc2, num1);
    MulMono2(acc2, num1, num2);
    var d := SatMul(den, i);
    if d != 0 { QuotientMono(SatMul(acc1, num1), SatMul(acc2, num2), d); }
  }

  lemma {:induction false} SeriesMono(acc1: u128, num1: u128, acc2: u128, num2: u128, den: u128, i: u128)
    requires acc1 <= acc2 && num1 <= num2
    ensures Series(acc1, num1, den, i) <= Series(acc2, num2, den, i)
    decreases Budget(acc2, i)
  {
    if acc1 > 0 {
      TermMono(acc1, num1, acc2, num2, den, i);
      BudgetFalls(acc2, num2, den, i);
      SeriesMono(NextTerm(acc1, num1, den, i), num1, NextTerm(acc2, num2, den, i), num2, den, Next(i));
    }
  }

  ghost function BlobBaseFee(excess: u64): nat {
    FakeExp(1, excess, BLOB_DENOMINATOR)
  }

  /** The blob fee is at least one and never falls as excess blob gas grows. */
  lemma BlobFeeMonotone(a: u64, b: u64)
    requires a <= b
    ensures 1 <= BlobBaseFee(a) <= BlobBaseFee(b)
  {
    var den := BLOB_DENOMINATOR;
    SeriesMono(den, a, den, b, den, 1);
    var sa, sb := Series(den, a, den, 1), Series(den, b, den, 1);
    assert sa >= den;
    QuotientMono(den, Min(U128_MAX, sa), den);
    QuotientMono(Min(U128_MAX, sa), Min(U128_MAX, sb), den);
  }

  /** The blob fee is one wei times the standard's exponential over 3338477, as long as nothing
      saturates. */
  lemma BlobFeeExact(excess: u64)
    requires TermsFit(3_338_477, excess, 3_338_477, 1) && ExactSeries(3_338_477, excess, 3_338_477, 1) <= U128_MAX
    ensures BlobBaseFee(excess) == ExactSeries(3_338_477, excess, 3_338_477, 1) / 3_338_477
  {
    hide TermsFit, ExactSeries, FakeExp;
    AgreesWithStandard(1, excess, 3_338_477);
  }

  /** One wei without excess, and the whole part of e at an excess of 3338477. */
  lemma BlobFeeExamples()
    ensures BlobBaseFee(0) == 1 && BlobBaseFee(3_338_477) == 2
  {
    hide Series;
    NoExcess(3_338_477);
    UnitSeries();
  }

  lemma NoExcess(d: u128)
    requires d >= 1
    ensures Series(d, 0, d, 1) == d
  {
    assert SatMul(d, 0) == 0;
    SmallQuotient(0, SatMul(d, 1));
    assert NextTerm(d, 0, d, 1) == 0;
  }

  /** The series at numerator equal to denominator, term by term. */
  lemma UnitSeries()
    ensures Series(3_338_477, 3_338_477, 3_338_477, 1) == 9_074_916
  {
    hide Series;
    var d: u128 := 3_338_477;
    UnitTerm(3_338_477, 1, 3_338_477);
    UnitTerm(3_338_477, 2, 1_669_238);
    UnitTerm(1_669_238, 3, 556_412);
    UnitTerm(556_412, 4, 139_103);
    UnitTerm(139_103, 5, 27_820);
    UnitTerm(27_820, 6, 4_636);
    UnitTerm(4_636, 7, 662);
    UnitTerm(662, 8, 82);
    UnitTerm(82, 9, 9);
    UnitTerm(9, 10, 0);
    NothingLeft(d, 11);
  }

  lemma NothingLeft(d: u128, i: u128)
    ensures Series(0, d, d, i) == 0
  {
  }

  lemma UnitTerm(acc: u128, i: u128, next: u128)
    requires 1 <= acc <= 3_338_477 && 1 <= i <= 10 && next == acc / i
    ensures Series(acc, 3_338_477, 3_338_477, i) == acc + Series(next, 3_338_477, 3_338_477, i + 1)
  {
    var d: u128 := 3_338_477;
    assert SatMul(acc, d) == acc * d && SatMul(d, i) == d * i;
    CancelQuotient(acc, i, d);
  }
}
