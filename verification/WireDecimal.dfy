/** Fixed-point decimals on the wire: a 64-bit count of 10^-8 units, its printer and its
    parser. */
module WireDecimal {
  import opened Common
  import opened Arithmetic

  const WIRE_DECIMALS: nat := 8
  const DOT: u8 := 46
  const ZERO: u8 := 48

  datatype WireError =
    | InvalidDecimal
    | DecimalTooPrecise
    | DecimalOverflow
    | InvalidCloid
    | UnknownOrderTypeVariant(code: u8)
    | CustomSliceBadLen
    | CustomSliceAuxByteMismatch
    | UnsupportedTaggedEncoding(tag: u8)

  function Pow10(n: nat): (p: nat)
    ensures p >= 1
  {
    if n == 0 then 1 else 10 * Pow10(n - 1)
  }

  predicate IsDigit(b: u8) { 48 <= b <= 57 }

  // ----- what a string denotes

  /** The digits read as one number, ignoring everything else. */
  function Digits(s: seq<u8>): nat {
    if s == [] then 0
    else
      var n, b := |s| - 1, s[|s| - 1];
      if IsDigit(b) then 10 * Digits(s[..n]) + (b - 48) else Digits(s[..n])
  }

  /** Number of digits after the first dot. */
  function Frac(s: seq<u8>): nat {
    if s == [] then 0
    else
      var n := |s| - 1;
      Frac(s[..n]) + if DOT in s[..n] && IsDigit(s[n]) then 1 else 0
  }

  /** Digits with at most one dot among them. */
  ghost predicate Plain(s: seq<u8>) {
    && (forall i :: 0 <= i < |s| ==> IsDigit(s[i]) || s[i] == DOT)
    && (forall i, j :: 0 <= i < j < |s| ==> s[i] != DOT || s[j] != DOT)
  }

  predicate HasDigit(s: seq<u8>) {
    exists i :: 0 <= i < |s| && IsDigit(s[i])
  }

  /** `s` is a decimal numeral of at most eight places whose value is `v` units. */
  ghost predicate Denotes(s: seq<u8>, v: nat) {
    Plain(s) && HasDigit(s) && Frac(s) <= WIRE_DECIMALS && Digits(s) * Pow10(WIRE_DECIMALS) == v * Pow10(Frac(s))
  }

  // ----- the parser

  /** What is wrong with reading byte `b` after `prefix`. */
  function Fault(prefix: seq<u8>, b: u8): Option<WireError> {
    if IsDigit(b) then
      if DOT in prefix && Frac(prefix) + 1 > WIRE_DECIMALS then Some(DecimalTooPrecise)
      else if 10 * Digits(prefix) + (b - 48) > U64_MAX then Some(DecimalOverflow)
      else None
    else if b == DOT && DOT !in prefix then None
    else Some(InvalidDecimal)
  }

  /** The first fault met reading left to right. */
  function FirstFault(s: seq<u8>): Option<WireError> {
    if s == [] then None
    else
      var n := |s| - 1;
      var earlier := FirstFault(s[..n]);
      if earlier.Some? then earlier else Fault(s[..n], s[n])
  }

  /** The verdict on a string, error by error. */
  function ParseDecimal(s: seq<u8>): Result<u64, WireError> {
    if FirstFault(s).Some? then Err(FirstFault(s).value)
    else if !HasDigit(s) then Err(InvalidDecimal)
    else if Frac(s) > WIRE_DECIMALS then Err(DecimalTooPrecise)
    else if Digits(s) * Pow10(WIRE_DECIMALS - Frac(s)) > U64_MAX then Err(DecimalOverflow)
    else Ok(Digits(s) * Pow10(WIRE_DECIMALS - Frac(s)))
  }

  method Parse(s: seq<u8>) returns (r: Result<u64, WireError>)
    ensures r == ParseDecimal(s)
  {
    hide FirstFault, Frac, Digits, HasDigit, Fault, Pow10, IsDigit;
    ScanStart();
    if s == [] { return Err(InvalidDecimal); }
    var seenDot, seenDigit := false, false;
    var frac: nat, value: u64 := 0, 0;
    assert s[..0] == [];
    for i := 0 to |s|
      invariant FirstFault(s[..i]).None?
      invariant seenDot == (DOT in s[..i])
      invariant seenDigit == HasDigit(s[..i])
      invariant frac == Frac(s[..i]) <= WIRE_DECIMALS
      invariant value == Digits(s[..i])
    {
      ScanStep(s, i);
      FaultStays(s, i + 1);
      if IsDigit(s[i]) {
        DigitByte(s[i]);
        seenDigit := true;
        if seenDot {
          frac := frac + 1;
          if frac > WIRE_DECIMALS { return Err(DecimalTooPrecise); }
        }
        if 10 * value + (s[i] - 48) > U64_MAX { return Err(DecimalOverflow); }
        value := 10 * value + (s[i] - 48);
      } else if s[i] == DOT && !seenDot {
        seenDot := true;
      } else {
        return Err(InvalidDecimal);
      }
    }
    assert s[..|s|] == s;
    if !seenDigit { return Err(InvalidDecimal); }
    r := ScaleUp(value, WIRE_DECIMALS - frac);
  }

  /** Repeated checked multiplication overflows exactly when the product does. */
  method ScaleUp(digits: u64, n: nat) returns (r: Result<u64, WireError>)
    ensures r == if digits * Pow10(n) > U64_MAX then Err(DecimalOverflow) else Ok(digits * Pow10(n))
  {
    var value: u64 := digits;
    for k := 0 to n
      invariant value == digits * Pow10(k)
    {
      assert value * 10 == digits * Pow10(k + 1);
      if value * 10 > U64_MAX {
        PowGrows(digits, k + 1, n);
        return Err(DecimalOverflow);
      }
      value := value * 10;
    }
    r := Ok(value);
  }

  lemma ScanStart()
    ensures FirstFault([]).None? && !HasDigit([]) && Frac([]) == 0 && Digits([]) == 0
  {
  }

  lemma DigitByte(b: u8)
    requires IsDigit(b)
    ensures 48 <= b <= 57
  {
  }

  /** How every quantity the parser tracks moves over one byte. */
  lemma ScanStep(s: seq<u8>, i: nat)
    requires i < |s|
    ensures var p, p' := s[..i], s[..i + 1];
      && (FirstFault(p).None? ==> FirstFault(p') == Fault(p, s[i]))
      && (DOT in p' <==> DOT in p || s[i] == DOT)
      && (HasDigit(p') <==> HasDigit(p) || IsDigit(s[i]))
      && Frac(p') == Frac(p) + (if DOT in p && IsDigit(s[i]) then 1 else 0)
      && Digits(p') == (if IsDigit(s[i]) then 10 * Digits(p) + (s[i] - 48) else Digits(p))
    ensures Fault(s[..i], s[i]) ==
            if IsDigit(s[i]) then
              if DOT in s[..i] && Frac(s[..i]) + 1 > WIRE_DECIMALS then Some(DecimalTooPrecise)
              else if 10 * Digits(s[..i]) + (s[i] - 48) > U64_MAX then Some(DecimalOverflow)
              else None
            else if s[i] == DOT && DOT !in s[..i] then None
            else Some(InvalidDecimal)
  {
    hide FirstFault, Fault, Frac, Digits;
    var p, p' := s[..i], s[..i + 1];
    assert p' == p + [s[i]] && p'[..i] == p;
    ScanLast(p', i);
    if HasDigit(p') {
      var j :| 0 <= j < |p'| && IsDigit(p'[j]);
      assert j < i ==> p[j] == p'[j];
    }
    if HasDigit(p) {
      var j :| 0 <= j < |p| && IsDigit(p[j]);
      assert p'[j] == p[j];
    }
    assert p'[i] == s[i];
  }

  lemma ScanLast(s: seq<u8>, i: nat)
    requires |s| == i + 1
    ensures FirstFault(s[..i]).None? ==> FirstFault(s) == Fault(s[..i], s[i])
    ensures Frac(s) == Frac(s[..i]) + (if DOT in s[..i] && IsDigit(s[i]) then 1 else 0)
    ensures Digits(s) == (if IsDigit(s[i]) then 10 * Digits(s[..i]) + (s[i] - 48) else Digits(s[..i]))
    ensures Fault(s[..i], s[i]) ==
            if IsDigit(s[i]) then
              if DOT in s[..i] && Frac(s[..i]) + 1 > WIRE_DECIMALS then Some(DecimalTooPrecise)
              else if 10 * Digits(s[..i]) + (s[i] - 48) > U64_MAX then Some(DecimalOverflow)
              else None
            else if s[i] == DOT && DOT !in s[..i] then None
            else Some(InvalidDecimal)
  {
  }

  lemma {:induction false} FaultStays(s: seq<u8>, n: nat)
    requires n <= |s|
    ensures FirstFault(s[..n]).Some? ==> FirstFault(s) == FirstFault(s[..n])
    decreases |s|
  {
    if n < |s| {
      FaultStays(s[..|s| - 1], n);
      assert s[..|s| - 1][..n] == s[..n];
    } else {
      assert s[..n] == s;
    }
  }

  lemma {:induction false} PowGrows(d: nat, a: nat, b: nat)
    requires a <= b
    ensures d * Pow10(a) <= d * Pow10(b)
    decreases b
  {
    if a < b {
      PowGrows(d, a, b - 1);
      assert d * Pow10(b) == 10 * (d * Pow10(b - 1));
    }
  }

  lemma {:induction false} PowAdd(a: nat, b: nat)
    ensures Pow10(a + b) == Pow10(a) * Pow10(b)
    decreases a
  {
    hide Pow10;
    NoDigits();
    if a > 0 {
      PowAdd(a - 1, b);
      Pow10Step(a - 1);
      Pow10Step(a - 1 + b);
      MulAssoc(10, Pow10(a - 1), Pow10(b));
    }
  }

  // ----- the parser accepts exactly the numerals, with their value

  lemma {:induction false} NoFaultIff(s: seq<u8>)
    ensures FirstFault(s).None? ==> Plain(s) && Frac(s) <= WIRE_DECIMALS && Digits(s) <= U64_MAX
    ensures Plain(s) && Frac(s) <= WIRE_DECIMALS && Digits(s) <= U64_MAX ==> FirstFault(s).None?
    decreases |s|
  {
    if s != [] {
      var n := |s| - 1;
      var p := s[..n];
      NoFaultIff(p);
      assert s == p + [s[n]];
      if FirstFault(s).None? {
        assert DOT in p <==> exists i :: 0 <= i < n && s[i] == DOT;
        if DOT !in p { FracNoDot(p); }
      }
      if Plain(s) {
        assert Plain(p);
        assert forall i :: 0 <= i < n ==> p[i] == s[i];
      }
    }
  }

  lemma {:induction false} FracNoDot(s: seq<u8>)
    requires DOT !in s
    ensures Frac(s) == 0
  {
    if s != [] { FracNoDot(s[..|s| - 1]); }
  }

  /** `parse` returns Ok(v) exactly on the numerals that denote `v`. */
  lemma ParseIff(s: seq<u8>, v: u64)
    ensures ParseDecimal(s) == Ok(v) <==> Denotes(s, v)
  {
    NoFaultIff(s);
    if Frac(s) <= WIRE_DECIMALS {
      var f, d := Frac(s), Digits(s);
      PowAdd(f, WIRE_DECIMALS - f);
      ScaleBack(d, v, Pow10(f), Pow10(WIRE_DECIMALS - f));
      PowGrows(d, 0, WIRE_DECIMALS - f);
      assert Pow10(0) == 1;
    }
  }

  lemma ScaleBack(d: nat, v: nat, p: nat, q: nat)
    requires p >= 1
    ensures d * (p * q) == v * p <==> d * q == v
  {
    assert d * (p * q) == (d * q) * p;
    assert (d * q - v) * p == (d * q) * p - v * p;
    assert d * q != v ==> (d * q - v) * p != 0;
  }

  // ----- the printer

  /** Ordinary decimal digits, most significant first. */
  function DecimalDigits(n: nat): seq<u8> {
    if n < 10 then [48 + n] else DecimalDigits(n / 10) + [48 + n % 10]
  }

  function Strip(value: nat, scale: nat): (nat, nat)
    decreases scale
  {
    if scale != 0 && value % 10 == 0 then Strip(value / 10, scale - 1) else (value, scale)
  }

  /** Leading zeros of the fraction. */
  function ZeroPad(frac: nat, place: nat): seq<u8> {
    if place > 1 && frac < place then [ZERO] + ZeroPad(frac, place / 10) else []
  }

  function WriteDecimal(v: u64): seq<u8> {
    var (value, scale) := Strip(v, WIRE_DECIMALS);
    if scale == 0 then DecimalDigits(value)
    else
      var divisor := Pow10(scale);
      DecimalDigits(value / divisor) + [DOT] + ZeroPad(value % divisor, divisor / 10) + DecimalDigits(value % divisor)
  }

  /** Digits are produced backwards into a 20-byte buffer, which always suffices. */
  method PushU64(out: seq<u8>, v: u64) returns (r: seq<u8>)
    ensures r == out + DecimalDigits(v)
  {
    if v == 0 { return out + [ZERO]; }
    var buf := new u8[20](_ => 0);
    var pos, value: nat := 20, v;
    assert Pow10(20) == 100_000_000_000_000_000_000 by { PowAdd(10, 10); assert Pow10(10) == 10_000_000_000 by { PowAdd(5, 5); } }
    while value != 0
      invariant 0 <= pos <= 20 && value < Pow10(pos)
      invariant value != 0 ==> DecimalDigits(v) == DecimalDigits(value) + buf[pos..]
      invariant value == 0 ==> DecimalDigits(v) == buf[pos..]
    {
      assert pos > 0;
      ghost var done := buf[pos..];
      pos := pos - 1;
      buf[pos] := 48 + value % 10;
      assert buf[pos..] == [48 + value % 10] + done;
      value := value / 10;
    }
    r := out + buf[pos..];
  }

  method PowerOfTen(exp: nat) returns (value: nat)
    requires exp <= WIRE_DECIMALS
    ensures value == Pow10(exp) && value <= U64_MAX
  {
    value := 1;
    PowGrows(1, exp, 8);
    assert Pow10(8) == 100_000_000 by { PowAdd(4, 4); }
    for i := 0 to exp
      invariant value == Pow10(i)
    {
      value := value * 10;
    }
  }

  method StripZeros(v: u64) returns (value: u64, scale: nat)
    ensures Strip(v, WIRE_DECIMALS) == (value, scale) && scale <= WIRE_DECIMALS
  {
    value, scale := v, WIRE_DECIMALS;
    while scale != 0 && value % 10 == 0
      invariant Strip(v, WIRE_DECIMALS) == Strip(value, scale) && scale <= WIRE_DECIMALS
      decreases scale
    {
      value := value / 10;
      scale := scale - 1;
    }
  }

  method PushPadding(out: seq<u8>, frac: nat, start: nat) returns (r: seq<u8>)
    ensures r == out + ZeroPad(frac, start)
  {
    r := out;
    var place: nat := start;
    while place > 1 && frac < place
      invariant out + ZeroPad(frac, start) == r + ZeroPad(frac, place)
    {
      assert r + ZeroPad(frac, place) == (r + [ZERO]) + ZeroPad(frac, place / 10);
      r := r + [ZERO];
      place := place / 10;
    }
  }

  method WriteTo(v: u64, out: seq<u8>) returns (r: seq<u8>)
    ensures r == out + WriteDecimal(v)
  {
    hide Strip, DecimalDigits, ZeroPad, Pow10;
    var value, scale := StripZeros(v);
    if scale == 0 {
      r := PushU64(out, value);
    } else {
      var divisor := PowerOfTen(scale);
      r := PushU64(out, value / divisor);
      r := PushPadding(r + [DOT], value % divisor, divisor / 10);
      r := PushU64(r, value % divisor);
      assert r == out + (DecimalDigits(value / divisor) + [DOT] + ZeroPad(value % divisor, divisor / 10)
                         + DecimalDigits(value % divisor));
    }
  }

  // ----- printing then parsing

  lemma MulAssoc(a: nat, b: nat, c: nat)
    ensures (a * b) * c == a * (b * c)
  {
  }

  lemma DivMod(a: nat, p: nat)
    requires p >= 1
    ensures (a / p) * p + a % p == a && 0 <= a % p < p && 0 <= a / p
  {
  }

  lemma JoinParts(d: nat, e: nat, x: nat, y: nat, z: nat, p: nat, q: nat, pq: nat, f: nat)
    requires pq == p * q && e == x * p + z && d == e * q + f && x == y && z == 0
    ensures d == y * pq + f
  {
    MulAssoc(x, p, q);
  }

  ghost predicate AllDigits(s: seq<u8>) {
    forall i :: 0 <= i < |s| ==> IsDigit(s[i])
  }

  lemma {:induction false} AppendDigits(a: seq<u8>, b: seq<u8>)
    requires AllDigits(b)
    ensures Digits(a + b) == Digits(a) * Pow10(|b|) + Digits(b)
    ensures Frac(a + b) == Frac(a) + if DOT in a then |b| else 0
    decreases |b|
  {
    hide Digits, Frac, Pow10;
    if b == [] {
      assert a + b == a;
      NoDigits();
    } else {
      var n, b' := |b| - 1, b[..|b| - 1];
      AppendDigits(a, b');
      AppendDigit(a + b', b[n]);
      AppendDigit(b', b[n]);
      assert b' + [b[n]] == b && a + b' + [b[n]] == a + b;
      NoDot(b');
      Pow10Step(n);
      ShiftedSum(Digits(a), Pow10(n), Digits(b'), b[n] - 48, Digits(a + b), Pow10(n + 1));
    }
  }

  lemma NoDigits()
    ensures Digits([]) == 0 && Frac([]) == 0 && Pow10(0) == 1
  {
  }

  /** One more digit: the value is shifted, and it counts as a fraction digit after a dot. */
  lemma AppendDigit(s: seq<u8>, d: u8)
    requires IsDigit(d)
    ensures Digits(s + [d]) == 10 * Digits(s) + (d - 48)
    ensures Frac(s + [d]) == Frac(s) + if DOT in s then 1 else 0
  {
    assert (s + [d])[..|s|] == s;
    ScanLast(s + [d], |s|);
  }

  lemma NoDot(s: seq<u8>)
    requires AllDigits(s)
    ensures DOT !in s
  {
  }

  lemma ShiftedSum(a: nat, p: nat, b: nat, d: nat, v: nat, p': nat)
    requires v == 10 * (a * p + b) + d && p' == 10 * p
    ensures v == a * p' + (10 * b + d)
  {
    MulAssoc(a, 10, p);
    MulAssoc(10, a, p);
  }

  lemma Pow10Step(n: nat)
    ensures Pow10(n + 1) == 10 * Pow10(n)
  {
  }

  lemma {:induction false} DecimalDigitsValue(n: nat)
    ensures var d := DecimalDigits(n);
      AllDigits(d) && Digits(d) == n && |d| >= 1 && n < Pow10(|d|) && (|d| > 1 ==> Pow10(|d| - 1) <= n)
  {
    var d := DecimalDigits(n);
    if n < 10 {
      assert d[..0] == [];
      assert Digits(d) == 10 * Digits(d[..0]) + n;
      assert Pow10(1) == 10;
    } else {
      var d' := DecimalDigits(n / 10);
      DecimalDigitsValue(n / 10);
      assert d[..|d| - 1] == d';
      assert Pow10(|d|) == 10 * Pow10(|d'|) && Pow10(|d| - 1) == Pow10(|d'|);
      assert |d'| > 1 ==> Pow10(|d'|) == 10 * Pow10(|d'| - 1);
    }
  }

  lemma {:induction false} PowMonotone(a: nat, b: nat)
    requires a <= b
    ensures Pow10(a) <= Pow10(b)
    decreases b
  {
    if a < b { PowMonotone(a, b - 1); }
  }

  lemma DigitCount(n: nat, k: nat)
    requires k >= 1 && Pow10(k - 1) <= n < Pow10(k)
    ensures |DecimalDigits(n)| == k
  {
    hide Pow10, DecimalDigits;
    var d := DecimalDigits(n);
    DecimalDigitsValue(n);
    if |d| < k { PowMonotone(|d|, k - 1); }
    if |d| > k { PowMonotone(k, |d| - 1); }
  }

  /** Padding fills the fraction to exactly `scale` digits and adds nothing to its value. */
  lemma {:induction false} PaddedFraction(frac: nat, scale: nat)
    requires scale >= 1 && frac < Pow10(scale)
    ensures var pad := ZeroPad(frac, Pow10(scale) / 10);
      AllDigits(pad) && Digits(pad) == 0 && |pad| + |DecimalDigits(frac)| == scale
  {
    hide Digits, Pow10, DecimalDigits, ZeroPad;
    var place := Pow10(scale - 1);
    Pow10Step(scale - 1);
    NoDigits();
    if scale > 1 && frac < place {
      PaddedFraction(frac, scale - 1);
      Pow10Step(scale - 2);
      PadOneMore(frac, place);
    } else {
      PadNothing(frac, place);
      if scale == 1 { OneDigit(frac); } else { DigitCount(frac, scale); }
    }
  }

  lemma PadNothing(frac: nat, place: nat)
    requires place <= 1 || frac >= place
    ensures ZeroPad(frac, place) == []
  {
  }

  lemma PadOneMore(frac: nat, place: nat)
    requires place > 1 && frac < place
    requires AllDigits(ZeroPad(frac, place / 10)) && Digits(ZeroPad(frac, place / 10)) == 0
    ensures var pad := ZeroPad(frac, place);
      AllDigits(pad) && Digits(pad) == 0 && |pad| == |ZeroPad(frac, place / 10)| + 1
  {
    var z: seq<u8>, rest := [ZERO], ZeroPad(frac, place / 10);
    assert ZeroPad(frac, place) == z + rest;
    hide Digits, ZeroPad;
    AppendDigits(z, rest);
    NoDigits();
    AppendDigit([], ZERO);
    assert [] + z == z;
  }

  lemma OneDigit(n: nat)
    requires n < 10
    ensures |DecimalDigits(n)| == 1
  {
  }

  lemma {:induction false} StripValue(v: nat, scale: nat)
    ensures var (value, sc) := Strip(v, scale);
      sc <= scale && value * Pow10(scale - sc) == v && (sc != 0 ==> value % 10 != 0)
    decreases scale
  {
    var (value, sc) := Strip(v, scale);
    if scale != 0 && v % 10 == 0 {
      StripValue(v / 10, scale - 1);
      assert Pow10(scale - sc) == 10 * Pow10(scale - 1 - sc);
      assert value * Pow10(scale - sc) == 10 * (value * Pow10(scale - 1 - sc));
    } else {
      assert Pow10(0) == 1;
    }
  }

  /** The numeral with a point: whole part, point, padded fraction. */
  lemma PointedNumeral(whole: nat, frac: nat, scale: nat)
    requires scale >= 1 && frac < Pow10(scale)
    ensures var s := DecimalDigits(whole) + [DOT] + ZeroPad(frac, Pow10(scale) / 10) + DecimalDigits(frac);
      Plain(s) && HasDigit(s) && Frac(s) == scale && Digits(s) == whole * Pow10(scale) + frac
  {
    hide DecimalDigits, ZeroPad, Frac, Digits, Pow10, Plain, HasDigit, AllDigits;
    DecimalDigitsValue(whole);
    DecimalDigitsValue(frac);
    PaddedFraction(frac, scale);
    ThreePartsShape(DecimalDigits(whole), ZeroPad(frac, Pow10(scale) / 10), DecimalDigits(frac));
    ThreePartsValue(DecimalDigits(whole), ZeroPad(frac, Pow10(scale) / 10), DecimalDigits(frac));
  }

  lemma ThreePartsShape(whole: seq<u8>, pad: seq<u8>, frac: seq<u8>)
    requires AllDigits(whole) && AllDigits(pad) && AllDigits(frac) && |whole| >= 1
    ensures var s := whole + [DOT] + pad + frac; Plain(s) && HasDigit(s)
  {
    var s := whole + [DOT] + pad + frac;
    assert s[0] == whole[0];
    assert forall i :: 0 <= i < |s| && i != |whole| ==> IsDigit(s[i]);
  }

  lemma ThreePartsValue(whole: seq<u8>, pad: seq<u8>, frac: seq<u8>)
    requires AllDigits(whole) && AllDigits(pad) && AllDigits(frac) && Digits(pad) == 0
    ensures var s := whole + [DOT] + pad + frac;
      Frac(s) == |pad| + |frac| && Digits(s) == Digits(whole) * Pow10(|pad| + |frac|) + Digits(frac)
  {
    hide Frac, Digits, Pow10, AllDigits, IsDigit;
    var dotted := whole + [DOT];
    AfterDot(whole);
    AppendDigits(dotted, pad);
    AppendDigits(dotted + pad, frac);
    assert dotted[|whole|] == DOT && (dotted + pad)[|whole|] == DOT;
    PowAdd(|pad|, |frac|);
    JoinParts(Digits(dotted + pad + frac), Digits(dotted + pad), Digits(dotted), Digits(whole), Digits(pad),
              Pow10(|pad|), Pow10(|frac|), Pow10(|pad| + |frac|), Digits(frac));
  }

  lemma AfterDot(whole: seq<u8>)
    requires AllDigits(whole)
    ensures Digits(whole + [DOT]) == Digits(whole) && Frac(whole + [DOT]) == 0
  {
    var s := whole + [DOT];
    assert s[..|whole|] == whole;
    FracNoDot(whole);
  }

  lemma WriteDenotes(v: u64)
    ensures Denotes(WriteDecimal(v), v)
  {
    hide DecimalDigits, ZeroPad, Frac, Digits, Pow10, Strip;
    var (value, scale) := Strip(v, WIRE_DECIMALS);
    StripValue(v, WIRE_DECIMALS);
    var s := WriteDecimal(v);
    if scale == 0 {
      DecimalDigitsValue(value);
      FracNoDot(s);
      assert IsDigit(s[0]);
    } else {
      var p := Pow10(scale);
      DivMod(value, p);
      PointedNumeral(value / p, value % p, scale);
    }
    PowAdd(WIRE_DECIMALS - scale, scale);
    MulAssoc(value, Pow10(WIRE_DECIMALS - scale), Pow10(scale));
  }

  /** Printing then parsing returns the number, for every 64-bit value. */
  lemma DecimalRoundTrip(v: u64)
    ensures ParseDecimal(WriteDecimal(v)) == Ok(v)
  {
    hide ParseDecimal, WriteDecimal, Denotes;
    WriteDenotes(v);
    ParseIff(WriteDecimal(v), v);
  }

  // ----- the printed numeral is the canonical one

  /** A digit first, no needless zero before the point, and after a point at least one digit, the
      last of them not zero. */
  ghost predicate Canonical(s: seq<u8>) {
    && s != [] && IsDigit(s[0]) && (s[0] == ZERO && |s| > 1 ==> s[1] == DOT)
    && (DOT in s ==> IsDigit(s[|s| - 1]) && s[|s| - 1] != ZERO)
  }

  lemma {:induction false} LastDigit(n: nat)
    ensures var d := DecimalDigits(n);
      |d| >= 1 && d[|d| - 1] == 48 + n % 10 && (|d| > 1 ==> d[0] != ZERO) && (d[0] == ZERO <==> n == 0)
  {
    if n >= 10 { LastDigit(n / 10); }
  }

  lemma FracLastDigit(value: nat, scale: nat)
    requires scale >= 1
    ensures (value % Pow10(scale)) % 10 == value % 10
  {
    hide Pow10;
    Pow10Step(scale - 1);
    var p, q := Pow10(scale - 1), Pow10(scale);
    DivMod(value, q);
    var k, r := value / q, value % q;
    MulAssoc(k, 10, p);
    MulAssoc(10, k, p);
    TensVanish(k * p, r, value);
  }

  lemma TensVanish(t: nat, r: nat, value: nat)
    requires value == 10 * t + r
    ensures r % 10 == value % 10
  {
  }

  lemma WriteCanonical(v: u64)
    ensures Canonical(WriteDecimal(v))
  {
    hide DecimalDigits, ZeroPad, Strip, Pow10;
    var (value, scale) := Strip(v, WIRE_DECIMALS);
    StripValue(v, WIRE_DECIMALS);
    if scale == 0 {
      LastDigit(value);
      DecimalDigitsValue(value);
    } else {
      var p := Pow10(scale);
      DivMod(value, p);
      var whole, frac := DecimalDigits(value / p), DecimalDigits(value % p);
      LastDigit(value / p);
      LastDigit(value % p);
      DecimalDigitsValue(value / p);
      FracLastDigit(value, scale);
      var s := WriteDecimal(v);
      assert s[0] == whole[0] && s[|s| - 1] == frac[|frac| - 1];
      assert |whole| == 1 ==> s[1] == DOT;
    }
  }

  lemma {:induction false} DigitsBound(a: seq<u8>)
    requires AllDigits(a)
    ensures Digits(a) < Pow10(|a|)
    decreases |a|
  {
    hide Pow10;
    NoDigits();
    if a != [] {
      DigitsBound(a[..|a| - 1]);
      Pow10Step(|a| - 1);
    }
  }

  lemma LeadingDigit(a: seq<u8>)
    requires AllDigits(a) && a != [] && a[0] != ZERO
    ensures Pow10(|a| - 1) <= Digits(a)
  {
    hide Digits, Pow10;
    NoDigits();
    AppendDigit([], a[0]);
    assert [] + [a[0]] == [a[0]] && [a[0]] + a[1..] == a;
    AppendDigits([a[0]], a[1..]);
    MulAtLeast(Digits([a[0]]), Pow10(|a| - 1));
  }

  /** Digit strings of one length and one value are the same. */
  lemma {:induction false} SameDigits(a: seq<u8>, b: seq<u8>)
    requires AllDigits(a) && AllDigits(b) && |a| == |b| && Digits(a) == Digits(b)
    ensures a == b
    decreases |a|
  {
    if a != [] {
      var n := |a| - 1;
      SameDigits(a[..n], b[..n]);
      assert a == a[..n] + [a[n]] && b == b[..n] + [b[n]];
    }
  }

  /** Whole parts without needless zeros are determined by their value. */
  lemma SameWhole(a: seq<u8>, b: seq<u8>)
    requires AllDigits(a) && AllDigits(b) && a != [] && b != [] && Digits(a) == Digits(b)
    requires (a[0] == ZERO ==> |a| == 1) && (b[0] == ZERO ==> |b| == 1)
    ensures a == b
  {
    hide Digits, Pow10;
    DigitsBound(a);
    DigitsBound(b);
    if |a| < |b| {
      LeadingDigit(b);
      PowMonotone(|a|, |b| - 1);
    } else if |b| < |a| {
      LeadingDigit(a);
      PowMonotone(|b|, |a| - 1);
    }
    SameDigits(a, b);
  }

  /** A numeral with a point, taken apart. */
  lemma Parts(s: seq<u8>) returns (whole: seq<u8>, frac: seq<u8>)
    requires Plain(s) && DOT in s
    ensures s == whole + [DOT] + frac && AllDigits(whole) && AllDigits(frac)
    ensures Frac(s) == |frac| && Digits(s) == Digits(whole) * Pow10(|frac|) + Digits(frac)
  {
    hide Digits, Frac, Pow10;
    var i :| 0 <= i < |s| && s[i] == DOT;
    whole, frac := s[..i], s[i + 1..];
    assert s == whole + [DOT] + frac == whole + [DOT] + [] + frac;
    assert AllDigits(whole) && AllDigits(frac);
    hide Plain, AllDigits, IsDigit;
    NoDigits();
    ThreePartsValue(whole, [], frac);
  }

  /** The number of places and the digits are determined by the value once the last place is not
      zero. */
  lemma SameScale(d1: nat, f1: nat, d2: nat, f2: nat, v: nat)
    requires f1 <= f2 <= WIRE_DECIMALS
    requires d1 * Pow10(WIRE_DECIMALS) == v * Pow10(f1) && d2 * Pow10(WIRE_DECIMALS) == v * Pow10(f2)
    requires f2 > 0 ==> d2 % 10 != 0
    ensures f1 == f2 && d1 == d2
  {
    hide Pow10;
    var k, p := f2 - f1, Pow10(WIRE_DECIMALS);
    PowAdd(f1, k);
    MulAssoc(v, Pow10(f1), Pow10(k));
    Rescaled(d1, d2, p, Pow10(k), v * Pow10(f1));
    NoDigits();
    if k > 0 {
      Pow10Step(k - 1);
      MulAssoc(d1, 10, Pow10(k - 1));
      MulAssoc(10, d1, Pow10(k - 1));
      TensVanish(d1 * Pow10(k - 1), 0, d2);
    }
  }

  lemma Rescaled(d1: nat, d2: nat, p: nat, q: nat, x: nat)
    requires p >= 1 && d1 * p == x && d2 * p == x * q
    ensures d2 == d1 * q
  {
    assert d2 * p == (d1 * q) * p;
    assert (d2 - d1 * q) * p == 0;
  }

  lemma CanonicalLast(s: seq<u8>)
    requires Canonical(s) && Plain(s)
    ensures DOT in s ==> Frac(s) >= 1 && Digits(s) % 10 != 0
    ensures DOT !in s ==> Frac(s) == 0 && AllDigits(s)
  {
    hide Digits, Frac;
    if DOT in s {
      var n := |s| - 1;
      assert s[n] != DOT && DOT in s[..n];
      ScanLast(s, n);
      TensVanish(Digits(s[..n]), s[n] - 48, Digits(s));
    } else {
      FracNoDot(s);
    }
  }

  lemma NoNeedlessZero(s: seq<u8>)
    requires Canonical(s) && DOT !in s
    ensures s[0] == ZERO ==> |s| == 1
  {
    assert |s| > 1 ==> s[1] in s;
  }

  lemma CanonicalUnique(s: seq<u8>, t: seq<u8>, v: nat)
    requires Canonical(s) && Denotes(s, v) && Canonical(t) && Denotes(t, v)
    ensures s == t
  {
    hide Digits, Frac, Pow10, Plain;
    CanonicalLast(s);
    CanonicalLast(t);
    if Frac(s) <= Frac(t) {
      SameScale(Digits(s), Frac(s), Digits(t), Frac(t), v);
    } else {
      SameScale(Digits(t), Frac(t), Digits(s), Frac(s), v);
    }
    if DOT in s {
      SamePointed(s, t);
    } else {
      NoNeedlessZero(s);
      NoNeedlessZero(t);
      SameWhole(s, t);
    }
  }

  lemma SamePointed(s: seq<u8>, t: seq<u8>)
    requires Canonical(s) && Plain(s) && DOT in s && Canonical(t) && Plain(t) && DOT in t
    requires Frac(s) == Frac(t) && Digits(s) == Digits(t)
    ensures s == t
  {
    hide Digits, Frac, Pow10, Plain;
    var a, f := Parts(s);
    var b, g := Parts(t);
    DigitsBound(f);
    DigitsBound(g);
    SameQuotient(Digits(a), Digits(b), Pow10(|f|), Digits(f), Digits(g));
    SameDigits(f, g);
    WholeStart(s, a, f);
    WholeStart(t, b, g);
    SameWhole(a, b);
  }

  lemma WholeStart(s: seq<u8>, a: seq<u8>, f: seq<u8>)
    requires Canonical(s) && s == a + [DOT] + f && AllDigits(a)
    ensures a != [] && (a[0] == ZERO ==> |a| == 1)
  {
    assert s[0] == if a == [] then DOT else a[0];
    assert |a| > 1 ==> s[1] == a[1];
  }

  lemma SameQuotient(a: nat, b: nat, p: nat, f: nat, g: nat)
    requires f < p && g < p && a * p + f == b * p + g
    ensures a == b && f == g
  {
    assert (a + 1) * p == a * p + p && (b + 1) * p == b * p + p;
    if a < b { MulMono(a + 1, b, p); }
    if b < a { MulMono(b + 1, a, p); }
  }

  /** The printer gives, of all the numerals of a value, exactly the canonical one. */
  lemma WriteIff(s: seq<u8>, v: u64)
    ensures s == WriteDecimal(v) <==> Canonical(s) && Denotes(s, v)
  {
    hide Canonical, Denotes, WriteDecimal;
    WriteCanonical(v);
    WriteDenotes(v);
    if Canonical(s) && Denotes(s, v) { CanonicalUnique(s, WriteDecimal(v), v); }
  }

  // ----- errors of the parser

  /** Byte `i` is at fault: neither a digit nor the first point; a ninth place; or the digit that
      carries the value past 64 bits. */
  ghost predicate FaultyAt(s: seq<u8>, i: int, e: WireError) {
    && 0 <= i < |s|
    && match e
       case InvalidDecimal => !IsDigit(s[i]) && (s[i] != 46 || 46 in s[..i])
       case DecimalTooPrecise => IsDigit(s[i]) && 46 in s[..i] && Frac(s[..i]) >= 8
       case DecimalOverflow =>
         IsDigit(s[i]) && !(46 in s[..i] && Frac(s[..i]) >= 8) && Digits(s[..i + 1]) > 0xFFFF_FFFF_FFFF_FFFF
       case _ => false
  }

  ghost predicate FaultlessBefore(s: seq<u8>, i: int) {
    forall j, e :: j < i ==> !FaultyAt(s, j, e)
  }

  lemma FaultIs(s: seq<u8>, i: nat, e: WireError)
    requires i < |s|
    ensures Fault(s[..i], s[i]) == Some(e) <==> FaultyAt(s, i, e)
  {
    assert s[..i + 1][..i] == s[..i];
    ScanLast(s[..i + 1], i);
  }

  lemma FirstFaultStep(s: seq<u8>, n: nat)
    requires n < |s|
    ensures FirstFault(s[..n + 1]) == if FirstFault(s[..n]).Some? then FirstFault(s[..n]) else Fault(s[..n], s[n])
  {
    assert s[..n + 1][..n] == s[..n];
  }

  lemma FaultlessStep(s: seq<u8>, n: nat)
    ensures FaultlessBefore(s, n + 1) <==> FaultlessBefore(s, n) && forall e :: !FaultyAt(s, n, e)
  {
    hide FaultyAt;
  }

  /** The recorded fault is that of the first faulty byte. */
  lemma {:induction false} FirstFaultIs(s: seq<u8>, n: nat)
    requires n <= |s|
    ensures FirstFault(s[..n]).None? <==> FaultlessBefore(s, n)
    ensures FirstFault(s[..n]).Some? ==>
              exists i :: i < n && FaultyAt(s, i, FirstFault(s[..n]).value) && FaultlessBefore(s, i)
    decreases n
  {
    hide Fault, FaultyAt, FirstFault, FaultlessBefore;
    if n > 0 {
      var k := n - 1;
      FirstFaultIs(s, k);
      FirstFaultStep(s, k);
      FaultlessStep(s, k);
      var fault := Fault(s[..k], s[k]);
      if fault.Some? {
        FaultIs(s, k, fault.value);
      } else {
        forall x ensures !FaultyAt(s, k, x) { FaultIs(s, k, x); }
      }
    } else {
      NothingBefore(s);
    }
  }

  /** At most one byte is the first faulty one, with at most one fault. */
  lemma FirstFaultUnique(s: seq<u8>, i: int, e: WireError, j: int, f: WireError)
    requires FaultyAt(s, i, e) && FaultlessBefore(s, i) && FaultyAt(s, j, f) && FaultlessBefore(s, j)
    ensures e == f
  {
    hide Digits, Frac;
    assert i == j by { hide FaultyAt; }
  }

  lemma NothingBefore(s: seq<u8>)
    ensures FirstFault(s[..0]).None? && FaultlessBefore(s, 0)
  {
  }

  /** Exactly which error a string gets: that of its first faulty byte; without one, an invalid
      decimal if it has no digit, and otherwise an overflow if the scaled value does not fit. */
  lemma ParseErrorIff(s: seq<u8>, e: WireError)
    ensures ParseDecimal(s) == Err(e) <==>
            || (exists i :: i < |s| && FaultyAt(s, i, e) && FaultlessBefore(s, i))
            || (FaultlessBefore(s, |s|) && !HasDigit(s) && e == InvalidDecimal)
            || (FaultlessBefore(s, |s|) && HasDigit(s) && e == DecimalOverflow &&
                Frac(s) <= 8 && Digits(s) * Pow10(8 - Frac(s)) > 0xFFFF_FFFF_FFFF_FFFF)
  {
    hide FaultyAt, FirstFault, Digits, Frac, Pow10, HasDigit, FaultlessBefore;
    assert s[..|s|] == s;
    FirstFaultIs(s, |s|);
    NoFaultIff(s);
    if exists i :: i < |s| && FaultyAt(s, i, e) && FaultlessBefore(s, i) {
      var i :| i < |s| && FaultyAt(s, i, e) && FaultlessBefore(s, i);
      assert !FaultlessBefore(s, |s|) by { FaultShows(s, i, e); }
      var f := FirstFault(s).value;
      var j :| j < |s| && FaultyAt(s, j, f) && FaultlessBefore(s, j);
      FirstFaultUnique(s, i, e, j, f);
    }
  }

  lemma FaultShows(s: seq<u8>, i: int, e: WireError)
    requires i < |s| && FaultyAt(s, i, e)
    ensures !FaultlessBefore(s, |s|)
  {
    hide FaultyAt;
  }
}
