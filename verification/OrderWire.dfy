/** Orders on the wire: the string form used by clients and the packed form used in batches. */
module OrderWire {
  import opened Common
  import opened WireDecimal

  type Cloid = c: seq<u8> | |c| == 16 witness seq(16, _ => 0)

  datatype TimeInForce = Alo | Ioc | Gtc | FrontendMarket | LiquidationMarket
  datatype TpSl = Tp | Sl
  datatype InternalOrderType = Limit(tif: TimeInForce) | Trigger(isMarket: bool, triggerPx: u64, tpsl: TpSl)

  datatype InternalOrder = InternalOrder(
    asset: u32, isBuy: bool, limitPx: u64, sz: u64, reduceOnly: bool, orderType: InternalOrderType, cloid: Option<Cloid>)

  // ----- client order ids in hexadecimal

  function HexVal(b: u8): Option<u8> {
    if 48 <= b <= 57 then Some(b - 48)
    else if 97 <= b <= 102 then Some(b - 87)
    else if 65 <= b <= 70 then Some(b - 55)
    else None
  }

  function HexDigit(n: u8): u8
    requires n < 16
  {
    if n < 10 then 48 + n else 87 + n
  }

  predicate HexByteAt(s: seq<u8>, i: nat)
    requires 3 + 2 * i < |s|
  {
    HexVal(s[2 + 2 * i]).Some? && HexVal(s[3 + 2 * i]).Some?
  }

  lemma HexValSmall(b: u8)
    ensures HexVal(b).Some? ==> HexVal(b).value < 16
  {
  }

  function ByteAt(s: seq<u8>, i: nat): u8
    requires 3 + 2 * i < |s| && HexByteAt(s, i)
  {
    HexValSmall(s[2 + 2 * i]);
    HexValSmall(s[3 + 2 * i]);
    16 * HexVal(s[2 + 2 * i]).value + HexVal(s[3 + 2 * i]).value
  }

  function ParseCloid(s: seq<u8>): Result<Cloid, WireError> {
    if |s| != 34 || s[0] != 48 || s[1] != 120 then Err(InvalidCloid)
    else if forall i :: 0 <= i < 16 ==> HexByteAt(s, i) then Ok(BytesOf(s))
    else Err(InvalidCloid)
  }

  function BytesOf(s: seq<u8>): (c: Cloid)
    requires |s| == 34 && forall i :: 0 <= i < 16 ==> HexByteAt(s, i)
    ensures forall i :: 0 <= i < 16 ==> c[i] == ByteAt(s, i)
  {
    seq(16, i requires 0 <= i < 16 && |s| == 34 && HexByteAt(s, i) => ByteAt(s, i))
  }

  method CloidParse(s: seq<u8>) returns (r: Result<Cloid, WireError>)
    ensures r == ParseCloid(s)
  {
    if |s| != 34 || s[0] != 48 || s[1] != 120 { return Err(InvalidCloid); }
    var out: seq<u8> := [];
    for i := 0 to 16
      invariant |out| == i
      invariant forall j :: 0 <= j < i ==> HexByteAt(s, j) && out[j] == ByteAt(s, j)
    {
      HexValSmall(s[2 + 2 * i]);
      HexValSmall(s[3 + 2 * i]);
      var hi := HexVal(s[2 + 2 * i]);
      if hi.None? { assert !HexByteAt(s, i); return Err(InvalidCloid); }
      var lo := HexVal(s[3 + 2 * i]);
      if lo.None? { assert !HexByteAt(s, i); return Err(InvalidCloid); }
      out := out + [16 * hi.value + lo.value];
    }
    assert out == BytesOf(s);
    r := Ok(out);
  }

  function HexPairs(c: seq<u8>): seq<u8> {
    if c == [] then [] else HexPairs(c[..|c| - 1]) + [HexDigit(c[|c| - 1] / 16), HexDigit(c[|c| - 1] % 16)]
  }

  function WriteCloid(c: Cloid): seq<u8> { [48, 120] + HexPairs(c) }

  lemma {:induction false} HexPairsAt(c: seq<u8>, i: nat)
    requires i < |c|
    ensures |HexPairs(c)| == 2 * |c|
    ensures HexPairs(c)[2 * i] == HexDigit(c[i] / 16) && HexPairs(c)[2 * i + 1] == HexDigit(c[i] % 16)
  {
    if |c| == 1 {
      assert HexPairs(c[..0]) == [];
    } else {
      HexPairsAt(c[..|c| - 1], if i < |c| - 1 then i else 0);
    }
  }

  lemma CloidRoundTrip(c: Cloid)
    ensures ParseCloid(WriteCloid(c)) == Ok(c)
  {
    var s := WriteCloid(c);
    HexPairsAt(c, 0);
    forall i | 0 <= i < 16 ensures HexByteAt(s, i) && ByteAt(s, i) == c[i] {
      HexPairsAt(c, i);
      assert s[2 + 2 * i] == HexPairs(c)[2 * i] && s[3 + 2 * i] == HexPairs(c)[2 * i + 1];
    }
    assert BytesOf(s) == c;
  }

  // ----- the string form

  datatype OrderTypeWire = LimitWire(tif: TimeInForce) | TriggerWire(isMarket: bool, triggerPx: seq<u8>, tpsl: TpSl)

  datatype OrderWireSerde = OrderWireSerde(
    a: u32, b: bool, p: seq<u8>, s: seq<u8>, r: bool, t: OrderTypeWire, c: Option<seq<u8>>)

  function TypeToInternal(t: OrderTypeWire): Result<InternalOrderType, WireError> {
    match t
    case LimitWire(tif) => Ok(Limit(tif))
    case TriggerWire(isMarket, px, tpsl) =>
      var v :- ParseDecimal(px);
      Ok(Trigger(isMarket, v, tpsl))
  }

  function TypeFromInternal(t: InternalOrderType): OrderTypeWire {
    match t
    case Limit(tif) => LimitWire(tif)
    case Trigger(isMarket, px, tpsl) => TriggerWire(isMarket, WriteDecimal(px), tpsl)
  }

  function CloidToInternal(c: Option<seq<u8>>): Result<Option<Cloid>, WireError> {
    match c
    case None => Ok(None)
    case Some(s) => var v :- ParseCloid(s); Ok(Some(v))
  }

  function ToInternal(w: OrderWireSerde): Result<InternalOrder, WireError> {
    var cloid :- CloidToInternal(w.c);
    var limitPx :- ParseDecimal(w.p);
    var sz :- ParseDecimal(w.s);
    var orderType :- TypeToInternal(w.t);
    Ok(InternalOrder(w.a, w.b, limitPx, sz, w.r, orderType, cloid))
  }

  function FromInternal(o: InternalOrder): OrderWireSerde {
    OrderWireSerde(o.asset, o.isBuy, WriteDecimal(o.limitPx), WriteDecimal(o.sz), o.reduceOnly,
                   TypeFromInternal(o.orderType),
                   if o.cloid.Some? then Some(WriteCloid(o.cloid.value)) else None)
  }

  /** Every internal order survives its string form. */
  lemma StringRoundTrip(o: InternalOrder)
    ensures ToInternal(FromInternal(o)) == Ok(o)
  {
    hide ParseDecimal, WriteDecimal, ParseCloid, WriteCloid;
    DecimalRoundTrip(o.limitPx);
    DecimalRoundTrip(o.sz);
    if o.orderType.Trigger? { DecimalRoundTrip(o.orderType.triggerPx); }
    if o.cloid.Some? { CloidRoundTrip(o.cloid.value); }
  }

  // ----- big-endian integers

  function Pow256(n: nat): (p: nat)
    ensures p >= 1
  {
    if n == 0 then 1 else 256 * Pow256(n - 1)
  }

  /** The `n` low bytes of `v`, most significant first. */
  function ToBytes(v: nat, n: nat): (s: seq<u8>)
    ensures |s| == n
    decreases n
  {
    if n == 0 then [] else ToBytes(v / 256, n - 1) + [v % 256]
  }

  function FromBytes(s: seq<u8>): nat {
    if s == [] then 0 else 256 * FromBytes(s[..|s| - 1]) + s[|s| - 1]
  }

  lemma {:induction false} BytesRoundTrip(v: nat, n: nat)
    requires v < Pow256(n)
    ensures FromBytes(ToBytes(v, n)) == v
    decreases n
  {
    if n > 0 {
      hide ToBytes, FromBytes, Pow256;
      BytesStep(v, n);
      BytesRoundTrip(v / 256, n - 1);
      LastByte(ToBytes(v, n));
      assert ToBytes(v, n)[..n - 1] == ToBytes(v / 256, n - 1);
    } else {
      assert v == 0;
    }
  }

  lemma {:induction false} NumberRoundTrip(s: seq<u8>)
    ensures FromBytes(s) < Pow256(|s|) && ToBytes(FromBytes(s), |s|) == s
  {
    if s != [] {
      hide ToBytes, FromBytes, Pow256;
      var n := |s| - 1;
      var high, low := FromBytes(s[..n]), s[n];
      NumberRoundTrip(s[..n]);
      LastByte(s);
      SplitByte(high, low);
      BytesStep(256 * high + low, |s|);
      assert s == s[..n] + [low];
    }
  }

  lemma LastByte(s: seq<u8>)
    requires s != []
    ensures FromBytes(s) == 256 * FromBytes(s[..|s| - 1]) + s[|s| - 1]
  {
  }

  lemma BytesStep(v: nat, n: nat)
    requires n >= 1
    ensures ToBytes(v, n) == ToBytes(v / 256, n - 1) + [v % 256] && Pow256(n) == 256 * Pow256(n - 1)
  {
  }

  lemma SplitByte(high: nat, low: u8)
    ensures (256 * high + low) / 256 == high && (256 * high + low) % 256 == low
  {
  }

  lemma WordSizes()
    ensures Pow256(4) == 0x1_0000_0000 && Pow256(8) == 0x1_0000_0000_0000_0000
  {
    assert Pow256(8) == 256 * 256 * 256 * 256 * Pow256(4);
  }

  function U32At(s: seq<u8>, i: nat): u32
    requires i + 4 <= |s|
  {
    NumberRoundTrip(s[i..i + 4]);
    WordSizes();
    FromBytes(s[i..i + 4])
  }

  function U64At(s: seq<u8>, i: nat): u64
    requires i + 8 <= |s|
  {
    NumberRoundTrip(s[i..i + 8]);
    WordSizes();
    FromBytes(s[i..i + 8])
  }

  // ----- the packed form

  const BASE_LEN: nat := 21

  function TypeCode(t: InternalOrderType): u8 {
    match t
    case Limit(Alo) => 1
    case Limit(Gtc) => 2
    case Limit(Ioc) => 3
    case Trigger(isMarket, _, Tp) => if isMarket then 4 else 5
    case Trigger(isMarket, _, Sl) => if isMarket then 6 else 7
    case Limit(FrontendMarket) => 8
    case Limit(LiquidationMarket) => 9
  }

  function TypeFromCode(code: u8, triggerPx: Option<u64>): Result<InternalOrderType, WireError> {
    if code == 1 then Ok(Limit(Alo))
    else if code == 2 then Ok(Limit(Gtc))
    else if code == 3 then Ok(Limit(Ioc))
    else if 4 <= code <= 7 then
      if triggerPx.None? then Err(CustomSliceBadLen)
      else Ok(Trigger(code == 4 || code == 6, triggerPx.value, if code <= 5 then Tp else Sl))
    else if code == 8 then Ok(Limit(FrontendMarket))
    else if code == 9 then Ok(Limit(LiquidationMarket))
    else Err(UnknownOrderTypeVariant(code))
  }

  function Bit(b: bool): nat { if b then 1 else 0 }

  /** Bit 0 buy, bit 1 reduce-only, bits 2-5 type code, bit 6 cloid present; bit 7 unused. */
  function Flags(o: InternalOrder): u8 {
    4 * TypeCode(o.orderType) + Bit(o.isBuy) + 2 * Bit(o.reduceOnly) + 64 * Bit(o.cloid.Some?)
  }

  function TriggerBytes(o: InternalOrder): seq<u8> {
    if o.orderType.Trigger? then ToBytes(o.orderType.triggerPx, 8) else []
  }

  function CloidBytes(o: InternalOrder): seq<u8> {
    if o.cloid.Some? then o.cloid.value else []
  }

  function EncodeOrder(o: InternalOrder): seq<u8> {
    ToBytes(o.asset, 4) + ToBytes(o.limitPx, 8) + ToBytes(o.sz, 8) + [Flags(o)] + TriggerBytes(o) + CloidBytes(o)
  }

  function FlagTypeCode(flags: u8): u8 { (flags / 4) % 16 }
  predicate FlagTrigger(flags: u8) { (flags / 16) % 4 == 1 }
  predicate FlagCloid(flags: u8) { (flags / 64) % 2 == 1 }

  function DecodeOrder(s: seq<u8>): Result<(InternalOrder, nat), WireError> {
    if |s| < BASE_LEN then Err(CustomSliceBadLen)
    else
      var flags := s[20];
      var pos := if FlagTrigger(flags) then 29 else 21;
      if |s| < pos then Err(CustomSliceBadLen)
      else
        var triggerPx := if FlagTrigger(flags) then Some(U64At(s, 21)) else None;
        var end := if FlagCloid(flags) then pos + 16 else pos;
        if |s| < end then Err(CustomSliceBadLen)
        else
          var cloid: Option<Cloid> := if FlagCloid(flags) then Some(s[pos..end]) else None;
          var orderType :- TypeFromCode(FlagTypeCode(flags), triggerPx);
          Ok((InternalOrder(U32At(s, 0), flags % 2 == 1, U64At(s, 4), U64At(s, 12),
                            (flags / 2) % 2 == 1, orderType, cloid), end))
  }

  lemma FlagsUnpack(o: InternalOrder)
    ensures var f := Flags(o);
      && f < 128 && FlagTypeCode(f) == TypeCode(o.orderType)
      && FlagTrigger(f) == o.orderType.Trigger? && FlagCloid(f) == o.cloid.Some?
      && (f % 2 == 1) == o.isBuy && ((f / 2) % 2 == 1) == o.reduceOnly
  {
  }

  lemma CodeRoundTrip(t: InternalOrderType)
    ensures TypeFromCode(TypeCode(t), if t.Trigger? then Some(t.triggerPx) else None) == Ok(t)
  {
  }

  /** Encodings are self-delimiting: a decoder reading an encoding followed by anything gets
      the order back and stops exactly at its end. */
  lemma OrderRoundTrip(o: InternalOrder, rest: seq<u8>)
    ensures DecodeOrder(EncodeOrder(o) + rest) == Ok((o, |EncodeOrder(o)|))
    ensures |EncodeOrder(o)| >= BASE_LEN
  {
    hide ToBytes, FromBytes, Flags, FlagTypeCode, FlagTrigger, FlagCloid, TypeFromCode, TypeCode;
    var s := EncodeOrder(o) + rest;
    FlagsUnpack(o);
    CodeRoundTrip(o.orderType);
    WordSizes();
    BytesRoundTrip(o.asset, 4);
    BytesRoundTrip(o.limitPx, 8);
    BytesRoundTrip(o.sz, 8);
    assert s[0..4] == ToBytes(o.asset, 4);
    assert s[4..12] == ToBytes(o.limitPx, 8);
    assert s[12..20] == ToBytes(o.sz, 8);
    assert s[20] == Flags(o);
    if o.orderType.Trigger? {
      BytesRoundTrip(o.orderType.triggerPx, 8);
      assert s[21..29] == ToBytes(o.orderType.triggerPx, 8);
    }
    if o.cloid.Some? {
      var pos := if o.orderType.Trigger? then 29 else 21;
      assert s[pos..pos + 16] == o.cloid.value;
    }
  }

  lemma CodeRepack(code: u8, px: Option<u64>)
    requires TypeFromCode(code, px).Ok?
    ensures var t := TypeFromCode(code, px).value;
      && TypeCode(t) == code && (t.Trigger? <==> 4 <= code <= 7)
      && (t.Trigger? ==> px.Some? && t.triggerPx == px.value)
  {
  }

  lemma FlagsRepack(flags: u8)
    ensures flags % 128 == 4 * FlagTypeCode(flags) + Bit(flags % 2 == 1) + 2 * Bit((flags / 2) % 2 == 1)
                         + 64 * Bit(FlagCloid(flags))
    ensures FlagTrigger(flags) <==> 4 <= FlagTypeCode(flags) <= 7
  {
    var f: int := flags;
    Nested(f);
    assert f == 2 * (f / 2) + f % 2 && f / 2 == 2 * (f / 4) + (f / 2) % 2;
    assert f / 4 == 16 * (f / 64) + (f / 4) % 16 && f / 64 == 2 * (f / 128) + (f / 64) % 2;
    assert f == 128 * (f / 128) + f % 128;
    assert f / 4 == 4 * (f / 16) + (f / 4) % 4 && f / 16 == 4 * ((f / 16) / 4) + (f / 16) % 4;
  }

  /** Fields of a flag byte found by shifting twice are found by shifting once. */
  lemma Nested(f: int)
    requires f >= 0
    ensures (f / 2) / 2 == f / 4 && (f / 4) / 4 == f / 16 && (f / 4) / 16 == f / 64
    ensures (f / 16) / 4 == f / 64 && (f / 64) / 2 == f / 128
  {
  }

  /** Re-encoding a decoded order gives back the bytes read exactly when the unused top flag
      bit was clear. */
  lemma ReencodeIff(s: seq<u8>)
    requires DecodeOrder(s).Ok?
    ensures var (o, used) := DecodeOrder(s).value;
      && BASE_LEN <= used <= |s|
      && (EncodeOrder(o) == s[..used] <==> s[20] < 128)
  {
    hide ToBytes, FromBytes, FlagTypeCode, FlagTrigger, FlagCloid, TypeFromCode, TypeCode, Bit;
    var flags := s[20];
    var (o, used) := DecodeOrder(s).value;
    FlagsRepack(flags);
    CodeRepack(FlagTypeCode(flags), if FlagTrigger(flags) then Some(U64At(s, 21)) else None);
    assert Flags(o) == flags % 128;
    var pos := if FlagTrigger(flags) then 29 else 21;
    NumberRoundTrip(s[0..4]);
    NumberRoundTrip(s[4..12]);
    NumberRoundTrip(s[12..20]);
    if FlagTrigger(flags) { NumberRoundTrip(s[21..29]); }
    assert TriggerBytes(o) == s[21..pos] && CloidBytes(o) == s[pos..used];
    SixParts(s, pos, used, o);
  }

  lemma SixParts(s: seq<u8>, pos: nat, used: nat, o: InternalOrder)
    requires 21 <= pos <= used <= |s|
    requires ToBytes(o.asset, 4) == s[0..4] && ToBytes(o.limitPx, 8) == s[4..12] && ToBytes(o.sz, 8) == s[12..20]
    requires TriggerBytes(o) == s[21..pos] && CloidBytes(o) == s[pos..used]
    ensures EncodeOrder(o) == s[..used] <==> Flags(o) == s[20]
  {
    hide ToBytes, Flags, TriggerBytes, CloidBytes;
    var e := EncodeOrder(o);
    assert e == s[0..4] + s[4..12] + s[12..20] + [Flags(o)] + s[21..pos] + s[pos..used];
    assert s[..used] == s[0..4] + s[4..12] + s[12..20] + [s[20]] + s[21..pos] + s[pos..used];
    assert e[20] == Flags(o);
  }

  // ----- batches

  datatype BatchTag = RmpSerde | CustomSlice | NestedCustomSlice
  datatype Aux = Aux(encoded: u32, kind: u32, extendedIndex: Option<u32>)
  datatype Batch = Batch(tag: BatchTag, aux: Aux, orders: seq<InternalOrder>)

  function EncodeOrders(os: seq<InternalOrder>): seq<u8> {
    if os == [] then [] else EncodeOrders(os[..|os| - 1]) + EncodeOrder(os[|os| - 1])
  }

  function EncodeBatch(b: Batch): seq<u8> {
    [1] + ToBytes(b.aux.encoded, 4) + [0] + EncodeOrders(b.orders)
  }

  method EncodeCustomSlice(b: Batch, out: seq<u8>) returns (r: seq<u8>)
    ensures r == out + EncodeBatch(b)
  {
    hide EncodeOrder, ToBytes;
    r := out + [1] + ToBytes(b.aux.encoded, 4) + [0];
    ghost var head := r;
    for i := 0 to |b.orders|
      invariant r == head + EncodeOrders(b.orders[..i])
    {
      assert b.orders[..i + 1][..i] == b.orders[..i];
      r := r + EncodeOrder(b.orders[i]);
    }
    assert b.orders[..|b.orders|] == b.orders;
  }

  lemma DecodeUses(s: seq<u8>)
    ensures DecodeOrder(s).Ok? ==> BASE_LEN <= DecodeOrder(s).value.1 <= |s|
  {
  }

  /** Decode until the bytes run out; every order uses at least 21 of them. */
  function DecodeOrders(s: seq<u8>): Result<seq<InternalOrder>, WireError>
    decreases |s|
  {
    if s == [] then Ok([])
    else
      DecodeUses(s);
      var (o, used) :- DecodeOrder(s);
      var rest :- DecodeOrders(s[used..]);
      Ok([o] + rest)
  }

  method DecodeCompactOrders(bytes: seq<u8>) returns (r: Result<seq<InternalOrder>, WireError>)
    ensures r == DecodeOrders(bytes)
  {
    hide DecodeOrder;
    var s := bytes;
    var orders: seq<InternalOrder> := [];
    assert DecodeOrders(s).Ok? ==> [] + DecodeOrders(s).value == DecodeOrders(s).value;
    while s != []
      invariant DecodeOrders(bytes) ==
                match DecodeOrders(s) { case Ok(rest) => Ok(orders + rest) case Err(e) => Err(e) }
      decreases |s|
    {
      DecodeUses(s);
      var d := DecodeOrder(s);
      if d.Err? { return Err(d.error); }
      ghost var tail := DecodeOrders(s[d.value.1..]);
      assert tail.Ok? ==> orders + ([d.value.0] + tail.value) == (orders + [d.value.0]) + tail.value;
      orders := orders + [d.value.0];
      s := s[d.value.1..];
    }
    assert orders + [] == orders;
    r := Ok(orders);
  }

  lemma {:induction false} EncodeOrdersHead(os: seq<InternalOrder>)
    requires os != []
    ensures EncodeOrders(os) == EncodeOrder(os[0]) + EncodeOrders(os[1..])
  {
    hide EncodeOrder;
    if |os| == 1 {
      assert EncodeOrders(os[..0]) == [] && EncodeOrders(os[1..]) == [];
    } else {
      var front, last := os[..|os| - 1], os[|os| - 1];
      EncodeOrdersHead(front);
      assert front[1..] == os[1..][..|os| - 2] && os[1..][|os| - 2] == last;
      var a, b, c := EncodeOrder(os[0]), EncodeOrders(front[1..]), EncodeOrder(last);
      assert EncodeOrders(os) == (a + b) + c && EncodeOrders(os[1..]) == b + c;
    }
  }

  lemma {:induction false} OrdersRoundTrip(os: seq<InternalOrder>)
    ensures DecodeOrders(EncodeOrders(os)) == Ok(os)
    decreases |os|
  {
    hide EncodeOrder, DecodeOrder;
    if os != [] {
      var first, rest := EncodeOrder(os[0]), EncodeOrders(os[1..]);
      EncodeOrdersHead(os);
      OrderRoundTrip(os[0], rest);
      OrdersRoundTrip(os[1..]);
      assert (first + rest)[|first|..] == rest;
      assert [os[0]] + os[1..] == os;
    }
  }

  function AuxOf(encoded: u32): Option<Aux> {
    if encoded < 3 then Some(Aux(encoded, encoded, None))
    else if encoded - 3 >= 100_000_001 then None
    else Some(Aux(encoded, 3, Some(encoded - 3)))
  }

  function DecodeCustomSlice(s: seq<u8>): Result<Batch, WireError> {
    if |s| < 5 then Err(CustomSliceBadLen)
    else
      var aux := AuxOf(U32At(s, 0));
      if aux.None? then Err(CustomSliceBadLen)
      else if s[4] == 0 then
        var orders :- DecodeOrders(s[5..]);
        Ok(Batch(CustomSlice, aux.value, orders))
      else if s[4] == 2 then Err(UnsupportedTaggedEncoding(2))
      else Err(CustomSliceAuxByteMismatch)
  }

  function DecodeTagged(s: seq<u8>): Result<Batch, WireError> {
    if s == [] then Err(CustomSliceBadLen)
    else if s[0] == 1 then DecodeCustomSlice(s[1..])
    else if s[0] == 0 || s[0] == 2 then Err(UnsupportedTaggedEncoding(s[0]))
    else Err(UnknownOrderTypeVariant(s[0]))
  }

  /** A batch survives encoding exactly when it carries the custom-slice tag and its auxiliary
      fields are the ones its encoded word stands for; the encoder writes neither. */
  lemma BatchRoundTripIff(b: Batch)
    ensures DecodeTagged(EncodeBatch(b)) == Ok(b) <==>
            b.tag == CustomSlice && AuxOf(b.aux.encoded) == Some(b.aux)
  {
    hide ToBytes, FromBytes, EncodeOrders, DecodeOrders, AuxOf;
    var s := EncodeBatch(b);
    WordSizes();
    BytesRoundTrip(b.aux.encoded, 4);
    assert s[1..][0..4] == ToBytes(b.aux.encoded, 4) && s[1..][4] == 0;
    assert s[1..][5..] == EncodeOrders(b.orders);
    OrdersRoundTrip(b.orders);
    AuxKeepsWord(b.aux.encoded);
  }

  /** An empty batch with another tag and a stray auxiliary kind comes back as a different batch. */
  lemma BatchCanChange() returns (b: Batch)
    ensures b.tag == RmpSerde && b.aux.kind == 9
    ensures DecodeTagged(EncodeBatch(b)) == Ok(Batch(CustomSlice, Aux(1, 1, None), []))
  {
    b := Batch(RmpSerde, Aux(1, 9, None), []);
    var twin := Batch(CustomSlice, Aux(1, 1, None), []);
    hide DecodeTagged, EncodeOrders, ToBytes;
    assert EncodeBatch(b) == EncodeBatch(twin);
    BatchRoundTripIff(twin);
  }

  lemma AuxKeepsWord(encoded: u32)
    ensures AuxOf(encoded).Some? ==> AuxOf(encoded).value.encoded == encoded
  {
  }

  lemma FlagTop(f: u8)
    requires f < 128
    ensures FlagTypeCode(f + 128) == FlagTypeCode(f)
    ensures FlagTrigger(f + 128) == FlagTrigger(f) && FlagCloid(f + 128) == FlagCloid(f)
    ensures (f + 128) % 2 == f % 2 && ((f + 128) / 2) % 2 == (f / 2) % 2
  {
    var g: int := f + 128;
    assert g / 2 == f / 2 + 64 && g / 4 == f / 4 + 32 && g / 16 == f / 16 + 8 && g / 64 == f / 64 + 2;
    WholeTurns(f / 4, f / 16, f / 64, f / 2);
  }

  lemma WholeTurns(a: int, b: int, c: int, d: int)
    ensures (a + 32) % 16 == a % 16 && (b + 8) % 4 == b % 4 && (c + 2) % 2 == c % 2 && (d + 64) % 2 == d % 2
  {
  }

  /** Two different byte strings for one order: the decoder ignores the top flag bit. */
  lemma TopBitIgnored(s: seq<u8>)
    requires |s| >= BASE_LEN && s[20] < 128
    ensures DecodeOrder(s[20 := s[20] + 128]) == DecodeOrder(s)
  {
    hide FlagTypeCode, FlagTrigger, FlagCloid, TypeFromCode, FromBytes;
    FlagTop(s[20]);
    var s' := s[20 := s[20] + 128];
    assert s'[0..4] == s[0..4] && s'[4..12] == s[4..12] && s'[12..20] == s[12..20];
    assert forall i, j :: 21 <= i <= j <= |s| ==> s'[i..j] == s[i..j];
  }

  lemma TopBitCleared(s: seq<u8>)
    requires |s| >= BASE_LEN
    ensures DecodeOrder(s[20 := s[20] % 128]) == DecodeOrder(s)
  {
    hide DecodeOrder;
    if s[20] >= 128 {
      var t := s[20 := s[20] - 128];
      TopBitIgnored(t);
      assert t[20 := t[20] + 128] == s;
    } else {
      assert s[20 := s[20] % 128] == s;
    }
  }

  /** The decoder accepts exactly the byte strings that begin with some order's encoding once
      the unused flag bit is cleared. */
  lemma DecodesIff(s: seq<u8>)
    ensures DecodeOrder(s).Ok? <==> |s| >= BASE_LEN && exists o :: EncodeOrder(o) <= s[20 := s[20] % 128]
  {
    if |s| >= BASE_LEN {
      hide DecodeOrder, EncodeOrder;
      var t := s[20 := s[20] % 128];
      TopBitCleared(s);
      if DecodeOrder(t).Ok? { DecodedPrefix(t); }
      forall o | EncodeOrder(o) <= t ensures DecodeOrder(t).Ok? { PrefixDecodes(t, o); }
    }
  }

  lemma DecodedPrefix(t: seq<u8>)
    requires |t| >= BASE_LEN && t[20] < 128 && DecodeOrder(t).Ok?
    ensures EncodeOrder(DecodeOrder(t).value.0) <= t
  {
    hide DecodeOrder, EncodeOrder;
    ReencodeIff(t);
  }

  lemma PrefixDecodes(t: seq<u8>, o: InternalOrder)
    requires EncodeOrder(o) <= t
    ensures DecodeOrder(t).Ok?
  {
    hide DecodeOrder, EncodeOrder;
    OrderRoundTrip(o, t[|EncodeOrder(o)|..]);
    assert EncodeOrder(o) + t[|EncodeOrder(o)|..] == t;
  }

  /** One packed order byte by byte: asset 1, a reduce-only buy of 3 at 2, good till cancelled. */
  lemma PackedExample()
    ensures EncodeOrder(InternalOrder(1, true, 2, 3, true, Limit(Gtc), None)) ==
            [0, 0, 0, 1] + [0, 0, 0, 0, 0, 0, 0, 2] + [0, 0, 0, 0, 0, 0, 0, 3] + [11]
  {
    SmallBytes(1, 4);
    SmallBytes(2, 8);
    SmallBytes(3, 8);
    hide ToBytes;
    assert Zeros(3) == [0, 0, 0] && Zeros(7) == [0, 0, 0] + [0, 0, 0] + [0] by {
      assert Zeros(7) == seq(7, _ => 0);
    }
  }

  function Zeros(n: nat): seq<u8> { seq(n, _ => 0) }

  lemma {:induction false} SmallBytes(v: u8, n: nat)
    requires n >= 1
    ensures ToBytes(v, n) == Zeros(n - 1) + [v]
    decreases n
  {
    if n > 1 {
      SmallBytes(0, n - 1);
      assert Zeros(n - 2) + [0] == Zeros(n - 1);
    }
  }

  function Lower(b: u8): u8 { if 65 <= b <= 70 then b + 32 else b }

  lemma HexValIff(b: u8, n: u8)
    requires n < 16
    ensures HexVal(b) == Some(n) <==> Lower(b) == HexDigit(n)
  {
  }

  /** A client id parses to `c` exactly when it is its printed form up to the case of the
      hexadecimal letters. */
  lemma CloidParseIff(s: seq<u8>, c: Cloid)
    ensures ParseCloid(s) == Ok(c) <==>
            |s| == 34 && s[0] == 48 && s[1] == 120 && |HexPairs(c)| == 32 &&
            forall i :: 0 <= i < 32 ==> Lower(s[2 + i]) == HexPairs(c)[i]
  {
    hide HexVal, HexDigit, Lower, HexPairs;
    HexPairsAt(c, 0);
    if |s| == 34 && s[0] == 48 && s[1] == 120 {
      forall i | 0 <= i < 16
        ensures HexByteAt(s, i) && ByteAt(s, i) == c[i] <==>
                Lower(s[2 + 2 * i]) == HexPairs(c)[2 * i] && Lower(s[3 + 2 * i]) == HexPairs(c)[2 * i + 1]
      {
        HexPairsAt(c, i);
        HexValSmall(s[2 + 2 * i]);
        HexValSmall(s[3 + 2 * i]);
        HexValIff(s[2 + 2 * i], c[i] / 16);
        HexValIff(s[3 + 2 * i], c[i] % 16);
      }
      if ParseCloid(s) == Ok(c) {
        forall i | 0 <= i < 32 ensures Lower(s[2 + i]) == HexPairs(c)[i] {
          assert HexByteAt(s, i / 2) && ByteAt(s, i / 2) == c[i / 2];
        }
      }
      if forall i :: 0 <= i < 32 ==> Lower(s[2 + i]) == HexPairs(c)[i] {
        forall i | 0 <= i < 16 ensures HexByteAt(s, i) && ByteAt(s, i) == c[i] {
          assert Lower(s[2 + 2 * i]) == HexPairs(c)[2 * i] && Lower(s[2 + (2 * i + 1)]) == HexPairs(c)[2 * i + 1];
        }
        assert BytesOf(s) == c;
      }
    }
  }

  // ----- what bytes mean, in full

  /** The bytes of one order with the unused flag bit cleared. */
  function Cleared(s: seq<u8>): seq<u8>
    requires |s| >= BASE_LEN
  {
    s[20 := s[20] % 128]
  }

  /** Decoding yields this order and this length exactly when the bytes begin with its encoding,
      the unused flag bit aside. */
  lemma DecodesTo(s: seq<u8>, o: InternalOrder, n: nat)
    ensures DecodeOrder(s) == Ok((o, n)) <==>
            BASE_LEN <= n <= |s| && n == |EncodeOrder(o)| && Cleared(s[..n]) == EncodeOrder(o)
  {
    hide DecodeOrder, EncodeOrder;
    DecodeUses(s);
    if |s| >= BASE_LEN {
      var t := Cleared(s);
      TopBitCleared(s);
      if DecodeOrder(s) == Ok((o, n)) {
        ReencodeIff(t);
        assert t[..n] == Cleared(s[..n]);
      }
      if BASE_LEN <= n <= |s| && Cleared(s[..n]) == EncodeOrder(o) {
        assert EncodeOrder(o) + t[n..] == t;
        OrderRoundTrip(o, t[n..]);
      }
    } else {
      TooShort(s);
    }
  }

  lemma TooShort(s: seq<u8>)
    requires |s| < BASE_LEN
    ensures DecodeOrder(s).Err?
  {
  }

  /** The bytes are the encodings of the orders one after the other, unused flag bits aside. */
  ghost predicate Reads(s: seq<u8>, os: seq<InternalOrder>)
    decreases |os|
  {
    if os == [] then s == []
    else
      var n := |EncodeOrder(os[0])|;
      BASE_LEN <= n <= |s| && Cleared(s[..n]) == EncodeOrder(os[0]) && Reads(s[n..], os[1..])
  }

  lemma {:induction false} OrdersDecodeIff(s: seq<u8>, os: seq<InternalOrder>)
    ensures DecodeOrders(s) == Ok(os) <==> Reads(s, os)
    decreases |s|
  {
    hide DecodeOrder, EncodeOrder;
    if s != [] {
      DecodeUses(s);
      if DecodeOrder(s).Ok? {
        var (o, n) := DecodeOrder(s).value;
        DecodesTo(s, o, n);
        if os != [] {
          DecodesTo(s, os[0], |EncodeOrder(os[0])|);
          OrdersDecodeIff(s[n..], os[1..]);
          assert [os[0]] + os[1..] == os;
        }
      } else if os != [] {
        DecodesTo(s, os[0], |EncodeOrder(os[0])|);
      }
    }
  }

  /** A batch is read exactly from: tag 1, a big-endian word below 100000004, a zero byte and the
      orders. Words below 3 are kinds of their own; from 3 on the kind is 3 and the rest an
      extended index. */
  lemma BatchDecodesIff(s: seq<u8>, b: Batch)
    ensures DecodeTagged(s) == Ok(b) <==>
            && |s| >= 6 && s[0] == 1 && s[5] == 0
            && var word := FromBytes(s[1..5]);
            && word < 100_000_004
            && b.tag == CustomSlice && b.aux.encoded == word
            && b.aux.kind == (if word < 3 then word else 3)
            && (if word < 3 then b.aux.extendedIndex == None else b.aux.extendedIndex == Some(word - 3))
            && Reads(s[6..], b.orders)
  {
    hide DecodeOrders, FromBytes, Reads;
    if |s| >= 6 {
      assert s[1..][0..4] == s[1..5] && s[1..][4] == s[5] && s[1..][5..] == s[6..];
      OrdersDecodeIff(s[6..], b.orders);
    }
  }

  /** What stops a batch before its orders are looked at. */
  ghost function BatchFault(s: seq<u8>): Option<WireError> {
    if s == [] then Some(CustomSliceBadLen)
    else if s[0] == 0 || s[0] == 2 then Some(UnsupportedTaggedEncoding(s[0]))
    else if s[0] > 2 then Some(UnknownOrderTypeVariant(s[0]))
    else if |s| < 6 || FromBytes(s[1..5]) >= 100_000_004 then Some(CustomSliceBadLen)
    else if s[5] == 2 then Some(UnsupportedTaggedEncoding(2))
    else if s[5] != 0 then Some(CustomSliceAuxByteMismatch)
    else None
  }

  /** Why a batch is not read: a fault of its head, else that of its orders. */
  lemma BatchErrors(s: seq<u8>)
    ensures BatchFault(s).Some? ==> DecodeTagged(s) == Err(BatchFault(s).value)
    ensures BatchFault(s).None? ==>
              if DecodeOrders(s[6..]).Ok? then DecodeTagged(s).Ok?
              else DecodeTagged(s) == Err(DecodeOrders(s[6..]).error)
  {
    hide DecodeOrders, FromBytes;
    if |s| >= 6 { assert s[1..][0..4] == s[1..5] && s[1..][4] == s[5] && s[1..][5..] == s[6..]; }
  }

  /** Why an order is not read: fewer bytes than 21, 8 more for a trigger and 16 more for a client
      id, or a type code that is not one of 1 to 9. */
  lemma OrderErrors(s: seq<u8>)
    ensures DecodeOrder(s).Ok? <==>
            && |s| >= 21
            && var code, cloid := FlagTypeCode(s[20]), FlagCloid(s[20]);
            && |s| >= 21 + (if 4 <= code <= 7 then 8 else 0) + (if cloid then 16 else 0)
            && 1 <= code <= 9
    ensures DecodeOrder(s).Err? ==>
              DecodeOrder(s).error ==
                if |s| < 21 then CustomSliceBadLen
                else
                  var code, cloid := FlagTypeCode(s[20]), FlagCloid(s[20]);
                  if |s| < 21 + (if 4 <= code <= 7 then 8 else 0) + (if cloid then 16 else 0) then CustomSliceBadLen
                  else UnknownOrderTypeVariant(code)
  {
    hide FromBytes, FlagTypeCode, FlagCloid, FlagTrigger, U64At, U32At;
    if |s| >= 21 { FlagsRepack(s[20]); }
  }

  /** The type codes. */
  lemma TypeCodes(px: u64)
    ensures TypeCode(Limit(Alo)) == 1 && TypeCode(Limit(Gtc)) == 2 && TypeCode(Limit(Ioc)) == 3
    ensures TypeCode(Trigger(true, px, Tp)) == 4 && TypeCode(Trigger(false, px, Tp)) == 5
    ensures TypeCode(Trigger(true, px, Sl)) == 6 && TypeCode(Trigger(false, px, Sl)) == 7
    ensures TypeCode(Limit(FrontendMarket)) == 8 && TypeCode(Limit(LiquidationMarket)) == 9
  {
  }

  /** The string form of an order type: a trigger's price is a numeral. */
  ghost predicate TypeReads(w: OrderTypeWire, t: InternalOrderType) {
    match t
    case Limit(tif) => w == LimitWire(tif)
    case Trigger(isMarket, px, tpsl) =>
      w.TriggerWire? && w.isMarket == isMarket && w.tpsl == tpsl && Denotes(w.triggerPx, px)
  }

  /** The string form of an order is read exactly when its price, size and trigger price are
      numerals and its client id is well formed, and field by field it is what they denote. */
  lemma StringReadsIff(w: OrderWireSerde, o: InternalOrder)
    ensures ToInternal(w) == Ok(o) <==>
            && w.a == o.asset && w.b == o.isBuy && w.r == o.reduceOnly
            && Denotes(w.p, o.limitPx) && Denotes(w.s, o.sz) && TypeReads(w.t, o.orderType)
            && (if w.c == None then o.cloid == None else o.cloid.Some? && ParseCloid(w.c.value) == Ok(o.cloid.value))
  {
    hide ParseDecimal, Denotes, ParseCloid;
    ParseIff(w.p, o.limitPx);
    ParseIff(w.s, o.sz);
    if w.t.TriggerWire? && o.orderType.Trigger? { ParseIff(w.t.triggerPx, o.orderType.triggerPx); }
  }
}
