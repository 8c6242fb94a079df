/** The value a book stands for: its resting orders, keyed by oid. The price levels, the
    per-user index and the top-of-book cache are all determined by this one map; the
    operations of a book are given here as functions on it. */
module BookModel {
  import opened Common
  import opened OrderedSets

  datatype Side = Bid | Ask {
    function Opposite(): Side { if Bid? then Ask else Bid }

    /** Levels are kept in ascending key order, so bids are negated: best price first. */
    function LevelKey(px: u64): int { if Bid? then -(px as int) else px }

    /** Truncating 128-to-64-bit cast of the (negated) key. */
    function PxFromKey(key: int): u64 {
      (if Bid? then -key else key) % 0x1_0000_0000_0000_0000
    }
  }

  datatype BookOrder = BookOrder(
    oid: u64, user: Address, side: Side, limitPx: u64, restingSz: u64,
    reduceOnly: bool, cloid: Option<u128>, timestampMs: u64, childOids: seq<u64>)
  {
    function Key(): int { side.LevelKey(limitPx) }

    /** Price-time priority: level key first, then oid. */
    predicate Before(o: BookOrder) {
      Key() < o.Key() || (Key() == o.Key() && oid < o.oid)
    }
  }

  datatype NewOrder = NewOrder(
    oid: u64, user: Address, side: Side, limitPx: u64, sz: u64,
    reduceOnly: bool, cloid: Option<u128>, postToBook: bool)

  datatype Fill = Fill(makerOid: u64, takerOid: u64, px: u64, sz: u64, maker: Address, taker: Address, time: u64)

  datatype ExecutionResult = Accepted(fills: seq<Fill>, restingSz: u64) | RejectedDuplicateOid

  type Orders = map<u64, BookOrder>

  ghost predicate WellKeyed(m: Orders) {
    forall oid :: oid in m ==> m[oid].oid == oid
  }

  function SideOids(m: Orders, side: Side): set<u64> {
    set oid | oid in m && m[oid].side == side
  }

  function UserOids(m: Orders, user: Address): set<u64> {
    set oid | oid in m && m[oid].user == user
  }

  function LevelKeys(m: Orders, side: Side): set<int> {
    set oid | oid in m && m[oid].side == side :: m[oid].Key()
  }

  function OidsAt(m: Orders, side: Side, key: int): set<u64> {
    set oid | oid in m && m[oid].side == side && m[oid].Key() == key
  }

  function Users(m: Orders): set<Address> {
    set oid | oid in m :: m[oid].user
  }

  /** The order a side offers first. */
  function TopOid(m: Orders, side: Side): (t: u64)
    requires SideOids(m, side) != {}
    ensures t in m && m[t].side == side
    ensures WellKeyed(m) ==> forall oid :: oid in SideOids(m, side) && oid != t ==> m[t].Before(m[oid])
  {
    NonEmptySideHasLevels(m, side);
    var key := MinOf(LevelKeys(m, side));
    LevelHasOids(m, side, key);
    assert forall oid :: oid in SideOids(m, side) ==> m[oid].Key() in LevelKeys(m, side);
    assert forall oid :: oid in SideOids(m, side) && m[oid].Key() == key ==> oid in OidsAt(m, side, key);
    MinOf(OidsAt(m, side, key))
  }

  lemma NonEmptySideHasLevels(m: Orders, side: Side)
    requires SideOids(m, side) != {}
    ensures LevelKeys(m, side) != {}
  {
    var oid := Pick(SideOids(m, side));
    assert m[oid].Key() in LevelKeys(m, side);
  }

  lemma LevelHasOids(m: Orders, side: Side, key: int)
    requires key in LevelKeys(m, side)
    ensures OidsAt(m, side, key) != {}
  {
    var oid :| oid in m && m[oid].side == side && m[oid].Key() == key;
    assert oid in OidsAt(m, side, key);
  }

  function Top(m: Orders, side: Side): Option<u64> {
    if SideOids(m, side) == {} then None else Some(TopOid(m, side))
  }

  /** The front of a side depends only on which oids it has and their level keys. */
  lemma SameFront(m: Orders, m': Orders, side: Side)
    requires SideOids(m, side) == SideOids(m', side)
    requires forall oid :: oid in SideOids(m, side) ==> m[oid].Key() == m'[oid].Key()
    ensures Top(m, side) == Top(m', side)
  {
    assert LevelKeys(m, side) == LevelKeys(m', side) by {
      forall k | k in LevelKeys(m, side) ensures k in LevelKeys(m', side) {
        var x :| x in m && m[x].side == side && m[x].Key() == k;
        assert x in SideOids(m', side) && m'[x].Key() == k;
      }
      forall k | k in LevelKeys(m', side) ensures k in LevelKeys(m, side) {
        var x :| x in m' && m'[x].side == side && m'[x].Key() == k;
        assert x in SideOids(m, side) && m[x].Key() == k;
      }
    }
    forall k ensures OidsAt(m, side, k) == OidsAt(m', side, k) {
      forall x ensures x in OidsAt(m, side, k) <==> x in OidsAt(m', side, k) {
        assert x in OidsAt(m, side, k) ==> x in SideOids(m, side);
        assert x in OidsAt(m', side, k) ==> x in SideOids(m', side);
      }
    }
  }

  /** Price of the first level of a side. */
  function BestPx(m: Orders, side: Side): Option<u64> {
    if SideOids(m, side) == {} then None else Some(m[TopOid(m, side)].limitPx)
  }

  /** A maker on `side` is within a taker's limit; no limit accepts every maker. */
  predicate Accepts(side: Side, limit: Option<u64>, px: u64) {
    limit.None? || (if side.Ask? then px <= limit.value else px >= limit.value)
  }

  /** A quantity taken from one resting order, recorded as it stood before. */
  datatype Take = Take(order: BookOrder, sz: u64)

  datatype SweepResult = SweepResult(orders: Orders, takes: seq<Take>, remaining: u64)

  /** Take from the front of `side` until `sz` is spent or the next maker is not accepted. */
  function Sweep(m: Orders, side: Side, limit: Option<u64>, sz: u64): SweepResult
    decreases |m|
  {
    if sz == 0 || SideOids(m, side) == {} then SweepResult(m, [], sz)
    else
      var t := TopOid(m, side);
      var o := m[t];
      if !Accepts(side, limit, o.limitPx) then SweepResult(m, [], sz)
      else if o.restingSz <= sz then
        var r := Sweep(m - {t}, side, limit, sz - o.restingSz);
        r.(takes := [Take(o, o.restingSz)] + r.takes)
      else
        SweepResult(m[t := o.(restingSz := o.restingSz - sz)], [Take(o, sz)], 0)
  }

  /** One order after a take: shrunk, or gone when nothing is left. */
  function AfterTake(m: Orders, t: u64, taken: u64): Orders
    requires t in m && taken <= m[t].restingSz
  {
    var shrunk := m[t := m[t].(restingSz := m[t].restingSz - taken)];
    if m[t].restingSz == taken then shrunk - {t} else shrunk
  }

  function FillOf(order: NewOrder, now: u64, t: Take): Fill {
    Fill(t.order.oid, order.oid, t.order.limitPx, t.sz, t.order.user, order.user, now)
  }

  function FillsOf(order: NewOrder, now: u64, takes: seq<Take>): (fills: seq<Fill>)
    ensures |fills| == |takes|
    ensures forall i :: 0 <= i < |takes| ==> fills[i] == FillOf(order, now, takes[i])
  {
    seq(|takes|, i requires 0 <= i < |takes| => FillOf(order, now, takes[i]))
  }

  function Residue(order: NewOrder, remaining: u64, now: u64): BookOrder {
    BookOrder(order.oid, order.user, order.side, order.limitPx, remaining, order.reduceOnly, order.cloid, now, [])
  }

  /** Match, then rest what is left when the order asks for it and its oid is free. */
  function Execute(m: Orders, order: NewOrder, now: u64): (Orders, ExecutionResult) {
    var s := Sweep(m, order.side.Opposite(), Some(order.limitPx), order.sz);
    var accepted := Accepted(FillsOf(order, now, s.takes), s.remaining);
    if s.remaining == 0 || !order.postToBook then (s.orders, accepted)
    else if order.oid in s.orders then (s.orders, RejectedDuplicateOid)
    else (s.orders[order.oid := Residue(order, s.remaining, now)], accepted)
  }

  /** A cancel is honoured only for the order's own user. */
  function Cancel(m: Orders, user: Address, oid: u64): Orders {
    if oid in m && m[oid].user == user then m - {oid} else m
  }

  /** Cancel whole orders in the given sequence until `max` is spent; the last one counts
      only for what was still wanted, although all of it goes. */
  function CancelFrom(m: Orders, oids: seq<u64>, max: u64): (Orders, u64)
  {
    if oids == [] || max == 0 || oids[0] !in m then (m, 0)
    else
      var take: u64 := Min(m[oids[0]].restingSz, max);
      var (m', rest) := CancelFrom(m - {oids[0]}, oids[1..], max - take);
      (m', SatAdd64(take, rest))
  }

  lemma {:induction false} CancelFromBounded(m: Orders, oids: seq<u64>, max: u64)
    ensures CancelFrom(m, oids, max).1 <= max
    decreases |oids|
  {
    if oids != [] && max != 0 && oids[0] in m {
      CancelFromBounded(m - {oids[0]}, oids[1..], max - Min(m[oids[0]].restingSz, max));
    }
  }

  /** One turn of the cancelling loop; the saturating sum never clips. */
  lemma CancelFromUnfolds(m: Orders, oids: seq<u64>, max: u64)
    ensures oids == [] || max == 0 ==> CancelFrom(m, oids, max) == (m, 0)
    ensures oids != [] && max != 0 && oids[0] in m ==>
              var take := Min(m[oids[0]].restingSz, max);
              var rest := CancelFrom(m - {oids[0]}, oids[1..], max - take);
              CancelFrom(m, oids, max) == (rest.0, take + rest.1)
  {
    if oids != [] && max != 0 && oids[0] in m {
      var take := Min(m[oids[0]].restingSz, max);
      CancelFromBounded(m - {oids[0]}, oids[1..], max - take);
    }
  }

  /** A user's oids in ascending order. */
  function UserQueue(m: Orders, user: Address): (q: seq<u64>)
    ensures StrictlyAscending(q)
    ensures forall oid :: oid in q <==> oid in UserOids(m, user)
  {
    var s := UserOids(m, user);
    var q := Ascending(s);
    assert forall i :: 0 <= i < |q| ==> q[i] in s;
    q
  }

  function CancelUser(m: Orders, user: Address, max: u64): (Orders, u64) {
    CancelFrom(m, UserQueue(m, user), max)
  }

  /** Snapshot upsert: replaces the user's own order, is ignored over somebody else's. */
  function Upsert(m: Orders, o: BookOrder): Orders {
    if o.oid in m && m[o.oid].user != o.user then m else m[o.oid := o]
  }

  datatype CancelRequest = CancelRequest(user: Address, oid: u64)

  datatype SnapshotUpdate = SnapshotUpdate(clearFirst: bool, upserts: seq<BookOrder>, cancels: seq<CancelRequest>)

  function UpsertAll(m: Orders, upserts: seq<BookOrder>): Orders
  {
    if upserts == [] then m
    else Upsert(UpsertAll(m, upserts[..|upserts| - 1]), upserts[|upserts| - 1])
  }

  function CancelAll(m: Orders, cancels: seq<CancelRequest>): Orders
  {
    if cancels == [] then m
    else
      var last := cancels[|cancels| - 1];
      Cancel(CancelAll(m, cancels[..|cancels| - 1]), last.user, last.oid)
  }

  function Snapshot(m: Orders, u: SnapshotUpdate): Orders {
    CancelAll(UpsertAll(if u.clearFirst then map[] else m, u.upserts), u.cancels)
  }

  datatype Op =
    | ExecuteOp(order: NewOrder, now: u64)
    | RemoveOp(user: Address, oid: u64)
    | CancelUserOp(user: Address, max: u64)
    | RemoveLiquidityOp(side: Side, sz: u64)
    | InsertOp(resting: BookOrder)
    | SnapshotOp(update: SnapshotUpdate)

  /** Effect of one operation on the resting orders. */
  function Step(m: Orders, op: Op): Orders {
    match op
    case ExecuteOp(order, now) => Execute(m, order, now).0
    case RemoveOp(user, oid) => Cancel(m, user, oid)
    case CancelUserOp(user, max) => CancelUser(m, user, max).0
    case RemoveLiquidityOp(side, sz) => Sweep(m, side, None, sz).orders
    case InsertOp(o) => if o.oid in m then m else m[o.oid := o]
    case SnapshotOp(update) => Snapshot(m, update)
  }

  function Run(m: Orders, ops: seq<Op>): Orders
  {
    if ops == [] then m else Step(Run(m, ops[..|ops| - 1]), ops[|ops| - 1])
  }
}
