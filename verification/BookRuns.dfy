/** Properties of whole executions: what is rejected, when a book can be crossed, and what
    the mid price is. */
module BookRuns {
  import opened Common
  import opened BookModel
  import opened BookMatching

  /** Every resting bid is below every resting ask. */
  ghost predicate Uncrossed(m: Orders) {
    forall a, b :: a in m && b in m && m[a].side.Bid? && m[b].side.Ask? ==> m[a].limitPx < m[b].limitPx
  }

  /** `m'` keeps some of the orders of `m`, changing at most their sizes. */
  ghost predicate Thinned(m: Orders, m': Orders) {
    forall oid :: oid in m' ==>
      oid in m && m'[oid].side == m[oid].side && m'[oid].limitPx == m[oid].limitPx && m'[oid].oid == m[oid].oid
  }

  lemma ThinnedReflexive(m: Orders)
    ensures Thinned(m, m)
  {
  }

  lemma ThinnedDrop(m: Orders, t: u64, m': Orders)
    requires Thinned(m - {t}, m')
    ensures Thinned(m, m')
  {
  }

  lemma ThinnedResize(m: Orders, t: u64, sz: u64)
    requires t in m
    ensures Thinned(m, m[t := m[t].(restingSz := sz)])
  {
  }

  lemma {:induction false} SweepThins(m: Orders, side: Side, limit: Option<u64>, sz: u64)
    ensures Thinned(m, Sweep(m, side, limit, sz).orders)
    decreases |m|
  {
    hide SideOids, TopOid, Accepts, Thinned;
    ThinnedReflexive(m);
    if sz != 0 && SideOids(m, side) != {} {
      var t := TopOid(m, side);
      if m[t].restingSz <= sz {
        SweepThins(m - {t}, side, limit, sz - m[t].restingSz);
        ThinnedDrop(m, t, Sweep(m - {t}, side, limit, sz - m[t].restingSz).orders);
      } else {
        ThinnedResize(m, t, m[t].restingSz - sz);
      }
    }
  }

  /** A sweep that ends unspent has left nobody on the side within the limit. */
  lemma {:induction false} SweepExhausts(m: Orders, side: Side, limit: Option<u64>, sz: u64)
    requires WellKeyed(m) && Sweep(m, side, limit, sz).remaining != 0
    ensures var m' := Sweep(m, side, limit, sz).orders;
      forall oid :: oid in m' && m'[oid].side == side ==> !Accepts(side, limit, m'[oid].limitPx)
    decreases |m|
  {
    if SideOids(m, side) == {} {
      assert forall oid :: oid in m && m[oid].side == side ==> oid in SideOids(m, side);
    } else {
      var t := TopOid(m, side);
      if Accepts(side, limit, m[t].limitPx) {
        SweepExhausts(m - {t}, side, limit, sz - m[t].restingSz);
      } else {
        forall oid | oid in m && m[oid].side == side ensures !Accepts(side, limit, m[oid].limitPx) {
          assert oid in SideOids(m, side);
          assert oid != t ==> m[t].Before(m[oid]);
        }
      }
    }
  }

  lemma {:induction false} CancelFromThins(m: Orders, oids: seq<u64>, max: u64)
    ensures Thinned(m, CancelFrom(m, oids, max).0)
    decreases |oids|
  {
    if oids != [] && max != 0 && oids[0] in m {
      CancelFromThins(m - {oids[0]}, oids[1..], max - Min(m[oids[0]].restingSz, max));
    }
  }

  /** Executing keeps a book uncrossed, whatever the taker's oid. */
  lemma ExecuteKeepsUncrossed(m: Orders, order: NewOrder, now: u64)
    requires WellKeyed(m) && Uncrossed(m)
    ensures var m' := Execute(m, order, now).0; WellKeyed(m') && Uncrossed(m')
  {
    hide Sweep, FillsOf;
    var side := order.side.Opposite();
    var s := Sweep(m, side, Some(order.limitPx), order.sz);
    SweepThins(m, side, Some(order.limitPx), order.sz);
    if s.remaining != 0 {
      SweepExhausts(m, side, Some(order.limitPx), order.sz);
    }
  }

  /** The operations that match or remove, as opposed to those that place orders directly. */
  predicate Matches(op: Op) {
    !op.InsertOp? && !op.SnapshotOp?
  }

  lemma StepKeepsUncrossed(m: Orders, op: Op)
    requires WellKeyed(m) && Uncrossed(m) && Matches(op)
    ensures WellKeyed(Step(m, op)) && Uncrossed(Step(m, op))
  {
    hide Execute, Sweep, CancelFrom, UserQueue;
    match op
    case ExecuteOp(order, now) => ExecuteKeepsUncrossed(m, order, now);
    case RemoveOp(user, oid) =>
    case CancelUserOp(user, max) => CancelFromThins(m, UserQueue(m, user), max);
    case RemoveLiquidityOp(side, sz) => SweepThins(m, side, None, sz);
  }

  /** No run of matching and removing operations from an empty book ever crosses it; the mid
      price then lies at or above the best bid and strictly below the best ask. */
  lemma {:induction false} NeverCrossed(ops: seq<Op>)
    requires forall i :: 0 <= i < |ops| ==> Matches(ops[i])
    ensures var m := Run(map[], ops);
      && WellKeyed(m) && Uncrossed(m)
      && (BestPx(m, Bid).Some? && BestPx(m, Ask).Some? ==>
            MidPx(m).Some? && BestPx(m, Bid).value <= MidPx(m).value < BestPx(m, Ask).value)
    decreases |ops|
  {
    hide Step, MidPx, BestPx;
    if ops != [] {
      var m := Run(map[], ops[..|ops| - 1]);
      NeverCrossed(ops[..|ops| - 1]);
      StepKeepsUncrossed(m, ops[|ops| - 1]);
    }
    MidWithin(Run(map[], ops));
  }

  // ----- mid price

  /** Bitwise and of two unsigned numbers, bit by bit. */
  function BitAnd(a: nat, b: nat): nat {
    if a == 0 || b == 0 then 0 else (if a % 2 == 1 && b % 2 == 1 then 1 else 0) + 2 * BitAnd(a / 2, b / 2)
  }

  /** Bitwise exclusive or of two unsigned numbers, bit by bit. */
  function BitXor(a: nat, b: nat): nat {
    if a == 0 && b == 0 then 0 else (if a % 2 != b % 2 then 1 else 0) + 2 * BitXor(a / 2, b / 2)
  }

  /** Average without a carry: shared bits plus half the differing bits. */
  function MidPx(m: Orders): Option<nat> {
    match (BestPx(m, Bid), BestPx(m, Ask))
    case (Some(bid), Some(ask)) => Some(BitAnd(bid, ask) + BitXor(bid, ask) / 2)
    case _ => None
  }

  lemma {:induction false} CarryFreeSum(a: nat, b: nat)
    ensures 2 * BitAnd(a, b) + BitXor(a, b) == a + b
    decreases a + b
  {
    if a != 0 || b != 0 {
      CarryFreeSum(a / 2, b / 2);
      if a == 0 || b == 0 { assert BitAnd(a / 2, b / 2) == 0; }
    }
  }

  /** The bit trick is the floor average of all pairs of prices and cannot overflow. */
  lemma MidIsFloorAverage(m: Orders)
    ensures MidPx(m).Some? <==> BestPx(m, Bid).Some? && BestPx(m, Ask).Some?
    ensures MidPx(m).Some? ==>
              && MidPx(m).value == (BestPx(m, Bid).value + BestPx(m, Ask).value) / 2
              && MidPx(m).value <= U64_MAX
  {
    hide BestPx;
    if BestPx(m, Bid).Some? && BestPx(m, Ask).Some? {
      CarryFreeSum(BestPx(m, Bid).value, BestPx(m, Ask).value);
    }
  }

  lemma MidWithin(m: Orders)
    requires Uncrossed(m)
    ensures BestPx(m, Bid).Some? && BestPx(m, Ask).Some? ==>
              MidPx(m).Some? && BestPx(m, Bid).value <= MidPx(m).value < BestPx(m, Ask).value
  {
    hide MidPx;
    MidIsFloorAverage(m);
  }

  // ----- direct placement

  /** The price does not reach the best of the other side. */
  predicate StaysClear(m: Orders, side: Side, px: u64) {
    var best := BestPx(m, side.Opposite());
    best.None? || !Accepts(side.Opposite(), Some(px), best.value)
  }

  lemma PlacedClear(m: Orders, o: BookOrder)
    requires WellKeyed(m) && Uncrossed(m) && o.oid !in m
    ensures Uncrossed(m[o.oid := o]) <==> StaysClear(m, o.side, o.limitPx)
  {
    var opp := o.side.Opposite();
    PlacedUncrossed(m, o);
    if SideOids(m, opp) == {} {
      assert forall oid :: oid in m && m[oid].side == opp ==> oid in SideOids(m, opp);
    } else {
      var t := TopOid(m, opp);
      forall oid | oid in m && m[oid].side == opp ensures oid == t || m[t].Before(m[oid]) {
        assert oid in SideOids(m, opp);
      }
    }
  }

  /** A direct insert keeps an uncrossed book uncrossed exactly when it is refused or its price
      does not reach the other side's best. */
  lemma InsertUncrossedIff(m: Orders, o: BookOrder)
    requires WellKeyed(m) && Uncrossed(m)
    ensures Uncrossed(Step(m, InsertOp(o))) <==> o.oid in m || StaysClear(m, o.side, o.limitPx)
  {
    hide WellKeyed, Uncrossed, StaysClear;
    if o.oid !in m { PlacedClear(m, o); }
  }

  /** So does one upsert: it is ignored over another user's order, and otherwise its price must
      not reach the best of the other side without the order it replaces. */
  lemma UpsertUncrossedIff(m: Orders, o: BookOrder)
    requires WellKeyed(m) && Uncrossed(m)
    ensures Uncrossed(Upsert(m, o)) <==>
            (o.oid in m && m[o.oid].user != o.user) || StaysClear(m - {o.oid}, o.side, o.limitPx)
  {
    if !(o.oid in m && m[o.oid].user != o.user) {
      var rest := m - {o.oid};
      assert Upsert(m, o) == rest[o.oid := o] && Uncrossed(rest) && WellKeyed(rest);
      hide WellKeyed, Uncrossed, StaysClear;
      PlacedClear(rest, o);
    }
  }

  lemma PlacedUncrossed(m: Orders, o: BookOrder)
    requires Uncrossed(m) && o.oid !in m
    ensures Uncrossed(m[o.oid := o]) <==>
            forall oid :: oid in m && m[oid].side == o.side.Opposite() ==>
              !Accepts(o.side.Opposite(), Some(o.limitPx), m[oid].limitPx)
  {
    var m' := m[o.oid := o];
    if Uncrossed(m') {
      forall oid | oid in m && m[oid].side == o.side.Opposite()
        ensures !Accepts(o.side.Opposite(), Some(o.limitPx), m[oid].limitPx)
      {
        assert m'[oid] == m[oid] && m'[o.oid] == o;
      }
    }
  }

  /** A snapshot upsert of a bid at 2 over an ask at 1 crosses. */
  lemma SnapshotCanCross() returns (m: Orders, u: SnapshotUpdate)
    ensures WellKeyed(m) && Uncrossed(m) && !Uncrossed(Snapshot(m, u))
  {
    var ask := BookOrder(1, 7, Ask, 1, 5, false, None, 0, []);
    var bid := BookOrder(2, 8, Bid, 2, 5, false, None, 0, []);
    m := map[1 := ask];
    u := SnapshotUpdate(false, [bid], []);
    assert u.upserts[..0] == [];
    assert UpsertAll(m, u.upserts) == Upsert(UpsertAll(m, u.upserts[..0]), bid) == m[2 := bid];
    var after := Snapshot(m, u);
    assert after == m[2 := bid];
    assert after[2].side.Bid? && after[1].side.Ask?;
  }

  // ----- rejection

  /** Total size of the makers within the limit among the first `n` of a queue. */
  function AcceptedDepth(q: seq<BookOrder>, side: Side, limit: Option<u64>, n: nat): nat
    requires n <= |q|
  {
    if n == 0 then 0
    else AcceptedDepth(q, side, limit, n - 1) + if Accepts(side, limit, q[n - 1].limitPx) then q[n - 1].restingSz else 0
  }

  /** Once a maker is out of reach so is every maker behind it. */
  lemma AcceptancePrefix(m: Orders, side: Side, q: seq<BookOrder>, limit: Option<u64>, i: nat, j: nat)
    requires IsQueue(m, side, q) && i <= j < |q| && !Accepts(side, limit, q[i].limitPx)
    ensures !Accepts(side, limit, q[j].limitPx)
  {
    assert i < j ==> q[i].Before(q[j]);
  }

  lemma {:induction false} AcceptedIsDepth(q: seq<BookOrder>, side: Side, limit: Option<u64>, n: nat)
    requires n <= |q| && forall i :: 0 <= i < n ==> Accepts(side, limit, q[i].limitPx)
    ensures AcceptedDepth(q, side, limit, n) == Depth(q, n)
  {
    if n > 0 { AcceptedIsDepth(q, side, limit, n - 1); }
  }

  lemma {:induction false} AcceptedGrows(q: seq<BookOrder>, side: Side, limit: Option<u64>, n: nat, k: nat)
    requires n <= k <= |q|
    ensures AcceptedDepth(q, side, limit, n) <= AcceptedDepth(q, side, limit, k)
    ensures (forall i :: n <= i < k ==> !Accepts(side, limit, q[i].limitPx)) ==>
              AcceptedDepth(q, side, limit, n) == AcceptedDepth(q, side, limit, k)
    decreases k
  {
    if n < k { AcceptedGrows(q, side, limit, n, k - 1); }
  }

  /** What is left of a sweep is what the accepted makers cannot cover. */
  lemma RemainderIsUncovered(m: Orders, side: Side, q: seq<BookOrder>, limit: Option<u64>, sz: u64)
    requires WellKeyed(m) && IsQueue(m, side, q)
    ensures Sweep(m, side, limit, sz).remaining == SatSub(sz, AcceptedDepth(q, side, limit, |q|))
  {
    hide WellKeyed, IsQueue, Sweep, GreedyLeaves, Accepts;
    var r := Sweep(m, side, limit, sz);
    var n := |r.takes|;
    SweepIsGreedy(m, side, q, limit, sz);
    forall i | 0 <= i < n ensures Accepts(side, limit, q[i].limitPx) {
      assert GreedyTake(q, side, limit, sz, i, r.takes[i]);
    }
    AcceptedIsDepth(q, side, limit, n);
    if n < |q| && !Accepts(side, limit, q[n].limitPx) {
      forall j | n <= j < |q| ensures !Accepts(side, limit, q[j].limitPx) {
        AcceptancePrefix(m, side, q, limit, n, j);
      }
    }
    AcceptedGrows(q, side, limit, n, |q|);
  }

  /** After a sweep that ends unspent, the orders still resting are those that were out of
      reach from the start, unchanged. */
  lemma {:induction false} UnspentLeaves(m: Orders, side: Side, limit: Option<u64>, sz: u64, oid: u64)
    requires WellKeyed(m) && Sweep(m, side, limit, sz).remaining != 0 && oid in m
    ensures oid in Sweep(m, side, limit, sz).orders <==>
            !(m[oid].side == side && Accepts(side, limit, m[oid].limitPx))
    ensures oid in Sweep(m, side, limit, sz).orders ==> Sweep(m, side, limit, sz).orders[oid] == m[oid]
    decreases |m|
  {
    if SideOids(m, side) == {} {
      assert m[oid].side == side ==> oid in SideOids(m, side);
    } else {
      var t := TopOid(m, side);
      if Accepts(side, limit, m[t].limitPx) {
        SweepThins(m - {t}, side, limit, sz - m[t].restingSz);
        if oid != t { UnspentLeaves(m - {t}, side, limit, sz - m[t].restingSz, oid); }
      } else {
        SweepExhausts(m, side, limit, sz);
      }
    }
  }

  /** Exactly when an order that may rest is rejected: its oid already rests out of its own
      reach, and the makers within its limit do not cover it. A fresh oid is therefore
      never rejected. */
  lemma RejectedIff(m: Orders, order: NewOrder, now: u64, q: seq<BookOrder>)
    requires WellKeyed(m) && IsQueue(m, order.side.Opposite(), q)
    ensures var opp, limit := order.side.Opposite(), Some(order.limitPx);
      Execute(m, order, now).1.RejectedDuplicateOid? <==>
        && order.postToBook && order.oid in m
        && !(m[order.oid].side == opp && Accepts(opp, limit, m[order.oid].limitPx))
        && AcceptedDepth(q, opp, limit, |q|) < order.sz
  {
    hide WellKeyed, IsQueue, Sweep, FillsOf, Accepts;
    var opp, limit := order.side.Opposite(), Some(order.limitPx);
    RemainderIsUncovered(m, opp, q, limit, order.sz);
    SweepThins(m, opp, limit, order.sz);
    if order.oid in m && Sweep(m, opp, limit, order.sz).remaining != 0 {
      UnspentLeaves(m, opp, limit, order.sz, order.oid);
    }
  }

  /** Fills of one execution: the reached makers in price-time order, each at the maker's own
      price and within the taker's limit, all but the last whole; sizes add up. */
  lemma ExecuteFills(m: Orders, order: NewOrder, now: u64, q: seq<BookOrder>)
    requires WellKeyed(m) && IsQueue(m, order.side.Opposite(), q)
    ensures var r := Execute(m, order, now).1;
      r.Accepted? ==>
        var n := |r.fills|;
        && n <= |q| && r.restingSz == SatSub(order.sz, Depth(q, n))
        && (forall i :: 0 <= i < n ==>
              && r.fills[i].makerOid == q[i].oid && r.fills[i].maker == q[i].user
              && r.fills[i].takerOid == order.oid && r.fills[i].taker == order.user && r.fills[i].time == now
              && r.fills[i].px == q[i].limitPx
              && Accepts(order.side.Opposite(), Some(order.limitPx), q[i].limitPx)
              && r.fills[i].sz == Min(q[i].restingSz, order.sz - Depth(q, i))
              && (i < n - 1 ==> r.fills[i].sz == q[i].restingSz))
        && (r.restingSz != 0 && n < |q| ==> !Accepts(order.side.Opposite(), Some(order.limitPx), q[n].limitPx))
  {
    hide WellKeyed, IsQueue, Sweep, GreedyLeaves, GreedyTakes, Accepts, Depth;
    var opp, limit := order.side.Opposite(), Some(order.limitPx);
    var s := Sweep(m, opp, limit, order.sz);
    SweepIsGreedy(m, opp, q, limit, order.sz);
    TakesFit(q, opp, limit, order.sz, s.takes);
    forall i | 0 <= i < |s.takes|
      ensures Accepts(opp, limit, q[i].limitPx) && s.takes[i].order == q[i]
      ensures s.takes[i].sz == Min(q[i].restingSz, order.sz - Depth(q, i))
      ensures i < |s.takes| - 1 ==> s.takes[i].sz == q[i].restingSz
    {
      TakeRead(q, opp, limit, order.sz, s.takes, i);
    }
  }

  lemma TakeRead(q: seq<BookOrder>, side: Side, limit: Option<u64>, sz: u64, takes: seq<Take>, i: nat)
    requires GreedyTakes(q, side, limit, sz, takes) && i < |takes|
    ensures Accepts(side, limit, q[i].limitPx) && takes[i].order == q[i]
    ensures takes[i].sz == Min(q[i].restingSz, sz - Depth(q, i))
    ensures i < |takes| - 1 ==> takes[i].sz == q[i].restingSz
  {
    hide Accepts, Depth;
    assert GreedyTake(q, side, limit, sz, i, takes[i]);
    if i < |takes| - 1 {
      assert GreedyTake(q, side, limit, sz, i + 1, takes[i + 1]);
      DepthStep(q, i);
    }
  }

  // ----- snapshots

  /** `q` lists every order of a book once. */
  ghost predicate Lists(q: seq<BookOrder>, m: Orders) {
    && (forall i, j :: 0 <= i < j < |q| ==> q[i].oid != q[j].oid)
    && (forall i :: 0 <= i < |q| ==> q[i].oid in m && m[q[i].oid] == q[i])
    && (forall oid :: oid in m ==> m[oid] in q)
  }

  lemma {:induction false} UpsertsOverwrite(q: seq<BookOrder>, n: nat)
    requires n <= |q| && forall i, j :: 0 <= i < j < |q| ==> q[i].oid != q[j].oid
    ensures var m := UpsertAll(map[], q[..n]);
      && (forall i :: 0 <= i < n ==> q[i].oid in m && m[q[i].oid] == q[i])
      && (forall oid :: oid in m ==> exists i :: 0 <= i < n && q[i].oid == oid && m[oid] == q[i])
    decreases n
  {
    if n > 0 {
      UpsertsOverwrite(q, n - 1);
      assert q[..n][..n - 1] == q[..n - 1];
      var before, after := UpsertAll(map[], q[..n - 1]), UpsertAll(map[], q[..n]);
      assert after == Upsert(before, q[n - 1]) == before[q[n - 1].oid := q[n - 1]];
    }
  }

  /** A clearing snapshot that lists a book rebuilds exactly that book, whatever was there. */
  lemma SnapshotRebuilds(m: Orders, target: Orders, q: seq<BookOrder>)
    requires WellKeyed(target) && Lists(q, target)
    ensures Snapshot(m, SnapshotUpdate(true, q, [])) == target
  {
    hide WellKeyed;
    UpsertsOverwrite(q, |q|);
    assert q[..|q|] == q;
    var built := UpsertAll(map[], q);
    hide UpsertAll;
    SameListing(built, target, q);
  }

  lemma SameListing(built: Orders, target: Orders, q: seq<BookOrder>)
    requires WellKeyed(target) && Lists(q, target)
    requires forall i :: 0 <= i < |q| ==> q[i].oid in built && built[q[i].oid] == q[i]
    requires forall oid :: oid in built ==> exists i :: 0 <= i < |q| && q[i].oid == oid && built[oid] == q[i]
    ensures built == target
  {
    forall oid | oid in target ensures oid in built && built[oid] == target[oid] {
      var i :| 0 <= i < |q| && q[i] == target[oid];
    }
    forall oid | oid in built ensures oid in target {
      var i :| 0 <= i < |q| && q[i].oid == oid && built[oid] == q[i];
    }
    assert built == target;
  }

  /** The user of the first upsert that names the oid. */
  function FirstUser(ups: seq<BookOrder>, oid: u64): (r: Option<Address>)
    ensures r.None? <==> forall i :: 0 <= i < |ups| ==> ups[i].oid != oid
    ensures r.Some? ==> exists i :: 0 <= i < |ups| && ups[i].oid == oid && ups[i].user == r.value &&
                                    forall j :: 0 <= j < i ==> ups[j].oid != oid
  {
    if ups == [] then None
    else
      var n := |ups| - 1;
      var r := FirstUser(ups[..n], oid);
      if r.Some? || ups[n].oid != oid then r else Some(ups[n].user)
  }

  /** The last upsert of the oid by the user. */
  function LastBy(ups: seq<BookOrder>, oid: u64, user: Address): (r: Option<BookOrder>)
    ensures r.None? <==> forall i :: 0 <= i < |ups| ==> !(ups[i].oid == oid && ups[i].user == user)
    ensures r.Some? ==> exists i :: 0 <= i < |ups| && ups[i] == r.value && r.value.oid == oid && r.value.user == user &&
                                    forall j :: i < j < |ups| ==> !(ups[j].oid == oid && ups[j].user == user)
  {
    if ups == [] then None
    else
      var n := |ups| - 1;
      if ups[n].oid == oid && ups[n].user == user then Some(ups[n])
      else LastBy(ups[..n], oid, user)
  }

  /** Whose an oid is: the resting order's user, else the first to upsert it. */
  function Owner(m: Orders, ups: seq<BookOrder>, oid: u64): Option<Address> {
    if oid in m then Some(m[oid].user) else FirstUser(ups, oid)
  }

  /** What an update leaves under an oid: nothing if its owner cancels it, else the owner's last
      upsert, else the order that was there. */
  function Outcome(m: Orders, u: SnapshotUpdate, oid: u64): Option<BookOrder> {
    var base: Orders := if u.clearFirst then map[] else m;
    var owner := Owner(base, u.upserts, oid);
    if owner.None? || CancelRequest(owner.value, oid) in u.cancels then None
    else
      var last := LastBy(u.upserts, oid, owner.value);
      if last.Some? then last else if oid in base then Some(base[oid]) else None
  }

  lemma {:induction false} UpsertsByOwner(m: Orders, ups: seq<BookOrder>, oid: u64)
    ensures var r, owner := UpsertAll(m, ups), Owner(m, ups, oid);
      && (oid in r <==> owner.Some?)
      && (oid in r ==>
            var last := LastBy(ups, oid, owner.value);
            && r[oid].user == owner.value
            && (if last.Some? then r[oid] == last.value else oid in m && r[oid] == m[oid]))
    decreases |ups|
  {
    if ups != [] {
      hide FirstUser, LastBy;
      var n := |ups| - 1;
      UpsertsByOwner(m, ups[..n], oid);
      OwnerStep(m, ups, oid);
      if Owner(m, ups, oid).Some? { LastStep(ups, oid, Owner(m, ups, oid).value); }
    }
  }

  lemma OwnerStep(m: Orders, ups: seq<BookOrder>, oid: u64)
    requires ups != []
    ensures var n := |ups| - 1;
      var before := Owner(m, ups[..n], oid);
      Owner(m, ups, oid) == if before.Some? || ups[n].oid != oid then before else Some(ups[n].user)
  {
  }

  lemma LastStep(ups: seq<BookOrder>, oid: u64, user: Address)
    requires ups != []
    ensures var n := |ups| - 1;
      LastBy(ups, oid, user) ==
        if ups[n].oid == oid && ups[n].user == user then Some(ups[n]) else LastBy(ups[..n], oid, user)
  {
  }

  /** Every update, clearing or not, with repeated oids and cancels: what rests afterwards is
      decided oid by oid. */
  lemma SnapshotOutcome(m: Orders, u: SnapshotUpdate, oid: u64)
    ensures var m' := Snapshot(m, u);
      && (oid in m' <==> Outcome(m, u, oid).Some?)
      && (oid in m' ==> m'[oid] == Outcome(m, u, oid).value)
  {
    hide UpsertAll, CancelAll, FirstUser, LastBy;
    var base: Orders := if u.clearFirst then map[] else m;
    var r := UpsertAll(base, u.upserts);
    UpsertsByOwner(base, u.upserts, oid);
    if oid in r {
      CancelledIff(r, u.cancels, oid);
    } else {
      CancelsAddNothing(r, u.cancels);
    }
  }

  lemma {:induction false} CancelsAddNothing(m: Orders, cancels: seq<CancelRequest>)
    ensures CancelAll(m, cancels).Keys <= m.Keys
    decreases |cancels|
  {
    if cancels != [] { CancelsAddNothing(m, cancels[..|cancels| - 1]); }
  }

  /** Not a bid at or above an ask. */
  predicate Compatible(a: Option<BookOrder>, b: Option<BookOrder>) {
    a.Some? && b.Some? && a.value.side.Bid? && b.value.side.Ask? ==> a.value.limitPx < b.value.limitPx
  }

  /** An update leaves the book uncrossed exactly when every bid it leaves is below every ask it
      leaves, whatever crossed on the way. */
  lemma SnapshotUncrossedIff(m: Orders, u: SnapshotUpdate)
    ensures Uncrossed(Snapshot(m, u)) <==>
            forall a, b :: Compatible(Outcome(m, u, a), Outcome(m, u, b))
  {
    hide Snapshot, Outcome;
    var m' := Snapshot(m, u);
    forall oid
      ensures (oid in m' <==> Outcome(m, u, oid).Some?) && (oid in m' ==> m'[oid] == Outcome(m, u, oid).value)
    {
      SnapshotOutcome(m, u, oid);
    }
  }

  /** A crossing upsert is harmless when the same update cancels what it crosses. */
  lemma CrossedOnTheWay() returns (m: Orders, u: SnapshotUpdate)
    ensures WellKeyed(m) && Uncrossed(m) && |u.upserts| == 1 && !Uncrossed(Upsert(m, u.upserts[0]))
    ensures Uncrossed(Snapshot(m, u))
  {
    var ask := BookOrder(1, 7, Ask, 1, 5, false, None, 0, []);
    var bid := BookOrder(2, 8, Bid, 2, 5, false, None, 0, []);
    m := map[1 := ask];
    u := SnapshotUpdate(false, [bid], [CancelRequest(7, 1)]);
    var crossed := Upsert(m, bid);
    assert crossed[2].side.Bid? && crossed[1].side.Ask?;
    assert u.cancels[0] == CancelRequest(7, 1);
    assert Outcome(m, u, 1) == None;
    forall oid | Outcome(m, u, oid).Some? ensures Outcome(m, u, oid).value == bid {
      assert oid != 1;
      assert FirstUser(u.upserts, oid).Some?;
    }
    hide Outcome;
    SnapshotUncrossedIff(m, u);
  }

  /** The cancels of a snapshot remove exactly the orders named by their own user. */
  lemma {:induction false} CancelledIff(m: Orders, cancels: seq<CancelRequest>, oid: u64)
    requires oid in m
    ensures oid in CancelAll(m, cancels) <==> CancelRequest(m[oid].user, oid) !in cancels
    ensures oid in CancelAll(m, cancels) ==> CancelAll(m, cancels)[oid] == m[oid]
    decreases |cancels|
  {
    if cancels != [] {
      var n := |cancels| - 1;
      CancelledIff(m, cancels[..n], oid);
      assert cancels == cancels[..n] + [cancels[n]];
    }
  }
}
