/** One book: the same resting orders held as price levels, an oid map, a per-user index and
    a top-of-book cache, all changed in place by every operation. */
module BookState {
  import opened Common
  import opened OrderedSets
  import opened BookModel
  import opened BookViews

  class Book {
    var bids: Levels
    var asks: Levels
    var orders: Orders
    var userToOids: map<Address, set<u64>>
    var topBid: Option<u64>
    var topAsk: Option<u64>

    /** The levels and the index agree with the oid map. */
    ghost predicate Linked()
      reads this
    {
      && WellKeyed(orders)
      && LevelsAgree(bids, orders, Bid)
      && LevelsAgree(asks, orders, Ask)
      && IndexAgrees(userToOids, orders)
    }

    /** All four views agree. */
    ghost predicate Valid()
      reads this
    {
      Linked() && topBid == Top(orders, Bid) && topAsk == Top(orders, Ask)
    }

    constructor ()
      ensures Valid() && orders == map[]
    {
      bids, asks, orders, userToOids, topBid, topAsk := map[], map[], map[], map[], None, None;
    }

    function LevelsOn(side: Side): Levels
      reads this
    {
      if side.Bid? then bids else asks
    }

    method SetLevels(side: Side, levels: Levels)
      modifies this`bids, this`asks
      ensures LevelsOn(side) == levels && LevelsOn(side.Opposite()) == old(LevelsOn(side.Opposite()))
    {
      if side.Bid? { bids := levels; } else { asks := levels; }
    }

    method BestPrice(side: Side) returns (px: Option<u64>)
      requires Linked()
      ensures px == BestPx(orders, side)
    {
      TopFromLevels(LevelsOn(side), orders, side);
      px := BestOf(LevelsOn(side), side);
    }

    method RefreshTop(side: Side)
      requires Linked() && (if side.Bid? then topAsk == Top(orders, Ask) else topBid == Top(orders, Bid))
      modifies this`topBid, this`topAsk
      ensures Valid()
    {
      TopFromLevels(LevelsOn(side), orders, side);
      var top := TopOf(LevelsOn(side), orders);
      if side.Bid? { topBid := top; } else { topAsk := top; }
    }

    method InsertOrder(order: BookOrder) returns (ok: bool)
      requires Valid()
      modifies this
      ensures Valid()
      ensures ok == (order.oid !in old(orders))
      ensures orders == if ok then old(orders)[order.oid := order] else old(orders)
    {
      hide LevelsAgree, IndexAgrees, Top, LevelOf;
      if order.oid in orders { return false; }
      var key := order.Key();
      var side := order.side;
      LevelsAfterInsert(bids, orders, order, Bid);
      LevelsAfterInsert(asks, orders, order, Ask);
      IndexAfterInsert(userToOids, orders, order);
      OtherSideFront(orders, order);
      SetLevels(side, LevelsOn(side)[key := LevelAt(LevelsOn(side), key).Insert(order.oid)]);
      var mine := if order.user in userToOids then userToOids[order.user] else {};
      userToOids := userToOids[order.user := mine + {order.oid}];
      orders := orders[order.oid := order];
      RefreshTop(side);
      ok := true;
    }

    method RemoveOrder(user: Address, oid: u64) returns (removed: bool)
      requires Valid()
      modifies this
      ensures Valid()
      ensures removed == (oid in old(orders) && old(orders)[oid].user == user)
      ensures orders == Cancel(old(orders), user, oid)
    {
      hide LevelsAgree, IndexAgrees, Top, LevelOf;
      if oid !in orders { return false; }
      var order := orders[oid];
      if order.user != user { return false; }
      var key, side := order.Key(), order.side;
      LevelsAfterRemove(bids, orders, oid, Bid);
      LevelsAfterRemove(asks, orders, oid, Ask);
      IndexAfterRemove(userToOids, orders, oid);
      OtherSideFront(orders, order);
      orders := orders - {oid};
      if key in LevelsOn(side) {
        var level := LevelsOn(side)[key].Remove(oid);
        if level.oids == {} {
          SetLevels(side, LevelsOn(side) - {key});
        } else {
          SetLevels(side, LevelsOn(side)[key := level]);
        }
      }
      if user in userToOids {
        var oids := userToOids[user] - {oid};
        if oids == {} {
          userToOids := userToOids - {user};
        } else {
          userToOids := userToOids[user := oids];
        }
      }
      RefreshTop(side);
      removed := true;
    }

    /** In-place change of one resting size. */
    method Resize(oid: u64, sz: u64)
      requires Valid() && oid in orders
      modifies this`orders
      ensures Valid()
      ensures orders == old(orders)[oid := old(orders)[oid].(restingSz := sz)]
    {
      hide LevelsAgree, IndexAgrees, Top;
      LevelsAfterResize(bids, orders, oid, sz, Bid);
      LevelsAfterResize(asks, orders, oid, sz, Ask);
      IndexAfterResize(userToOids, orders, oid, sz);
      FrontAfterResize(orders, oid, sz, Bid);
      FrontAfterResize(orders, oid, sz, Ask);
      orders := orders[oid := orders[oid].(restingSz := sz)];
    }

    method CancelUserUntil(user: Address, max: u64) returns (cancelled: u64)
      requires Valid()
      modifies this
      ensures Valid()
      ensures (orders, cancelled) == CancelUser(old(orders), user, max)
    {
      hide LevelsAgree, IndexAgrees, Top, WellKeyed, CancelFrom, UserQueue, Ascending, StrictlyAscending;
      IndexQueue(userToOids, orders, user);
      ghost var q := UserQueue(orders, user);
      CancelFromUnfolds(orders, q, max);
      if user !in userToOids { return 0; }
      var oids: seq<u64> := Ascending(userToOids[user]);
      var left: u64 := max;
      cancelled := 0;
      var i := 0;
      while i < |oids| && left != 0
        invariant 0 <= i <= |oids| && left + cancelled == max
        invariant Valid()
        invariant forall j :: i <= j < |q| ==> q[j] in orders && orders[q[j]].user == user
        invariant CancelFrom(old(orders), q, max).0 == CancelFrom(orders, q[i..], left).0
        invariant CancelFrom(old(orders), q, max).1 == cancelled + CancelFrom(orders, q[i..], left).1
      {
        CancelFromUnfolds(orders, q[i..], left);
        assert q[i..][0] == oids[i] && q[i..][1..] == q[i + 1..];
        QueueDistinct(old(orders), user, i);
        var take := Min(orders[oids[i]].restingSz, left);
        left := left - take;
        cancelled := SatAdd64(cancelled, take);
        var _ := RemoveOrder(user, oids[i]);
        i := i + 1;
      }
      CancelFromUnfolds(orders, q[i..], left);
    }

    method Clear()
      modifies this
      ensures Valid() && orders == map[]
    {
      bids, asks, orders, userToOids, topBid, topAsk := map[], map[], map[], map[], None, None;
    }

    method ApplySnapshotUpdate(update: SnapshotUpdate)
      requires Valid()
      modifies this
      ensures Valid()
      ensures orders == Snapshot(old(orders), update)
    {
      if update.clearFirst { Clear(); }
      hide LevelsAgree, IndexAgrees, Top, WellKeyed, UpsertAll, CancelAll;
      ApplyUpserts(update.upserts);
      ApplyCancels(update.cancels);
    }

    method ApplyUpserts(upserts: seq<BookOrder>)
      requires Valid()
      modifies this
      ensures Valid()
      ensures orders == UpsertAll(old(orders), upserts)
    {
      hide LevelsAgree, IndexAgrees, Top, WellKeyed, Cancel, Upsert;
      for i := 0 to |upserts|
        invariant Valid()
        invariant orders == UpsertAll(old(orders), upserts[..i])
      {
        var order := upserts[i];
        UpsertSteps(orders, order);
        if order.oid in orders { var _ := RemoveOrder(order.user, order.oid); }
        var _ := InsertOrder(order);
        assert upserts[..i + 1][..i] == upserts[..i];
      }
      assert upserts[..|upserts|] == upserts;
    }

    method ApplyCancels(cancels: seq<CancelRequest>)
      requires Valid()
      modifies this
      ensures Valid()
      ensures orders == CancelAll(old(orders), cancels)
    {
      hide LevelsAgree, IndexAgrees, Top, WellKeyed, Cancel;
      for i := 0 to |cancels|
        invariant Valid()
        invariant orders == CancelAll(old(orders), cancels[..i])
      {
        var _ := RemoveOrder(cancels[i].user, cancels[i].oid);
        assert cancels[..i + 1][..i] == cancels[..i];
      }
      assert cancels[..|cancels|] == cancels;
    }

    /** Takes up to `sz` from the front of a side: shrink the order, then drop it if empty. */
    method TakeFront(side: Side, px: u64, sz: u64) returns (maker: BookOrder, taken: u64)
      requires Valid() && BestPx(orders, side) == Some(px)
      modifies this
      ensures Valid()
      ensures SideOids(old(orders), side) != {}
      ensures var m, t := old(orders), TopOid(old(orders), side);
        && maker == m[t] && maker.oid == t && taken == Min(maker.restingSz, sz)
        && orders == AfterTake(m, t, taken)
    {
      hide LevelsAgree, IndexAgrees, Top, WellKeyed, SideOids, TopOid, BestPx;
      FrontOfLevels(LevelsOn(side), orders, side);
      var oid: u64 := MinOf(LevelsOn(side)[side.LevelKey(px)].oids);
      maker := orders[oid];
      taken := Min(maker.restingSz, sz);
      Resize(oid, maker.restingSz - taken);
      if orders[oid].restingSz == 0 { var _ := RemoveOrder(maker.user, oid); }
    }

    /** The matching loop: fills the taker against the front of the other side. */
    method MatchTaker(order: NewOrder, now: u64) returns (fills: seq<Fill>, remaining: u64)
      requires Valid()
      modifies this
      ensures Valid()
      ensures var s := Sweep(old(orders), order.side.Opposite(), Some(order.limitPx), order.sz);
        orders == s.orders && remaining == s.remaining && fills == FillsOf(order, now, s.takes)
    {
      hide LevelsAgree, IndexAgrees, Top, WellKeyed, Sweep, SideOids, TopOid, BestPx, FillsOf, AfterTake, Follows;
      remaining, fills := order.sz, [];
      var cross := order.side.Opposite();
      ghost var full := Sweep(orders, cross, Some(order.limitPx), order.sz);
      ghost var takes: seq<Take> := [];
      FollowsStart(full);
      while remaining != 0
        invariant Valid()
        invariant fills == FillsOf(order, now, takes)
        invariant Follows(full, takes, Sweep(orders, cross, Some(order.limitPx), remaining))
        decreases remaining != 0, |orders|
      {
        ghost var ahead := Sweep(orders, cross, Some(order.limitPx), remaining);
        FrontOfLevels(LevelsOn(cross), orders, cross);
        SweepUnfolds(orders, cross, Some(order.limitPx), remaining);
        var best := BestPrice(cross);
        if best.None? { break; }
        var crosses := if order.side.Bid? then best.value <= order.limitPx else best.value >= order.limitPx;
        if !crosses { break; }
        var maker, fillSz := TakeFront(cross, best.value, remaining);
        remaining := remaining - fillSz;
        fills := fills + [Fill(maker.oid, order.oid, best.value, fillSz, maker.user, order.user, now)];
        FillsOfAppend(order, now, takes, Take(maker, fillSz));
        FollowsStep(full, takes, ahead, Take(maker, fillSz), Sweep(orders, cross, Some(order.limitPx), remaining));
        takes := takes + [Take(maker, fillSz)];
      }
      SweepUnfolds(orders, cross, Some(order.limitPx), remaining);
      FollowsEnd(full, takes, orders, remaining);
    }

    method ExecuteOrder(order: NewOrder, now: u64) returns (result: ExecutionResult)
      requires Valid()
      modifies this
      ensures Valid()
      ensures (orders, result) == Execute(old(orders), order, now)
    {
      hide LevelsAgree, IndexAgrees, Top, WellKeyed, Sweep, FillsOf;
      var fills, remaining := MatchTaker(order, now);
      result := Accepted(fills, remaining);
      if remaining != 0 && order.postToBook {
        var ok := InsertOrder(Residue(order, remaining, now));
        if !ok { result := RejectedDuplicateOid; }
      }
    }

    method RemoveLiquidity(side: Side, sz: u64) returns (removed: u64)
      requires Valid()
      modifies this
      ensures Valid()
      ensures var s := Sweep(old(orders), side, None, sz);
        orders == s.orders && removed == sz - s.remaining
    {
      hide LevelsAgree, IndexAgrees, Top, WellKeyed, Sweep, SideOids, TopOid, BestPx;
      var left: u64 := sz;
      removed := 0;
      ghost var full := Sweep(orders, side, None, sz);
      while left != 0
        invariant Valid() && left + removed == sz
        invariant var rest := Sweep(orders, side, None, left);
          full.orders == rest.orders && full.remaining == rest.remaining
        decreases left != 0, |orders|
      {
        FrontOfLevels(LevelsOn(side), orders, side);
        SweepUnfolds(orders, side, None, left);
        var best := BestPrice(side);
        if best.None? { break; }
        var oid: u64 := MinOf(LevelsOn(side)[side.LevelKey(best.value)].oids);
        var order := orders[oid];
        var take := Min(order.restingSz, left);
        left := left - take;
        removed := SatAdd64(removed, take);
        if take == order.restingSz {
          var _ := RemoveOrder(order.user, oid);
        } else {
          Resize(oid, order.restingSz - take);
        }
      }
      SweepUnfolds(orders, side, None, left);
    }

    /** Any operation keeps all views in agreement and acts on the orders as `Step` says, so
        a run of operations acts as `Run` says. */
    method Apply(op: Op)
      requires Valid()
      modifies this
      ensures Valid()
      ensures orders == Step(old(orders), op)
    {
      hide LevelsAgree, IndexAgrees, Top, WellKeyed, Execute, Cancel, CancelUser, Sweep, Snapshot;
      match op {
        case ExecuteOp(order, now) => var _ := ExecuteOrder(order, now);
        case RemoveOp(user, oid) => var _ := RemoveOrder(user, oid);
        case CancelUserOp(user, max) => var _ := CancelUserUntil(user, max);
        case RemoveLiquidityOp(side, sz) => var _ := RemoveLiquidity(side, sz);
        case InsertOp(o) => var _ := InsertOrder(o);
        case SnapshotOp(update) => ApplySnapshotUpdate(update);
      }
    }

    method ApplyAll(ops: seq<Op>)
      requires Valid()
      modifies this
      ensures Valid()
      ensures orders == Run(old(orders), ops)
    {
      hide LevelsAgree, IndexAgrees, Top, WellKeyed, Step;
      for i := 0 to |ops|
        invariant Valid()
        invariant orders == Run(old(orders), ops[..i])
      {
        Apply(ops[i]);
        assert ops[..i + 1][..i] == ops[..i];
      }
      assert ops[..|ops|] == ops;
    }
  }

  /** `full` is what `takes` already did followed by `rest`. */
  ghost predicate Follows(full: SweepResult, takes: seq<Take>, rest: SweepResult) {
    full.orders == rest.orders && full.remaining == rest.remaining && full.takes == takes + rest.takes
  }

  lemma FollowsStart(full: SweepResult)
    ensures Follows(full, [], full)
  {
  }

  lemma FollowsStep(full: SweepResult, takes: seq<Take>, ahead: SweepResult, t: Take, rest: SweepResult)
    requires Follows(full, takes, ahead) && Follows(ahead, [t], rest)
    ensures Follows(full, takes + [t], rest)
  {
    assert takes + ([t] + rest.takes) == takes + [t] + rest.takes;
  }

  lemma FollowsEnd(full: SweepResult, takes: seq<Take>, m: Orders, remaining: u64)
    requires Follows(full, takes, SweepResult(m, [], remaining))
    ensures full == SweepResult(m, takes, remaining)
  {
    assert takes + [] == takes;
  }

  /** One turn of the matching loop, as the loop performs it: shrink, then drop if empty. */
  lemma SweepUnfolds(m: Orders, side: Side, limit: Option<u64>, sz: u64)
    ensures sz == 0 || SideOids(m, side) == {} || !Accepts(side, limit, m[TopOid(m, side)].limitPx) ==>
              Sweep(m, side, limit, sz) == SweepResult(m, [], sz)
    ensures sz != 0 && SideOids(m, side) != {} && Accepts(side, limit, m[TopOid(m, side)].limitPx) ==>
              var t := TopOid(m, side);
              var f := Min(m[t].restingSz, sz);
              && Follows(Sweep(m, side, limit, sz), [Take(m[t], f)], Sweep(AfterTake(m, t, f), side, limit, sz - f))
              && (m[t].restingSz == f ==> AfterTake(m, t, f) == m - {t})
              && (sz - f != 0 ==> |AfterTake(m, t, f)| < |m|)
  {
    hide SideOids, TopOid, Accepts, AfterTake;
    if sz != 0 && SideOids(m, side) != {} && Accepts(side, limit, m[TopOid(m, side)].limitPx) {
      var t := TopOid(m, side);
      var f := Min(m[t].restingSz, sz);
      TakenFrom(m, t, f);
      if f < m[t].restingSz { SpentSweep(AfterTake(m, t, f), side, limit); }
      hide Sweep;
      SweepTurn(m, side, limit, sz);
    }
  }

  /** The sweep unfolded once at an accepted maker. */
  lemma SweepTurn(m: Orders, side: Side, limit: Option<u64>, sz: u64)
    requires sz != 0 && SideOids(m, side) != {} && Accepts(side, limit, m[TopOid(m, side)].limitPx)
    ensures var t := TopOid(m, side);
      var o := m[t];
      if o.restingSz <= sz then Follows(Sweep(m, side, limit, sz), [Take(o, o.restingSz)], Sweep(m - {t}, side, limit, sz - o.restingSz))
      else Sweep(m, side, limit, sz) == SweepResult(m[t := o.(restingSz := o.restingSz - sz)], [Take(o, sz)], 0)
  {
    hide SideOids, TopOid, Accepts;
  }

  lemma SpentSweep(m: Orders, side: Side, limit: Option<u64>)
    ensures Sweep(m, side, limit, 0) == SweepResult(m, [], 0)
  {
  }

  lemma TakenFrom(m: Orders, t: u64, f: u64)
    requires t in m && f <= m[t].restingSz
    ensures AfterTake(m, t, f) ==
            if m[t].restingSz == f then m - {t} else m[t := m[t].(restingSz := m[t].restingSz - f)]
    ensures m[t].restingSz == f ==> |m - {t}| < |m|
  {
    assert m - {t} == m[t := m[t].(restingSz := m[t].restingSz - f)] - {t};
    assert (m - {t}).Keys == m.Keys - {t};
  }

  lemma FillsOfAppend(order: NewOrder, now: u64, takes: seq<Take>, t: Take)
    ensures FillsOf(order, now, []) == []
    ensures FillsOf(order, now, takes + [t]) == FillsOf(order, now, takes) + [FillOf(order, now, t)]
  {
  }

  lemma QueueDistinct(m: Orders, user: Address, i: nat)
    requires i < |UserQueue(m, user)|
    ensures forall j :: i < j < |UserQueue(m, user)| ==> UserQueue(m, user)[j] != UserQueue(m, user)[i]
  {
  }

  lemma UpsertSteps(m: Orders, o: BookOrder)
    ensures var m1 := if o.oid in m then Cancel(m, o.user, o.oid) else m;
      Upsert(m, o) == if o.oid in m1 then m1 else m1[o.oid := o]
  {
    assert o.oid in m ==> (m - {o.oid})[o.oid := o] == m[o.oid := o];
  }
}
