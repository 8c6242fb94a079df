/** Resting size as a sum over a set of orders, which no ordering can disturb, and what one
    execution does to the totals of both sides. */
module BookTotals {
  import opened Common
  import opened OrderedSets
  import opened BookModel
  import opened BookMatching
  import opened BookRuns
  import opened BookCancelling

  ghost function Resting(m: Orders, s: set<u64>): nat
    requires s <= m.Keys
    decreases |s|
  {
    if s == {} then 0 else var x: u64 := MinOf(s); m[x].restingSz + Resting(m, s - {x})
  }

  lemma {:induction false} RestingRemove(m: Orders, s: set<u64>, x: u64)
    requires s <= m.Keys && x in s
    ensures Resting(m, s) == m[x].restingSz + Resting(m, s - {x})
    decreases |s|
  {
    var y: u64 := MinOf(s);
    if x != y {
      RestingRemove(m, s - {y}, x);
      RestingRemove(m, s - {x}, y);
      assert s - {y} - {x} == s - {x} - {y};
    }
  }

  lemma {:induction false} RestingSame(m: Orders, m': Orders, s: set<u64>)
    requires s <= m.Keys && s <= m'.Keys && forall oid :: oid in s ==> m'[oid].restingSz == m[oid].restingSz
    ensures Resting(m', s) == Resting(m, s)
    decreases |s|
  {
    if s != {} {
      var x: u64 := MinOf(s);
      RestingSame(m, m', s - {x});
    }
  }

  ghost function SideTotal(m: Orders, side: Side): nat {
    Resting(m, SideOids(m, side))
  }

  /** The depth of a queue is the total of its side, and a user's depth the total of the user. */
  lemma {:induction false} SideDepthIsTotal(m: Orders, side: Side)
    ensures SideDepth(m, side) == SideTotal(m, side)
    decreases |m|
  {
    if SideOids(m, side) != {} {
      var t := TopOid(m, side);
      var s := SideOids(m, side);
      SideDepthFront(m, side);
      SideDepthIsTotal(m - {t}, side);
      RestingRemove(m, s, t);
      assert SideOids(m - {t}, side) == s - {t};
      RestingSame(m, m - {t}, s - {t});
    }
  }

  lemma UserDepthIsTotal(m: Orders, user: Address)
    ensures UserDepth(m, user) == Resting(m, UserOids(m, user))
  {
    hide OidDepth, Resting, DistinctIn, UserQueue, Firsts;
    var q := UserQueue(m, user);
    UserDepthIs(m, user);
    OidDepthIsTotal(m, q, |q|);
    FirstsMembers(q, |q|);
    assert q[..|q|] == q;
    SameMembers(Firsts(q, |q|), UserOids(m, user));
  }

  ghost function Firsts(q: seq<u64>, n: nat): set<u64>
    requires n <= |q|
  {
    if n == 0 then {} else Firsts(q, n - 1) + {q[n - 1]}
  }

  lemma {:induction false} FirstsMembers(q: seq<u64>, n: nat)
    requires n <= |q|
    ensures forall x :: x in Firsts(q, n) <==> x in q[..n]
  {
    if n > 0 {
      FirstsMembers(q, n - 1);
      assert q[..n] == q[..n - 1] + [q[n - 1]];
    }
  }

  lemma {:induction false} OidDepthIsTotal(m: Orders, q: seq<u64>, n: nat)
    requires DistinctIn(m, q) && n <= |q|
    ensures Firsts(q, n) <= m.Keys && OidDepth(m, q, n) == Resting(m, Firsts(q, n))
    decreases n
  {
    if n > 0 {
      hide Resting;
      var s, x := Firsts(q, n - 1), q[n - 1];
      OidDepthIsTotal(m, q, n - 1);
      FirstsMembers(q, n - 1);
      assert x !in s && s + {x} - {x} == s;
      RestingRemove(m, s + {x}, x);
    }
  }

  /** The orders of `side` are the same in both, in every field. */
  ghost predicate SameSide(m: Orders, m': Orders, side: Side) {
    && (forall oid :: oid in m && m[oid].side == side ==> oid in m' && m'[oid] == m[oid])
    && (forall oid :: oid in m' && m'[oid].side == side ==> oid in m && m'[oid] == m[oid])
  }

  /** A sweep leaves every order of the other side exactly as it was. */
  lemma {:induction false} SweepOneSided(m: Orders, side: Side, limit: Option<u64>, sz: u64)
    ensures SameSide(m, Sweep(m, side, limit, sz).orders, side.Opposite())
    decreases |m|
  {
    hide Accepts, SideOids, TopOid, SameSide;
    var opp := side.Opposite();
    if sz != 0 && SideOids(m, side) != {} {
      var t := TopOid(m, side);
      if m[t].restingSz <= sz {
        SweepOneSided(m - {t}, side, limit, sz - m[t].restingSz);
        SameSideDrop(m, t, Sweep(m - {t}, side, limit, sz - m[t].restingSz).orders, opp);
      } else {
        SameSideResize(m, t, m[t].restingSz - sz, opp);
      }
    }
    SameSideReflexive(m, opp);
  }

  lemma SameSideReflexive(m: Orders, side: Side)
    ensures SameSide(m, m, side)
  {
  }

  lemma SameSideDrop(m: Orders, t: u64, m': Orders, side: Side)
    requires t in m && m[t].side != side && SameSide(m - {t}, m', side)
    ensures SameSide(m, m', side)
  {
  }

  lemma SameSideResize(m: Orders, t: u64, sz: u64, side: Side)
    requires t in m && m[t].side != side
    ensures SameSide(m, m[t := m[t].(restingSz := sz)], side)
  {
  }

  lemma SameSideTotal(m: Orders, m': Orders, side: Side)
    requires SameSide(m, m', side)
    ensures SideTotal(m', side) == SideTotal(m, side)
  {
    assert SideOids(m', side) == SideOids(m, side);
    RestingSame(m, m', SideOids(m, side));
  }

  function FilledSz(fills: seq<Fill>): nat {
    if fills == [] then 0 else fills[0].sz + FilledSz(fills[1..])
  }

  lemma {:induction false} FilledIsTaken(order: NewOrder, now: u64, takes: seq<Take>)
    ensures FilledSz(FillsOf(order, now, takes)) == TakenSz(takes)
  {
    if takes != [] {
      FilledIsTaken(order, now, takes[1..]);
      assert FillsOf(order, now, takes)[1..] == FillsOf(order, now, takes[1..]);
    }
  }

  /** Inserting an order adds its size to its own side and nothing to the other. */
  lemma TotalsAfterInsert(m: Orders, o: BookOrder)
    requires o.oid !in m
    ensures SideTotal(m[o.oid := o], o.side) == SideTotal(m, o.side) + o.restingSz
    ensures SideTotal(m[o.oid := o], o.side.Opposite()) == SideTotal(m, o.side.Opposite())
  {
    hide Resting;
    var m' := m[o.oid := o];
    var own, other := SideOids(m, o.side), SideOids(m, o.side.Opposite());
    assert SideOids(m', o.side) == own + {o.oid} && SideOids(m', o.side.Opposite()) == other;
    assert own + {o.oid} - {o.oid} == own;
    RestingRemove(m', own + {o.oid}, o.oid);
    RestingSame(m, m', own);
    RestingSame(m, m', other);
  }

  /** The books balance: the taker's size is its fills plus what is left; the crossed side
      loses exactly the fills; the taker's side gains exactly what is left when it rests, as an
      order carrying the taker's own terms. A rejected taker still costs the crossed side part of
      its size and gives its own side nothing. */
  lemma ExecuteBalances(m: Orders, order: NewOrder, now: u64)
    requires WellKeyed(m)
    ensures var (m', r) := Execute(m, order, now);
      && (r.Accepted? ==>
            && order.sz == FilledSz(r.fills) + r.restingSz
            && SideTotal(m, order.side.Opposite()) == FilledSz(r.fills) + SideTotal(m', order.side.Opposite())
            && SideTotal(m', order.side) == SideTotal(m, order.side) + (if order.postToBook then r.restingSz else 0)
            && (order.postToBook && r.restingSz != 0 ==>
                  && order.oid in m'
                  && m'[order.oid] == BookOrder(order.oid, order.user, order.side, order.limitPx, r.restingSz,
                                                order.reduceOnly, order.cloid, now, [])))
      && (r.RejectedDuplicateOid? ==>
            && SideTotal(m', order.side) == SideTotal(m, order.side)
            && 0 <= SideTotal(m, order.side.Opposite()) - SideTotal(m', order.side.Opposite()) < order.sz)
  {
    hide Sweep, FillsOf, SideTotal, SameSide, WellKeyed;
    var opp := order.side.Opposite();
    var s := Sweep(m, opp, Some(order.limitPx), order.sz);
    SweepConserves(m, opp, Some(order.limitPx), order.sz);
    SideDepthIsTotal(m, opp);
    SideDepthIsTotal(s.orders, opp);
    FilledIsTaken(order, now, s.takes);
    SweepOneSided(m, opp, Some(order.limitPx), order.sz);
    SameSideTotal(m, s.orders, order.side);
    if order.oid !in s.orders { TotalsAfterInsert(s.orders, Residue(order, s.remaining, now)); }
  }

  /** A rejection does not undo the matching: every maker within the limit is gone, every other
      order rests as it was, and the crossed side has lost the whole accepted depth, although
      the result reports no fill. */
  lemma RejectionKeepsFills(m: Orders, order: NewOrder, now: u64, q: seq<BookOrder>)
    requires WellKeyed(m) && IsQueue(m, order.side.Opposite(), q)
    requires Execute(m, order, now).1.RejectedDuplicateOid?
    ensures var opp, limit, m' := order.side.Opposite(), Some(order.limitPx), Execute(m, order, now).0;
      && m'.Keys <= m.Keys
      && (forall oid :: oid in m ==>
            (oid in m' <==> !(m[oid].side == opp && Accepts(opp, limit, m[oid].limitPx))))
      && (forall oid :: oid in m' ==> m'[oid] == m[oid])
      && SideTotal(m, opp) == SideTotal(m', opp) + AcceptedDepth(q, opp, limit, |q|)
      && SideTotal(m', order.side) == SideTotal(m, order.side)
  {
    hide Sweep, FillsOf, SideTotal, SameSide, WellKeyed, IsQueue, Accepts, AcceptedDepth;
    var opp, limit := order.side.Opposite(), Some(order.limitPx);
    var s := Sweep(m, opp, limit, order.sz);
    RemainderIsUncovered(m, opp, q, limit, order.sz);
    SweepThins(m, opp, limit, order.sz);
    forall oid | oid in m
      ensures oid in s.orders <==> !(m[oid].side == opp && Accepts(opp, limit, m[oid].limitPx))
      ensures oid in s.orders ==> s.orders[oid] == m[oid]
    {
      UnspentLeaves(m, opp, limit, order.sz, oid);
    }
    SweepConserves(m, opp, limit, order.sz);
    SideDepthIsTotal(m, opp);
    SideDepthIsTotal(s.orders, opp);
    SweepOneSided(m, opp, limit, order.sz);
    SameSideTotal(m, s.orders, order.side);
  }

  /** A bid for 10 under the oid of a resting bid is rejected, yet the ask of 3 it crossed is
      gone. */
  lemma RejectedAfterFilling() returns (m: Orders, order: NewOrder)
    ensures WellKeyed(m) && m.Keys == {1, 2} && m[1].restingSz == 3
    ensures Execute(m, order, 0) == (map[2 := m[2]], RejectedDuplicateOid)
  {
    var ask := BookOrder(1, 7, Ask, 5, 3, false, None, 0, []);
    var bid := BookOrder(2, 8, Bid, 4, 1, false, None, 0, []);
    m := map[1 := ask, 2 := bid];
    order := NewOrder(2, 9, Bid, 5, 10, false, None, true);
    var q := [ask];
    assert IsQueue(m, Ask, q) by { assert m[1] == q[0]; }
    assert AcceptedDepth(q, Ask, Some(5), 1) == AcceptedDepth(q, Ask, Some(5), 0) + 3;
    hide IsQueue, Execute, AcceptedDepth;
    RejectedIff(m, order, 0, q);
    RejectionKeepsFills(m, order, 0, q);
    var m' := Execute(m, order, 0).0;
    assert 1 !in m' && 2 in m' && m'.Keys == {2};
    assert m' == map[2 := m[2]];
  }

  /** Settling a user across books leaves everybody else's orders as they were. */
  lemma OthersUntouched(m: Orders, user: Address, max: u64, oid: u64)
    requires oid in m && m[oid].user != user
    ensures var m' := CancelUser(m, user, max).0; oid in m' && m'[oid] == m[oid]
  {
    CancelUserExact(m, user, max);
  }
}
