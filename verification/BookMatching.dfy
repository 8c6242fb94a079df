/** What a sweep means, said without the sweep: the side written out in price-time order and
    a running total of its sizes decide every fill. */
module BookMatching {
  import opened Common
  import opened BookModel

  /** `q` is the side in strict price-time order, each resting order once. */
  ghost predicate IsQueue(m: Orders, side: Side, q: seq<BookOrder>) {
    && (forall i, j :: 0 <= i < j < |q| ==> q[i].Before(q[j]))
    && (forall i :: 0 <= i < |q| ==> q[i].side == side && q[i].oid in m && m[q[i].oid] == q[i])
    && (forall oid :: oid in m && m[oid].side == side ==> m[oid] in q)
  }

  /** A queue runs from the highest bid down or from the lowest ask up, and by oid at one price. */
  lemma QueueOrder(m: Orders, side: Side, q: seq<BookOrder>, i: nat, j: nat)
    requires IsQueue(m, side, q) && i < j < |q|
    ensures side.Bid? ==> q[i].limitPx >= q[j].limitPx
    ensures side.Ask? ==> q[i].limitPx <= q[j].limitPx
    ensures q[i].limitPx == q[j].limitPx ==> q[i].oid < q[j].oid
  {
    assert q[i].Before(q[j]);
  }

  /** Total size of the first `n` orders of a queue. */
  function Depth(q: seq<BookOrder>, n: nat): nat
    requires n <= |q|
  {
    if n == 0 then 0 else Depth(q, n - 1) + q[n - 1].restingSz
  }

  /** The `i`-th maker is reached: it is accepted and the makers ahead of it do not cover `sz`. */
  ghost predicate Reached(q: seq<BookOrder>, side: Side, limit: Option<u64>, sz: u64, i: nat) {
    i < |q| && Depth(q, i) < sz && Accepts(side, limit, q[i].limitPx)
  }

  /** The takes are exactly the reached prefix of the queue, each cut to what was still wanted. */
  ghost predicate GreedyTakes(q: seq<BookOrder>, side: Side, limit: Option<u64>, sz: u64, takes: seq<Take>) {
    && |takes| <= |q|
    && !Reached(q, side, limit, sz, |takes|)
    && forall i :: 0 <= i < |takes| ==> GreedyTake(q, side, limit, sz, i, takes[i])
  }

  ghost predicate GreedyTake(q: seq<BookOrder>, side: Side, limit: Option<u64>, sz: u64, i: nat, t: Take) {
    Reached(q, side, limit, sz, i) && t.order == q[i] && t.sz == Min(q[i].restingSz, sz - Depth(q, i))
  }

  /** The orders left behind: the covered makers are gone, a maker covered in part keeps the
      rest, everything else is untouched. */
  ghost predicate GreedyLeaves(m: Orders, q: seq<BookOrder>, n: nat, sz: u64, m': Orders)
    requires n <= |q|
  {
    && m'.Keys <= m.Keys
    && (forall oid :: oid in m && (forall i :: 0 <= i < n ==> q[i].oid != oid) ==> oid in m' && m'[oid] == m[oid])
    && (forall i :: 0 <= i < n ==>
          if Depth(q, i + 1) <= sz then q[i].oid !in m'
          else q[i].oid in m' && Shrunk(q[i], Depth(q, i + 1) - sz, m'[q[i].oid]))
  }

  /** `o'` is `o` with only its size changed, to `left`. */
  ghost predicate Shrunk(o: BookOrder, left: int, o': BookOrder) {
    o'.restingSz == left && o' == o.(restingSz := o'.restingSz)
  }

  lemma QueueFront(m: Orders, side: Side, q: seq<BookOrder>)
    requires WellKeyed(m) && IsQueue(m, side, q)
    ensures q == [] <==> SideOids(m, side) == {}
    ensures q != [] ==>
              && q[0].oid in m && m[q[0].oid] == q[0] && TopOid(m, side) == q[0].oid
              && WellKeyed(m - {q[0].oid}) && IsQueue(m - {q[0].oid}, side, q[1..])
  {
    if q != [] {
      assert q[0].oid in SideOids(m, side);
      var t := TopOid(m, side);
      assert m[t] in q;
      var m' := m - {q[0].oid};
      forall i | 0 <= i < |q[1..]| ensures q[1..][i].oid in m' && m'[q[1..][i].oid] == q[1..][i] {
        assert q[0].Before(q[i + 1]);
      }
      forall oid | oid in m' && m'[oid].side == side ensures m'[oid] in q[1..] {
        var i :| 0 <= i < |q| && q[i] == m[oid];
        assert q[1..][i - 1] == m'[oid];
      }
    }
    assert forall oid :: oid in SideOids(m, side) ==> m[oid] in q;
  }

  lemma {:induction false} DepthTail(q: seq<BookOrder>, n: nat)
    requires 0 < n <= |q|
    ensures Depth(q, n) == q[0].restingSz + Depth(q[1..], n - 1)
  {
    if n == 1 {
      assert Depth(q, 0) == 0 && Depth(q[1..], 0) == 0;
    } else {
      DepthTail(q, n - 1);
      assert q[1..][n - 2] == q[n - 1];
    }
  }

  lemma DepthStep(q: seq<BookOrder>, i: nat)
    requires i < |q|
    ensures Depth(q, i + 1) == Depth(q, i) + q[i].restingSz
  {
  }

  lemma {:induction false} DepthMonotone(q: seq<BookOrder>, i: nat, n: nat)
    requires i <= n <= |q|
    ensures Depth(q, i) <= Depth(q, n)
    decreases n
  {
    if i < n { DepthMonotone(q, i, n - 1); }
  }

  /** Matching refines the greedy specification, for every queue that describes the side. */
  lemma {:induction false} SweepIsGreedy(m: Orders, side: Side, q: seq<BookOrder>, limit: Option<u64>, sz: u64)
    requires WellKeyed(m) && IsQueue(m, side, q)
    ensures var r := Sweep(m, side, limit, sz);
      && GreedyTakes(q, side, limit, sz, r.takes)
      && GreedyLeaves(m, q, |r.takes|, sz, r.orders)
      && r.remaining == SatSub(sz, Depth(q, |r.takes|))
    decreases |q|
  {
    hide IsQueue, GreedyTakes, GreedyLeaves, Accepts, WellKeyed, Sweep;
    SweepOnQueue(m, side, q, limit, sz);
    if sz == 0 || q == [] || !Accepts(side, limit, q[0].limitPx) {
      NothingTaken(m, side, q, limit, sz);
    } else if q[0].restingSz <= sz {
      var m1, q1, sz1 := m - {q[0].oid}, q[1..], sz - q[0].restingSz;
      var r1 := Sweep(m1, side, limit, sz1);
      SweepIsGreedy(m1, side, q1, limit, sz1);
      TakesFit(q1, side, limit, sz1, r1.takes);
      TakesShift(q, side, limit, sz, r1.takes);
      LeavesShift(m, q, |r1.takes|, sz, r1.orders);
      DepthTail(q, |r1.takes| + 1);
    } else {
      FrontCut(m, side, q, limit, sz);
      assert Depth(q, 0) == 0;
      assert Depth(q, 1) == q[0].restingSz;
    }
  }

  /** One turn of the sweep, read off the queue. */
  lemma SweepOnQueue(m: Orders, side: Side, q: seq<BookOrder>, limit: Option<u64>, sz: u64)
    requires WellKeyed(m) && IsQueue(m, side, q)
    ensures sz == 0 || q == [] || !Accepts(side, limit, q[0].limitPx) ==>
              Sweep(m, side, limit, sz) == SweepResult(m, [], sz)
    ensures q != [] ==>
              && q[0].oid in m && m[q[0].oid] == q[0]
              && WellKeyed(m - {q[0].oid}) && IsQueue(m - {q[0].oid}, side, q[1..])
    ensures sz != 0 && q != [] && Accepts(side, limit, q[0].limitPx) ==>
              if q[0].restingSz <= sz then
                var r := Sweep(m - {q[0].oid}, side, limit, sz - q[0].restingSz);
                Sweep(m, side, limit, sz) == r.(takes := [Take(q[0], q[0].restingSz)] + r.takes)
              else
                Sweep(m, side, limit, sz) ==
                SweepResult(m[q[0].oid := q[0].(restingSz := q[0].restingSz - sz)], [Take(q[0], sz)], 0)
  {
    hide Accepts, SideOids, TopOid, IsQueue, WellKeyed;
    QueueFront(m, side, q);
  }

  lemma TakesFit(q: seq<BookOrder>, side: Side, limit: Option<u64>, sz: u64, takes: seq<Take>)
    requires GreedyTakes(q, side, limit, sz, takes)
    ensures |takes| <= |q|
    ensures |takes| < |q| ==> Depth(q, |takes|) >= sz || !Accepts(side, limit, q[|takes|].limitPx)
  {
  }

  lemma NothingTaken(m: Orders, side: Side, q: seq<BookOrder>, limit: Option<u64>, sz: u64)
    requires sz == 0 || q == [] || !Accepts(side, limit, q[0].limitPx)
    ensures GreedyTakes(q, side, limit, sz, []) && GreedyLeaves(m, q, 0, sz, m) && Depth(q, 0) == 0
  {
  }

  lemma FrontCut(m: Orders, side: Side, q: seq<BookOrder>, limit: Option<u64>, sz: u64)
    requires q != [] && 0 < sz < q[0].restingSz && Accepts(side, limit, q[0].limitPx)
    requires q[0].oid in m && m[q[0].oid] == q[0]
    ensures GreedyTakes(q, side, limit, sz, [Take(q[0], sz)])
    ensures GreedyLeaves(m, q, 1, sz, m[q[0].oid := q[0].(restingSz := q[0].restingSz - sz)])
  {
    assert Depth(q, 0) == 0;
    assert Depth(q, 1) == q[0].restingSz;
  }

  /** Dropping a wholly taken front moves every later maker up by one. */
  lemma ReachedShift(q: seq<BookOrder>, side: Side, limit: Option<u64>, sz: u64, i: nat)
    requires q != [] && q[0].restingSz <= sz && i < |q|
    ensures Depth(q, i + 1) == q[0].restingSz + Depth(q[1..], i)
    ensures Reached(q, side, limit, sz, i + 1) == Reached(q[1..], side, limit, sz - q[0].restingSz, i)
  {
    hide Accepts;
    DepthTail(q, i + 1);
  }

  lemma TakesShift(q: seq<BookOrder>, side: Side, limit: Option<u64>, sz: u64, takes: seq<Take>)
    requires q != [] && 0 < sz && q[0].restingSz <= sz && Accepts(side, limit, q[0].limitPx)
    requires GreedyTakes(q[1..], side, limit, sz - q[0].restingSz, takes)
    ensures GreedyTakes(q, side, limit, sz, [Take(q[0], q[0].restingSz)] + takes)
  {
    hide GreedyTake, Accepts, Reached;
    FrontTaken(q, side, limit, sz);
    var all := [Take(q[0], q[0].restingSz)] + takes;
    forall i | 0 <= i < |all| ensures GreedyTake(q, side, limit, sz, i, all[i]) {
      if i > 0 { TakeShift(q, side, limit, sz, i - 1, takes[i - 1]); }
    }
    ReachedShift(q, side, limit, sz, |takes|);
  }

  lemma TakeShift(q: seq<BookOrder>, side: Side, limit: Option<u64>, sz: u64, i: nat, t: Take)
    requires q != [] && q[0].restingSz <= sz && i < |q|
    requires GreedyTake(q[1..], side, limit, sz - q[0].restingSz, i, t)
    ensures GreedyTake(q, side, limit, sz, i + 1, t)
  {
    hide Accepts;
    ReachedShift(q, side, limit, sz, i);
  }

  lemma FrontTaken(q: seq<BookOrder>, side: Side, limit: Option<u64>, sz: u64)
    requires q != [] && 0 < sz && q[0].restingSz <= sz && Accepts(side, limit, q[0].limitPx)
    ensures GreedyTake(q, side, limit, sz, 0, Take(q[0], q[0].restingSz))
  {
  }

  lemma LeavesShift(m: Orders, q: seq<BookOrder>, n: nat, sz: u64, m': Orders)
    requires n < |q| && q[0].restingSz <= sz
    requires GreedyLeaves(m - {q[0].oid}, q[1..], n, sz - q[0].restingSz, m')
    ensures GreedyLeaves(m, q, n + 1, sz, m')
  {
    forall i | 0 <= i < n + 1
      ensures if Depth(q, i + 1) <= sz then q[i].oid !in m'
              else q[i].oid in m' && Shrunk(q[i], Depth(q, i + 1) - sz, m'[q[i].oid])
    {
      DepthTail(q, i + 1);
      if i > 0 { assert q[1..][i - 1] == q[i]; } else { assert Depth(q[1..], 0) == 0; }
    }
    forall oid | oid in m && (forall i :: 0 <= i < n + 1 ==> q[i].oid != oid)
      ensures oid in m' && m'[oid] == m[oid]
    {
      forall i | 0 <= i < n ensures q[1..][i].oid != oid { assert q[1..][i] == q[i + 1]; }
      assert q[0].oid != oid;
    }
  }

  /** The side written out by repeatedly taking its front. */
  function Queue(m: Orders, side: Side): seq<BookOrder>
    decreases |m|
  {
    if SideOids(m, side) == {} then []
    else var t := TopOid(m, side); [m[t]] + Queue(m - {t}, side)
  }

  lemma {:induction false} QueueExists(m: Orders, side: Side)
    requires WellKeyed(m)
    ensures IsQueue(m, side, Queue(m, side))
    decreases |m|
  {
    hide IsQueue, SideOids, TopOid;
    if SideOids(m, side) == {} {
      QueueNothing(m, side);
    } else {
      var t := TopOid(m, side);
      QueueExists(m - {t}, side);
      QueueCons(m, side, t, Queue(m - {t}, side));
    }
  }

  lemma QueueNothing(m: Orders, side: Side)
    requires SideOids(m, side) == {}
    ensures IsQueue(m, side, [])
  {
    assert forall oid :: oid in m && m[oid].side == side ==> oid in SideOids(m, side);
  }

  /** The front of a side followed by a queue of the rest is a queue. */
  lemma QueueCons(m: Orders, side: Side, t: u64, rest: seq<BookOrder>)
    requires WellKeyed(m) && SideOids(m, side) != {} && t == TopOid(m, side) && IsQueue(m - {t}, side, rest)
    ensures IsQueue(m, side, [m[t]] + rest)
  {
    var q, m' := [m[t]] + rest, m - {t};
    forall i, j | 0 <= i < j < |q| ensures q[i].Before(q[j]) {
      assert q[j] == rest[j - 1];
      if i == 0 {
        assert q[j].oid in SideOids(m, side);
      } else {
        assert rest[i - 1].Before(rest[j - 1]);
      }
    }
    forall oid | oid in m && m[oid].side == side ensures m[oid] in q {
      if oid != t { assert m'[oid] in rest; }
    }
  }

  /** Price-time order leaves no choice: one side has one queue. */
  lemma {:induction false} QueueUnique(m: Orders, side: Side, q: seq<BookOrder>)
    requires WellKeyed(m) && IsQueue(m, side, q)
    ensures q == Queue(m, side)
    decreases |q|
  {
    hide IsQueue, WellKeyed, SideOids, TopOid;
    QueueFront(m, side, q);
    if q != [] { QueueUnique(m - {q[0].oid}, side, q[1..]); }
  }

  function TakenSz(takes: seq<Take>): nat
  {
    if takes == [] then 0 else takes[0].sz + TakenSz(takes[1..])
  }

  /** Nothing is lost in matching: the taker's size is the fills plus the remainder, and the
      side's total falls by exactly the fills. Zero-size makers do not disturb either. */
  lemma {:induction false} SweepConserves(m: Orders, side: Side, limit: Option<u64>, sz: u64)
    requires WellKeyed(m)
    ensures var r := Sweep(m, side, limit, sz);
      && sz == TakenSz(r.takes) + r.remaining
      && SideDepth(m, side) == TakenSz(r.takes) + SideDepth(r.orders, side)
    decreases |m|
  {
    hide SideOids, TopOid, SideDepth, Accepts;
    if sz != 0 && SideOids(m, side) != {} && Accepts(side, limit, m[TopOid(m, side)].limitPx) {
      var t := TopOid(m, side);
      SideDepthFront(m, side);
      if m[t].restingSz <= sz {
        SweepConserves(m - {t}, side, limit, sz - m[t].restingSz);
        assert Sweep(m, side, limit, sz).takes[1..] == Sweep(m - {t}, side, limit, sz - m[t].restingSz).takes;
      } else {
        SideDepthCut(m, side, sz);
        assert Sweep(m, side, limit, sz).takes[1..] == [];
      }
    }
  }

  function SideDepth(m: Orders, side: Side): nat {
    Depth(Queue(m, side), |Queue(m, side)|)
  }

  lemma SideDepthFront(m: Orders, side: Side)
    requires SideOids(m, side) != {}
    ensures SideDepth(m, side) == m[TopOid(m, side)].restingSz + SideDepth(m - {TopOid(m, side)}, side)
  {
    var q := Queue(m, side);
    DepthTail(q, |q|);
    assert q[1..] == Queue(m - {TopOid(m, side)}, side);
  }

  lemma SideDepthCut(m: Orders, side: Side, sz: u64)
    requires SideOids(m, side) != {} && sz <= m[TopOid(m, side)].restingSz
    ensures var t := TopOid(m, side);
      SideDepth(m[t := m[t].(restingSz := m[t].restingSz - sz)], side) + sz == SideDepth(m, side)
  {
    hide SideDepth;
    var t := TopOid(m, side);
    var m' := m[t := m[t].(restingSz := m[t].restingSz - sz)];
    assert SideOids(m', side) == SideOids(m, side);
    SameFront(m, m', side);
    SideDepthFront(m, side);
    SideDepthFront(m', side);
    assert m' - {t} == m - {t};
  }

  /** `remove_liquidity` removes exactly the lesser of what was asked and what rests. */
  lemma RemoveLiquidityExact(m: Orders, side: Side, sz: u64)
    requires WellKeyed(m)
    ensures sz - Sweep(m, side, None, sz).remaining == Min(sz, SideDepth(m, side))
  {
    hide IsQueue, GreedyTakes, GreedyLeaves, Queue, Sweep, WellKeyed;
    var q, r := Queue(m, side), Sweep(m, side, None, sz);
    QueueExists(m, side);
    SweepIsGreedy(m, side, q, None, sz);
    TakesFit(q, side, None, sz, r.takes);
    DepthMonotone(q, |r.takes|, |q|);
  }
}
