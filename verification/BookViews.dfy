/** The three derived views of a book and how one insertion or removal changes them. */
module BookViews {
  import opened Common
  import opened OrderedSets
  import opened BookModel

  datatype BookLevel = BookLevel(firstOid: u64, lastOid: u64, oids: set<u64>) {
    function Insert(oid: u64): BookLevel { LevelOf(oids + {oid}) }
    function Remove(oid: u64): BookLevel { LevelOf(oids - {oid}) }
  }

  /** A level caches the ends of its oid set, zero when the set is empty. */
  function LevelOf(oids: set<u64>): BookLevel {
    if oids == {} then BookLevel(0, 0, oids) else BookLevel(MinOf(oids), MaxOf(oids), oids)
  }

  type Levels = map<int, BookLevel>

  /** `levels` holds exactly the nonempty levels of `side`, each with exactly its oids and
      with the true ends cached. */
  ghost predicate LevelsAgree(levels: Levels, m: Orders, side: Side) {
    && levels.Keys == LevelKeys(m, side)
    && forall k :: k in levels ==> levels[k] == LevelOf(OidsAt(m, side, k))
  }

  /** `index` lists exactly the users with resting orders, each with exactly their oids. */
  ghost predicate IndexAgrees(index: map<Address, set<u64>>, m: Orders) {
    && index.Keys == Users(m)
    && forall u :: u in index ==> index[u] == UserOids(m, u)
  }

  /** Read pointwise: an order sits in one level, the one of its own side and key, and in its
      owner's entry of the index; no level and no index entry is empty. */
  lemma ViewsPointwise(bids: Levels, asks: Levels, index: map<Address, set<u64>>, m: Orders)
    requires LevelsAgree(bids, m, Bid) && LevelsAgree(asks, m, Ask) && IndexAgrees(index, m)
    ensures forall oid, k :: oid in m && k in bids ==>
              (oid in bids[k].oids <==> m[oid].side.Bid? && k == m[oid].Key())
    ensures forall oid, k :: oid in m && k in asks ==>
              (oid in asks[k].oids <==> m[oid].side.Ask? && k == m[oid].Key())
    ensures forall oid :: oid in m ==> m[oid].Key() in (if m[oid].side.Bid? then bids else asks)
    ensures forall oid, u :: oid in m && u in index ==> (oid in index[u] <==> u == m[oid].user)
    ensures (forall k :: k in bids ==> bids[k].oids != {}) && (forall k :: k in asks ==> asks[k].oids != {})
    ensures forall u :: u in index ==> index[u] != {}
  {
    forall k | k in bids ensures bids[k].oids != {} { LevelHasOids(m, Bid, k); }
    forall k | k in asks ensures asks[k].oids != {} { LevelHasOids(m, Ask, k); }
    forall oid | oid in m ensures m[oid].Key() in (if m[oid].side.Bid? then bids else asks) {
      assert m[oid].Key() in LevelKeys(m, m[oid].side);
    }
    forall u | u in index ensures index[u] != {} {
      var oid :| oid in m && m[oid].user == u;
      assert oid in index[u];
    }
  }

  function LevelAt(levels: Levels, k: int): BookLevel {
    if k in levels then levels[k] else BookLevel(0, 0, {})
  }

  /** First order of the first level, found the way `top_order` finds it. */
  function TopOf(levels: Levels, m: Orders): Option<u64> {
    if levels.Keys == {} then None
    else
      var first := levels[MinOf(levels.Keys)].firstOid;
      if first in m then Some(m[first].oid) else None
  }

  /** Price of the first level, recovered from its key. */
  function BestOf(levels: Levels, side: Side): Option<u64> {
    if levels.Keys == {} then None else Some(side.PxFromKey(MinOf(levels.Keys)))
  }

  lemma KeyRoundTrip(side: Side, px: u64)
    ensures side.PxFromKey(side.LevelKey(px)) == px
  {
  }

  lemma EmptySideNoLevels(m: Orders, side: Side)
    ensures SideOids(m, side) == {} <==> LevelKeys(m, side) == {}
  {
    if SideOids(m, side) != {} { NonEmptySideHasLevels(m, side); }
    if LevelKeys(m, side) != {} {
      var k := Pick(LevelKeys(m, side));
      LevelHasOids(m, side, k);
      var oid := Pick(OidsAt(m, side, k));
      assert oid in SideOids(m, side);
    }
  }

  /** What the levels say is first is the true front of the side. */
  lemma TopFromLevels(levels: Levels, m: Orders, side: Side)
    requires WellKeyed(m) && LevelsAgree(levels, m, side)
    ensures TopOf(levels, m) == Top(m, side)
    ensures BestOf(levels, side) == BestPx(m, side)
    ensures levels.Keys != {} ==>
              && SideOids(m, side) != {}
              && MinOf(levels.Keys) == m[TopOid(m, side)].Key()
              && levels[MinOf(levels.Keys)].oids != {}
              && MinOf(levels[MinOf(levels.Keys)].oids) == TopOid(m, side)
  {
    EmptySideNoLevels(m, side);
    if levels.Keys != {} {
      var k := MinOf(levels.Keys);
      LevelHasOids(m, side, k);
      assert levels[k] == LevelOf(OidsAt(m, side, k));
      assert TopOid(m, side) == MinOf(OidsAt(m, side, k));
      KeyRoundTrip(side, m[TopOid(m, side)].limitPx);
    }
  }

  /** Where the levels point a matching loop. */
  lemma FrontOfLevels(levels: Levels, m: Orders, side: Side)
    requires WellKeyed(m) && LevelsAgree(levels, m, side)
    ensures SideOids(m, side) == {} <==> BestPx(m, side).None?
    ensures SideOids(m, side) != {} ==>
              var t := TopOid(m, side);
              var k := side.LevelKey(m[t].limitPx);
              && BestPx(m, side) == Some(m[t].limitPx) && m[t].oid == t
              && k in levels && levels[k].oids != {} && MinOf(levels[k].oids) == t
  {
    EmptySideNoLevels(m, side);
    TopFromLevels(levels, m, side);
  }

  lemma KeysAfterInsert(m: Orders, o: BookOrder, side: Side)
    requires o.oid !in m
    ensures LevelKeys(m[o.oid := o], side) == LevelKeys(m, side) + (if side == o.side then {o.Key()} else {})
    ensures forall k :: OidsAt(m[o.oid := o], side, k) ==
                        OidsAt(m, side, k) + (if side == o.side && k == o.Key() then {o.oid} else {})
  {
    var m' := m[o.oid := o];
    forall k | k in LevelKeys(m, side) ensures k in LevelKeys(m', side) {
      var x :| x in m && m[x].side == side && m[x].Key() == k;
      assert x in m' && m'[x].Key() == k;
    }
    forall k | k in LevelKeys(m', side) ensures k in LevelKeys(m, side) || (side == o.side && k == o.Key()) {
      var x :| x in m' && m'[x].side == side && m'[x].Key() == k;
      assert x != o.oid ==> x in m && m[x].Key() == k;
    }
    if side == o.side { assert m'[o.oid].Key() in LevelKeys(m', side); }
  }

  lemma AbsentLevelEmpty(m: Orders, side: Side, k: int)
    requires k !in LevelKeys(m, side)
    ensures OidsAt(m, side, k) == {}
  {
    assert forall x :: x in OidsAt(m, side, k) ==> m[x].Key() in LevelKeys(m, side);
  }

  lemma LevelsAfterInsert(levels: Levels, m: Orders, o: BookOrder, side: Side)
    requires LevelsAgree(levels, m, side) && o.oid !in m
    ensures LevelsAgree(if side == o.side then levels[o.Key() := LevelAt(levels, o.Key()).Insert(o.oid)] else levels,
                        m[o.oid := o], side)
  {
    hide LevelKeys, OidsAt;
    var m' := m[o.oid := o];
    var k := o.Key();
    KeysAfterInsert(m, o, side);
    if side == o.side {
      var levels' := levels[k := LevelAt(levels, k).Insert(o.oid)];
      if k !in levels { AbsentLevelEmpty(m, side, k); }
      assert OidsAt(m', side, k) == LevelAt(levels, k).oids + {o.oid};
      forall j | j in levels' ensures levels'[j] == LevelOf(OidsAt(m', side, j)) {
        OidsAfterInsert(m, o, side, j);
      }
    } else {
      forall j | j in levels ensures levels[j] == LevelOf(OidsAt(m', side, j)) {
        OidsAfterInsert(m, o, side, j);
      }
    }
  }

  lemma OidsAfterInsert(m: Orders, o: BookOrder, side: Side, k: int)
    requires o.oid !in m
    ensures OidsAt(m[o.oid := o], side, k) ==
            if side == o.side && k == o.Key() then OidsAt(m, side, k) + {o.oid} else OidsAt(m, side, k)
  {
  }

  function LevelsWithout(levels: Levels, k: int, oid: u64): Levels
    requires k in levels
  {
    if levels[k].Remove(oid).oids == {} then levels - {k} else levels[k := levels[k].Remove(oid)]
  }

  lemma KeysAfterRemove(m: Orders, oid: u64, rest: set<u64>)
    requires oid in m && rest == OidsAt(m, m[oid].side, m[oid].Key()) - {oid}
    ensures LevelKeys(m - {oid}, m[oid].side) ==
            LevelKeys(m, m[oid].side) - (if rest == {} then {m[oid].Key()} else {})
  {
    var o := m[oid];
    var m' := m - {oid};
    forall k | k in LevelKeys(m, o.side) && (rest != {} || k != o.Key())
      ensures k in LevelKeys(m', o.side)
    {
      var x :| x in m && m[x].side == o.side && m[x].Key() == k;
      if k == o.Key() {
        var y := Pick(rest);
        assert y in m' && m'[y].Key() == k;
      } else {
        assert x in m' && m'[x].Key() == k;
      }
    }
    forall k | k in LevelKeys(m', o.side)
      ensures k in LevelKeys(m, o.side) && (rest != {} || k != o.Key())
    {
      var x :| x in m' && m'[x].side == o.side && m'[x].Key() == k;
      assert m[x] == m'[x];
      if k == o.Key() { assert x in rest; }
    }
  }

  lemma OtherKeysAfterRemove(m: Orders, oid: u64, side: Side)
    requires oid in m && side != m[oid].side
    ensures LevelKeys(m - {oid}, side) == LevelKeys(m, side)
  {
    var m' := m - {oid};
    forall k | k in LevelKeys(m, side) ensures k in LevelKeys(m', side) {
      var x :| x in m && m[x].side == side && m[x].Key() == k;
      assert x in m' && m'[x].Key() == k;
    }
    forall k | k in LevelKeys(m', side) ensures k in LevelKeys(m, side) {
      var x :| x in m' && m'[x].side == side && m'[x].Key() == k;
      assert x in m && m[x].Key() == k;
    }
  }

  lemma OidsAfterRemove(m: Orders, oid: u64, side: Side, k: int)
    requires oid in m
    ensures OidsAt(m - {oid}, side, k) ==
            if side == m[oid].side && k == m[oid].Key() then OidsAt(m, side, k) - {oid} else OidsAt(m, side, k)
  {
  }

  lemma LevelsAfterRemove(levels: Levels, m: Orders, oid: u64, side: Side)
    requires LevelsAgree(levels, m, side) && oid in m
    ensures side == m[oid].side ==> m[oid].Key() in levels
    ensures LevelsAgree(if side == m[oid].side then LevelsWithout(levels, m[oid].Key(), oid) else levels,
                        m - {oid}, side)
  {
    var m' := m - {oid};
    var k := m[oid].Key();
    if side == m[oid].side {
      assert k in LevelKeys(m, side);
      var levels' := LevelsWithout(levels, k, oid);
      KeysAfterRemove(m, oid, levels[k].oids - {oid});
      forall j | j in levels' ensures levels'[j] == LevelOf(OidsAt(m', side, j)) {
        OidsAfterRemove(m, oid, side, j);
      }
    } else {
      OtherKeysAfterRemove(m, oid, side);
      forall j | j in levels ensures levels[j] == LevelOf(OidsAt(m', side, j)) {
        OidsAfterRemove(m, oid, side, j);
      }
    }
  }

  /** Changing only the size of a resting order moves nothing between views. */
  lemma ViewsAfterResize(m: Orders, oid: u64, sz: u64)
    requires oid in m
    ensures var m' := m[oid := m[oid].(restingSz := sz)];
      && (forall side :: LevelKeys(m', side) == LevelKeys(m, side) && SideOids(m', side) == SideOids(m, side))
      && (forall side, k :: OidsAt(m', side, k) == OidsAt(m, side, k))
      && Users(m') == Users(m)
      && (forall u :: UserOids(m', u) == UserOids(m, u))
  {
    var m' := m[oid := m[oid].(restingSz := sz)];
    assert forall x :: x in m ==> m'[x].side == m[x].side && m'[x].Key() == m[x].Key() && m'[x].user == m[x].user;
  }

  lemma IndexAfterInsert(index: map<Address, set<u64>>, m: Orders, o: BookOrder)
    requires IndexAgrees(index, m) && o.oid !in m
    ensures IndexAgrees(index[o.user := (if o.user in index then index[o.user] else {}) + {o.oid}], m[o.oid := o])
  {
    var m' := m[o.oid := o];
    UsersAfterInsert(m, o);
    var index' := index[o.user := (if o.user in index then index[o.user] else {}) + {o.oid}];
    assert forall oid :: oid in m ==> m[oid].user in Users(m);
    hide Users;
    forall u | u in index' ensures index'[u] == UserOids(m', u) {
      assert UserOids(m', u) == if u == o.user then UserOids(m, u) + {o.oid} else UserOids(m, u);
    }
  }

  lemma UsersAfterInsert(m: Orders, o: BookOrder)
    requires o.oid !in m
    ensures Users(m[o.oid := o]) == Users(m) + {o.user}
  {
    var m' := m[o.oid := o];
    assert forall oid :: oid in m ==> m'[oid] == m[oid];
    assert m'[o.oid].user in Users(m');
  }

  /** The index yields a user's oids in cancelling order. */
  lemma IndexQueue(index: map<Address, set<u64>>, m: Orders, user: Address)
    requires IndexAgrees(index, m)
    ensures UserQueue(m, user) == if user in index then Ascending(index[user]) else []
    ensures forall j :: 0 <= j < |UserQueue(m, user)| ==>
              UserQueue(m, user)[j] in m && m[UserQueue(m, user)[j]].user == user
  {
    var q := UserQueue(m, user);
    assert forall j :: 0 <= j < |q| ==> q[j] in UserOids(m, user);
    assert forall oid :: oid in m ==> m[oid].user in Users(m);
  }

  function IndexWithout(index: map<Address, set<u64>>, user: Address, oid: u64): map<Address, set<u64>>
    requires user in index
  {
    if index[user] - {oid} == {} then index - {user} else index[user := index[user] - {oid}]
  }

  lemma IndexAfterRemove(index: map<Address, set<u64>>, m: Orders, oid: u64)
    requires IndexAgrees(index, m) && oid in m
    ensures m[oid].user in index
    ensures IndexAgrees(IndexWithout(index, m[oid].user, oid), m - {oid})
  {
    var m' := m - {oid};
    var user := m[oid].user;
    assert user in Users(m);
    forall u ensures UserOids(m', u) == UserOids(m, u) - {oid} {}
    forall u | u != user ensures UserOids(m', u) == UserOids(m, u) {}
    forall u ensures u in Users(m') <==> u in Users(m) && UserOids(m, u) - {oid} != {} {
      if u in Users(m') {
        var x :| x in m' && m'[x].user == u;
        assert m[x] == m'[x] && x in UserOids(m, u) - {oid};
      }
      if u in Users(m) && UserOids(m, u) - {oid} != {} {
        var x := Pick(UserOids(m, u) - {oid});
        assert x in m' && m'[x].user == u;
      }
    }
    forall u | u in Users(m) && u != user ensures u in Users(m') {
      var x :| x in m && m[x].user == u;
      assert x in m' && m'[x] == m[x];
    }
  }

  /** Inserting, removing or resizing on one side leaves the front of the other alone. */
  lemma OtherSideFront(m: Orders, o: BookOrder)
    ensures o.oid !in m ==> Top(m[o.oid := o], o.side.Opposite()) == Top(m, o.side.Opposite())
    ensures o.oid in m && m[o.oid] == o ==> Top(m - {o.oid}, o.side.Opposite()) == Top(m, o.side.Opposite())
  {
    var side := o.side.Opposite();
    if o.oid !in m {
      var m' := m[o.oid := o];
      assert SideOids(m', side) == SideOids(m, side);
      SameFront(m, m', side);
    } else if m[o.oid] == o {
      var m' := m - {o.oid};
      assert SideOids(m', side) == SideOids(m, side);
      SameFront(m, m', side);
    }
  }

  lemma FrontAfterResize(m: Orders, oid: u64, sz: u64, side: Side)
    requires oid in m
    ensures Top(m[oid := m[oid].(restingSz := sz)], side) == Top(m, side)
  {
    var m' := m[oid := m[oid].(restingSz := sz)];
    assert SideOids(m', side) == SideOids(m, side);
    SameFront(m, m', side);
  }

  lemma LevelsAfterResize(levels: Levels, m: Orders, oid: u64, sz: u64, side: Side)
    requires oid in m && LevelsAgree(levels, m, side)
    ensures LevelsAgree(levels, m[oid := m[oid].(restingSz := sz)], side)
  {
    ViewsAfterResize(m, oid, sz);
    var m' := m[oid := m[oid].(restingSz := sz)];
    assert LevelKeys(m', side) == LevelKeys(m, side);
    forall k | k in levels ensures levels[k] == LevelOf(OidsAt(m', side, k)) {
      assert OidsAt(m', side, k) == OidsAt(m, side, k);
    }
  }

  lemma IndexAfterResize(index: map<Address, set<u64>>, m: Orders, oid: u64, sz: u64)
    requires oid in m && IndexAgrees(index, m)
    ensures IndexAgrees(index, m[oid := m[oid].(restingSz := sz)])
  {
    ViewsAfterResize(m, oid, sz);
    var m' := m[oid := m[oid].(restingSz := sz)];
    assert Users(m') == Users(m);
    forall u | u in index ensures index[u] == UserOids(m', u) {
      assert UserOids(m', u) == UserOids(m, u);
    }
  }
}
