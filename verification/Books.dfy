/** Cancelling a user's orders, in one book and across the books of a domain. */
module BookCancelling {
  import opened Common
  import opened OrderedSets
  import opened BookModel

  /** Total size of the first `n` of some resting oids. */
  ghost function OidDepth(m: Orders, q: seq<u64>, n: nat): nat
    requires n <= |q| && DistinctIn(m, q)
  {
    if n == 0 then 0 else OidDepth(m, q, n - 1) + m[q[n - 1]].restingSz
  }

  ghost predicate DistinctIn(m: Orders, q: seq<u64>) {
    && (forall i :: 0 <= i < |q| ==> q[i] in m)
    && (forall i, j :: 0 <= i < j < |q| ==> q[i] != q[j])
  }

  lemma {:induction false} OidDepthTail(m: Orders, q: seq<u64>, n: nat)
    requires DistinctIn(m, q) && 0 < n <= |q|
    ensures DistinctIn(m - {q[0]}, q[1..])
    ensures OidDepth(m, q, n) == m[q[0]].restingSz + OidDepth(m - {q[0]}, q[1..], n - 1)
  {
    if n == 1 {
      assert OidDepth(m, q, 0) == 0 && OidDepth(m - {q[0]}, q[1..], 0) == 0;
    } else {
      OidDepthTail(m, q, n - 1);
      assert q[1..][n - 2] == q[n - 1];
    }
  }

  lemma {:induction false} OidDepthGrows(m: Orders, q: seq<u64>, i: nat, n: nat)
    requires DistinctIn(m, q) && i <= n <= |q|
    ensures OidDepth(m, q, i) <= OidDepth(m, q, n)
    decreases n
  {
    if i < n { OidDepthGrows(m, q, i, n - 1); }
  }

  /** `m'` is `m` after cancelling along `q`: an order goes whole exactly when the orders
      before it do not cover the request, and no other order is touched. */
  ghost predicate CutAlong(m: Orders, q: seq<u64>, max: u64, m': Orders)
    requires DistinctIn(m, q)
  {
    && m'.Keys <= m.Keys && (forall oid :: oid in m' ==> m'[oid] == m[oid])
    && (forall oid :: oid in m && oid !in q ==> oid in m')
    && (forall i :: 0 <= i < |q| ==> (q[i] in m' <==> max <= OidDepth(m, q, i)))
  }

  /** The counted size is exactly the lesser of what was asked and what rests. */
  lemma {:induction false} CancelFromExact(m: Orders, q: seq<u64>, max: u64)
    requires DistinctIn(m, q)
    ensures var (m', c) := CancelFrom(m, q, max);
      c == Min(max, OidDepth(m, q, |q|)) && CutAlong(m, q, max, m')
    decreases |q|
  {
    hide CancelFrom, CutAlong, DistinctIn;
    CancelFromUnfolds(m, q, max);
    if q == [] || max == 0 {
      CutNothing(m, q, max);
    } else {
      OidDepthTail(m, q, |q|);
      HeadIn(m, q);
      CancelFromExact(m - {q[0]}, q[1..], max - Min(m[q[0]].restingSz, max));
      CutShift(m, q, max, CancelFrom(m, q, max).0);
    }
  }

  lemma HeadIn(m: Orders, q: seq<u64>)
    requires DistinctIn(m, q) && q != []
    ensures q[0] in m
  {
  }

  lemma CutNothing(m: Orders, q: seq<u64>, max: u64)
    requires DistinctIn(m, q) && (q == [] || max == 0)
    ensures CutAlong(m, q, max, m) && Min(max, OidDepth(m, q, |q|)) == 0
  {
  }

  lemma CutShift(m: Orders, q: seq<u64>, max: u64, m': Orders)
    requires DistinctIn(m, q) && q != [] && max != 0
    requires DistinctIn(m - {q[0]}, q[1..])
    requires CutAlong(m - {q[0]}, q[1..], max - Min(m[q[0]].restingSz, max), m')
    ensures CutAlong(m, q, max, m')
  {
    forall i | 0 <= i < |q| ensures q[i] in m' <==> max <= OidDepth(m, q, i) {
      if i > 0 {
        OidDepthTail(m, q, i);
        assert q[1..][i - 1] == q[i];
      } else {
        assert OidDepth(m, q, 0) == 0;
      }
    }
    forall oid | oid in m && oid !in q ensures oid in m' {
      assert oid !in q[1..];
    }
  }

  lemma UserQueueDistinct(m: Orders, user: Address)
    ensures DistinctIn(m, UserQueue(m, user))
    ensures forall i :: 0 <= i < |UserQueue(m, user)| ==> m[UserQueue(m, user)[i]].user == user
  {
    var q := UserQueue(m, user);
    assert forall i :: 0 <= i < |q| ==> q[i] in UserOids(m, user);
  }

  /** Everything a user has resting in one book. */
  ghost function UserDepth(m: Orders, user: Address): nat {
    UserQueueDistinct(m, user);
    OidDepth(m, UserQueue(m, user), |UserQueue(m, user)|)
  }

  lemma CancelUserExact(m: Orders, user: Address, max: u64)
    ensures var (m', c) := CancelUser(m, user, max);
      && c == Min(max, UserDepth(m, user))
      && m'.Keys <= m.Keys && (forall oid :: oid in m' ==> m'[oid] == m[oid])
      && (forall oid :: oid in m && m[oid].user != user ==> oid in m')
  {
    hide CancelFrom, UserQueue;
    UserQueueDistinct(m, user);
    CancelFromExact(m, UserQueue(m, user), max);
    assert forall oid :: oid in UserQueue(m, user) ==> m[oid].user == user;
  }

  /** Strictly ascending sequences with the same members are equal. */
  lemma {:induction false} AscendingUnique(a: seq<u64>, b: seq<u64>)
    requires StrictlyAscending(a) && StrictlyAscending(b)
    requires forall x :: x in a <==> x in b
    ensures a == b
    decreases |a|
  {
    if a == [] {
      assert forall i :: 0 <= i < |b| ==> b[i] in a;
    } else {
      assert a[0] in b && b != [] && b[0] in a;
      assert a[0] == b[0];
      forall x ensures x in a[1..] <==> x in b[1..] {
        TailMember(a, x);
        TailMember(b, x);
      }
      AscendingUnique(a[1..], b[1..]);
    }
  }

  lemma TailMember(a: seq<u64>, x: int)
    requires a != [] && StrictlyAscending(a)
    ensures x in a[1..] <==> x in a && x != a[0]
  {
    if x in a && x != a[0] {
      var i :| 0 <= i < |a| && a[i] == x;
      assert a[1..][i - 1] == x;
    }
  }

  /** What really leaves the book when a user is cancelled: the orders before the cut. */
  lemma SizeGone(m: Orders, q: seq<u64>, max: u64, n: nat)
    requires DistinctIn(m, q) && n <= |q|
    requires n < |q| ==> OidDepth(m, q, n) >= max
    requires n > 0 ==> OidDepth(m, q, n - 1) < max
    ensures var m' := CancelFrom(m, q, max).0;
      && (forall i :: 0 <= i < |q| ==> (q[i] in m' <==> n <= i))
      && m'.Keys <= m.Keys && (forall oid :: oid in m' ==> m'[oid] == m[oid])
  {
    hide CancelFrom, DistinctIn, OidDepth;
    CancelFromExact(m, q, max);
    forall i | 0 <= i < |q| ensures q[i] in CancelFrom(m, q, max).0 <==> n <= i {
      if n <= i { OidDepthGrows(m, q, n, i); } else { OidDepthGrows(m, q, i, n - 1); }
    }
  }

  /** How many orders a cancellation takes. */
  ghost function CutPoint(m: Orders, q: seq<u64>, max: u64, n: nat): (k: nat)
    requires DistinctIn(m, q) && n <= |q|
    requires n > 0 ==> OidDepth(m, q, n - 1) < max
    ensures k <= |q| && (k < |q| ==> OidDepth(m, q, k) >= max) && (k > 0 ==> OidDepth(m, q, k - 1) < max)
    decreases |q| - n
  {
    if n == |q| || OidDepth(m, q, n) >= max then n else CutPoint(m, q, max, n + 1)
  }

  lemma {:induction false} OidDepthSplit(m: Orders, m': Orders, q: seq<u64>, k: nat, n: nat)
    requires DistinctIn(m, q) && k <= n <= |q| && DistinctIn(m', q[k..])
    requires forall i :: k <= i < |q| ==> q[i] in m' && m'[q[i]] == m[q[i]]
    ensures OidDepth(m, q, n) == OidDepth(m, q, k) + OidDepth(m', q[k..], n - k)
    decreases n
  {
    if n > k {
      OidDepthSplit(m, m', q, k, n - 1);
      assert q[k..][n - k - 1] == q[n - 1];
    }
  }

  /** The count can fall short of the size removed, because the last order goes whole. The
      two agree exactly when the request covers everything or falls on an order boundary. */
  lemma CancelCountsRemovedIff(m: Orders, user: Address, max: u64)
    ensures var (m', c) := CancelUser(m, user, max);
      var q := UserQueue(m, user);
      DistinctIn(m, q) &&
      (UserDepth(m, user) - UserDepth(m', user) == c <==>
         max >= UserDepth(m, user) || exists i :: 0 <= i <= |q| && OidDepth(m, q, i) == max)
  {
    hide CancelFrom, UserQueue, DistinctIn, CutAlong, UserDepth;
    var q := UserQueue(m, user);
    UserQueueDistinct(m, user);
    var k := CutPoint(m, q, max, 0);
    CancelFromExact(m, q, max);
    UserDepthAfterCut(m, user, max, k);
    forall i | 0 <= i < k ensures OidDepth(m, q, i) < max { OidDepthGrows(m, q, i, k - 1); }
    forall i | k <= i <= |q| ensures OidDepth(m, q, k) <= OidDepth(m, q, i) { OidDepthGrows(m, q, k, i); }
    UserDepthIs(m, user);
  }

  lemma UserDepthIs(m: Orders, user: Address)
    ensures DistinctIn(m, UserQueue(m, user))
    ensures UserDepth(m, user) == OidDepth(m, UserQueue(m, user), |UserQueue(m, user)|)
  {
    UserQueueDistinct(m, user);
  }

  lemma UserDepthAfterCut(m: Orders, user: Address, max: u64, k: nat)
    requires DistinctIn(m, UserQueue(m, user)) && k <= |UserQueue(m, user)|
    requires k < |UserQueue(m, user)| ==> OidDepth(m, UserQueue(m, user), k) >= max
    requires k > 0 ==> OidDepth(m, UserQueue(m, user), k - 1) < max
    ensures UserDepth(m, user) == OidDepth(m, UserQueue(m, user), k) + UserDepth(CancelUser(m, user, max).0, user)
  {
    hide CancelFrom, UserQueue, UserDepth;
    var q, m' := UserQueue(m, user), CancelUser(m, user, max).0;
    SizeGone(m, q, max, k);
    QueueAfterCut(m, m', user, k);
    UserDepthIs(m, user);
    UserDepthIs(m', user);
    OidDepthSplit(m, m', q, k, |q|);
  }

  lemma QueueAfterCut(m: Orders, m': Orders, user: Address, k: nat)
    requires k <= |UserQueue(m, user)|
    requires m'.Keys <= m.Keys && (forall oid :: oid in m' ==> m'[oid] == m[oid])
    requires forall i :: 0 <= i < |UserQueue(m, user)| ==> (UserQueue(m, user)[i] in m' <==> k <= i)
    ensures UserQueue(m', user) == UserQueue(m, user)[k..]
  {
    hide UserQueue;
    var q, q' := UserQueue(m, user), UserQueue(m', user);
    UserQueueDistinct(m, user);
    forall x ensures x in q' <==> x in q[k..] {
      if x in q' {
        assert x in UserOids(m', user) && x in UserOids(m, user);
        var i :| 0 <= i < |q| && q[i] == x;
        assert q[k..][i - k] == x;
      }
      if x in q[k..] {
        var i :| 0 <= i < |q[k..]| && q[k..][i] == x;
        assert q[i + k] == x && x in m' && x in UserOids(m', user);
      }
    }
    AscendingUnique(q', q[k..]);
  }

  /** One order of size 10, asked for 3: 3 is reported and 10 leaves. */
  lemma CancelCanUndercount() returns (m: Orders, user: Address, max: u64)
    ensures var (m', c) := CancelUser(m, user, max);
      c == 3 && UserDepth(m, user) == 10 && UserDepth(m', user) == 0
  {
    user, max := 7, 3;
    m := map[1 := BookOrder(1, 7, Bid, 5, 10, false, None, 0, [])];
    var q := UserQueue(m, user);
    assert UserOids(m, user) == {1};
    AscendingUnique(q, [1]);
    UserQueueDistinct(m, user);
    assert OidDepth(m, q, 1) == OidDepth(m, q, 0) + 10;
    CancelFromExact(m, q, max);
    var m' := CancelUser(m, user, max).0;
    assert OidDepth(m, q, 0) == 0;
    assert UserOids(m', user) == {};
    var q' := UserQueue(m', user);
    assert q' == [];
  }

  lemma CancelUserCount(m: Orders, user: Address, max: u64)
    ensures CancelUser(m, user, max).1 == Min(max, UserDepth(m, user))
  {
    hide CancelUser;
    CancelUserExact(m, user, max);
  }

  lemma CancelUserNothing(m: Orders, user: Address)
    ensures CancelUser(m, user, 0) == (m, 0)
  {
  }

  /** Total a user has resting in the first `n` books. */
  ghost function UserDepths(ms: seq<Orders>, user: Address, n: nat): nat
    requires n <= |ms|
  {
    if n == 0 then 0 else UserDepths(ms, user, n - 1) + UserDepth(ms[n - 1], user)
  }

  lemma {:induction false} UserDepthsGrow(ms: seq<Orders>, user: Address, i: nat, n: nat)
    requires i <= n <= |ms|
    ensures UserDepths(ms, user, i) <= UserDepths(ms, user, n)
    decreases n
  {
    if i < n { UserDepthsGrow(ms, user, i, n - 1); }
  }
}

module BooksState {
  import opened Common
  import opened BookModel
  import opened BookViews
  import opened BookCancelling
  import opened BookState

  datatype BookDomain = MainPerp | PerpDex | Spot

  /** All collections one after the other. */
  function Flatten<T>(cs: seq<seq<T>>): seq<T> {
    if cs == [] then [] else cs[0] + Flatten(cs[1..])
  }

  /** How many elements stand before collection `i`. */
  ghost function Start<T>(cs: seq<seq<T>>, i: nat): nat
    requires i <= |cs|
  {
    if i == 0 then 0 else |cs[0]| + Start(cs[1..], i - 1)
  }

  /** Flattening visits the places in collection order, then in order within the collection. */
  lemma {:induction false} FlattenAt<T>(cs: seq<seq<T>>, i: nat, j: nat)
    requires i < |cs| && j < |cs[i]|
    ensures Start(cs, i) + j < |Flatten(cs)| && Flatten(cs)[Start(cs, i) + j] == cs[i][j]
    decreases i
  {
    if i > 0 { FlattenAt(cs[1..], i - 1, j); }
  }

  /** Every position of the flat list is one place in the collections. */
  lemma {:induction false} FlattenFrom<T>(cs: seq<seq<T>>, k: nat) returns (i: nat, j: nat)
    requires k < |Flatten(cs)|
    ensures i < |cs| && j < |cs[i]| && k == Start(cs, i) + j
    decreases |cs|
  {
    if k < |cs[0]| {
      i, j := 0, k;
    } else {
      i, j := FlattenFrom(cs[1..], k - |cs[0]|);
      i := i + 1;
    }
  }

  /** Different places stand at different positions. */
  lemma {:induction false} PlacesOrdered<T>(cs: seq<seq<T>>, i: nat, j: nat)
    requires i < j <= |cs|
    ensures Start(cs, i) + |cs[i]| <= Start(cs, j)
    decreases i
  {
    if i > 0 {
      PlacesOrdered(cs[1..], i - 1, j - 1);
    } else {
      assert Start(cs, j) == |cs[0]| + Start(cs[1..], j - 1);
    }
  }

  /** The user's resting size in the books before place (i, j). */
  ghost function Ahead(ms: seq<seq<Orders>>, user: Address, i: nat, j: nat): nat
    requires i <= |ms| && (if i < |ms| then j <= |ms[i]| else j == 0)
  {
    if i > 0 then UserDepths(ms[0], user, |ms[0]|) + Ahead(ms[1..], user, i - 1, j)
    else if ms == [] then 0
    else UserDepths(ms[0], user, j)
  }

  lemma {:induction false} DepthsConcat(a: seq<Orders>, b: seq<Orders>, user: Address, k: nat)
    requires k <= |b|
    ensures UserDepths(a + b, user, |a| + k) == UserDepths(a, user, |a|) + UserDepths(b, user, k)
    decreases k
  {
    hide UserDepth;
    if k == 0 {
      DepthsPrefix(a, b, user, |a|);
    } else {
      DepthsConcat(a, b, user, k - 1);
    }
  }

  lemma {:induction false} DepthsPrefix(a: seq<Orders>, b: seq<Orders>, user: Address, k: nat)
    requires k <= |a|
    ensures UserDepths(a + b, user, k) == UserDepths(a, user, k)
    decreases k
  {
    hide UserDepth;
    if k > 0 { DepthsPrefix(a, b, user, k - 1); }
  }

  lemma {:induction false} AheadIsFlat(ms: seq<seq<Orders>>, user: Address, i: nat, j: nat)
    requires i <= |ms| && (if i < |ms| then j <= |ms[i]| else j == 0)
    ensures Start(ms, i) + j <= |Flatten(ms)|
    ensures UserDepths(Flatten(ms), user, Start(ms, i) + j) == Ahead(ms, user, i, j)
    decreases i
  {
    hide UserDepths;
    if i > 0 {
      AheadIsFlat(ms[1..], user, i - 1, j);
      DepthsConcat(ms[0], Flatten(ms[1..]), user, Start(ms[1..], i - 1) + j);
    } else if ms != [] {
      DepthsPrefix(ms[0], Flatten(ms[1..]), user, j);
    } else {
      SettledStart(Flatten(ms), user);
    }
  }

  lemma {:induction false} StartAll<T>(cs: seq<seq<T>>)
    ensures Start(cs, |cs|) == |Flatten(cs)|
    decreases |cs|
  {
    if cs != [] { StartAll(cs[1..]); }
  }

  /** What settling does to a domain: the amount is the lesser of the request and the user's
      total over all its books, and each book is cut by what the books before it left uncovered. */
  ghost predicate Settlement(before: seq<seq<Orders>>, after: seq<seq<Orders>>, user: Address, desired: u64, settled: u64) {
    && |after| == |before|
    && settled == Min(desired, Ahead(before, user, |before|, 0))
    && (forall i :: 0 <= i < |before| ==> |after[i]| == |before[i]|)
    && (forall i, j :: 0 <= i < |before| && 0 <= j < |before[i]| ==>
          after[i][j] == CancelUser(before[i][j], user, SatSub(desired, Ahead(before, user, i, j))).0)
  }

  ghost function OrdersOf(books: seq<Book>): (ms: seq<Orders>)
    reads books
    ensures |ms| == |books| && forall i :: 0 <= i < |books| ==> ms[i] == books[i].orders
  {
    seq(|books|, i requires 0 <= i < |books| reads books => books[i].orders)
  }

  /** Each book is owned once and is consistent. */
  ghost predicate Consistent(books: seq<Book>)
    reads books
  {
    && (forall i, j :: 0 <= i < j < |books| ==> books[i] != books[j])
    && (forall i :: 0 <= i < |books| ==> books[i].Valid())
  }

  /** What settling leaves in the `i`-th book: cut by what the books before it left uncovered. */
  ghost function SettledOrders(ms: seq<Orders>, user: Address, desired: u64, i: nat): Orders
    requires i < |ms|
  {
    CancelUser(ms[i], user, SatSub(desired, UserDepths(ms, user, i))).0
  }

  /** Once the request is covered the remaining books stay as they are. */
  lemma SettledLater(ms: seq<Orders>, user: Address, desired: u64, i: nat, j: nat)
    requires i <= j < |ms| && UserDepths(ms, user, i) >= desired
    ensures SettledOrders(ms, user, desired, j) == ms[j]
  {
    UserDepthsGrow(ms, user, i, j);
    CancelUserNothing(ms[j], user);
  }

  lemma SettledStart(ms: seq<Orders>, user: Address)
    ensures UserDepths(ms, user, 0) == 0
  {
  }

  lemma SettledStep(ms: seq<Orders>, user: Address, desired: u64, i: nat)
    requires i < |ms|
    ensures UserDepths(ms, user, i + 1) == UserDepths(ms, user, i) + UserDepth(ms[i], user)
    ensures SettledOrders(ms, user, desired, i) ==
            CancelUser(ms[i], user, SatSub(desired, UserDepths(ms, user, i))).0
  {
  }

  lemma SettledAmount(ms: seq<Orders>, user: Address, desired: u64, i: nat)
    requires i <= |ms| && (i == |ms| || UserDepths(ms, user, i) >= desired)
    ensures desired - SatSub(desired, UserDepths(ms, user, i)) == Min(desired, UserDepths(ms, user, |ms|))
  {
    UserDepthsGrow(ms, user, i, |ms|);
  }

  /** The orders of every book, collection by collection. */
  ghost function OrdersIn(cs: seq<seq<Book>>): (ms: seq<seq<Orders>>)
    reads BookSet(cs)
    ensures |ms| == |cs| && forall i :: 0 <= i < |cs| ==> |ms[i]| == |cs[i]|
    ensures forall i, j :: 0 <= i < |cs| && 0 <= j < |cs[i]| ==> ms[i][j] == cs[i][j].orders
  {
    seq(|cs|, i requires 0 <= i < |cs| reads BookSet(cs) =>
      seq(|cs[i]|, j requires 0 <= j < |cs[i]| reads BookSet(cs) => cs[i][j].orders))
  }

  ghost function BookSet(cs: seq<seq<Book>>): set<Book> {
    set i, j | 0 <= i < |cs| && 0 <= j < |cs[i]| :: cs[i][j]
  }

  /** No book stands in two places. */
  ghost predicate Apart(cs: seq<seq<Book>>) {
    forall i, j, k, l :: 0 <= i < |cs| && 0 <= j < |cs[i]| && 0 <= k < |cs| && 0 <= l < |cs[k]| ==>
      (cs[i][j] == cs[k][l] ==> i == k && j == l)
  }

  /** Each book of the collections is owned once and is consistent. */
  ghost predicate Separate(cs: seq<seq<Book>>)
    reads BookSet(cs)
  {
    Apart(cs) && forall i, j :: 0 <= i < |cs| && 0 <= j < |cs[i]| ==> cs[i][j].Valid()
  }

  lemma FlatBooks(cs: seq<seq<Book>>)
    ensures forall b :: b in Flatten(cs) <==> b in BookSet(cs)
  {
    forall b | b in Flatten(cs) ensures b in BookSet(cs) {
      var k :| 0 <= k < |Flatten(cs)| && Flatten(cs)[k] == b;
      var i, j := FlattenFrom(cs, k);
      FlattenAt(cs, i, j);
    }
    forall b | b in BookSet(cs) ensures b in Flatten(cs) {
      var i, j :| 0 <= i < |cs| && 0 <= j < |cs[i]| && cs[i][j] == b;
      FlattenAt(cs, i, j);
    }
  }

  lemma FlatConsistent(cs: seq<seq<Book>>)
    requires Separate(cs)
    ensures Consistent(Flatten(cs))
  {
    hide Book.Valid;
    var books := Flatten(cs);
    forall k, l | 0 <= k < l < |books| ensures books[k] != books[l] {
      var i, j := FlattenFrom(cs, k);
      var i', j' := FlattenFrom(cs, l);
      FlattenAt(cs, i, j);
      FlattenAt(cs, i', j');
    }
    forall k | 0 <= k < |books| ensures books[k].Valid() {
      var i, j := FlattenFrom(cs, k);
      FlattenAt(cs, i, j);
    }
  }

  lemma SeparateAgain(cs: seq<seq<Book>>)
    requires Apart(cs) && Consistent(Flatten(cs))
    ensures Separate(cs)
  {
    hide Book.Valid, Apart;
    forall i, j | 0 <= i < |cs| && 0 <= j < |cs[i]| ensures cs[i][j].Valid() { FlattenAt(cs, i, j); }
  }

  lemma {:induction false} FlatOrders(cs: seq<seq<Book>>)
    ensures OrdersOf(Flatten(cs)) == Flatten(OrdersIn(cs))
    decreases |cs|
  {
    if cs != [] {
      FlatOrders(cs[1..]);
      forall i | 0 <= i < |cs| - 1 ensures OrdersIn(cs)[1..][i] == OrdersIn(cs[1..])[i] {
        assert forall j :: 0 <= j < |cs[1..][i]| ==> cs[1..][i][j] == cs[i + 1][j];
      }
      assert OrdersIn(cs)[1..] == OrdersIn(cs[1..]);
      assert OrdersOf(cs[0] + Flatten(cs[1..])) == OrdersIn(cs)[0] + OrdersOf(Flatten(cs[1..]));
    }
  }

  lemma {:induction false} SameStarts<A, B>(a: seq<seq<A>>, b: seq<seq<B>>, i: nat)
    requires |a| == |b| && i <= |a| && forall k :: 0 <= k < |a| ==> |a[k]| == |b[k]|
    ensures Start(a, i) == Start(b, i)
    decreases i
  {
    if i > 0 { SameStarts(a[1..], b[1..], i - 1); }
  }

  /** Settling the flat list is settling the collections. */
  lemma SettlementFromFlat(before: seq<seq<Orders>>, after: seq<seq<Orders>>, user: Address, desired: u64, settled: u64)
    requires |after| == |before| && (forall i :: 0 <= i < |before| ==> |after[i]| == |before[i]|)
    requires settled == Min(desired, UserDepths(Flatten(before), user, |Flatten(before)|))
    requires |Flatten(after)| == |Flatten(before)|
    requires forall k :: 0 <= k < |Flatten(before)| ==>
               Flatten(after)[k] == SettledOrders(Flatten(before), user, desired, k)
    ensures Settlement(before, after, user, desired, settled)
  {
    hide CancelUser, UserDepths, Ahead, Start;
    StartAll(before);
    AheadIsFlat(before, user, |before|, 0);
    forall i, j | 0 <= i < |before| && 0 <= j < |before[i]|
      ensures after[i][j] == CancelUser(before[i][j], user, SatSub(desired, Ahead(before, user, i, j))).0
    {
      FlattenAt(before, i, j);
      FlattenAt(after, i, j);
      SameStarts(before, after, i);
      AheadIsFlat(before, user, i, j);
    }
  }

  class Books {
    var mainPerp: seq<seq<Book>>
    var perpDex: seq<seq<Book>>
    var spot: seq<seq<Book>>

    /** Cancels the user book by book until the request is covered, walking the collections of
        the domain's own field and leaving every other book alone. */
    method SettleUserBookEffects(domain: BookDomain, user: Address, desired: u64) returns (settled: u64)
      requires domain.MainPerp? ==> Separate(mainPerp)
      requires domain.PerpDex? ==> Separate(perpDex)
      requires domain.Spot? ==> Separate(spot)
      modifies BookSet(mainPerp) + BookSet(perpDex) + BookSet(spot)
      ensures domain.MainPerp? ==>
                && Separate(mainPerp) && Settlement(old(OrdersIn(mainPerp)), OrdersIn(mainPerp), user, desired, settled)
                && forall b :: b in BookSet(perpDex) + BookSet(spot) - BookSet(mainPerp) ==> unchanged(b)
      ensures domain.PerpDex? ==>
                && Separate(perpDex) && Settlement(old(OrdersIn(perpDex)), OrdersIn(perpDex), user, desired, settled)
                && forall b :: b in BookSet(mainPerp) + BookSet(spot) - BookSet(perpDex) ==> unchanged(b)
      ensures domain.Spot? ==>
                && Separate(spot) && Settlement(old(OrdersIn(spot)), OrdersIn(spot), user, desired, settled)
                && forall b :: b in BookSet(mainPerp) + BookSet(perpDex) - BookSet(spot) ==> unchanged(b)
    {
      match domain {
        case MainPerp => settled := SettleCollections(mainPerp, user, desired);
        case PerpDex => settled := SettleCollections(perpDex, user, desired);
        case Spot => settled := SettleCollections(spot, user, desired);
      }
    }
  }

  /** Settles over the flat list of the books of some collections. */
  method SettleCollections(cs: seq<seq<Book>>, user: Address, desired: u64) returns (settled: u64)
    requires Separate(cs)
    modifies BookSet(cs)
    ensures Separate(cs) && Settlement(old(OrdersIn(cs)), OrdersIn(cs), user, desired, settled)
  {
    hide Book.Valid, Apart, Consistent, SettledOrders, UserDepths, Flatten;
    var books := Flatten(cs);
    ghost var before := OrdersIn(cs);
    FlatConsistent(cs);
    FlatBooks(cs);
    FlatOrders(cs);
    settled := SettleOver(books, user, desired);
    FlatOrders(cs);
    SeparateAgain(cs);
    SettlementFromFlat(before, OrdersIn(cs), user, desired, settled);
  }

  /** Cancelling in one book leaves the others alone. */
  method SettleOne(books: seq<Book>, i: nat, user: Address, max: u64) returns (removed: u64)
    requires Consistent(books) && i < |books|
    modifies books[i]
    ensures Consistent(books)
    ensures (books[i].orders, removed) == CancelUser(old(books[i].orders), user, max)
    ensures forall j :: 0 <= j < |books| && j != i ==> books[j].orders == old(books[j].orders)
  {
    hide LevelsAgree, IndexAgrees, Top, WellKeyed, CancelUser;
    removed := books[i].CancelUserUntil(user, max);
  }

  method SettleOver(books: seq<Book>, user: Address, desired: u64) returns (settled: u64)
    requires Consistent(books)
    modifies books
    ensures Consistent(books)
    ensures settled == Min(desired, UserDepths(old(OrdersOf(books)), user, |books|))
    ensures forall i :: 0 <= i < |books| ==> books[i].orders == SettledOrders(old(OrdersOf(books)), user, desired, i)
  {
    hide Consistent, CancelUser, UserDepth, Book.Valid, SettledOrders, UserDepths;
    ghost var ms := OrdersOf(books);
    var remaining: u64 := desired;
    var i := 0;
    SettledStart(ms, user);
    while i < |books| && remaining != 0
      invariant 0 <= i <= |books|
      invariant remaining == SatSub(desired, UserDepths(ms, user, i))
      invariant Consistent(books)
      invariant forall j :: i <= j < |books| ==> books[j].orders == ms[j]
      invariant forall j :: 0 <= j < i ==> books[j].orders == SettledOrders(ms, user, desired, j)
    {
      CancelUserCount(ms[i], user, remaining);
      SettledStep(ms, user, desired, i);
      var removed := SettleOne(books, i, user, remaining);
      remaining := SatSub(remaining, removed);
      i := i + 1;
    }
    if remaining == 0 {
      forall j | i <= j < |books| ensures books[j].orders == SettledOrders(ms, user, desired, j) {
        SettledLater(ms, user, desired, i, j);
      }
    }
    SettledAmount(ms, user, desired, i);
    assert ms == old(OrdersOf(books));
    settled := desired - remaining;
  }
}
