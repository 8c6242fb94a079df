/** Least and greatest elements and iteration order of finite sets of integers: what the
    source gets from its ordered maps and sets. */
module OrderedSets {
  import opened Common

  /** A member of a nonempty set. */
  lemma Pick<T>(s: set<T>) returns (a: T)
    requires s != {}
    ensures a in s
  {
    a :| a in s;
  }

  lemma SameMembers<T>(a: set<T>, b: set<T>)
    requires forall x :: x in a <==> x in b
    ensures a == b
  {
  }

  lemma NoKeys<K, V>(m: map<K, V>)
    requires forall k :: k !in m
    ensures m == map[]
  {
  }

  lemma {:induction false} LeastExists(s: set<int>)
    requires s != {}
    ensures exists m :: m in s && forall x :: x in s ==> m <= x
    decreases |s|
  {
    var a := Pick(s);
    var t := s - {a};
    if t != {} {
      LeastExists(t);
      var b :| b in t && forall x :: x in t ==> b <= x;
      assert forall x :: x in s ==> x == a || x in t;
      var m := Min(a, b);
      assert m in s && forall x :: x in s ==> m <= x;
    } else {
      assert forall x :: x in s ==> x == a || x in t;
    }
  }

  lemma {:induction false} GreatestExists(s: set<int>)
    requires s != {}
    ensures exists m :: m in s && forall x :: x in s ==> x <= m
    decreases |s|
  {
    var a := Pick(s);
    var t := s - {a};
    if t != {} {
      GreatestExists(t);
      var b :| b in t && forall x :: x in t ==> x <= b;
      assert forall x :: x in s ==> x == a || x in t;
      var m := Max(a, b);
      assert m in s && forall x :: x in s ==> x <= m;
    } else {
      assert forall x :: x in s ==> x == a || x in t;
    }
  }

  /** First element of an ordered set. */
  function MinOf(s: set<int>): (m: int)
    requires s != {}
    ensures m in s && forall x :: x in s ==> m <= x
  {
    LeastExists(s);
    var m :| m in s && forall x :: x in s ==> m <= x;
    m
  }

  /** Last element of an ordered set. */
  function MaxOf(s: set<int>): (m: int)
    requires s != {}
    ensures m in s && forall x :: x in s ==> x <= m
  {
    GreatestExists(s);
    var m :| m in s && forall x :: x in s ==> x <= m;
    m
  }

  predicate StrictlyAscending(q: seq<int>) {
    forall i, j :: 0 <= i < j < |q| ==> q[i] < q[j]
  }

  /** The order in which an ordered set is iterated. */
  function Ascending(s: set<int>): (q: seq<int>)
    ensures StrictlyAscending(q)
    ensures forall x :: x in q <==> x in s
    decreases |s|
  {
    if s == {} then []
    else
      var m := MinOf(s);
      var rest := Ascending(s - {m});
      assert forall x :: x in rest ==> m < x;
      [m] + rest
  }
}
