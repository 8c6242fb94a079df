/** The delay queue: pending actions by id, with a running total and per-user counts. */
module DelayModel {
  import opened Common
  import opened OrderedSets

  /** Ids are opaque but ordered; a number stands for one. */
  type ActionId = int

  datatype Action = Action(id: ActionId, isFrontend: bool, expiresAfter: u64, broadcaster: Address, timeReferred: u64) {
    /** Release order: expiry, then referral time, then id. */
    predicate Earlier(b: Action) {
      || expiresAfter < b.expiresAfter
      || (expiresAfter == b.expiresAfter && timeReferred < b.timeReferred)
      || (expiresAfter == b.expiresAfter && timeReferred == b.timeReferred && id < b.id)
    }
  }

  type Actions = map<ActionId, Action>

  datatype QueueError = Disabled | DuplicateAction | MaxDelayedActionsReached | DelayOverflow

  ghost predicate WellKeyed(m: Actions) {
    forall id :: id in m ==> m[id].id == id
  }

  function IdsOf(m: Actions, user: Address): set<ActionId> {
    set id | id in m && m[id].broadcaster == user
  }

  function DueIds(m: Actions, now: u64): set<ActionId> {
    set id | id in m && m[id].expiresAfter <= now
  }

  function ActionsAt(m: Actions, ids: seq<ActionId>): (r: seq<Action>)
    requires forall i :: 0 <= i < |ids| ==> ids[i] in m
    ensures |r| == |ids| && forall i :: 0 <= i < |ids| ==> r[i] == m[ids[i]]
  {
    seq(|ids|, i requires 0 <= i < |ids| => m[ids[i]])
  }

  /** `q` lists the queued ids, each once, earliest first. */
  ghost predicate IsAgeOrder(m: Actions, q: seq<ActionId>) {
    && (forall i :: 0 <= i < |q| ==> q[i] in m)
    && (forall id :: id in m ==> id in q)
    && (forall i, j :: 0 <= i < j < |q| ==> m[q[i]].Earlier(m[q[j]]))
  }

  lemma {:induction false} EarliestExists(m: Actions)
    requires WellKeyed(m) && m != map[]
    ensures exists id :: id in m && forall k :: k in m && k != id ==> m[id].Earlier(m[k])
    decreases |m|
  {
    assert m.Keys != {};
    var a := Pick(m.Keys);
    var rest := m - {a};
    if rest == map[] {
      assert forall k :: k in m ==> k == a || k in rest;
    } else {
      EarliestExists(rest);
      var b :| b in rest && forall k :: k in rest && k != b ==> rest[b].Earlier(rest[k]);
      var id := if m[a].Earlier(m[b]) then a else b;
      forall k | k in m && k != id ensures m[id].Earlier(m[k]) {
        assert k == a || k in rest;
      }
    }
  }

  function Earliest(m: Actions): (id: ActionId)
    requires WellKeyed(m) && m != map[]
    ensures id in m && forall k :: k in m && k != id ==> m[id].Earlier(m[k])
  {
    EarliestExists(m);
    var id :| id in m && forall k :: k in m && k != id ==> m[id].Earlier(m[k]);
    id
  }

  /** The queue sorted for release. */
  function AgeOrder(m: Actions): seq<ActionId>
    requires WellKeyed(m)
    decreases |m|
  {
    if m == map[] then [] else var id := Earliest(m); [id] + AgeOrder(m - {id})
  }

  lemma {:induction false} AgeOrderSorts(m: Actions)
    requires WellKeyed(m)
    ensures IsAgeOrder(m, AgeOrder(m)) && |AgeOrder(m)| == |m|
    decreases |m|
  {
    if m != map[] {
      var id := Earliest(m);
      AgeOrderSorts(m - {id});
      assert m.Keys == (m - {id}).Keys + {id};
      AgeCons(m, id, AgeOrder(m - {id}));
    }
  }

  lemma AgeCons(m: Actions, id: ActionId, q: seq<ActionId>)
    requires id in m && (forall k :: k in m && k != id ==> m[id].Earlier(m[k])) && IsAgeOrder(m - {id}, q)
    ensures IsAgeOrder(m, [id] + q)
  {
    var all, rest := [id] + q, m - {id};
    forall i, j | 0 <= i < j < |all| ensures m[all[i]].Earlier(m[all[j]]) {
      assert all[j] == q[j - 1] && q[j - 1] in rest;
      if i > 0 { assert rest[q[i - 1]].Earlier(rest[q[j - 1]]); }
    }
    forall k | k in m ensures k in all {
      if k != id { assert k in rest; }
    }
  }

  /** The release order is forced: any two sortings agree. */
  lemma {:induction false} AgeOrderUnique(m: Actions, q: seq<ActionId>)
    requires WellKeyed(m) && IsAgeOrder(m, q)
    ensures q == AgeOrder(m)
    decreases |q|
  {
    if q == [] {
      forall k ensures k !in m { assert k in m ==> k in q; }
      NoKeys(m);
    } else {
      hide IsAgeOrder;
      AgeFront(m, q);
      AgeOrderUnique(m - {q[0]}, q[1..]);
    }
  }

  lemma AgeFront(m: Actions, q: seq<ActionId>)
    requires WellKeyed(m) && IsAgeOrder(m, q) && q != []
    ensures m != map[] && q[0] == Earliest(m) && IsAgeOrder(m - {q[0]}, q[1..])
  {
    assert q[0] in m.Keys && m != map[];
    var id, rest := Earliest(m), m - {q[0]};
    var k :| 0 <= k < |q| && q[k] == id;
    assert k > 0 ==> m[q[0]].Earlier(m[q[k]]);
    assert q[0] != id ==> m[id].Earlier(m[q[0]]);
    forall i | 0 <= i < |q[1..]| ensures q[1..][i] in rest { assert m[q[0]].Earlier(m[q[i + 1]]); }
    forall x | x in rest ensures x in q[1..] {
      var i :| 0 <= i < |q| && q[i] == x;
      assert q[1..][i - 1] == x;
    }
  }

  // ----- effects as functions

  /** Queueing stamps the action with its referral time and expiry. */
  function Queued(m: Actions, action: Action, delay: u64, now: u64): Actions
    requires now + delay <= U64_MAX
  {
    m[action.id := action.(timeReferred := now, expiresAfter := now + delay)]
  }

  function Take(q: seq<ActionId>, n: u64): seq<ActionId> {
    if n <= |q| then q[..n] else q
  }

  function SetOf(q: seq<ActionId>): set<ActionId> { set x | x in q }
}

/** What enters and leaves the queue over a whole run. */
module DelayLedger {
  import opened Common
  import opened OrderedSets
  import opened DelayModel

  datatype Queue = Queue(actions: Actions, enabled: bool, maxN: u64)

  datatype Op =
    | QueueOp(action: Action, delay: u64, now: u64)
    | ReleaseDueOp(now: u64)
    | ReleaseOldestOp(n: u64)
    | RemoveOp(id: ActionId)
    | SetEnabledOp(enabled: bool)
    | SetMaxOp(maxN: u64)

  predicate Admits(s: Queue, op: Op) {
    && op.QueueOp? && s.enabled && (s.maxN == 0 || |s.actions| < s.maxN)
    && op.action.id !in s.actions && op.now + op.delay <= U64_MAX
  }

  /** Ids that leave in one operation; each is handed out once. */
  function Leaving(s: Queue, op: Op): set<ActionId>
    requires WellKeyed(s.actions)
  {
    match op
    case ReleaseDueOp(now) => DueIds(s.actions, now)
    case ReleaseOldestOp(n) => SetOf(Take(AgeOrder(s.actions), n))
    case RemoveOp(id) => if id in s.actions then {id} else {}
    case _ => {}
  }

  function Step(s: Queue, op: Op): (s': Queue)
    requires WellKeyed(s.actions)
    ensures WellKeyed(s'.actions)
  {
    if op.QueueOp? then
      if Admits(s, op) then s.(actions := Queued(s.actions, op.action, op.delay, op.now)) else s
    else if op.SetEnabledOp? then s.(enabled := op.enabled)
    else if op.SetMaxOp? then s.(maxN := op.maxN)
    else s.(actions := s.actions - Leaving(s, op))
  }

  /** Operations that take nothing out. */
  predicate Keeps(op: Op) { op.QueueOp? || op.SetEnabledOp? || op.SetMaxOp? }

  /** `out` hands over exactly the queued actions named in `ids`, each once. */
  ghost predicate HandsOut(m: Actions, ids: set<ActionId>, out: seq<Action>) {
    && (forall i :: 0 <= i < |out| ==> out[i].id in ids && out[i].id in m && out[i] == m[out[i].id])
    && (forall i, j :: 0 <= i < j < |out| ==> out[i].id != out[j].id)
    && (forall id :: id in ids && id in m ==> m[id] in out)
  }

  function Run(ops: seq<Op>): (s: Queue)
    ensures WellKeyed(s.actions)
  {
    if ops == [] then Queue(map[], false, 0) else Step(Run(ops[..|ops| - 1]), ops[|ops| - 1])
  }

  /** How often an id was admitted over a run. */
  function Entries(ops: seq<Op>, id: ActionId): nat {
    if ops == [] then 0
    else
      var n := |ops| - 1;
      Entries(ops[..n], id) + if Admits(Run(ops[..n]), ops[n]) && ops[n].action.id == id then 1 else 0
  }

  /** How often an id was released or removed over a run. */
  function Exits(ops: seq<Op>, id: ActionId): nat {
    if ops == [] then 0
    else
      var n := |ops| - 1;
      Exits(ops[..n], id) + if id in Leaving(Run(ops[..n]), ops[n]) then 1 else 0
  }

  lemma LeavingQueued(s: Queue, op: Op)
    requires WellKeyed(s.actions)
    ensures forall id :: id in Leaving(s, op) ==> id in s.actions
  {
    hide AgeOrder;
    AgeOrderSorts(s.actions);
    assert forall id :: id in Take(AgeOrder(s.actions), 0) ==> id in s.actions;
    match op
    case ReleaseOldestOp(n) =>
      var q := AgeOrder(s.actions);
      assert forall id :: id in Take(q, n) ==> id in q;
    case _ =>
  }

  /** Queueing stamps the referral time and the expiry, keeps who sent the action, its id and its
      frontend flag, and touches no other action. */
  lemma QueuedExact(m: Actions, action: Action, delay: u64, now: u64)
    requires now + delay <= U64_MAX
    ensures var m' := Queued(m, action, delay, now);
      && m'.Keys == m.Keys + {action.id}
      && (forall id :: id in m && id != action.id ==> m'[id] == m[id])
      && m'[action.id] == Action(action.id, action.isFrontend, now + delay, action.broadcaster, now)
  {
  }

  /** A queued action is due exactly from its expiry on, and nothing else becomes due by it. */
  lemma DueFromExpiry(m: Actions, action: Action, delay: u64, now: u64, t: u64)
    requires now + delay <= U64_MAX && action.id !in m
    ensures DueIds(Queued(m, action, delay, now), t) ==
            DueIds(m, t) + if t >= now + delay then {action.id} else {}
  {
    var m' := Queued(m, action, delay, now);
    assert forall id :: id in m ==> m'[id] == m[id];
  }

  /** Conservation: every admission is matched by one exit or is still queued, so no queued
      action ever leaves twice. */
  lemma {:induction false} EntriesBalanceExits(ops: seq<Op>, id: ActionId)
    ensures Entries(ops, id) == Exits(ops, id) + if id in Run(ops).actions then 1 else 0
    decreases |ops|
  {
    if ops != [] {
      hide Leaving;
      var n := |ops| - 1;
      EntriesBalanceExits(ops[..n], id);
      LeavingQueued(Run(ops[..n]), ops[n]);
      if Keeps(ops[n]) { QueueingLeavesNone(Run(ops[..n]), ops[n]); }
    }
  }

  lemma QueueingLeavesNone(s: Queue, op: Op)
    requires WellKeyed(s.actions) && Keeps(op)
    ensures Leaving(s, op) == {}
  {
  }

  /** The limit is respected over every run that never changes it once set: the queue holds at
      most `maxN` actions. */
  lemma {:induction false} LimitRespected(ops: seq<Op>, maxN: u64)
    requires maxN != 0 && ops != [] && ops[0] == SetMaxOp(maxN)
    requires forall i :: 0 <= i < |ops| && ops[i].SetMaxOp? ==> ops[i].maxN == maxN
    ensures Run(ops).maxN == maxN && |Run(ops).actions| <= maxN
    decreases |ops|
  {
    var n := |ops| - 1;
    var before := Run(ops[..n]);
    if n == 0 {
      assert ops[..0] == [];
    } else {
      LimitRespected(ops[..n], maxN);
      if ops[n].QueueOp? {
        if Admits(before, ops[n]) {
          assert Run(ops).actions.Keys == before.actions.Keys + {ops[n].action.id};
        }
      } else if !Keeps(ops[n]) {
        Shrinks(before.actions, Leaving(before, ops[n]));
      }
    }
  }

  lemma Shrinks(m: Actions, ids: set<ActionId>)
    ensures |m - ids| <= |m|
  {
    var m' := m - ids;
    assert m'.Keys <= m.Keys;
    SubsetSize(m'.Keys, m.Keys);
  }

  lemma {:induction false} SubsetSize<T>(a: set<T>, b: set<T>)
    requires a <= b
    ensures |a| <= |b|
    decreases |a|
  {
    if a != {} {
      var x := Pick(a);
      SubsetSize(a - {x}, b - {x});
    }
  }

  /** What the oldest-first release leaves behind is later than everything it released: by expiry,
      then by referral time, then by id. */
  lemma OldestAreLeast(m: Actions, n: u64, a: ActionId, b: ActionId)
    requires WellKeyed(m)
    requires a in SetOf(Take(AgeOrder(m), n)) && b in m && b !in SetOf(Take(AgeOrder(m), n))
    ensures a in m && m[a].Earlier(m[b])
    ensures m[a].expiresAfter <= m[b].expiresAfter
    ensures m[a].expiresAfter == m[b].expiresAfter ==> m[a].timeReferred <= m[b].timeReferred
    ensures m[a].expiresAfter == m[b].expiresAfter && m[a].timeReferred == m[b].timeReferred ==> a < b
  {
    hide AgeOrder;
    AgeOrderSorts(m);
    var q := AgeOrder(m);
    var i :| 0 <= i < |Take(q, n)| && Take(q, n)[i] == a;
    assert n < |q| && i < n && q[i] == a;
    forall k | 0 <= k < n ensures q[k] in SetOf(Take(q, n)) { assert q[..n][k] == q[k]; }
    var j :| 0 <= j < |q| && q[j] == b;
  }
}

/** The queue as the object the exchange updates in place. */
module DelayState {
  import opened Common
  import opened OrderedSets
  import opened DelayModel
  import opened DelayLedger

  class ActionDelayer {
    var delayedActions: Actions
    var userToN: map<Address, nat>
    var nTotal: nat
    var maxN: u64
    var enabled: bool

    /** The counters summarise the map exactly, with no zero entries. */
    ghost predicate Valid()
      reads this
    {
      WellKeyed(delayedActions) && nTotal == |delayedActions| && CountsAgree(userToN, delayedActions)
    }

    /** What the run theorems speak about. */
    function View(): Queue
      reads this
    {
      Queue(delayedActions, enabled, maxN)
    }

    constructor ()
      ensures Valid() && delayedActions == map[] && !enabled && maxN == 0
    {
      delayedActions, userToN, nTotal, maxN, enabled := map[], map[], 0, 0, false;
      assert CountsAgree(map[], map[]) by {
        forall u: Address ensures IdsOf(map[], u) == {} {}
      }
    }

    method SetEnabled(on: bool)
      modifies this`enabled
      ensures enabled == on
    {
      enabled := on;
    }

    method SetMaxNDelayedActions(max: u64)
      modifies this`maxN
      ensures maxN == max
    {
      maxN := max;
    }

    method QueueDelayedAction(action: Action, delay: u64, now: u64) returns (r: Result<u64, QueueError>)
      requires Valid()
      modifies this`delayedActions, this`userToN, this`nTotal
      ensures Valid()
      ensures r == if !enabled then Err(Disabled)
                   else if maxN != 0 && |old(delayedActions)| >= maxN then Err(MaxDelayedActionsReached)
                   else if action.id in old(delayedActions) then Err(DuplicateAction)
                   else if now + delay > U64_MAX then Err(DelayOverflow)
                   else Ok(now + delay)
      ensures delayedActions == if r.Ok? then Queued(old(delayedActions), action, delay, now) else old(delayedActions)
    {
      if !enabled { return Err(Disabled); }
      if !(maxN == 0 || nTotal < maxN) { return Err(MaxDelayedActionsReached); }
      if action.id in delayedActions { return Err(DuplicateAction); }
      if now + delay > U64_MAX { return Err(DelayOverflow); }
      var stamped := action.(timeReferred := now, expiresAfter := now + delay);
      var broadcaster := stamped.broadcaster;
      CountsAfterInsert(userToN, delayedActions, stamped);
      delayedActions := delayedActions[stamped.id := stamped];
      userToN := userToN[broadcaster := (if broadcaster in userToN then userToN[broadcaster] else 0) + 1];
      nTotal := nTotal + 1;
      r := Ok(now + delay);
    }

    method NoteActionRemoved(broadcaster: Address)
      modifies this`userToN, this`nTotal
      ensures userToN == CountsWithout(old(userToN), broadcaster) && nTotal == SatSub(old(nTotal), 1)
    {
      if broadcaster in userToN {
        var count := SatSub(userToN[broadcaster], 1);
        if count == 0 { userToN := userToN - {broadcaster}; } else { userToN := userToN[broadcaster := count]; }
      }
      nTotal := SatSub(nTotal, 1);
    }

    method RemoveDelayedAction(id: ActionId) returns (r: Option<Action>)
      requires Valid()
      modifies this`delayedActions, this`userToN, this`nTotal
      ensures Valid()
      ensures r == if id in old(delayedActions) then Some(old(delayedActions)[id]) else None
      ensures delayedActions == old(delayedActions) - {id}
    {
      if id !in delayedActions { return None; }
      var action := delayedActions[id];
      CountsAfterRemove(userToN, delayedActions, id);
      delayedActions := delayedActions - {id};
      NoteActionRemoved(action.broadcaster);
      r := Some(action);
    }

    /** Removes the listed ids one by one, collecting the actions. */
    method Drain(ids: seq<ActionId>) returns (out: seq<Action>)
      requires Valid()
      requires forall i :: 0 <= i < |ids| ==> ids[i] in delayedActions
      requires forall i, j :: 0 <= i < j < |ids| ==> ids[i] != ids[j]
      modifies this`delayedActions, this`userToN, this`nTotal
      ensures Valid()
      ensures out == ActionsAt(old(delayedActions), ids)
      ensures delayedActions == old(delayedActions) - SetOf(ids)
    {
      hide WellKeyed, CountsAgree, SetOf;
      out := [];
      SetOfNothing();
      ghost var m0 := delayedActions;
      assert m0 - {} == m0;
      for i := 0 to |ids|
        invariant Valid() && |out| == i
        invariant forall j :: 0 <= j < i ==> out[j] == m0[ids[j]]
        invariant delayedActions == m0 - SetOf(ids[..i])
      {
        DrainStep(m0, ids, i);
        var action := RemoveDelayedAction(ids[i]);
        if action.Some? { out := out + [action.value]; }
      }
      assert ids[..|ids|] == ids;
    }

    /** Releases exactly the actions that are due, in id order. */
    method ReleaseDueActions(now: u64) returns (due: seq<Action>)
      requires Valid()
      modifies this`delayedActions, this`userToN, this`nTotal
      ensures Valid()
      ensures DueAscendingIn(old(delayedActions), now)
      ensures due == ActionsAt(old(delayedActions), Ascending(DueIds(old(delayedActions), now)))
      ensures delayedActions == old(delayedActions) - DueIds(old(delayedActions), now)
    {
      var ids := Ascending(DueIds(delayedActions, now));
      DueAscends(delayedActions, now);
      due := Drain(ids);
      assert SetOf(ids) == DueIds(old(delayedActions), now);
    }

    /** Releases the min(n, size) actions that are least in release order. */
    method ReleaseOldestActions(n: u64) returns (released: seq<Action>)
      requires Valid()
      modifies this`delayedActions, this`userToN, this`nTotal
      ensures Valid()
      ensures IsAgeOrder(old(delayedActions), AgeOrder(old(delayedActions)))
      ensures var ids := Take(AgeOrder(old(delayedActions)), n);
        && |ids| == Min(n, |old(delayedActions)|)
        && released == ActionsAt(old(delayedActions), ids)
        && delayedActions == old(delayedActions) - SetOf(ids)
    {
      AgeOrderSorts(delayedActions);
      var candidates := AgeOrder(delayedActions);
      var ids := Take(candidates, n);
      assert forall i, j :: 0 <= i < j < |ids| ==> delayedActions[ids[i]].Earlier(delayedActions[ids[j]]);
      released := Drain(ids);
    }

    /** The operations that take actions out, each one step of the run model. */
    method Release(op: Op) returns (out: seq<Action>)
      requires Valid() && !Keeps(op)
      modifies this`delayedActions, this`userToN, this`nTotal
      ensures Valid() && View() == Step(old(View()), op)
      ensures HandsOut(old(delayedActions), Leaving(old(View()), op), out)
    {
      hide CountsAgree, HandsOut, WellKeyed, SetOf, Take, AgeOrder, DueIds, Ascending, IsAgeOrder, DueAscendingIn;
      ghost var m := delayedActions;
      match op {
        case ReleaseDueOp(now) =>
          out := ReleaseDueActions(now);
          DueHandedOut(m, now);
        case ReleaseOldestOp(n) =>
          out := ReleaseOldestActions(n);
          OldestHandedOut(m, n);
        case RemoveOp(id) =>
          var removed := RemoveDelayedAction(id);
          out := if removed.Some? then [removed.value] else [];
          OneHandedOut(m, id);
      }
    }

    /** Every operation is one step of the run model and hands out exactly what leaves. */
    method Apply(op: Op) returns (out: seq<Action>)
      requires Valid()
      modifies this
      ensures Valid() && View() == Step(old(View()), op)
      ensures HandsOut(old(delayedActions), Leaving(old(View()), op), out)
    {
      hide CountsAgree, Queued, HandsOut, WellKeyed;
      out := [];
      NothingHandedOut(delayedActions);
      match op {
        case QueueOp(action, delay, now) => var _ := QueueDelayedAction(action, delay, now);
        case SetEnabledOp(on) => SetEnabled(on);
        case SetMaxOp(max) => SetMaxNDelayedActions(max);
        case _ => out := Release(op);
      }
    }
  }

  /** A new queue put through any run agrees with the run model at its end, and what each
      operation handed out is what the model says left. */
  method Replay(ops: seq<Op>) returns (d: ActionDelayer, out: seq<seq<Action>>)
    ensures fresh(d) && d.Valid() && d.View() == Run(ops) && |out| == |ops|
    ensures forall i :: 0 <= i < |ops| ==> HandsOut(Run(ops[..i]).actions, Leaving(Run(ops[..i]), ops[i]), out[i])
  {
    hide CountsAgree, HandsOut, WellKeyed, Leaving, Step;
    d := new ActionDelayer();
    out := [];
    for i := 0 to |ops|
      invariant d.Valid() && d.View() == Run(ops[..i]) && |out| == i && fresh(d)
      invariant forall k :: 0 <= k < i ==> HandsOut(Run(ops[..k]).actions, Leaving(Run(ops[..k]), ops[k]), out[k])
    {
      var released := d.Apply(ops[i]);
      out := out + [released];
      assert ops[..i + 1][..i] == ops[..i];
    }
    assert ops[..|ops|] == ops;
  }

  lemma NothingHandedOut(m: Actions)
    ensures HandsOut(m, {}, [])
  {
  }

  lemma OneHandedOut(m: Actions, id: ActionId)
    requires WellKeyed(m)
    ensures if id in m then HandsOut(m, {id}, [m[id]]) else HandsOut(m, {}, []) && m - {} == m - {id}
  {
  }

  lemma ListHandedOut(m: Actions, ids: seq<ActionId>)
    requires WellKeyed(m) && (forall i :: 0 <= i < |ids| ==> ids[i] in m)
    requires forall i, j :: 0 <= i < j < |ids| ==> ids[i] != ids[j]
    ensures HandsOut(m, SetOf(ids), ActionsAt(m, ids))
  {
    var out := ActionsAt(m, ids);
    forall id | id in SetOf(ids) ensures m[id] in out {
      var i :| 0 <= i < |ids| && ids[i] == id;
      assert out[i] == m[id];
    }
  }

  lemma DueHandedOut(m: Actions, now: u64)
    requires WellKeyed(m) && DueAscendingIn(m, now)
    ensures HandsOut(m, DueIds(m, now), ActionsAt(m, Ascending(DueIds(m, now))))
  {
    var ids := Ascending(DueIds(m, now));
    ListHandedOut(m, ids);
    assert SetOf(ids) == DueIds(m, now);
  }

  lemma OldestHandedOut(m: Actions, n: u64)
    requires WellKeyed(m) && IsAgeOrder(m, AgeOrder(m))
    ensures HandsOut(m, SetOf(Take(AgeOrder(m), n)), ActionsAt(m, Take(AgeOrder(m), n)))
  {
    hide AgeOrder;
    var ids := Take(AgeOrder(m), n);
    assert forall i, j :: 0 <= i < j < |ids| ==> m[ids[i]].Earlier(m[ids[j]]);
    ListHandedOut(m, ids);
  }

  lemma SetOfNothing()
    ensures SetOf([]) == {}
  {
  }

  lemma DrainStep(m: Actions, ids: seq<ActionId>, i: nat)
    requires i < |ids| && ids[i] in m && forall j :: 0 <= j < i ==> ids[j] != ids[i]
    ensures var left := m - SetOf(ids[..i]);
      ids[i] in left && left[ids[i]] == m[ids[i]] && left - {ids[i]} == m - SetOf(ids[..i + 1])
  {
    assert ids[..i + 1] == ids[..i] + [ids[i]];
    assert SetOf(ids[..i + 1]) == SetOf(ids[..i]) + {ids[i]};
  }

  ghost predicate DueAscendingIn(m: Actions, now: u64) {
    forall i :: 0 <= i < |Ascending(DueIds(m, now))| ==> Ascending(DueIds(m, now))[i] in m
  }

  lemma DueAscends(m: Actions, now: u64)
    ensures DueAscendingIn(m, now)
  {
    var q := Ascending(DueIds(m, now));
    assert forall i :: 0 <= i < |q| ==> q[i] in DueIds(m, now);
  }

  /** Each user with queued actions has their exact number, and nobody else has an entry. */
  ghost predicate CountsAgree(counts: map<Address, nat>, m: Actions) {
    forall u: Address :: CountAgreesAt(counts, m, u)
  }

  ghost predicate CountAgreesAt(counts: map<Address, nat>, m: Actions, u: Address) {
    (u in counts <==> IdsOf(m, u) != {}) && (u in counts ==> counts[u] == |IdsOf(m, u)|)
  }

  function CountsWithout(counts: map<Address, nat>, user: Address): map<Address, nat> {
    if user !in counts then counts
    else if SatSub(counts[user], 1) == 0 then counts - {user}
    else counts[user := SatSub(counts[user], 1)]
  }

  lemma CountsAfterInsert(counts: map<Address, nat>, m: Actions, a: Action)
    requires CountsAgree(counts, m) && a.id !in m
    ensures CountsAgree(counts[a.broadcaster := (if a.broadcaster in counts then counts[a.broadcaster] else 0) + 1],
                        m[a.id := a])
  {
    var m' := m[a.id := a];
    var counts' := counts[a.broadcaster := (if a.broadcaster in counts then counts[a.broadcaster] else 0) + 1];
    forall u: Address ensures CountAgreesAt(counts', m', u) {
      assert CountAgreesAt(counts, m, u);
      IdsAfterInsert(m, a, u);
      hide IdsOf;
    }
  }

  lemma IdsAfterInsert(m: Actions, a: Action, u: Address)
    requires a.id !in m
    ensures IdsOf(m[a.id := a], u) == if u == a.broadcaster then IdsOf(m, u) + {a.id} else IdsOf(m, u)
    ensures a.id !in IdsOf(m, u)
  {
  }

  /** Neither subtraction ever clips: the counts stay exact. */
  lemma CountsAfterRemove(counts: map<Address, nat>, m: Actions, id: ActionId)
    requires CountsAgree(counts, m) && id in m
    ensures CountsAgree(CountsWithout(counts, m[id].broadcaster), m - {id})
    ensures m[id].broadcaster in counts && counts[m[id].broadcaster] >= 1 && |m| >= 1 && |m - {id}| == |m| - 1
  {
    var b, m' := m[id].broadcaster, m - {id};
    assert CountAgreesAt(counts, m, b) && id in IdsOf(m, b);
    assert |IdsOf(m, b) - {id}| == |IdsOf(m, b)| - 1;
    forall u: Address ensures CountAgreesAt(CountsWithout(counts, b), m', u) {
      assert CountAgreesAt(counts, m, u);
      assert IdsOf(m', u) == if u == b then IdsOf(m, u) - {id} else IdsOf(m, u);
    }
    assert m'.Keys == m.Keys - {id};
  }
}
