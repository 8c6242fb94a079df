/** Ownership and grace-window properties of the tracker over all runs. */
module AgentOwnership {
  import opened Common
  import opened OrderedSets
  import opened AgentModel

  // ----- what each primitive does to one (user, agent) pair

  lemma ClearTimes(pending: Pending, user: Address, agent: Address, u: Address, a: Address)
    ensures Times(Clear(pending, user, agent), u, a) ==
            if u == user && a == agent then {} else Times(pending, u, a)
  {
  }

  lemma PushTimes(pending: Pending, user: Address, agent: Address, readyAt: int, u: Address, a: Address)
    ensures Times(Push(pending, user, agent, readyAt), u, a) ==
            if u == user && a == agent then Times(pending, u, a) + {readyAt} else Times(pending, u, a)
  {
    var r := Removal(readyAt, agent);
    var before, after := PendingOf(pending, u), PendingOf(Push(pending, user, agent, readyAt), u);
    if u == user {
      assert after == before + {r};
      if a == agent {
        assert r in after && readyAt in Times(Push(pending, user, agent, readyAt), u, a);
        assert forall p :: p in before ==> p in after;
      }
    }
  }

  lemma PruneTimes(pending: Pending, now: Millis, u: Address, a: Address)
    ensures forall r :: r in Times(PrunePending(pending, now), u, a) <==> r in Times(pending, u, a) && r > now
    ensures (forall r :: r in Times(pending, u, a) ==> r > now) ==>
              Times(PrunePending(pending, now), u, a) == Times(pending, u, a)
    ensures (forall r :: r in Times(pending, u, a) ==> r <= now) ==> Times(PrunePending(pending, now), u, a) == {}
  {
    PruneTimesMembers(pending, now, u, a);
    if forall r :: r in Times(pending, u, a) ==> r > now {
      SameMembers(Times(PrunePending(pending, now), u, a), Times(pending, u, a));
    }
    if forall r :: r in Times(pending, u, a) ==> r <= now {
      SameMembers(Times(PrunePending(pending, now), u, a), {});
    }
  }

  lemma PruneTimesMembers(pending: Pending, now: Millis, u: Address, a: Address)
    ensures forall r :: r in Times(PrunePending(pending, now), u, a) <==> r in Times(pending, u, a) && r > now
  {
    var before, after := PendingOf(pending, u), PendingOf(PrunePending(pending, now), u);
    assert forall p :: p in after <==> p in before && p.readyAt > now by {
      if u in pending && Unexpired(pending[u], now) == {} {
        assert forall p :: p in before && p.readyAt > now ==> p in Unexpired(pending[u], now);
      }
    }
  }

  lemma PruneExpired(pending: Pending, now: Millis, a: Address)
    ensures a in ExpiredAgents(pending, now) <==> exists u, r :: r in Times(pending, u, a) && r <= now
  {
    if a in ExpiredAgents(pending, now) {
      var u, p :| u in pending && p in pending[u] && p.readyAt <= now && p.agent == a;
      assert p in PendingOf(pending, u);
      assert p.readyAt in Times(pending, u, a);
    }
    if exists u, r :: r in Times(pending, u, a) && r <= now {
      var u, r :| r in Times(pending, u, a) && r <= now;
      var p :| p in PendingOf(pending, u) && p.agent == a && p.readyAt == r;
      assert u in pending && p in pending[u];
    }
  }

  ghost predicate Distinct(agents: seq<ExtraAgent>) {
    forall i, j :: 0 <= i < j < |agents| ==> agents[i].agent != agents[j].agent
  }

  lemma ListsUpdate(agents: seq<ExtraAgent>, i: nat, e: ExtraAgent, a: Address)
    requires i < |agents|
    ensures Lists(agents[i := e], a) ==> Lists(agents, a) || a == e.agent
    ensures a == e.agent || (Lists(agents, a) && a != agents[i].agent) ==> Lists(agents[i := e], a)
    ensures Distinct(agents) && Lists(agents[i := e], a) && a != e.agent ==> a != agents[i].agent
  {
    var after := agents[i := e];
    assert after[i] == e;
    if Lists(agents, a) && a != agents[i].agent {
      var k :| 0 <= k < |agents| && agents[k].agent == a;
      assert after[k].agent == a;
    }
    if Lists(after, a) && a != e.agent {
      var k :| 0 <= k < |after| && after[k].agent == a;
      assert agents[k].agent == a;
    }
  }

  lemma ListsAppend(agents: seq<ExtraAgent>, e: ExtraAgent, a: Address)
    ensures Lists(agents + [e], a) <==> Lists(agents, a) || a == e.agent
  {
    var after := agents + [e];
    assert after[|agents|] == e;
    if Lists(agents, a) {
      var k :| 0 <= k < |agents| && agents[k].agent == a;
      assert after[k].agent == a;
    }
  }

  lemma ListsRemove(agents: seq<ExtraAgent>, i: nat, a: Address)
    requires i < |agents|
    ensures var left := agents[..i] + agents[i + 1..];
      && (Lists(left, a) ==> Lists(agents, a))
      && (Lists(agents, a) && a != agents[i].agent ==> Lists(left, a))
      && (Distinct(agents) ==> Distinct(left) && !Lists(left, agents[i].agent))
  {
    var left := agents[..i] + agents[i + 1..];
    assert forall k :: 0 <= k < |left| ==> left[k] == agents[if k < i then k else k + 1];
    if Lists(left, a) {
      var k :| 0 <= k < |left| && left[k].agent == a;
      assert agents[if k < i then k else k + 1].agent == a;
    }
    if Lists(agents, a) && a != agents[i].agent {
      var k :| 0 <= k < |agents| && agents[k].agent == a;
      assert left[if k < i then k else k - 1].agent == a;
    }
  }

  // ----- every mapped agent is accounted for, over all runs

  /** An agent mapped to a user is that user's main agent, extra agent or pending removal. */
  ghost predicate BackedAt(t: Tracker, u: Address, a: Address) {
    Owns(t, u, a) ==> Active(t, u, a) || Times(t.pending, u, a) != {}
  }

  ghost predicate Backed(t: Tracker) {
    forall u, a :: BackedAt(t, u, a)
  }

  lemma SaveMainBacked(t: Tracker, user: Address, newAgent: Option<Address>, validUntil: Millis, now: Millis, u: Address, a: Address)
    requires BackedAt(t, u, a)
    ensures BackedAt(SaveMain(t, user, newAgent, validUntil, now).0, u, a)
  {
    hide Clear, Push, Times, IsExtra;
    if newAgent.Some? { ClearTimes(t.pending, user, newAgent.value, u, a); }
    if user in t.mains { PushTimes(t.pending, user, t.mains[user].agent, now + GRACE_MS, u, a); }
  }

  lemma SaveExtraBacked(t: Tracker, user: Address, name: Name, agent: Address, validUntil: Millis, now: Millis, tier: int,
                        u: Address, a: Address)
    requires BackedAt(t, u, a)
    ensures BackedAt(SaveExtra(t, user, name, agent, validUntil, now, tier).0, u, a)
  {
    hide Clear, Push, Times, Lists, ExtraLimit;
    if SaveExtra(t, user, name, agent, validUntil, now, tier).1 != OK {
      ErrorsChangeNothing(t, SaveExtraOp(user, name, agent, validUntil, now, tier));
    } else {
      hide BackedAt;
      var e, agents := ExtraAgent(name, agent, validUntil), ExtrasOf(t.extras, user);
      var pos := Position(agents, name);
      if pos.Some? && agents[pos.value].agent == agent {
        RefreshedBacked(t, user, pos.value, validUntil, u, a);
      } else if pos.Some? {
        ReplacedBacked(t, user, pos.value, e, now + GRACE_MS, u, a);
      } else {
        AppendedBacked(t, user, e, u, a);
      }
    }
  }

  lemma RefreshedBacked(t: Tracker, user: Address, i: nat, validUntil: Millis, u: Address, a: Address)
    requires BackedAt(t, u, a) && i < |ExtrasOf(t.extras, user)|
    ensures var agents := ExtrasOf(t.extras, user);
      var agent := agents[i].agent;
      BackedAt(t.(extras := t.extras[user := agents[i := agents[i].(validUntil := validUntil)]],
                  owner := t.owner[agent := user], pending := Clear(t.pending, user, agent)), u, a)
  {
    hide Clear, Times, Lists;
    var agents := ExtrasOf(t.extras, user);
    ClearTimes(t.pending, user, agents[i].agent, u, a);
    ListsUpdate(agents, i, agents[i].(validUntil := validUntil), a);
  }

  lemma ReplacedBacked(t: Tracker, user: Address, i: nat, e: ExtraAgent, readyAt: int, u: Address, a: Address)
    requires BackedAt(t, u, a) && i < |ExtrasOf(t.extras, user)| && e.agent !in t.owner
    ensures var agents := ExtrasOf(t.extras, user);
      BackedAt(t.(extras := t.extras[user := agents[i := e]], owner := t.owner[e.agent := user],
                  pending := Clear(Push(t.pending, user, agents[i].agent, readyAt), user, e.agent)), u, a)
  {
    hide Clear, Push, Times, Lists;
    var agents := ExtrasOf(t.extras, user);
    ClearTimes(Push(t.pending, user, agents[i].agent, readyAt), user, e.agent, u, a);
    PushTimes(t.pending, user, agents[i].agent, readyAt, u, a);
    ListsUpdate(agents, i, e, a);
  }

  lemma AppendedBacked(t: Tracker, user: Address, e: ExtraAgent, u: Address, a: Address)
    requires BackedAt(t, u, a) && e.agent !in t.owner
    ensures BackedAt(t.(extras := t.extras[user := ExtrasOf(t.extras, user) + [e]], owner := t.owner[e.agent := user],
                        pending := Clear(t.pending, user, e.agent)), u, a)
  {
    hide Clear, Times, Lists;
    ClearTimes(t.pending, user, e.agent, u, a);
    ListsAppend(ExtrasOf(t.extras, user), e, a);
  }

  lemma RemoveExtraBacked(t: Tracker, user: Address, name: Name, now: Millis, u: Address, a: Address)
    requires BackedAt(t, u, a)
    ensures BackedAt(RemoveExtra(t, user, name, now).0, u, a)
  {
    hide Push, Times, Lists;
    if user in t.extras {
      var agents := t.extras[user];
      var pos := Position(agents, name);
      if pos.Some? {
        PushTimes(t.pending, user, agents[pos.value].agent, now + GRACE_MS, u, a);
        ListsRemove(agents, pos.value, a);
        ListsNothing(a);
      }
    }
  }

  lemma ListsNothing(a: Address)
    ensures !Lists([], a)
  {
  }

  lemma PruneBacked(t: Tracker, now: Millis, realUsers: set<Address>, u: Address, a: Address)
    requires BackedAt(t, u, a)
    ensures BackedAt(Prune(t, now, realUsers), u, a)
  {
    hide PrunePending, ExpiredAgents, Times, Lists;
    PruneTimes(t.pending, now, u, a);
    PruneExpired(t.pending, now, a);
    var t' := Prune(t, now, realUsers);
    if Owns(t', u, a) && !Active(t', u, a) {
      assert forall r :: r in Times(t.pending, u, a) ==> r > now;
    }
  }

  lemma ApplyBacked(t: Tracker, op: Op)
    requires Backed(t)
    ensures Backed(Apply(t, op).0)
  {
    hide BackedAt, SaveMain, SaveExtra, RemoveExtra, Prune;
    forall u, a ensures BackedAt(Apply(t, op).0, u, a) {
      match op
      case SaveMainOp(user, newAgent, validUntil, now) => SaveMainBacked(t, user, newAgent, validUntil, now, u, a);
      case SaveExtraOp(user, name, agent, validUntil, now, tier) =>
        SaveExtraBacked(t, user, name, agent, validUntil, now, tier, u, a);
      case RemoveExtraOp(user, name, now) => RemoveExtraBacked(t, user, name, now, u, a);
      case PruneOp(now, realUsers) => PruneBacked(t, now, realUsers, u, a);
    }
  }

  /** No run, disciplined or not, leaves an agent mapped to a user who no longer lists it. */
  lemma {:induction false} OwnershipBacked(ops: seq<Op>)
    ensures Backed(Run(EMPTY, ops))
    decreases |ops|
  {
    if ops != [] {
      hide Backed, Apply;
      OwnershipBacked(ops[..|ops| - 1]);
      ApplyBacked(Run(EMPTY, ops[..|ops| - 1]), ops[|ops| - 1]);
    }
  }

  /** An error code means nothing happened, even though one path inserts a list on the way. */
  lemma ErrorsChangeNothing(t: Tracker, op: Op)
    requires Apply(t, op).1 != OK
    ensures Apply(t, op).0 == t
  {
    if op.SaveExtraOp? {
      assert ExtraLimit(op.tier) >= 3;
      assert op.user in t.extras ==> t.extras[op.user := t.extras[op.user]] == t.extras;
    }
  }

  // ----- the forward direction, when main and extra agents are kept apart

  /** The caller's duty: do not promote to main an address already in the user's extra list. */
  predicate Disciplined(t: Tracker, op: Op) {
    op.SaveMainOp? && op.newAgent.Some? && op.newAgent.value != 0 ==> !IsExtra(t.extras, op.user, op.newAgent.value)
  }

  ghost predicate DisciplinedRun(t: Tracker, ops: seq<Op>) {
    forall i :: 0 <= i < |ops| ==> Disciplined(Run(t, ops[..i]), ops[i])
  }

  /** One pair is in order: mapped exactly while active or pending, never both, and with one
      removal time. */
  ghost predicate CleanAt(t: Tracker, u: Address, a: Address) {
    && (Active(t, u, a) ==> Owns(t, u, a) && Times(t.pending, u, a) == {})
    && (Times(t.pending, u, a) != {} ==> Owns(t, u, a))
    && (Owns(t, u, a) ==> Active(t, u, a) || Times(t.pending, u, a) != {})
    && (forall r, s :: r in Times(t.pending, u, a) && s in Times(t.pending, u, a) ==> r == s)
  }

  /** One user's lists are in order: no address twice. */
  ghost predicate Tidy(t: Tracker, u: Address) {
    && Distinct(ExtrasOf(t.extras, u))
    && (u in t.mains ==> !IsExtra(t.extras, u, t.mains[u].agent))
  }

  ghost predicate Clean(t: Tracker) {
    (forall u, a :: CleanAt(t, u, a)) && (forall u :: Tidy(t, u))
  }

  lemma MainClearedCleanAt(t: Tracker, user: Address, readyAt: int, u: Address, a: Address)
    requires CleanAt(t, u, a) && Tidy(t, user) && user in t.mains
    ensures CleanAt(t.(mains := t.mains - {user}, pending := Push(t.pending, user, t.mains[user].agent, readyAt)), u, a)
  {
    hide Push, Times, IsExtra, Distinct;
    PushTimes(t.pending, user, t.mains[user].agent, readyAt, u, a);
  }

  lemma MainSetCleanAt(t: Tracker, user: Address, agent: Address, validUntil: Millis, u: Address, a: Address)
    requires CleanAt(t, u, a)
    requires agent in t.owner ==> t.owner[agent] == user
    requires user in t.mains ==> t.mains[user].agent == agent
    ensures CleanAt(t.(pending := Clear(t.pending, user, agent), owner := t.owner[agent := user],
                       mains := t.mains[user := MainAgent(agent, validUntil)]), u, a)
  {
    hide Clear, Times, IsExtra;
    ClearTimes(t.pending, user, agent, u, a);
  }

  lemma SaveMainCleanAt(t: Tracker, user: Address, newAgent: Option<Address>, validUntil: Millis, now: Millis, u: Address, a: Address)
    requires Clean(t)
    ensures CleanAt(SaveMain(t, user, newAgent, validUntil, now).0, u, a)
  {
    hide CleanAt, Tidy, Clear, Push;
    assert CleanAt(t, u, a) && Tidy(t, user);
    if newAgent.None? || newAgent.value == 0 {
      if user in t.mains { MainClearedCleanAt(t, user, now + GRACE_MS, u, a); }
    } else if SaveMain(t, user, newAgent, validUntil, now).1 == OK {
      MainSetCleanAt(t, user, newAgent.value, validUntil, u, a);
    }
  }

  lemma SaveMainTidy(t: Tracker, user: Address, newAgent: Option<Address>, validUntil: Millis, now: Millis, u: Address)
    requires Clean(t) && Disciplined(t, SaveMainOp(user, newAgent, validUntil, now))
    ensures Tidy(SaveMain(t, user, newAgent, validUntil, now).0, u)
  {
    hide Clear, Push, Times, IsExtra, Distinct, CleanAt;
    assert Tidy(t, u);
  }

  /** The three ways an extra agent is saved. */
  lemma RefreshedCleanAt(t: Tracker, user: Address, i: nat, validUntil: Millis, u: Address, a: Address)
    requires i < |ExtrasOf(t.extras, user)| && CleanAt(t, u, a) && CleanAt(t, user, ExtrasOf(t.extras, user)[i].agent)
    ensures var agents := ExtrasOf(t.extras, user);
      var agent := agents[i].agent;
      CleanAt(t.(extras := t.extras[user := agents[i := agents[i].(validUntil := validUntil)]],
                 owner := t.owner[agent := user], pending := Clear(t.pending, user, agent)), u, a)
  {
    hide Clear, Times, Lists, Distinct;
    var agents := ExtrasOf(t.extras, user);
    ListsAt(agents, i);
    ClearTimes(t.pending, user, agents[i].agent, u, a);
    ListsUpdate(agents, i, agents[i].(validUntil := validUntil), a);
  }

  lemma ReplacedCleanAt(t: Tracker, user: Address, i: nat, e: ExtraAgent, readyAt: int, u: Address, a: Address)
    requires i < |ExtrasOf(t.extras, user)| && e.agent !in t.owner && Tidy(t, user)
    requires CleanAt(t, u, a) && CleanAt(t, user, ExtrasOf(t.extras, user)[i].agent)
    ensures var agents := ExtrasOf(t.extras, user);
      CleanAt(t.(extras := t.extras[user := agents[i := e]], owner := t.owner[e.agent := user],
                 pending := Clear(Push(t.pending, user, agents[i].agent, readyAt), user, e.agent)), u, a)
  {
    hide Clear, Push, Times, Lists, Distinct;
    var agents := ExtrasOf(t.extras, user);
    ListsAt(agents, i);
    ClearTimes(Push(t.pending, user, agents[i].agent, readyAt), user, e.agent, u, a);
    PushTimes(t.pending, user, agents[i].agent, readyAt, u, a);
    ListsUpdate(agents, i, e, a);
  }

  lemma AppendedCleanAt(t: Tracker, user: Address, e: ExtraAgent, u: Address, a: Address)
    requires CleanAt(t, u, a) && e.agent !in t.owner
    ensures CleanAt(t.(extras := t.extras[user := ExtrasOf(t.extras, user) + [e]], owner := t.owner[e.agent := user],
                       pending := Clear(t.pending, user, e.agent)), u, a)
  {
    hide Clear, Times, Lists, Distinct;
    ClearTimes(t.pending, user, e.agent, u, a);
    ListsAppend(ExtrasOf(t.extras, user), e, a);
  }

  lemma SaveExtraCleanAt(t: Tracker, user: Address, name: Name, agent: Address, validUntil: Millis, now: Millis, tier: int,
                         u: Address, a: Address)
    requires Clean(t)
    ensures CleanAt(SaveExtra(t, user, name, agent, validUntil, now, tier).0, u, a)
  {
    hide Clear, Push, Times, ExtraLimit, Tidy, CleanAt;
    if SaveExtra(t, user, name, agent, validUntil, now, tier).1 != OK {
      ErrorsChangeNothing(t, SaveExtraOp(user, name, agent, validUntil, now, tier));
      assert CleanAt(t, u, a);
    } else {
      var e, agents := ExtraAgent(name, agent, validUntil), ExtrasOf(t.extras, user);
      var pos := Position(agents, name);
      assert CleanAt(t, u, a) && Tidy(t, user);
      if pos.Some? { assert CleanAt(t, user, agents[pos.value].agent); }
      if pos.Some? && agents[pos.value].agent == agent {
        RefreshedCleanAt(t, user, pos.value, validUntil, u, a);
      } else if pos.Some? {
        ReplacedCleanAt(t, user, pos.value, e, now + GRACE_MS, u, a);
      } else {
        AppendedCleanAt(t, user, e, u, a);
      }
    }
  }

  lemma ListsAt(agents: seq<ExtraAgent>, i: nat)
    requires i < |agents|
    ensures Lists(agents, agents[i].agent)
  {
  }

  lemma DistinctUpdate(agents: seq<ExtraAgent>, i: nat, e: ExtraAgent)
    requires i < |agents| && Distinct(agents) && (e.agent == agents[i].agent || !Lists(agents, e.agent))
    ensures Distinct(agents[i := e])
  {
  }

  lemma DistinctAppend(agents: seq<ExtraAgent>, e: ExtraAgent)
    requires Distinct(agents) && !Lists(agents, e.agent)
    ensures Distinct(agents + [e])
  {
  }

  lemma SaveExtraTidy(t: Tracker, user: Address, name: Name, agent: Address, validUntil: Millis, now: Millis, tier: int,
                      u: Address)
    requires Clean(t)
    ensures Tidy(SaveExtra(t, user, name, agent, validUntil, now, tier).0, u)
  {
    hide Clear, Push, Times, Lists, ExtraLimit, Distinct;
    assert Tidy(t, u) && CleanAt(t, user, agent);
    if u == user {
      var agents := ExtrasOf(t.extras, user);
      var pos := Position(agents, name);
      if pos.Some? {
        var i := pos.value;
        ListsAt(agents, i);
        if agents[i].agent == agent || agent !in t.owner {
          DistinctUpdate(agents, i, ExtraAgent(name, agent, validUntil));
          DistinctUpdate(agents, i, agents[i].(validUntil := validUntil));
        }
        if user in t.mains {
          ListsUpdate(agents, i, ExtraAgent(name, agent, validUntil), t.mains[user].agent);
          ListsUpdate(agents, i, agents[i].(validUntil := validUntil), t.mains[user].agent);
        }
      }
      if agent !in t.owner { DistinctAppend(agents, ExtraAgent(name, agent, validUntil)); }
      if user in t.mains { ListsAppend(agents, ExtraAgent(name, agent, validUntil), t.mains[user].agent); }
    }
  }

  lemma RemoveExtraCleanAt(t: Tracker, user: Address, name: Name, now: Millis, u: Address, a: Address)
    requires CleanAt(t, u, a) && Tidy(t, user)
    ensures CleanAt(RemoveExtra(t, user, name, now).0, u, a)
  {
    hide Push, Times, Lists, Distinct;
    ListsNothing(a);
    if user in t.extras {
      var agents := t.extras[user];
      var pos := Position(agents, name);
      if pos.Some? {
        ListsAt(agents, pos.value);
        PushTimes(t.pending, user, agents[pos.value].agent, now + GRACE_MS, u, a);
        ListsRemove(agents, pos.value, a);
      }
    }
  }

  lemma RemoveExtraTidy(t: Tracker, user: Address, name: Name, now: Millis, u: Address)
    requires Tidy(t, u)
    ensures Tidy(RemoveExtra(t, user, name, now).0, u)
  {
    hide Push, Times, Lists, Distinct;
    DistinctNothing();
    if u in t.mains { ListsNothing(t.mains[u].agent); }
    if user in t.extras {
      var agents := t.extras[user];
      var pos := Position(agents, name);
      if pos.Some? { ListsRemove(agents, pos.value, if u in t.mains then t.mains[u].agent else 0); }
    }
  }

  lemma DistinctNothing()
    ensures Distinct([])
  {
  }

  lemma PruneClean(t: Tracker, now: Millis, realUsers: set<Address>, u: Address, a: Address)
    requires Clean(t)
    ensures CleanAt(Prune(t, now, realUsers), u, a) && Tidy(Prune(t, now, realUsers), u)
  {
    hide PrunePending, ExpiredAgents, Times, Lists, Distinct;
    assert CleanAt(t, u, a) && Tidy(t, u);
    PruneTimes(t.pending, now, u, a);
    PruneExpired(t.pending, now, a);
    var t' := Prune(t, now, realUsers);
    if a in ExpiredAgents(t.pending, now) {
      var v, r :| r in Times(t.pending, v, a) && r <= now;
      assert CleanAt(t, v, a) && Owns(t, v, a);
      if u == v {
        assert forall s :: s in Times(t.pending, u, a) ==> s <= now;
      } else {
        assert Times(t.pending, u, a) == {};
      }
    } else {
      assert forall r :: r in Times(t.pending, u, a) ==> r > now;
    }
  }

  lemma ApplyClean(t: Tracker, op: Op)
    requires Clean(t) && Disciplined(t, op)
    ensures Clean(Apply(t, op).0)
  {
    hide CleanAt, Tidy, SaveMain, SaveExtra, RemoveExtra, Prune, Disciplined;
    var t' := Apply(t, op).0;
    forall u, a ensures CleanAt(t', u, a) && Tidy(t', u) {
      match op
      case SaveMainOp(user, newAgent, validUntil, now) =>
        SaveMainCleanAt(t, user, newAgent, validUntil, now, u, a);
        SaveMainTidy(t, user, newAgent, validUntil, now, u);
      case SaveExtraOp(user, name, agent, validUntil, now, tier) =>
        SaveExtraCleanAt(t, user, name, agent, validUntil, now, tier, u, a);
        SaveExtraTidy(t, user, name, agent, validUntil, now, tier, u);
      case RemoveExtraOp(user, name, now) =>
        assert CleanAt(t, u, a) && Tidy(t, u) && Tidy(t, user);
        RemoveExtraCleanAt(t, user, name, now, u, a);
        RemoveExtraTidy(t, user, name, now, u);
      case PruneOp(now, realUsers) => PruneClean(t, now, realUsers, u, a);
    }
    forall u ensures Tidy(t', u) { assert CleanAt(t', u, 0) && Tidy(t', u); }
  }

  lemma EmptyClean()
    ensures Clean(EMPTY)
  {
    forall u, a ensures CleanAt(EMPTY, u, a) { assert PendingOf(EMPTY.pending, u) == {}; }
  }

  lemma DisciplinedPrefix(t: Tracker, ops: seq<Op>, n: nat)
    requires DisciplinedRun(t, ops) && n <= |ops|
    ensures DisciplinedRun(t, ops[..n])
  {
    hide Disciplined;
    forall i | 0 <= i < n ensures Disciplined(Run(t, ops[..n][..i]), ops[..n][i]) {
      assert ops[..n][..i] == ops[..i];
    }
  }

  lemma {:induction false} RunClean(t: Tracker, ops: seq<Op>)
    requires Clean(t) && DisciplinedRun(t, ops)
    ensures Clean(Run(t, ops))
    decreases |ops|
  {
    if ops != [] {
      hide Clean, Apply, Disciplined;
      var n := |ops| - 1;
      DisciplinedPrefix(t, ops, n);
      RunClean(t, ops[..n]);
      ApplyClean(Run(t, ops[..n]), ops[n]);
    }
  }

  /** In every disciplined run an active agent resolves to its user and awaits no removal, and
      nobody else holds it. */
  lemma ActiveAgentsResolve(ops: seq<Op>, u: Address, a: Address)
    requires DisciplinedRun(EMPTY, ops) && Active(Run(EMPTY, ops), u, a)
    ensures var t := Run(EMPTY, ops);
      Owns(t, u, a) && Times(t.pending, u, a) == {} && forall v :: Active(t, v, a) ==> v == u
  {
    hide Active, DisciplinedRun;
    EmptyClean();
    RunClean(EMPTY, ops);
    var t := Run(EMPTY, ops);
    assert CleanAt(t, u, a);
    forall v | Active(t, v, a) ensures v == u { assert CleanAt(t, v, a); }
  }

  /** Taking an address that is both main and extra off the extra list leaves it active and
      queues its removal. */
  lemma DoubleAgentRemoved(t: Tracker, user: Address, i: nat, now: Millis)
    requires NamesTidy(t) && user in t.extras && i < |t.extras[user]| && IsMain(t.mains, user, t.extras[user][i].agent)
    ensures var e := t.extras[user][i];
      var t' := RemoveExtra(t, user, e.name, now).0;
      IsMain(t'.mains, user, e.agent) && Removal(now + GRACE_MS, e.agent) in PendingOf(t'.pending, user)
  {
    var agents := t.extras[user];
    var pos := Position(agents, agents[i].name);
    assert pos.Some? && pos.value == i by { assert NamesDistinct(agents); }
  }

  lemma DuePruned(t: Tracker, user: Address, agent: Address, now: Millis, realUsers: set<Address>)
    requires Removal(now, agent) in PendingOf(t.pending, user) && IsMain(t.mains, user, agent)
    ensures var t' := Prune(t, now, realUsers); Active(t', user, agent) && agent !in t'.owner
  {
    assert user in t.pending && Removal(now, agent) in t.pending[user];
    assert agent in ExpiredAgents(t.pending, now);
  }

  /** Every promotion of an extra agent to main is a trap, from any tracker in order: dropping
      the extra by name and pruning 2000 ms later leaves a live main agent without a mapping. */
  lemma PromotionLosesAgent(t: Tracker, user: Address, i: nat, validUntil: Millis, now: Millis, realUsers: set<Address>)
    requires NamesTidy(t) && user in t.extras && i < |t.extras[user]| && t.extras[user][i].agent != 0
    requires SaveMain(t, user, Some(t.extras[user][i].agent), validUntil, now).1 == OK
    ensures var e := t.extras[user][i];
      var t1 := SaveMain(t, user, Some(e.agent), validUntil, now).0;
      var t' := Prune(RemoveExtra(t1, user, e.name, now).0, now + GRACE_MS, realUsers);
      Active(t', user, e.agent) && e.agent !in t'.owner
  {
    hide Clear, RemoveExtra, Prune, Active;
    var e := t.extras[user][i];
    var t1 := SaveMain(t, user, Some(e.agent), validUntil, now).0;
    assert t1.extras == t.extras;
    DoubleAgentRemoved(t1, user, i, now);
    DuePruned(RemoveExtra(t1, user, e.name, now).0, user, e.agent, now + GRACE_MS, realUsers);
  }

  /** `ops` is a run from `t`, itself disciplined, after which an active agent has no mapping. */
  ghost predicate Loses(t: Tracker, ops: seq<Op>, user: Address, agent: Address) {
    DisciplinedRun(t, ops) && Active(Run(t, ops), user, agent) && agent !in Run(t, ops).owner
  }

  /** A successful save of a main agent can lead to its losing the mapping while still active,
      by operations that are all disciplined themselves, exactly when the address is already
      one of the user's extra agents. */
  lemma SaveMainSafeIff(t: Tracker, user: Address, agent: Address, validUntil: Millis, now: Millis)
    requires Clean(t) && NamesTidy(t) && SaveMain(t, user, Some(agent), validUntil, now).1 == OK && agent != 0
    ensures var t1 := SaveMain(t, user, Some(agent), validUntil, now).0;
      (exists ops :: Loses(t1, ops, user, agent)) <==> IsExtra(t.extras, user, agent)
  {
    hide Clean, Active, SaveMain, RemoveExtra, Prune, NamesTidy;
    var t1 := SaveMain(t, user, Some(agent), validUntil, now).0;
    if IsExtra(t.extras, user, agent) {
      var i :| 0 <= i < |ExtrasOf(t.extras, user)| && ExtrasOf(t.extras, user)[i].agent == agent;
      var name := t.extras[user][i].name;
      SavedInTime(t, user, agent, validUntil, now);
      PromotionLosesAgent(t, user, i, validUntil, now, {});
      var ops := [RemoveExtraOp(user, name, now), PruneOp(now + GRACE_MS, {})];
      RunTwo(t1, ops[0], ops[1]);
      assert Loses(t1, ops, user, agent);
    } else {
      ApplyClean(t, SaveMainOp(user, Some(agent), validUntil, now));
      forall ops | DisciplinedRun(t1, ops) && Active(Run(t1, ops), user, agent) ensures agent in Run(t1, ops).owner {
        hide DisciplinedRun;
        RunClean(t1, ops);
        ActiveMapped(Run(t1, ops), user, agent);
      }
    }
  }

  lemma SavedInTime(t: Tracker, user: Address, agent: Address, validUntil: Millis, now: Millis)
    requires SaveMain(t, user, Some(agent), validUntil, now).1 == OK && agent != 0
    ensures now + GRACE_MS < validUntil
  {
  }

  lemma ActiveMapped(t: Tracker, user: Address, agent: Address)
    requires Clean(t) && Active(t, user, agent)
    ensures agent in t.owner
  {
    assert CleanAt(t, user, agent);
  }

  lemma RunTwo(t: Tracker, a: Op, b: Op)
    ensures Run(t, [a, b]) == Apply(Apply(t, a).0, b).0
  {
    hide Apply;
    assert [a, b][..1] == [a] && [a][..0] == [];
    assert Run(t, [a]) == Apply(t, a).0;
  }

  /** Without that discipline a live main agent can lose its mapping. */
  lemma UndisciplinedLosesAgent() returns (ops: seq<Op>)
    ensures var t := Run(EMPTY, ops);
      Active(t, 7, 5) && 5 !in t.owner
  {
    hide Run;
    var name: Name := [120];
    ops := [SaveExtraOp(7, name, 5, 10_000, 0, 0), SaveMainOp(7, Some(5), 10_000, 0), RemoveExtraOp(7, name, 0), PruneOp(2_000, {})];
    var e := ExtraAgent(name, 5, 10_000);
    var t := Tracker(map[], map[7 := [e]], map[5 := 7], map[], map[]);
    assert Apply(EMPTY, ops[0]).0 == t by {
      var none: seq<ExtraAgent> := [];
      assert Position(none, name) == None && none + [e] == [e];
    }
    assert NamesTidy(t);
    hide SaveExtra, RemoveExtra, Prune;
    PromotionLosesAgent(t, 7, 0, 10_000, 0, {});
    RunFour(EMPTY, ops[0], ops[1], ops[2], ops[3]);
  }

  lemma RunFour(t: Tracker, a: Op, b: Op, c: Op, d: Op)
    ensures Run(t, [a, b, c, d]) == Apply(Apply(Apply(Apply(t, a).0, b).0, c).0, d).0
  {
    hide Apply;
    assert [a, b, c, d][..3] == [a, b, c] && [a, b, c][..2] == [a, b] && [a, b][..1] == [a] && [a][..0] == [];
    assert Run(t, [a]) == Apply(t, a).0;
    assert Run(t, [a, b]) == Apply(Run(t, [a]), b).0;
    assert Run(t, [a, b, c]) == Apply(Run(t, [a, b]), c).0;
  }

  // ----- the grace window

  /** Every way of dropping an agent opens its window: it falls due 2000 ms later. */
  lemma RemovalOpensWindow(t: Tracker, op: Op, agent: Address)
    requires Apply(t, op).1 == OK && !op.PruneOp?
    requires Active(t, op.user, agent) && !Active(Apply(t, op).0, op.user, agent)
    ensures op.now + GRACE_MS in Times(Apply(t, op).0.pending, op.user, agent)
  {
    hide Clear, Push, Times, Lists, SaveExtra, RemoveExtra;
    match op
    case SaveMainOp(user, newAgent, validUntil, now) =>
      if user in t.mains { PushTimes(t.pending, user, t.mains[user].agent, now + GRACE_MS, user, agent); }
    case SaveExtraOp(user, name, added, validUntil, now, tier) =>
      ReplacementOpensWindow(t, user, name, added, validUntil, now, tier, agent);
    case RemoveExtraOp(user, name, now) => DroppingOpensWindow(t, user, name, now, agent);
  }

  lemma DroppingOpensWindow(t: Tracker, user: Address, name: Name, now: Millis, agent: Address)
    requires RemoveExtra(t, user, name, now).1 == OK
    requires Active(t, user, agent) && !Active(RemoveExtra(t, user, name, now).0, user, agent)
    ensures now + GRACE_MS in Times(RemoveExtra(t, user, name, now).0.pending, user, agent)
  {
    hide Push, Times, Lists;
    var agents := ExtrasOf(t.extras, user);
    var i := Position(agents, name).value;
    ListsNothing(agent);
    ListsRemove(agents, i, agent);
    PushTimes(t.pending, user, agents[i].agent, now + GRACE_MS, user, agent);
  }

  lemma ReplacementOpensWindow(t: Tracker, user: Address, name: Name, added: Address, validUntil: Millis, now: Millis,
                               tier: int, agent: Address)
    requires Active(t, user, agent) && !Active(SaveExtra(t, user, name, added, validUntil, now, tier).0, user, agent)
    ensures now + GRACE_MS in Times(SaveExtra(t, user, name, added, validUntil, now, tier).0.pending, user, agent)
  {
    hide Clear, Push, Times, Lists, ExtraLimit;
    var agents := ExtrasOf(t.extras, user);
    var pos := Position(agents, name);
    ListsAppend(agents, ExtraAgent(name, added, validUntil), agent);
    if pos.Some? {
      var i := pos.value;
      ListsUpdate(agents, i, ExtraAgent(name, added, validUntil), agent);
      ListsUpdate(agents, i, agents[i].(validUntil := validUntil), agent);
      PushTimes(t.pending, user, agents[i].agent, now + GRACE_MS, user, agent);
      ClearTimes(Push(t.pending, user, agents[i].agent, now + GRACE_MS), user, added, user, agent);
    }
  }

  /** While a removal is pending nobody else can claim the agent, and not even its old user
      can list it again as an extra. */
  lemma ClaimRefused(t: Tracker, op: Op, u: Address, a: Address)
    requires Clean(t) && Times(t.pending, u, a) != {}
    requires (op.SaveMainOp? && op.newAgent == Some(a) && a != 0 && op.user != u) || (op.SaveExtraOp? && op.agent == a)
    ensures Apply(t, op).1 != OK
  {
    hide Clear, Push, Times, Distinct, ExtraLimit;
    assert CleanAt(t, u, a);
    if op.SaveExtraOp? {
      var agents := ExtrasOf(t.extras, op.user);
      var pos := Position(agents, op.name);
      assert CleanAt(t, op.user, a);
      if pos.Some? { ListsAt(agents, pos.value); }
    }
  }

  /** Re-approval by the old user, the one thing that closes a window early. */
  predicate Reapproves(op: Op, u: Address, a: Address) {
    op.SaveMainOp? && op.user == u && op.newAgent == Some(a)
  }

  lemma WindowStep(t: Tracker, op: Op, u: Address, a: Address, r: int)
    requires Clean(t) && r in Times(t.pending, u, a) && !Reapproves(op, u, a)
    requires op.PruneOp? ==> op.now < r
    ensures r in Times(Apply(t, op).0.pending, u, a)
  {
    hide Clear, Push, Times, Distinct, ExtraLimit, PrunePending, ExpiredAgents, Lists;
    match op
    case SaveMainOp(user, newAgent, validUntil, now) =>
      if newAgent.Some? { ClearTimes(t.pending, user, newAgent.value, u, a); }
      if user in t.mains { PushTimes(t.pending, user, t.mains[user].agent, now + GRACE_MS, u, a); }
    case SaveExtraOp(user, name, agent, validUntil, now, tier) =>
      if agent == a {
        ClaimRefused(t, op, u, a);
        ErrorsChangeNothing(t, op);
      } else {
        var agents := ExtrasOf(t.extras, user);
        var pos := Position(agents, name);
        ClearTimes(t.pending, user, agent, u, a);
        if pos.Some? {
          PushTimes(t.pending, user, agents[pos.value].agent, now + GRACE_MS, u, a);
          ClearTimes(Push(t.pending, user, agents[pos.value].agent, now + GRACE_MS), user, agent, u, a);
        }
      }
    case RemoveExtraOp(user, name, now) =>
      if user in t.extras && Position(t.extras[user], name).Some? {
        PushTimes(t.pending, user, t.extras[user][Position(t.extras[user], name).value].agent, now + GRACE_MS, u, a);
      }
    case PruneOp(now, realUsers) => PruneTimes(t.pending, now, u, a);
  }

  /** An agent removed with due time `r` and not re-approved keeps resolving to its old user
      through every operation and every prune before `r`. */
  lemma {:induction false} GraceHolds(t: Tracker, ops: seq<Op>, u: Address, a: Address, r: int)
    requires Clean(t) && r in Times(t.pending, u, a) && DisciplinedRun(t, ops)
    requires forall i :: 0 <= i < |ops| ==> !Reapproves(ops[i], u, a) && (ops[i].PruneOp? ==> ops[i].now < r)
    ensures var t' := Run(t, ops); r in Times(t'.pending, u, a) && Owns(t', u, a)
    decreases |ops|
  {
    hide Apply, Times, DisciplinedRun, CleanAt;
    RunClean(t, ops);
    if ops != [] {
      var n := |ops| - 1;
      DisciplinedPrefix(t, ops, n);
      GraceHolds(t, ops[..n], u, a, r);
      RunClean(t, ops[..n]);
      WindowStep(Run(t, ops[..n]), ops[n], u, a, r);
    }
    PendingOwns(Run(t, ops), u, a, r);
  }

  lemma PendingOwns(t: Tracker, u: Address, a: Address, r: int)
    requires Clean(t) && r in Times(t.pending, u, a)
    ensures Owns(t, u, a)
  {
    assert CleanAt(t, u, a);
  }

  /** The first prune at or after the due time drops the agent for good. */
  lemma GraceEnds(t: Tracker, now: Millis, realUsers: set<Address>, u: Address, a: Address, r: int)
    requires Clean(t) && r in Times(t.pending, u, a) && r <= now
    ensures var t' := Prune(t, now, realUsers);
      a !in t'.owner && Times(t'.pending, u, a) == {} && (a !in realUsers ==> a !in t'.nonceSets)
  {
    hide PrunePending, Times, ExpiredAgents;
    assert CleanAt(t, u, a);
    PruneExpired(t.pending, now, a);
    PruneTimes(t.pending, now, u, a);
    assert forall s :: s in Times(t.pending, u, a) ==> s <= now;
  }

  // ----- what a successful save records

  ghost predicate NamesDistinct(agents: seq<ExtraAgent>) {
    forall i, j :: 0 <= i < j < |agents| ==> agents[i].name != agents[j].name
  }

  /** Every stored list is nonempty and uses each name once, so looking a name up is
      unambiguous. */
  ghost predicate NamesTidy(t: Tracker) {
    forall u :: u in t.extras ==> t.extras[u] != [] && NamesDistinct(t.extras[u])
  }

  lemma NamesUpdate(agents: seq<ExtraAgent>, i: nat, e: ExtraAgent)
    requires NamesDistinct(agents) && i < |agents| && e.name == agents[i].name
    ensures NamesDistinct(agents[i := e])
  {
  }

  lemma NamesAppend(agents: seq<ExtraAgent>, e: ExtraAgent)
    requires NamesDistinct(agents) && forall i :: 0 <= i < |agents| ==> agents[i].name != e.name
    ensures NamesDistinct(agents + [e])
  {
  }

  lemma NamesRemove(agents: seq<ExtraAgent>, i: nat)
    requires NamesDistinct(agents) && i < |agents|
    ensures NamesDistinct(agents[..i] + agents[i + 1..])
  {
    var left := agents[..i] + agents[i + 1..];
    assert forall k :: 0 <= k < |left| ==> left[k] == agents[if k < i then k else k + 1];
  }

  lemma NoNames()
    ensures NamesDistinct([])
  {
  }

  lemma ApplyNamesTidy(t: Tracker, op: Op)
    requires NamesTidy(t)
    ensures NamesTidy(Apply(t, op).0)
  {
    hide Clear, Push, ExtraLimit, NamesDistinct;
    NoNames();
    if Apply(t, op).1 != OK {
      ErrorsChangeNothing(t, op);
    } else if op.SaveExtraOp? {
      var agents, e := ExtrasOf(t.extras, op.user), ExtraAgent(op.name, op.agent, op.validUntil);
      var pos := Position(agents, op.name);
      if pos.Some? {
        NamesUpdate(agents, pos.value, e);
        NamesUpdate(agents, pos.value, agents[pos.value].(validUntil := op.validUntil));
      } else {
        NamesAppend(agents, e);
      }
    } else if op.RemoveExtraOp? {
      NamesRemove(t.extras[op.user], Position(t.extras[op.user], op.name).value);
    }
  }

  lemma {:induction false} NamesStayDistinct(ops: seq<Op>)
    ensures NamesTidy(Run(EMPTY, ops))
    decreases |ops|
  {
    if ops != [] {
      hide NamesTidy, Apply;
      NamesStayDistinct(ops[..|ops| - 1]);
      ApplyNamesTidy(Run(EMPTY, ops[..|ops| - 1]), ops[|ops| - 1]);
    }
  }

  /** The tracker of every user but one is the same: agents, names, expiries and removals. */
  ghost predicate OthersKept(t: Tracker, t': Tracker, user: Address) {
    && t'.nonceSets == t.nonceSets
    && (forall v :: v != user ==> (v in t'.mains <==> v in t.mains) && (v in t.mains ==> t'.mains[v] == t.mains[v]))
    && (forall v :: v != user ==> ExtrasOf(t'.extras, v) == ExtrasOf(t.extras, v))
    && (forall v :: v != user ==> PendingOf(t'.pending, v) == PendingOf(t.pending, v))
  }

  /** The user's removals without those of one agent. */
  ghost predicate RemovalsCleared(before: set<Removal>, agent: Address, after: set<Removal>) {
    forall p :: p in after <==> p in before && p.agent != agent
  }

  /** Saving a main agent, in full: the code is 390 exactly when the expiry lies more than 2000 ms
      ahead, nobody else holds the address and the user has no other main agent; it is 85 when the
      expiry is too near and 81 otherwise. A success records this address with this expiry. */
  lemma SaveMainExact(t: Tracker, user: Address, agent: Address, validUntil: Millis, now: Millis)
    requires agent != 0
    ensures var (t', code) := SaveMain(t, user, Some(agent), validUntil, now);
      && (code == 390 <==>
            && validUntil > now + 2_000
            && (agent in t.owner ==> t.owner[agent] == user)
            && (user in t.mains ==> t.mains[user].agent == agent))
      && (code == 85 <==> validUntil <= now + 2_000)
      && (code == 390 || code == 85 || code == 81)
      && (code != 390 ==> t' == t)
      && (code == 390 ==>
            && t'.mains == t.mains[user := MainAgent(agent, validUntil)]
            && t'.owner == t.owner[agent := user]
            && t'.extras == t.extras
            && RemovalsCleared(PendingOf(t.pending, user), agent, PendingOf(t'.pending, user))
            && OthersKept(t, t', user))
  {
  }

  /** Clearing the slot, with no address or address zero, always answers 390; it only empties the
      slot and queues the old agent for 2000 ms later. */
  lemma ClearMainExact(t: Tracker, user: Address, newAgent: Option<Address>, validUntil: Millis, now: Millis)
    requires newAgent == None || newAgent == Some(0)
    ensures var (t', code) := SaveMain(t, user, newAgent, validUntil, now);
      && code == 390 && t'.mains == t.mains - {user} && t'.owner == t.owner && t'.extras == t.extras
      && PendingOf(t'.pending, user) == PendingOf(t.pending, user) +
           (if user in t.mains then {Removal(now + 2_000, t.mains[user].agent)} else {})
      && OthersKept(t, t', user)
  {
    assert user !in t.mains ==> t.mains - {user} == t.mains;
  }

  /** Entry `i` is the first of that name. */
  ghost predicate NamedAt(agents: seq<ExtraAgent>, name: Name, i: int) {
    0 <= i < |agents| && agents[i].name == name && forall j :: 0 <= j < i ==> agents[j].name != name
  }

  lemma {:induction false} PositionFirst(agents: seq<ExtraAgent>, name: Name)
    ensures var p := Position(agents, name); p.Some? ==> NamedAt(agents, name, p.value)
    decreases |agents|
  {
    if agents != [] && agents[0].name != name {
      PositionFirst(agents[1..], name);
      var p := Position(agents, name);
      forall j | 0 <= j < |agents| && p.Some? && j < p.value ensures agents[j].name != name {
        assert j > 0 ==> agents[j] == agents[1..][j - 1];
      }
    }
  }

  lemma PositionIs(agents: seq<ExtraAgent>, name: Name)
    ensures var p := Position(agents, name);
      && (p.Some? ==> NamedAt(agents, name, p.value))
      && (forall i :: NamedAt(agents, name, i) ==> p.Some? && p.value == i)
  {
    PositionFirst(agents, name);
  }

  /** There is a place for one more extra agent: three and two per tier, a negative tier being
      without limit, and three addresses exempt. */
  ghost predicate HasRoom(n: nat, agent: Address, tier: int) {
    || agent in {0x677d831aef5328190852e24f13c46cac05f984e7, 0x3c83a5cae32a05e88ca6a0350edb540194851a76,
                 0x4dbf394da4b348b88e8090d22051af83e4cbaef4}
    || (n < 0xFFFF_FFFF_FFFF_FFFF && (tier < 0 || n < 3 + 2 * tier))
  }

  /** When an extra agent can be saved, and the code otherwise. */
  lemma SaveExtraCode(t: Tracker, user: Address, name: Name, agent: Address, validUntil: Millis, now: Millis, tier: int)
    ensures var code, agents := SaveExtra(t, user, name, agent, validUntil, now, tier).1, ExtrasOf(t.extras, user);
      var named := exists i :: NamedAt(agents, name, i);
      var same := exists i :: NamedAt(agents, name, i) && agents[i].agent == agent;
      var free := agent !in t.owner || (same && t.owner[agent] == user);
      && (code == 83 <==> !(1 <= |name| <= 16))
      && (code == 85 <==> 1 <= |name| <= 16 && validUntil <= now + 2_000)
      && (code == 86 <==> 1 <= |name| <= 16 && validUntil > now + 2_000 && !free)
      && (code == 87 <==> 1 <= |name| <= 16 && validUntil > now + 2_000 && free && !named && !HasRoom(|agents|, agent, tier))
      && (code == 390 <==> 1 <= |name| <= 16 && validUntil > now + 2_000 && free && (named || HasRoom(|agents|, agent, tier)))
  {
    hide Clear, Push;
    var agents := ExtrasOf(t.extras, user);
    PositionIs(agents, name);
    var p := Position(agents, name);
    assert p.Some? ==> NamedAt(agents, name, p.value);
  }

  /** What a successful save records: the entry of that name is overwritten in place, or a new one
      appended; the address is mapped and its removals are cleared; a replaced address is queued
      for 2000 ms later; nothing else changes. */
  lemma SaveExtraExact(t: Tracker, user: Address, name: Name, agent: Address, validUntil: Millis, now: Millis, tier: int)
    requires SaveExtra(t, user, name, agent, validUntil, now, tier).1 == OK
    ensures var t' := SaveExtra(t, user, name, agent, validUntil, now, tier).0;
      var before, after, e := ExtrasOf(t.extras, user), ExtrasOf(t'.extras, user), ExtraAgent(name, agent, validUntil);
      && t'.mains == t.mains && t'.owner == t.owner[agent := user] && OthersKept(t, t', user)
      && ((forall i :: !NamedAt(before, name, i)) ==>
            after == before + [e] && RemovalsCleared(PendingOf(t.pending, user), agent, PendingOf(t'.pending, user)))
      && (forall i :: NamedAt(before, name, i) ==>
            && after == before[i := e]
            && RemovalsCleared(PendingOf(t.pending, user) + {Removal(now + 2_000, before[i].agent)}, agent,
                               PendingOf(t'.pending, user)))
  {
    hide ExtraLimit, Clear, Push;
    var before := ExtrasOf(t.extras, user);
    PositionIs(before, name);
    ClearExact(t.pending, user, agent);
    var p := Position(before, name);
    if p.Some? {
      assert NamedAt(before, name, p.value);
      PushExact(t.pending, user, before[p.value].agent, now + GRACE_MS);
      ClearExact(Push(t.pending, user, before[p.value].agent, now + GRACE_MS), user, agent);
    }
  }

  lemma ClearExact(pending: Pending, user: Address, agent: Address)
    ensures var pending' := Clear(pending, user, agent);
      && RemovalsCleared(PendingOf(pending, user), agent, PendingOf(pending', user))
      && forall v :: v != user ==> PendingOf(pending', v) == PendingOf(pending, v)
  {
  }

  lemma PushExact(pending: Pending, user: Address, agent: Address, readyAt: int)
    ensures var pending' := Push(pending, user, agent, readyAt);
      && PendingOf(pending', user) == PendingOf(pending, user) + {Removal(readyAt, agent)}
      && forall v :: v != user ==> PendingOf(pending', v) == PendingOf(pending, v)
  {
  }

  /** Removing by name answers 390 exactly when the user lists that name, and 89 otherwise; it takes
      out the first entry of the name, queues its address for 2000 ms later and changes nothing
      else, not even the mapping. */
  lemma RemoveExtraExact(t: Tracker, user: Address, name: Name, now: Millis)
    ensures var (t', code) := RemoveExtra(t, user, name, now);
      var before, after := ExtrasOf(t.extras, user), ExtrasOf(t'.extras, user);
      && (code == 390 <==> exists i :: NamedAt(before, name, i))
      && (code != 390 ==> code == 89 && t' == t)
      && (forall i :: NamedAt(before, name, i) ==>
            && after == before[..i] + before[i + 1..]
            && PendingOf(t'.pending, user) == PendingOf(t.pending, user) + {Removal(now + 2_000, before[i].agent)}
            && t'.mains == t.mains && t'.owner == t.owner && OthersKept(t, t', user))
  {
    var before := ExtrasOf(t.extras, user);
    PositionIs(before, name);
    var p := Position(before, name);
    if user in t.extras && p.Some? {
      assert NamedAt(before, name, p.value);
      PushExact(t.pending, user, before[p.value].agent, now + GRACE_MS);
    }
  }

  /** Some removal of the agent has fallen due. */
  ghost predicate Due(pending: Pending, agent: Address, now: Millis) {
    exists u, p :: p in PendingOf(pending, u) && p.agent == agent && p.readyAt <= now
  }

  /** Pruning drops exactly the removals that are due, the mappings of their agents and, but for
      real users, their nonces; an entry left empty goes, and nothing else changes. */
  lemma PruneExact(t: Tracker, now: Millis, realUsers: set<Address>)
    ensures var t' := Prune(t, now, realUsers);
      && t'.mains == t.mains && t'.extras == t.extras
      && (forall u :: PendingOf(t'.pending, u) == set p | p in PendingOf(t.pending, u) && p.readyAt > now)
      && (forall u :: u in t'.pending ==> u in t.pending && t'.pending[u] != {})
      && (forall a :: a in t'.owner <==> a in t.owner && !Due(t.pending, a, now))
      && (forall a :: a in t'.owner ==> t'.owner[a] == t.owner[a])
      && (forall a :: a in t'.nonceSets <==> a in t.nonceSets && (a in realUsers || !Due(t.pending, a, now)))
      && (forall a :: a in t'.nonceSets ==> t'.nonceSets[a] == t.nonceSets[a])
  {
    forall a ensures a in ExpiredAgents(t.pending, now) <==> Due(t.pending, a, now) { DueIs(t.pending, a, now); }
    hide ExpiredAgents, Due;
    forall u ensures PendingOf(PrunePending(t.pending, now), u) == set p | p in PendingOf(t.pending, u) && p.readyAt > now {
      if u !in t.pending { assert PendingOf(t.pending, u) == {}; }
    }
  }

  lemma DueIs(pending: Pending, a: Address, now: Millis)
    ensures a in ExpiredAgents(pending, now) <==> Due(pending, a, now)
  {
    if a in ExpiredAgents(pending, now) {
      var u, p :| u in pending && p in pending[u] && p.readyAt <= now && p.agent == a;
      assert p in PendingOf(pending, u);
    }
    if Due(pending, a, now) {
      var u, p :| p in PendingOf(pending, u) && p.agent == a && p.readyAt <= now;
      assert u in pending && p in pending[u];
    }
  }

  /** A successful save leaves the agent mapped to its user, without pending removal, and
      recorded under the given name and expiry; every other entry of the user is kept. */
  lemma SaveRecords(t: Tracker, user: Address, name: Name, agent: Address, validUntil: Millis, now: Millis, tier: int)
    requires SaveExtra(t, user, name, agent, validUntil, now, tier).1 == OK
    ensures var t' := SaveExtra(t, user, name, agent, validUntil, now, tier).0;
      var before, after := ExtrasOf(t.extras, user), ExtrasOf(t'.extras, user);
      && ExtraAgent(name, agent, validUntil) in after
      && Owns(t', user, agent) && Times(t'.pending, user, agent) == {}
      && (forall i :: 0 <= i < |before| && before[i].name != name ==> before[i] in after)
      && (|after| > |before| ==> agent in CAP_BYPASS || |before| < ExtraLimit(tier))
  {
    hide Clear, Push, Times, ExtraLimit;
    var before := ExtrasOf(t.extras, user);
    var after := ExtrasOf(SaveExtra(t, user, name, agent, validUntil, now, tier).0.extras, user);
    var pos := Position(before, name);
    ClearTimes(t.pending, user, agent, user, agent);
    if pos.Some? {
      ClearTimes(Push(t.pending, user, before[pos.value].agent, now + GRACE_MS), user, agent, user, agent);
      assert after[pos.value] == ExtraAgent(name, agent, validUntil);
    } else {
      assert after[|before|] == ExtraAgent(name, agent, validUntil);
    }
    forall i | 0 <= i < |before| && before[i].name != name ensures before[i] in after { assert after[i] == before[i]; }
  }
}
