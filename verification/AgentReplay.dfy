/** Agents and nonces together: agents come and go while they, and everybody else, sign actions.
    Pruning a removed agent also drops its nonces. */
module AgentReplay {
  import opened Common
  import opened AgentModel
  import opened AgentOwnership
  import Nonce

  datatype Event =
    | Manage(op: Op)
    | Attempt(now: u64, expanded: bool, signer: Address, nonce: u64)

  function Advance(t: Tracker, e: Event): Tracker {
    match e
    case Manage(op) => Apply(t, op).0
    case Attempt(now, expanded, signer, nonce) =>
      t.(nonceSets := Nonce.Remember(t.nonceSets, now, expanded, signer, nonce).0)
  }

  function History(es: seq<Event>): Tracker {
    if es == [] then EMPTY else Advance(History(es[..|es| - 1]), es[|es| - 1])
  }

  /** The `i`-th event is an attempt by `signer` and succeeds. */
  ghost predicate AcceptedAt(es: seq<Event>, i: nat, signer: Address)
    requires i < |es|
  {
    var e := es[i];
    && e.Attempt? && e.signer == signer
    && Nonce.Remember(History(es[..i]).nonceSets, e.now, e.expanded, signer, e.nonce).1.Accepted?
  }

  /** The event as the nonce sets see it. */
  function Seen(t: Tracker, e: Event): Nonce.Op {
    match e
    case Attempt(now, expanded, signer, nonce) => Nonce.Attempt(now, expanded, signer, nonce)
    case Manage(PruneOp(now, realUsers)) => Nonce.Prune(ExpiredAgents(t.pending, now) - realUsers)
    case Manage(_) => Nonce.Prune({})
  }

  function SeenAll(es: seq<Event>): (ops: seq<Nonce.Op>)
    ensures |ops| == |es|
  {
    if es == [] then []
    else var n := |es| - 1; SeenAll(es[..n]) + [Seen(History(es[..n]), es[n])]
  }

  lemma {:induction false} SeenAt(es: seq<Event>, i: nat)
    requires i < |es|
    ensures SeenAll(es)[..i] == SeenAll(es[..i]) && SeenAll(es)[i] == Seen(History(es[..i]), es[i])
    decreases |es|
  {
    hide Seen, History;
    var n := |es| - 1;
    if i < n {
      SeenAt(es[..n], i);
      assert es[..n][..i] == es[..i];
    }
  }

  lemma SeenStep(t: Tracker, e: Event)
    ensures Nonce.Step(t.nonceSets, Seen(t, e)) == Advance(t, e).nonceSets
  {
    hide Nonce.Remember, ExpiredAgents;
    assert t.nonceSets - {} == t.nonceSets;
  }

  /** The nonce sets go through a run of their own, whatever happens to the agents. */
  lemma {:induction false} NoncesFollow(es: seq<Event>)
    ensures Nonce.Run(SeenAll(es)) == History(es).nonceSets
    decreases |es|
  {
    if es != [] {
      hide Nonce.Step, Advance, Seen;
      var n := |es| - 1;
      NoncesFollow(es[..n]);
      SeenStep(History(es[..n]), es[n]);
      assert SeenAll(es)[..n] == SeenAll(es[..n]);
    }
  }

  lemma AcceptedSeen(es: seq<Event>, i: nat, signer: Address)
    requires i < |es| && AcceptedAt(es, i, signer)
    ensures Nonce.AcceptedAt(SeenAll(es), i, signer) && SeenAll(es)[i].nonce == es[i].nonce
  {
    hide Nonce.Remember, History, SeenAll, Nonce.Run;
    SeenAt(es, i);
    NoncesFollow(es[..i]);
  }

  predicate By(e: Event, signer: Address) { e.Attempt? && e.signer == signer }

  /** The signer's retention cap never grows. */
  ghost predicate CapNeverGrows(es: seq<Event>, signer: Address) {
    forall i, j :: 0 <= i < j < |es| && By(es[i], signer) && By(es[j], signer) && es[j].expanded ==> es[i].expanded
  }

  /** The prune at `i`, if it is one, spares the signer's nonces: the signer is a real user or no
      removal of it has fallen due. */
  ghost predicate Spared(es: seq<Event>, i: nat, signer: Address)
    requires i < |es|
  {
    es[i].Manage? && es[i].op.PruneOp? ==>
      signer in es[i].op.realUsers || signer !in ExpiredAgents(History(es[..i]).pending, es[i].op.now)
  }

  /** Agents may be added, replaced, removed and pruned in any order: as long as no prune takes
      the signer's own nonces and its cap does not grow, no nonce of its is accepted twice. */
  lemma NoReplayAmongAgents(es: seq<Event>, signer: Address, i: nat, j: nat)
    requires i < j < |es| && CapNeverGrows(es, signer) && forall k :: 0 <= k < |es| ==> Spared(es, k, signer)
    requires AcceptedAt(es, i, signer) && AcceptedAt(es, j, signer)
    ensures es[i].nonce != es[j].nonce
  {
    hide AcceptedAt, Nonce.AcceptedAt, SeenAll, Nonce.Run, History;
    AcceptedSeen(es, i, signer);
    AcceptedSeen(es, j, signer);
    var ops := SeenAll(es);
    forall k | 0 <= k < |es| ensures ops[k] == Seen(History(es[..k]), es[k]) { SeenAt(es, k); }
    forall k | 0 <= k < |ops| && ops[k].Prune? ensures signer !in ops[k].addresses { assert Spared(es, k, signer); }
    assert Nonce.Protected(ops, signer);
    Nonce.NoReplay(ops, signer, i, j);
  }

  // ----- for active agents the condition holds by itself

  ghost predicate DisciplinedEvents(es: seq<Event>) {
    forall i :: 0 <= i < |es| && es[i].Manage? ==> Disciplined(History(es[..i]), es[i].op)
  }

  lemma {:induction false} EventsClean(es: seq<Event>, n: nat)
    requires DisciplinedEvents(es) && n <= |es|
    ensures Clean(History(es[..n]))
    decreases n
  {
    if n == 0 {
      EmptyClean();
    } else {
      hide Apply, Disciplined, Clean, Nonce.Remember;
      EventsClean(es, n - 1);
      var before := History(es[..n - 1]);
      assert es[..n][..n - 1] == es[..n - 1];
      if es[n - 1].Manage? {
        ApplyClean(before, es[n - 1].op);
      } else {
        CleanIgnoresNonces(before, Advance(before, es[n - 1]).nonceSets);
      }
    }
  }

  lemma CleanIgnoresNonces(t: Tracker, sets: map<Address, set<u64>>)
    requires Clean(t)
    ensures Clean(t.(nonceSets := sets))
  {
    var t' := t.(nonceSets := sets);
    forall u, a ensures CleanAt(t', u, a) { assert CleanAt(t, u, a); }
    forall u ensures Tidy(t', u) { assert Tidy(t, u); }
  }

  /** An active agent has no removal on anybody's list. */
  lemma ActiveNotExpired(t: Tracker, u: Address, a: Address, now: Millis)
    requires Clean(t) && Active(t, u, a)
    ensures a !in ExpiredAgents(t.pending, now)
  {
    hide ExpiredAgents, Active, Times;
    PruneExpired(t.pending, now, a);
    assert CleanAt(t, u, a);
    forall v ensures Times(t.pending, v, a) == {} { assert CleanAt(t, v, a); }
  }

  /** In every disciplined history, an agent that is active or a real user whenever pruning takes
      place, and whose cap does not grow, never has a nonce accepted twice. */
  lemma ActiveAgentNeverReplays(es: seq<Event>, signer: Address, i: nat, j: nat)
    requires i < j < |es| && CapNeverGrows(es, signer) && DisciplinedEvents(es)
    requires forall k :: 0 <= k < |es| && es[k].Manage? && es[k].op.PruneOp? ==>
               signer in es[k].op.realUsers || exists u :: Active(History(es[..k]), u, signer)
    requires AcceptedAt(es, i, signer) && AcceptedAt(es, j, signer)
    ensures es[i].nonce != es[j].nonce
  {
    hide AcceptedAt, History, Active, ExpiredAgents, Clean, DisciplinedEvents, CapNeverGrows;
    forall k | 0 <= k < |es| ensures Spared(es, k, signer) {
      if es[k].Manage? && es[k].op.PruneOp? && signer !in es[k].op.realUsers {
        var u :| Active(History(es[..k]), u, signer);
        EventsClean(es, k);
        ActiveNotExpired(History(es[..k]), u, signer, es[k].op.now);
      }
    }
    NoReplayAmongAgents(es, signer, i, j);
  }

  // ----- and a removed agent that comes back starts afresh

  /** Whatever an agent signed before, once its removal has been pruned and its user, now without
      a main agent, approves it again, every nonce in the window is accepted from it. */
  lemma ReapprovedAgentReplays(es: seq<Event>, u: Address, a: Address, r: int, now: Millis, realUsers: set<Address>,
                               validUntil: Millis, clock: u64, expanded: bool, nonce: u64)
    requires DisciplinedEvents(es) && r in Times(History(es).pending, u, a) && r <= now
    requires a !in realUsers && a != 0 && u !in History(es).mains && validUntil > now + GRACE_MS
    requires Nonce.InWindow(clock, nonce)
    ensures var t := History(es + [Manage(PruneOp(now, realUsers)), Manage(SaveMainOp(u, Some(a), validUntil, now))]);
      Owns(t, u, a) && Active(t, u, a) && Nonce.Remember(t.nonceSets, clock, expanded, a, nonce).1.Accepted?
  {
    hide Clean, Times, DisciplinedEvents, Prune, Clear, Apply;
    var prune, save := PruneOp(now, realUsers), SaveMainOp(u, Some(a), validUntil, now);
    var t0 := History(es);
    assert es[..|es|] == es;
    EventsClean(es, |es|);
    GraceEnds(t0, now, realUsers, u, a, r);
    PruneKeepsMains(t0, now, realUsers);
    HistoryTwo(es, Manage(prune), Manage(save));
    Saved(Prune(t0, now, realUsers), u, a, validUntil, now);
    var t := History(es + [Manage(prune), Manage(save)]);
    assert t == Apply(Apply(t0, prune).0, save).0;
    ManagedTwice(t0, u, a, validUntil, now, realUsers);
    Nonce.TakenIff(t.nonceSets, clock, expanded, a, nonce);
  }

  lemma ManagedTwice(t: Tracker, u: Address, a: Address, validUntil: Millis, now: Millis, realUsers: set<Address>)
    ensures Apply(Apply(t, PruneOp(now, realUsers)).0, SaveMainOp(u, Some(a), validUntil, now)).0 ==
            SaveMain(Prune(t, now, realUsers), u, Some(a), validUntil, now).0
  {
    hide Prune, SaveMain;
  }

  lemma PruneKeepsMains(t: Tracker, now: Millis, realUsers: set<Address>)
    ensures Prune(t, now, realUsers).mains == t.mains
  {
  }

  lemma Saved(t: Tracker, u: Address, a: Address, validUntil: Millis, now: Millis)
    requires a != 0 && a !in t.owner && u !in t.mains && validUntil > now + GRACE_MS
    ensures var t' := SaveMain(t, u, Some(a), validUntil, now).0;
      Owns(t', u, a) && Active(t', u, a) && t'.nonceSets == t.nonceSets
  {
    hide Clear;
  }

  lemma HistoryTwo(es: seq<Event>, a: Event, b: Event)
    ensures History(es + [a, b]) == Advance(Advance(History(es), a), b)
  {
    hide Advance;
    assert (es + [a, b])[..|es| + 1] == es + [a] && (es + [a])[..|es|] == es;
    assert History(es + [a]) == Advance(History(es), a);
  }
}
