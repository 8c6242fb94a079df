/** Which user each agent address speaks for, with a grace window after an agent is removed. */
module AgentModel {
  import opened Common

  type Millis = x: int | 0 <= x < 0x8000_0000_0000_0000
  type Name = seq<u8>

  const OK: int := 390
  const ERR_SAVE_AGENT_UNEXPECTED: int := 81
  const ERR_EXTRA_AGENT_INVALID_NAME: int := 83
  const ERR_AGENT_VALID_UNTIL_PASSED: int := 85
  const ERR_EXTRA_AGENT_ALREADY_USED: int := 86
  const ERR_TOO_MANY_EXTRA_AGENTS: int := 87
  const ERR_EXTRA_AGENT_DOES_NOT_EXIST: int := 89

  const GRACE_MS: int := 2_000
  const BASE_EXTRA_AGENT_LIMIT: int := 3

  const CAP_BYPASS: set<Address> := {
    0x677d831aef5328190852e24f13c46cac05f984e7,
    0x3c83a5cae32a05e88ca6a0350edb540194851a76,
    0x4dbf394da4b348b88e8090d22051af83e4cbaef4
  }

  datatype MainAgent = MainAgent(agent: Address, validUntil: Millis)
  datatype ExtraAgent = ExtraAgent(name: Name, agent: Address, validUntil: Millis)
  datatype Removal = Removal(readyAt: int, agent: Address)

  type Pending = map<Address, set<Removal>>

  datatype Tracker = Tracker(
    mains: map<Address, MainAgent>,
    extras: map<Address, seq<ExtraAgent>>,
    owner: map<Address, Address>,
    nonceSets: map<Address, set<u64>>,
    pending: Pending)

  function ExtrasOf(extras: map<Address, seq<ExtraAgent>>, user: Address): seq<ExtraAgent> {
    if user in extras then extras[user] else []
  }

  function PendingOf(pending: Pending, user: Address): set<Removal> {
    if user in pending then pending[user] else {}
  }

  /** First position with a name. */
  function Position(agents: seq<ExtraAgent>, name: Name): (p: Option<nat>)
    ensures p.Some? ==> p.value < |agents| && agents[p.value].name == name
    ensures p.None? ==> forall i :: 0 <= i < |agents| ==> agents[i].name != name
  {
    if agents == [] then None
    else if agents[0].name == name then Some(0)
    else
      var rest := Position(agents[1..], name);
      if rest.Some? then Some(rest.value + 1) else None
  }

  function ExtraLimit(tier: int): int {
    if tier < 0 then U64_MAX else Min(U64_MAX, BASE_EXTRA_AGENT_LIMIT + 2 * tier)
  }

  function Push(pending: Pending, user: Address, agent: Address, readyAt: int): Pending {
    pending[user := PendingOf(pending, user) + {Removal(readyAt, agent)}]
  }

  /** Forget the removals of one agent; drop the user's entry when nothing is left. */
  function Clear(pending: Pending, user: Address, agent: Address): Pending {
    if user !in pending then pending
    else
      var kept := set p | p in pending[user] && p.agent != agent;
      if kept == {} then pending - {user} else pending[user := kept]
  }

  function SaveMain(t: Tracker, user: Address, newAgent: Option<Address>, validUntil: Millis, now: Millis): (Tracker, int) {
    if newAgent.None? || newAgent.value == 0 then
      if user in t.mains then
        (t.(mains := t.mains - {user}, pending := Push(t.pending, user, t.mains[user].agent, now + GRACE_MS)), OK)
      else (t, OK)
    else
      var agent := newAgent.value;
      if validUntil <= now + GRACE_MS then (t, ERR_AGENT_VALID_UNTIL_PASSED)
      else if agent in t.owner && t.owner[agent] != user then (t, ERR_SAVE_AGENT_UNEXPECTED)
      else if user in t.mains && t.mains[user].agent != agent then (t, ERR_SAVE_AGENT_UNEXPECTED)
      else
        (t.(pending := Clear(t.pending, user, agent),
            owner := t.owner[agent := user],
            mains := t.mains[user := MainAgent(agent, validUntil)]), OK)
  }

  function SaveExtra(t: Tracker, user: Address, name: Name, agent: Address, validUntil: Millis, now: Millis, tier: int)
    : (Tracker, int)
  {
    if name == [] || |name| > 16 then (t, ERR_EXTRA_AGENT_INVALID_NAME)
    else if validUntil <= now + GRACE_MS then (t, ERR_AGENT_VALID_UNTIL_PASSED)
    else
      var agents := ExtrasOf(t.extras, user);
      var pos := Position(agents, name);
      if pos.Some? && agents[pos.value].agent == agent then
        if agent in t.owner && t.owner[agent] != user then (t, ERR_EXTRA_AGENT_ALREADY_USED)
        else
          (t.(extras := t.extras[user := agents[pos.value := agents[pos.value].(validUntil := validUntil)]],
              owner := t.owner[agent := user],
              pending := Clear(t.pending, user, agent)), OK)
      else if agent in t.owner then (t, ERR_EXTRA_AGENT_ALREADY_USED)
      else if pos.Some? then
        (t.(extras := t.extras[user := agents[pos.value := ExtraAgent(name, agent, validUntil)]],
            owner := t.owner[agent := user],
            pending := Clear(Push(t.pending, user, agents[pos.value].agent, now + GRACE_MS), user, agent)), OK)
      else if agent !in CAP_BYPASS && |agents| >= ExtraLimit(tier) then
        (t.(extras := t.extras[user := agents]), ERR_TOO_MANY_EXTRA_AGENTS)
      else
        (t.(extras := t.extras[user := agents + [ExtraAgent(name, agent, validUntil)]],
            owner := t.owner[agent := user],
            pending := Clear(t.pending, user, agent)), OK)
  }

  function RemoveExtra(t: Tracker, user: Address, name: Name, now: Millis): (Tracker, int) {
    if user !in t.extras then (t, ERR_EXTRA_AGENT_DOES_NOT_EXIST)
    else
      var agents := t.extras[user];
      var pos := Position(agents, name);
      if pos.None? then (t, ERR_EXTRA_AGENT_DOES_NOT_EXIST)
      else
        var left := agents[..pos.value] + agents[pos.value + 1..];
        (t.(extras := if left == [] then t.extras - {user} else t.extras[user := left],
            pending := Push(t.pending, user, agents[pos.value].agent, now + GRACE_MS)), OK)
  }

  function Unexpired(ps: set<Removal>, now: Millis): set<Removal> {
    set p | p in ps && p.readyAt > now
  }

  /** Agents with some expired removal, whoever the user. */
  function ExpiredAgents(pending: Pending, now: Millis): set<Address> {
    set u, p | u in pending && p in pending[u] && p.readyAt <= now :: p.agent
  }

  function PrunePending(pending: Pending, now: Millis): Pending {
    map u | u in pending && Unexpired(pending[u], now) != {} :: Unexpired(pending[u], now)
  }

  function Prune(t: Tracker, now: Millis, realUsers: set<Address>): Tracker {
    var expired := ExpiredAgents(t.pending, now);
    t.(pending := PrunePending(t.pending, now), owner := t.owner - expired, nonceSets := t.nonceSets - (expired - realUsers))
  }

  // ----- the objects of the properties

  predicate Active(t: Tracker, user: Address, agent: Address) {
    IsMain(t.mains, user, agent) || IsExtra(t.extras, user, agent)
  }

  predicate IsMain(mains: map<Address, MainAgent>, user: Address, agent: Address) {
    user in mains && mains[user].agent == agent
  }

  predicate IsExtra(extras: map<Address, seq<ExtraAgent>>, user: Address, agent: Address) {
    Lists(ExtrasOf(extras, user), agent)
  }

  predicate Lists(agents: seq<ExtraAgent>, agent: Address) {
    exists i :: 0 <= i < |agents| && agents[i].agent == agent
  }

  predicate Owns(t: Tracker, user: Address, agent: Address) {
    agent in t.owner && t.owner[agent] == user
  }

  /** When the pending removals of an agent fall due. */
  function Times(pending: Pending, user: Address, agent: Address): set<int> {
    set p | p in PendingOf(pending, user) && p.agent == agent :: p.readyAt
  }

  // ----- operations as data

  datatype Op =
    | SaveMainOp(user: Address, newAgent: Option<Address>, validUntil: Millis, now: Millis)
    | SaveExtraOp(user: Address, name: Name, agent: Address, validUntil: Millis, now: Millis, tier: int)
    | RemoveExtraOp(user: Address, name: Name, now: Millis)
    | PruneOp(now: Millis, realUsers: set<Address>)

  function Apply(t: Tracker, op: Op): (Tracker, int) {
    match op
    case SaveMainOp(user, newAgent, validUntil, now) => SaveMain(t, user, newAgent, validUntil, now)
    case SaveExtraOp(user, name, agent, validUntil, now, tier) => SaveExtra(t, user, name, agent, validUntil, now, tier)
    case RemoveExtraOp(user, name, now) => RemoveExtra(t, user, name, now)
    case PruneOp(now, realUsers) => (Prune(t, now, realUsers), OK)
  }

  function Run(t: Tracker, ops: seq<Op>): Tracker {
    if ops == [] then t else Apply(Run(t, ops[..|ops| - 1]), ops[|ops| - 1]).0
  }

  const EMPTY: Tracker := Tracker(map[], map[], map[], map[], map[])
}

/** The tracker as the object the exchange updates in place. */
module AgentState {
  import opened Common
  import opened OrderedSets
  import opened AgentModel

  class AgentTracker {
    var userToMainAgent: map<Address, MainAgent>
    var userToExtraAgents: map<Address, seq<ExtraAgent>>
    var agentToUser: map<Address, Address>
    var addressToNonceSet: map<Address, set<u64>>
    var userToPendingAgentRemovals: Pending

    function View(): Tracker
      reads this
    {
      Tracker(userToMainAgent, userToExtraAgents, agentToUser, addressToNonceSet, userToPendingAgentRemovals)
    }

    constructor ()
      ensures View() == EMPTY
    {
      userToMainAgent, userToExtraAgents, agentToUser := map[], map[], map[];
      addressToNonceSet, userToPendingAgentRemovals := map[], map[];
    }

    method PushPendingRemoval(user: Address, agent: Address, readyAt: int)
      modifies this`userToPendingAgentRemovals
      ensures userToPendingAgentRemovals == Push(old(userToPendingAgentRemovals), user, agent, readyAt)
    {
      var mine := PendingOf(userToPendingAgentRemovals, user);
      userToPendingAgentRemovals := userToPendingAgentRemovals[user := mine + {Removal(readyAt, agent)}];
    }

    method ClearPendingRemoval(user: Address, agent: Address)
      modifies this`userToPendingAgentRemovals
      ensures userToPendingAgentRemovals == Clear(old(userToPendingAgentRemovals), user, agent)
    {
      if user !in userToPendingAgentRemovals { return; }
      var mine := userToPendingAgentRemovals[user];
      var stale := set p | p in mine && p.agent == agent;
      var kept := mine - stale;
      assert kept == set p | p in mine && p.agent != agent;
      if kept == {} {
        userToPendingAgentRemovals := userToPendingAgentRemovals - {user};
      } else {
        userToPendingAgentRemovals := userToPendingAgentRemovals[user := kept];
      }
    }

    method SaveMainAgent(user: Address, newAgent: Option<Address>, validUntil: Millis, now: Millis) returns (code: int)
      modifies this
      ensures (View(), code) == SaveMain(old(View()), user, newAgent, validUntil, now)
    {
      if newAgent.None? || newAgent.value == 0 {
        if user in userToMainAgent {
          var previous := userToMainAgent[user];
          userToMainAgent := userToMainAgent - {user};
          PushPendingRemoval(user, previous.agent, now + GRACE_MS);
        }
        return OK;
      }
      var agent := newAgent.value;
      if validUntil <= now + GRACE_MS { return ERR_AGENT_VALID_UNTIL_PASSED; }
      if agent in agentToUser && agentToUser[agent] != user { return ERR_SAVE_AGENT_UNEXPECTED; }
      if user in userToMainAgent && userToMainAgent[user].agent != agent { return ERR_SAVE_AGENT_UNEXPECTED; }
      ClearPendingRemoval(user, agent);
      agentToUser := agentToUser[agent := user];
      userToMainAgent := userToMainAgent[user := MainAgent(agent, validUntil)];
      code := OK;
    }

    method SaveExtraAgent(user: Address, name: Name, agent: Address, validUntil: Millis, now: Millis, tier: int)
      returns (code: int)
      modifies this
      ensures (View(), code) == SaveExtra(old(View()), user, name, agent, validUntil, now, tier)
    {
      if name == [] || |name| > 16 { return ERR_EXTRA_AGENT_INVALID_NAME; }
      if validUntil <= now + GRACE_MS { return ERR_AGENT_VALID_UNTIL_PASSED; }
      var agents := ExtrasOf(userToExtraAgents, user);
      var existing := Position(agents, name);
      if existing.Some? && agents[existing.value].agent == agent {
        if agent in agentToUser && agentToUser[agent] != user { return ERR_EXTRA_AGENT_ALREADY_USED; }
        var i := existing.value;
        userToExtraAgents := userToExtraAgents[user := agents[i := agents[i].(validUntil := validUntil)]];
        agentToUser := agentToUser[agent := user];
        ClearPendingRemoval(user, agent);
        return OK;
      }
      if agent in agentToUser { return ERR_EXTRA_AGENT_ALREADY_USED; }
      var replaced: Option<Address> := None;
      if existing.Some? {
        replaced := Some(agents[existing.value].agent);
        userToExtraAgents := userToExtraAgents[user := agents[existing.value := ExtraAgent(name, agent, validUntil)]];
      } else {
        if agent !in CAP_BYPASS && |agents| >= ExtraLimit(tier) {
          userToExtraAgents := userToExtraAgents[user := agents];
          return ERR_TOO_MANY_EXTRA_AGENTS;
        }
        userToExtraAgents := userToExtraAgents[user := agents + [ExtraAgent(name, agent, validUntil)]];
      }
      if replaced.Some? { PushPendingRemoval(user, replaced.value, now + GRACE_MS); }
      agentToUser := agentToUser[agent := user];
      ClearPendingRemoval(user, agent);
      code := OK;
    }

    method RemoveExtraAgentByName(user: Address, name: Name, now: Millis) returns (code: int)
      modifies this
      ensures (View(), code) == RemoveExtra(old(View()), user, name, now)
    {
      if user !in userToExtraAgents { return ERR_EXTRA_AGENT_DOES_NOT_EXIST; }
      var agents := userToExtraAgents[user];
      var index := Position(agents, name);
      if index.None? { return ERR_EXTRA_AGENT_DOES_NOT_EXIST; }
      var removed := agents[index.value];
      var left := agents[..index.value] + agents[index.value + 1..];
      userToExtraAgents := if left == [] then userToExtraAgents - {user} else userToExtraAgents[user := left];
      PushPendingRemoval(user, removed.agent, now + GRACE_MS);
      code := OK;
    }

    method PrunePendingAgentRemovals(now: Millis, realUsers: set<Address>)
      modifies this
      ensures View() == Prune(old(View()), now, realUsers)
    {
      hide PrunePending, ExpiredAgents;
      var kept, expired := SplitPending(userToPendingAgentRemovals, now);
      userToPendingAgentRemovals := kept;
      agentToUser := agentToUser - expired;
      addressToNonceSet := addressToNonceSet - (expired - realUsers);
    }
  }

  /** Walks the users in order, splitting each pending set into expired and kept. */
  method SplitPending(before: Pending, now: Millis) returns (pending: Pending, expired: set<Address>)
    ensures pending == PrunePending(before, now) && expired == ExpiredAgents(before, now)
  {
    hide PrunePending, ExpiredAgents;
    var todo := before.Keys;
    pending, expired := map[], {};
    PruneNothing(now);
    assert before - todo == map[];
    while todo != {}
      invariant todo <= before.Keys
      invariant pending == PrunePending(before - todo, now) && expired == ExpiredAgents(before - todo, now)
      decreases |todo|
    {
      var user: Address := MinOf(todo);
      var gone := set p | p in before[user] && p.readyAt <= now;
      var kept := before[user] - gone;
      PruneOne(before - todo, user, before[user], now);
      StillToDo(before, todo, user);
      expired := expired + set p | p in gone :: p.agent;
      if kept != {} { pending := pending[user := kept]; }
      todo := todo - {user};
    }
    assert before - {} == before;
  }

  lemma StillToDo(before: Pending, todo: set<Address>, user: Address)
    requires user in todo && user in before
    ensures before - (todo - {user}) == (before - todo)[user := before[user]]
  {
  }

  lemma PruneNothing(now: Millis)
    ensures PrunePending(map[], now) == map[] && ExpiredAgents(map[], now) == {}
  {
  }

  /** What one user adds to a prune. */
  lemma PruneOne(done: Pending, user: Address, mine: set<Removal>, now: Millis)
    requires user !in done
    ensures var gone := set p | p in mine && p.readyAt <= now;
      && ExpiredAgents(done[user := mine], now) == ExpiredAgents(done, now) + (set p | p in gone :: p.agent)
      && PrunePending(done[user := mine], now) ==
         if mine - gone == {} then PrunePending(done, now) else PrunePending(done, now)[user := mine - gone]
  {
    var all := done[user := mine];
    var gone := set p | p in mine && p.readyAt <= now;
    assert mine - gone == Unexpired(mine, now);
    forall a ensures a in ExpiredAgents(all, now) <==> a in ExpiredAgents(done, now) || a in (set p | p in gone :: p.agent) {
      if a in ExpiredAgents(done, now) {
        var u, p :| u in done && p in done[u] && p.readyAt <= now && p.agent == a;
        assert u in all && p in all[u];
      }
      if a in (set p | p in gone :: p.agent) {
        var p :| p in gone && p.agent == a;
        assert user in all && p in all[user];
      }
    }
  }
}
