/** The bridge ledger and the withdrawal path that feeds it: check both nonces, record and
    debit, then remember the withdrawal nonce. */
module Bridge {
  import opened Common
  import opened Nonce

  const NONCE_SCALE: u64 := 1_000
  const I64_MAX: int := 0x7FFF_FFFF_FFFF_FFFF

  datatype UserAndNonce = UserAndNonce(user: Address, nonce: u64)
  datatype Withdrawal = Withdrawal(usd: u64, destination: Address)

  /** What recording a withdrawal comes to; the two panics end the process. */
  datatype Debit = Debited | PanicDuplicate | PanicUnderflow

  class Bridge2 {
    var withdrawalSignatures: map<UserAndNonce, Withdrawal>
    var finishedWithdrawalToTime: map<UserAndNonce, u64>
    var bal: u64

    constructor (bal: u64)
      ensures withdrawalSignatures == map[] && finishedWithdrawalToTime == map[] && this.bal == bal
    {
      withdrawalSignatures, finishedWithdrawalToTime, this.bal := map[], map[], bal;
    }

    method InsertWithdrawalSignature(key: UserAndNonce, w: Withdrawal) returns (inserted: bool)
      modifies this`withdrawalSignatures
      ensures inserted == (key !in old(withdrawalSignatures))
      ensures withdrawalSignatures == if inserted then old(withdrawalSignatures)[key := w] else old(withdrawalSignatures)
    {
      inserted := key !in withdrawalSignatures;
      if inserted { withdrawalSignatures := withdrawalSignatures[key := w]; }
    }

    method RecordAndDebit(user: Address, destination: Address, usd: u64, nonce: u64) returns (d: Debit)
      modifies this`withdrawalSignatures, this`bal
      ensures (withdrawalSignatures, bal, d) ==
              Record(old(withdrawalSignatures), old(bal), UserAndNonce(user, nonce), Withdrawal(usd, destination))
    {
      var inserted := InsertWithdrawalSignature(UserAndNonce(user, nonce), Withdrawal(usd, destination));
      if !inserted { return PanicDuplicate; }
      if usd > bal { return PanicUnderflow; }
      bal := bal - usd;
      d := Debited;
    }

    method FinalizeWithdrawal(key: UserAndNonce, time: u64)
      modifies this`withdrawalSignatures, this`finishedWithdrawalToTime
      ensures finishedWithdrawalToTime == old(finishedWithdrawalToTime)[key := time]
      ensures withdrawalSignatures == old(withdrawalSignatures) - {key}
    {
      finishedWithdrawalToTime := finishedWithdrawalToTime[key := time];
      withdrawalSignatures := withdrawalSignatures - {key};
    }
  }

  function Record(sigs: map<UserAndNonce, Withdrawal>, bal: u64, key: UserAndNonce, w: Withdrawal)
    : (map<UserAndNonce, Withdrawal>, u64, Debit)
  {
    if key in sigs then (sigs, bal, PanicDuplicate)
    else if w.usd > bal then (sigs[key := w], bal, PanicUnderflow)
    else (sigs[key := w], bal - w.usd, Debited)
  }

  // ----- the composed withdrawal path

  datatype Ledger = Ledger(
    nonces: NonceSets,
    last: map<Address, u64>,
    sigs: map<UserAndNonce, Withdrawal>,
    finished: map<UserAndNonce, u64>,
    bal: u64,
    halted: bool)

  /** The nonce to exceed. The replay state of a new account holds zero, so the strict path
      always has one; the handler's path has none before the first withdrawal. */
  function LastNonce(last: map<Address, u64>, strict: bool, user: Address): Option<u64> {
    if user in last then Some(last[user]) else if strict then Some(0) else None
  }

  /** Scale the raw nonce to milliseconds and require it to exceed the last one used. */
  function ValidateNonce(last: Option<u64>, raw: u64): Result<u64, NonceError> {
    if raw * NONCE_SCALE > U64_MAX then Err(InvalidWithdraw3NonceArithmetic)
    else if last.Some? && raw * NONCE_SCALE <= last.value then Err(NonceAlreadyUsed)
    else Ok(raw * NONCE_SCALE)
  }

  /** The two paths differ on one input only: raw nonce zero as a user's first. */
  lemma PathsDifferIff(last: map<Address, u64>, user: Address, raw: u64)
    ensures ValidateNonce(LastNonce(last, true, user), raw) != ValidateNonce(LastNonce(last, false, user), raw) <==>
            user !in last && raw == 0
  {
  }

  datatype Op =
    | Withdraw(strict: bool, now: u64, expanded: bool, signer: Address, signedNonce: u64,
               user: Address, raw: u64, usd: u64, destination: Address)
    | Finalize(key: UserAndNonce, time: u64)
    | PruneNonces(addresses: set<Address>)

  /** A debit is reported as accepted only if the amount, negated, fits the signed volume counter
      that is updated last. */
  datatype Outcome = Paid(key: UserAndNonce, usd: u64, reportedOk: bool) | Refused(error: NonceError) | Panicked(debit: Debit) | NoDebit

  /** One operation; after a panic nothing happens any more. */
  function Advance(s: Ledger, op: Op): (Ledger, Outcome) {
    if s.halted then (s, NoDebit)
    else
      match op
      case Finalize(key, time) => (s.(finished := s.finished[key := time], sigs := s.sigs - {key}), NoDebit)
      case PruneNonces(addresses) => (s.(nonces := s.nonces - addresses), NoDebit)
      case Withdraw(strict, now, expanded, signer, signedNonce, user, raw, usd, destination) =>
        var (nonces, verdict) := Remember(s.nonces, now, expanded, signer, signedNonce);
        var s1 := s.(nonces := nonces);
        if verdict.Rejected? then (s1, Refused(verdict.error))
        else
          match ValidateNonce(LastNonce(s.last, strict, user), raw)
          case Err(e) => (s1, Refused(e))
          case Ok(nonce) =>
            var key := UserAndNonce(user, nonce);
            var (sigs, bal, debit) := Record(s.sigs, s.bal, key, Withdrawal(usd, destination));
            if debit != Debited then (s1.(sigs := sigs, bal := bal, halted := true), Panicked(debit))
            else (s1.(sigs := sigs, bal := bal, last := s.last[user := nonce]), Paid(key, usd, usd <= I64_MAX))
  }

  function Start(bal: u64): Ledger { Ledger(map[], map[], map[], map[], bal, false) }

  function Run(bal: u64, ops: seq<Op>): Ledger {
    if ops == [] then Start(bal) else Advance(Run(bal, ops[..|ops| - 1]), ops[|ops| - 1]).0
  }

  /** Outcome of the `i`-th operation of a run. */
  function OutcomeAt(bal: u64, ops: seq<Op>, i: nat): Outcome
    requires i < |ops|
  {
    Advance(Run(bal, ops[..i]), ops[i]).1
  }

  /** The debits of a run, in order. */
  function Payments(bal: u64, ops: seq<Op>): seq<(UserAndNonce, u64)> {
    if ops == [] then []
    else
      var n := |ops| - 1;
      var o := OutcomeAt(bal, ops, n);
      Payments(bal, ops[..n]) + if o.Paid? then [(o.key, o.usd)] else []
  }

  function Total(p: seq<(UserAndNonce, u64)>): nat {
    if p == [] then 0 else Total(p[..|p| - 1]) + p[|p| - 1].1
  }

  /** The key's nonce is at most the last one remembered for its user. */
  ghost predicate Used(last: map<Address, u64>, k: UserAndNonce) {
    k.user in last && k.nonce <= last[k.user]
  }

  ghost predicate Settled(s: Ledger, p: seq<(UserAndNonce, u64)>) {
    && (!s.halted ==> forall k :: k in s.sigs ==> Used(s.last, k))
    && (forall i :: 0 <= i < |p| ==> Used(s.last, p[i].0))
    && (forall i, j :: 0 <= i < j < |p| ==> p[i].0 != p[j].0)
  }

  lemma StepSettled(s: Ledger, op: Op, p: seq<(UserAndNonce, u64)>)
    requires Settled(s, p)
    ensures var (s', o) := Advance(s, op);
      && Settled(s', p + if o.Paid? then [(o.key, o.usd)] else [])
      && o != Panicked(PanicDuplicate)
      && s.bal == s'.bal + (if o.Paid? then o.usd else 0)
  {
    hide Remember;
    var (s', o) := Advance(s, op);
    if o.Paid? {
      assert !Used(s.last, o.key);
      assert forall k :: Used(s.last, k) ==> Used(s'.last, k);
    } else {
      assert p + [] == p;
    }
  }

  lemma {:induction false} RunSettled(bal: u64, ops: seq<Op>)
    ensures Settled(Run(bal, ops), Payments(bal, ops))
    ensures Run(bal, ops).bal + Total(Payments(bal, ops)) == bal
    decreases |ops|
  {
    if ops != [] {
      hide Advance, Settled;
      var n := |ops| - 1;
      RunSettled(bal, ops[..n]);
      var p := Payments(bal, ops[..n]);
      StepSettled(Run(bal, ops[..n]), ops[n], p);
      var o := OutcomeAt(bal, ops, n);
      if o.Paid? {
        assert (p + [(o.key, o.usd)])[..|p|] == p;
      } else {
        assert p + [] == p;
      }
    }
  }

  /** No (user, nonce) is debited twice, finalised or not; the recording never finds a
      duplicate; and the balance plus everything paid is what the bridge started with. */
  lemma WithdrawalsAreSafe(bal: u64, ops: seq<Op>)
    ensures var p := Payments(bal, ops);
      && (forall i, j :: 0 <= i < j < |p| ==> p[i].0 != p[j].0)
      && Run(bal, ops).bal + Total(p) == bal
    ensures forall i :: 0 <= i < |ops| ==> OutcomeAt(bal, ops, i) != Panicked(PanicDuplicate)
  {
    RunSettled(bal, ops);
    forall i | 0 <= i < |ops| ensures OutcomeAt(bal, ops, i) != Panicked(PanicDuplicate) {
      hide Advance, Settled;
      RunSettled(bal, ops[..i]);
      StepSettled(Run(bal, ops[..i]), ops[i], Payments(bal, ops[..i]));
    }
  }

  // ----- when a withdrawal is paid, in terms of what was paid before

  /** The nonce remembered for each user is the largest of those the user was paid under. */
  ghost predicate Latest(last: map<Address, u64>, p: seq<(UserAndNonce, u64)>) {
    && (forall i :: 0 <= i < |p| ==> Used(last, p[i].0))
    && (forall u :: u in last ==> exists i :: 0 <= i < |p| && p[i].0 == UserAndNonce(u, last[u]))
  }

  /** Only a payment changes what is remembered, and only upwards. */
  lemma LastAfter(s: Ledger, op: Op)
    ensures var (s', o) := Advance(s, op);
      && (!o.Paid? ==> s'.last == s.last)
      && (o.Paid? ==>
            && s'.last == s.last[o.key.user := o.key.nonce]
            && (o.key.user in s.last ==> s.last[o.key.user] < o.key.nonce))
  {
    hide Remember;
  }

  lemma StepLatest(s: Ledger, op: Op, p: seq<(UserAndNonce, u64)>)
    requires Latest(s.last, p)
    ensures var (s', o) := Advance(s, op); Latest(s'.last, p + if o.Paid? then [(o.key, o.usd)] else [])
  {
    hide Advance;
    LastAfter(s, op);
    var (s', o) := Advance(s, op);
    var p' := p + if o.Paid? then [(o.key, o.usd)] else [];
    forall u | u in s'.last ensures exists i :: 0 <= i < |p'| && p'[i].0 == UserAndNonce(u, s'.last[u]) {
      if o.Paid? && u == o.key.user {
        assert p'[|p|].0 == UserAndNonce(u, s'.last[u]);
      } else {
        var i :| 0 <= i < |p| && p[i].0 == UserAndNonce(u, s.last[u]);
        assert p'[i] == p[i];
      }
    }
  }

  lemma {:induction false} RunLatest(bal: u64, ops: seq<Op>)
    ensures Latest(Run(bal, ops).last, Payments(bal, ops))
    decreases |ops|
  {
    if ops != [] {
      hide Advance, Latest;
      var n := |ops| - 1;
      RunLatest(bal, ops[..n]);
      StepLatest(Run(bal, ops[..n]), ops[n], Payments(bal, ops[..n]));
    } else {
      assert Latest(map[], []);
    }
  }

  /** The scaled nonce exceeds every nonce the user was paid under so far, and exceeds zero when
      the strict path meets a user for the first time. */
  ghost predicate Fresh(p: seq<(UserAndNonce, u64)>, strict: bool, user: Address, scaled: nat) {
    && (forall i :: 0 <= i < |p| && p[i].0.user == user ==> p[i].0.nonce < scaled)
    && (strict && (forall i :: 0 <= i < |p| ==> p[i].0.user != user) ==> scaled > 0)
  }

  lemma FreshIff(last: map<Address, u64>, p: seq<(UserAndNonce, u64)>, strict: bool, user: Address, raw: u64)
    requires Latest(last, p)
    ensures var v := ValidateNonce(LastNonce(last, strict, user), raw);
      v == if raw * 1_000 > 0xFFFF_FFFF_FFFF_FFFF then Err(InvalidWithdraw3NonceArithmetic)
           else if Fresh(p, strict, user, raw * 1_000) then Ok(raw * 1_000)
           else Err(NonceAlreadyUsed)
  {
    if user in last {
      var i :| 0 <= i < |p| && p[i].0 == UserAndNonce(user, last[user]);
    }
    forall i | 0 <= i < |p| ensures Used(last, p[i].0) {}
  }

  /** After every run, what a withdrawal comes to is decided by the payments made so far: refused
      if the signer's nonce is refused; refused as arithmetic exactly when the scaled nonce
      overflows; refused as used exactly when it is not fresh; paid exactly when it is fresh and
      the starting balance less all payments covers it; and otherwise the process stops. A
      refusal moves no money and remembers no withdrawal nonce. */
  lemma WithdrawalOutcome(bal: u64, ops: seq<Op>, op: Op)
    requires op.Withdraw? && !Run(bal, ops).halted
    ensures var s, p := Run(bal, ops), Payments(bal, ops);
      var (s', o) := Advance(s, op);
      var signed := Remember(s.nonces, op.now, op.expanded, op.signer, op.signedNonce);
      var scaled := op.raw * 1_000;
      && s'.nonces == signed.0
      && (if signed.1.Rejected? then o == Refused(signed.1.error)
          else if scaled > 0xFFFF_FFFF_FFFF_FFFF then o == Refused(InvalidWithdraw3NonceArithmetic)
          else if !Fresh(p, op.strict, op.user, scaled) then o == Refused(NonceAlreadyUsed)
          else if op.usd <= bal - Total(p) then
            && o == Paid(UserAndNonce(op.user, scaled), op.usd, op.usd <= 0x7FFF_FFFF_FFFF_FFFF)
            && s'.bal == bal - Total(p) - op.usd && s'.last == s.last[op.user := scaled]
            && s'.sigs == s.sigs[UserAndNonce(op.user, scaled) := Withdrawal(op.usd, op.destination)]
          else o == Panicked(PanicUnderflow) && s'.halted)
      && (o.Refused? ==> s' == s.(nonces := signed.0))
  {
    hide Remember, Run, Payments, Latest, Fresh, ValidateNonce, LastNonce;
    RunSettled(bal, ops);
    RunLatest(bal, ops);
    FreshIff(Run(bal, ops).last, Payments(bal, ops), op.strict, op.user, op.raw);
    StepSettled(Run(bal, ops), op, Payments(bal, ops));
  }

  /** A withdrawal that passes both nonce checks is paid exactly when the balance covers it;
      otherwise the process stops. */
  lemma PaidIffCovered(bal: u64, ops: seq<Op>, op: Op)
    requires op.Withdraw? && !Run(bal, ops).halted
    requires var s := Run(bal, ops);
      && Remember(s.nonces, op.now, op.expanded, op.signer, op.signedNonce).1.Accepted?
      && ValidateNonce(LastNonce(s.last, op.strict, op.user), op.raw).Ok?
    ensures var s := Run(bal, ops);
      && (Advance(s, op).1.Paid? <==> op.usd <= s.bal)
      && (Advance(s, op).0.halted <==> op.usd > s.bal)
      && (op.usd <= s.bal ==>
            var s', key := Advance(s, op).0, UserAndNonce(op.user, op.raw * 1_000);
            && key !in s.sigs && s'.sigs == s.sigs[key := Withdrawal(op.usd, op.destination)]
            && s'.last == s.last[op.user := op.raw * 1_000])
  {
    hide Remember, Run;
    RunSettled(bal, ops);
  }

  /** Exactly when a withdrawal that passes both nonce checks is debited yet reported as
      rejected: the balance covers it and it exceeds the signed 64-bit range. */
  lemma DebitedButRejectedIff(bal: u64, ops: seq<Op>, op: Op)
    requires op.Withdraw? && !Run(bal, ops).halted
    requires var s := Run(bal, ops);
      && Remember(s.nonces, op.now, op.expanded, op.signer, op.signedNonce).1.Accepted?
      && ValidateNonce(LastNonce(s.last, op.strict, op.user), op.raw).Ok?
    ensures var s := Run(bal, ops);
      var (s', o) := Advance(s, op);
      o.Paid? && !o.reportedOk && s'.bal == s.bal - op.usd <==> I64_MAX < op.usd <= s.bal
  {
    hide Remember, Run;
    PaidIffCovered(bal, ops, op);
  }

  /** One withdrawal of 2^63 from a bridge that holds it: debited, remembered, reported rejected. */
  lemma DebitedButRejected() returns (bal: u64, op: Op)
    ensures op.Withdraw?
    ensures var (s', o) := Advance(Start(bal), op);
      o.Paid? && !o.reportedOk && s'.bal == 0 && s'.last == map[op.user := 1_000]
  {
    bal := 0x8000_0000_0000_0000;
    op := Withdraw(true, 5, false, 7, 5, 7, 1, bal, 9);
  }

  /** The withdrawal path as the exchange performs it on its own objects. */
  class Exchange {
    const tracker: NonceTracker
    const bridge: Bridge2
    var last: map<Address, u64>
    var halted: bool

    constructor (bal: u64)
      ensures fresh(tracker) && fresh(bridge) && View() == Start(bal)
    {
      tracker := new NonceTracker();
      bridge := new Bridge2(bal);
      last, halted := map[], false;
    }

    function View(): Ledger
      reads this, tracker, bridge
    {
      Ledger(tracker.addressToNonceSet, last, bridge.withdrawalSignatures, bridge.finishedWithdrawalToTime, bridge.bal, halted)
    }

    method ProcessWithdraw3(strict: bool, now: u64, expanded: bool, signer: Address, signedNonce: u64,
                            user: Address, raw: u64, usd: u64, destination: Address) returns (o: Outcome)
      requires !halted
      modifies this, tracker, bridge
      ensures (View(), o) ==
              Advance(old(View()), Withdraw(strict, now, expanded, signer, signedNonce, user, raw, usd, destination))
    {
      var verdict := tracker.CheckAndRemember(now, expanded, signer, signedNonce);
      if verdict.Rejected? { return Refused(verdict.error); }
      var check := ValidateNonce(LastNonce(last, strict, user), raw);
      if check.Err? { return Refused(check.error); }
      var debit := bridge.RecordAndDebit(user, destination, usd, check.value);
      if debit != Debited {
        halted := true;
        return Panicked(debit);
      }
      last := last[user := check.value];
      o := Paid(UserAndNonce(user, check.value), usd, usd <= I64_MAX);
    }

    /** Every operation on the live objects is one step of the ledger. */
    method Apply(op: Op) returns (o: Outcome)
      requires !halted
      modifies this, tracker, bridge
      ensures (View(), o) == Advance(old(View()), op)
    {
      hide Remember, Record, ValidateNonce, LastNonce;
      o := NoDebit;
      match op {
        case Finalize(key, time) => bridge.FinalizeWithdrawal(key, time);
        case PruneNonces(addresses) => tracker.Forget(addresses);
        case Withdraw(strict, now, expanded, signer, signedNonce, user, raw, usd, destination) =>
          o := ProcessWithdraw3(strict, now, expanded, signer, signedNonce, user, raw, usd, destination);
      }
    }
  }
}
