/** Replay protection: per signer a bounded set of the largest nonces seen, which must still
    turn away every nonce ever accepted. */
module Nonce {
  import opened Common
  import opened OrderedSets

  const DEFAULT_RETAINED: nat := 100
  const EXPANDED_RETAINED: nat := 400
  const WINDOW_MS: u64 := 86_400_000

  datatype NonceError =
    | NonceAlreadyUsed
    | BelowRetainedMinimum(nonce: u64, smallest: u64, retained: nat)
    | TooFarInFuture(nonce: u64, maxAllowed: u64)
    | TooFarInPast(nonce: u64, minAllowed: u64)
    | DuplicateNonce(nonce: u64)
    | InvalidWithdraw3NonceArithmetic

  datatype Verdict = Accepted | Rejected(error: NonceError)

  type NonceSets = map<Address, set<u64>>

  function Cap(expanded: bool): nat { if expanded then EXPANDED_RETAINED else DEFAULT_RETAINED }

  /** The checks in their exact order; success yields the retention cap. */
  function ValidateCandidate(now: u64, expanded: bool, nonce: u64, retained: set<u64>): Result<nat, NonceError> {
    var cap := Cap(expanded);
    var maxAllowed := SatAdd64(now, WINDOW_MS);
    var minAllowed := SatSub(now, WINDOW_MS);
    if |retained| >= cap && retained != {} && nonce < MinOf(retained) then
      Err(BelowRetainedMinimum(nonce, MinOf(retained), cap))
    else if nonce > maxAllowed then Err(TooFarInFuture(nonce, maxAllowed))
    else if nonce < minAllowed then Err(TooFarInPast(nonce, minAllowed))
    else if nonce in retained then Err(DuplicateNonce(nonce))
    else Ok(cap)
  }

  /** Drop smallest elements until at most `cap` remain. */
  function Evict(s: set<u64>, cap: nat): set<u64>
    decreases |s|
  {
    if |s| <= cap then s else Evict(s - {MinOf(s)}, cap)
  }

  function RetainedFor(sets: NonceSets, signer: Address): set<u64> {
    if signer in sets then sets[signer] else {}
  }

  function Remember(sets: NonceSets, now: u64, expanded: bool, signer: Address, nonce: u64): (NonceSets, Verdict) {
    var retained := RetainedFor(sets, signer);
    match ValidateCandidate(now, expanded, nonce, retained)
    case Err(e) => (sets[signer := retained], Rejected(e))
    case Ok(cap) => (sets[signer := Evict(retained + {nonce}, cap)], Accepted)
  }

  class NonceTracker {
    var addressToNonceSet: NonceSets

    constructor ()
      ensures addressToNonceSet == map[]
    {
      addressToNonceSet := map[];
    }

    method CheckAndRemember(now: u64, expanded: bool, signer: Address, nonce: u64) returns (v: Verdict)
      modifies this
      ensures (addressToNonceSet, v) == Remember(old(addressToNonceSet), now, expanded, signer, nonce)
    {
      var retained := RetainedFor(addressToNonceSet, signer);
      addressToNonceSet := addressToNonceSet[signer := retained];
      var check := ValidateCandidate(now, expanded, nonce, retained);
      if check.Err? { return Rejected(check.error); }
      ghost var full := retained + {nonce};
      retained := retained + {nonce};
      while |retained| > check.value
        invariant Evict(full, check.value) == Evict(retained, check.value)
      {
        retained := retained - {MinOf(retained)};
      }
      addressToNonceSet := addressToNonceSet[signer := retained];
      assert addressToNonceSet == old(addressToNonceSet)[signer := retained];
      v := Accepted;
    }

    /** Pruning an expired agent drops its whole set. */
    method Forget(addresses: set<Address>)
      modifies this
      ensures addressToNonceSet == old(addressToNonceSet) - addresses
    {
      addressToNonceSet := addressToNonceSet - addresses;
    }
  }

  // ----- runs

  datatype Op = Attempt(now: u64, expanded: bool, signer: Address, nonce: u64) | Prune(addresses: set<Address>)

  function Step(sets: NonceSets, op: Op): NonceSets {
    match op
    case Attempt(now, expanded, signer, nonce) => Remember(sets, now, expanded, signer, nonce).0
    case Prune(addresses) => sets - addresses
  }

  function Run(ops: seq<Op>): NonceSets {
    if ops == [] then map[] else Step(Run(ops[..|ops| - 1]), ops[|ops| - 1])
  }

  /** The `i`-th operation of a run is an attempt by `signer` and succeeds. */
  ghost predicate AcceptedAt(ops: seq<Op>, i: nat, signer: Address)
    requires i < |ops|
  {
    var op := ops[i];
    && op.Attempt? && op.signer == signer
    && Remember(Run(ops[..i]), op.now, op.expanded, op.signer, op.nonce).1.Accepted?
  }

  /** Nonces of `signer` accepted over a run. */
  ghost function History(ops: seq<Op>, signer: Address): set<u64> {
    if ops == [] then {}
    else
      var n := |ops| - 1;
      History(ops[..n], signer) + if AcceptedAt(ops, n, signer) then {ops[n].nonce} else {}
  }

  predicate By(op: Op, signer: Address) { op.Attempt? && op.signer == signer }

  /** The signer's cap never grows and its set is never pruned. */
  ghost predicate Protected(ops: seq<Op>, signer: Address) {
    && (forall i :: 0 <= i < |ops| && ops[i].Prune? ==> signer !in ops[i].addresses)
    && (forall i, j :: 0 <= i < j < |ops| && By(ops[i], signer) && By(ops[j], signer) && ops[j].expanded ==>
          ops[i].expanded)
  }

  /** Every accepted nonce is still retained, or lies below a set that is full for `cap`. */
  ghost predicate Covered(retained: set<u64>, history: set<u64>, cap: nat) {
    forall n :: n in history ==> n in retained || (|retained| >= cap && forall m :: m in retained ==> n < m)
  }

  lemma {:induction false} EvictKeepsLargest(s: set<u64>, cap: nat)
    ensures var e := Evict(s, cap);
      && e <= s && |e| == Min(|s|, cap)
      && forall x, y :: x in s && x !in e && y in e ==> x < y
    decreases |s|
  {
    if |s| > cap {
      var m := MinOf(s);
      EvictKeepsLargest(s - {m}, cap);
    }
  }

  /** One acceptance preserves coverage and admits only an unused nonce. */
  lemma AcceptKeepsCovered(retained: set<u64>, history: set<u64>, now: u64, expanded: bool, nonce: u64)
    requires Covered(retained, history, Cap(expanded))
    requires ValidateCandidate(now, expanded, nonce, retained).Ok?
    ensures nonce !in history
    ensures Covered(Evict(retained + {nonce}, Cap(expanded)), history + {nonce}, Cap(expanded))
  {
    var cap := Cap(expanded);
    var grown := retained + {nonce};
    var kept := Evict(grown, cap);
    EvictKeepsLargest(grown, cap);
    forall n | n in history + {nonce} && n !in kept
      ensures |kept| >= cap && forall m :: m in kept ==> n < m
    {
      if n !in grown {
        assert forall m :: m in retained ==> n < m;
        assert MinOf(retained) in retained && n < nonce;
      }
    }
  }

  lemma CoveredForLess(retained: set<u64>, history: set<u64>, cap: nat, cap': nat)
    requires Covered(retained, history, cap) && cap' <= cap
    ensures Covered(retained, history, cap')
  {
  }

  lemma ProtectedPrefix(ops: seq<Op>, signer: Address, n: nat)
    requires Protected(ops, signer) && n <= |ops|
    ensures Protected(ops[..n], signer)
  {
  }

  /** What one operation does to one signer's set. */
  lemma StepRetained(sets: NonceSets, op: Op, signer: Address)
    ensures op.Prune? && signer !in op.addresses ==> RetainedFor(Step(sets, op), signer) == RetainedFor(sets, signer)
    ensures op.Attempt? && op.signer != signer ==> RetainedFor(Step(sets, op), signer) == RetainedFor(sets, signer)
    ensures op.Attempt? && op.signer == signer ==>
              var retained := RetainedFor(sets, signer);
              var check := ValidateCandidate(op.now, op.expanded, op.nonce, retained);
              && (check.Ok? ==> check.value == Cap(op.expanded))
              && Remember(sets, op.now, op.expanded, signer, op.nonce).1.Accepted? == check.Ok?
              && RetainedFor(Step(sets, op), signer) ==
                 if check.Ok? then Evict(retained + {op.nonce}, Cap(op.expanded)) else retained
  {
  }

  /** Coverage at every point of a protected run, for the cap of whatever attempt comes next. */
  lemma {:induction false} RunCovered(ops: seq<Op>, signer: Address, expanded: bool)
    requires Protected(ops, signer)
    requires expanded ==> forall i :: 0 <= i < |ops| && By(ops[i], signer) ==> ops[i].expanded
    ensures Covered(RetainedFor(Run(ops), signer), History(ops, signer), Cap(expanded))
    decreases |ops|
  {
    if ops == [] {
    } else {
      hide Covered, ValidateCandidate, Remember, Evict, Step, RetainedFor;
      var n := |ops| - 1;
      var before, op := ops[..n], ops[n];
      ProtectedPrefix(ops, signer, n);
      StepRetained(Run(before), op, signer);
      if By(op, signer) {
        RunCovered(before, signer, op.expanded);
        if AcceptedAt(ops, n, signer) {
          AcceptKeepsCovered(RetainedFor(Run(before), signer), History(before, signer), op.now, op.expanded, op.nonce);
        }
        CoveredForLess(RetainedFor(Run(ops), signer), History(ops, signer), Cap(op.expanded), Cap(expanded));
      } else {
        RunCovered(before, signer, expanded);
      }
    }
  }

  lemma {:induction false} HistoryRecords(ops: seq<Op>, signer: Address, i: nat)
    requires i < |ops| && AcceptedAt(ops, i, signer)
    ensures ops[i].nonce in History(ops, signer)
    decreases |ops|
  {
    hide Remember, Run;
    var n := |ops| - 1;
    if i < n {
      assert ops[..n][..i] == ops[..i];
      HistoryRecords(ops[..n], signer, i);
    }
  }

  /** No nonce is accepted twice for a signer in a protected run. */
  lemma NoReplay(ops: seq<Op>, signer: Address, i: nat, j: nat)
    requires Protected(ops, signer) && i < j < |ops|
    requires AcceptedAt(ops, i, signer) && AcceptedAt(ops, j, signer)
    ensures ops[i].nonce != ops[j].nonce
  {
    var before, op := ops[..j], ops[j];
    ProtectedPrefix(ops, signer, j);
    RunCovered(before, signer, op.expanded);
    assert before[..i] == ops[..i];
    HistoryRecords(before, signer, i);
    AcceptKeepsCovered(RetainedFor(Run(before), signer), History(before, signer), op.now, op.expanded, op.nonce);
  }

  // ----- when a used nonce gets through again, over every run

  /** The nonce is within a day of the clock, as the window check sees it. */
  predicate InWindow(now: u64, nonce: u64) {
    SatSub(now, WINDOW_MS) <= nonce <= SatAdd64(now, WINDOW_MS)
  }

  /** In any state whatever, a nonce in the window is taken exactly when it is not retained and
      the set is below the cap in force or has a smaller member. */
  lemma TakenIff(sets: NonceSets, now: u64, expanded: bool, signer: Address, nonce: u64)
    requires InWindow(now, nonce)
    ensures var retained := RetainedFor(sets, signer);
      Remember(sets, now, expanded, signer, nonce).1.Accepted? <==>
        && nonce !in retained
        && (|retained| < Cap(expanded) || exists m :: m in retained && m < nonce)
  {
    var retained := RetainedFor(sets, signer);
    assert retained == {} ==> |retained| < Cap(expanded);
  }

  /** Every refusal and its reason, in the order they are looked for: below a full set of 100 (or
      400 when expanded), more than a day ahead, more than a day behind, or retained already. */
  lemma RejectionReasons(sets: NonceSets, now: u64, expanded: bool, signer: Address, nonce: u64)
    ensures var retained := RetainedFor(sets, signer);
      var cap := if expanded then 400 else 100;
      var below := |retained| >= cap && forall m :: m in retained ==> nonce < m;
      var v := Remember(sets, now, expanded, signer, nonce).1;
      && (v.Rejected? && v.error.BelowRetainedMinimum? <==> below)
      && (below ==> exists m :: m in retained && (forall x :: x in retained ==> m <= x) &&
                                v == Rejected(BelowRetainedMinimum(nonce, m, cap)))
      && (!below ==>
            v == if nonce > now + 86_400_000 then Rejected(TooFarInFuture(nonce, now + 86_400_000))
                 else if nonce < now - 86_400_000 then Rejected(TooFarInPast(nonce, now - 86_400_000))
                 else if nonce in retained then Rejected(DuplicateNonce(nonce))
                 else Accepted)
  {
    var retained := RetainedFor(sets, signer);
    if retained != {} { assert MinOf(retained) in retained; }
  }

  /** What an attempt leaves behind: the signer has an entry in any case, unchanged by a refusal; a
      success adds the nonce and keeps the largest up to the cap; nobody else's entry changes. */
  lemma AttemptExact(sets: NonceSets, now: u64, expanded: bool, signer: Address, nonce: u64)
    ensures var (sets', v) := Remember(sets, now, expanded, signer, nonce);
      var before, cap := RetainedFor(sets, signer), if expanded then 400 else 100;
      && sets'.Keys == sets.Keys + {signer}
      && (forall a :: a in sets && a != signer ==> sets'[a] == sets[a])
      && (v.Rejected? ==> sets'[signer] == before)
      && (v.Accepted? ==>
            && sets'[signer] <= before + {nonce} && |sets'[signer]| == Min(|before| + 1, cap)
            && forall x, y :: x in before + {nonce} && x !in sets'[signer] && y in sets'[signer] ==> x < y)
  {
    var before := RetainedFor(sets, signer);
    EvictKeepsLargest(before + {nonce}, Cap(expanded));
    assert nonce !in before ==> |before + {nonce}| == |before| + 1;
  }

  /** The used nonces that the window check would still let through. */
  ghost function Live(ops: seq<Op>, signer: Address, now: u64): set<u64> {
    set n | n in History(ops, signer) && InWindow(now, n)
  }

  /** After any run at all, the signer's next attempt is safe from replay exactly when every
      live used nonce is covered; the invariant of protected runs is thus the weakest one. */
  lemma SafeNextIff(ops: seq<Op>, now: u64, expanded: bool, signer: Address)
    ensures (forall n :: n in Live(ops, signer, now) ==> Remember(Run(ops), now, expanded, signer, n).1.Rejected?)
            <==> Covered(RetainedFor(Run(ops), signer), Live(ops, signer, now), Cap(expanded))
  {
    hide Run, History, Remember, RetainedFor;
    var retained := RetainedFor(Run(ops), signer);
    forall n | n in Live(ops, signer, now)
      ensures Remember(Run(ops), now, expanded, signer, n).1.Rejected? <==>
              n in retained || (|retained| >= Cap(expanded) && forall m :: m in retained ==> n < m)
    {
      TakenIff(Run(ops), now, expanded, signer, n);
    }
  }

  /** A prune readmits everything: after it, every nonce in the window is taken, used or not. */
  lemma PruneReadmits(ops: seq<Op>, addresses: set<Address>, now: u64, expanded: bool, signer: Address, nonce: u64)
    requires signer in addresses && InWindow(now, nonce)
    ensures Remember(Run(ops + [Prune(addresses)]), now, expanded, signer, nonce).1.Accepted?
  {
    hide Run;
    RunAppend(ops, Prune(addresses));
    assert RetainedFor(Run(ops) - addresses, signer) == {};
  }

  lemma RunAppend(ops: seq<Op>, op: Op)
    ensures Run(ops + [op]) == Step(Run(ops), op)
  {
    hide Step;
    assert (ops + [op])[..|ops|] == ops;
  }

  ghost predicate NeverExpanded(ops: seq<Op>, signer: Address) {
    forall i :: 0 <= i < |ops| && By(ops[i], signer) ==> !ops[i].expanded
  }

  lemma {:induction false} DefaultSize(ops: seq<Op>, signer: Address)
    requires NeverExpanded(ops, signer)
    ensures |RetainedFor(Run(ops), signer)| <= DEFAULT_RETAINED
    decreases |ops|
  {
    if ops != [] {
      hide ValidateCandidate, Remember, Evict, Step, RetainedFor;
      var n := |ops| - 1;
      var before, op := ops[..n], ops[n];
      DefaultSize(before, signer);
      StepRetained(Run(before), op, signer);
      if By(op, signer) {
        EvictKeepsLargest(RetainedFor(Run(before), signer) + {op.nonce}, Cap(op.expanded));
      } else if op.Prune? && signer in op.addresses {
        assert RetainedFor(Run(ops), signer) == {} by { PrunedEmpty(Run(before), op, signer); }
      }
    }
  }

  lemma PrunedEmpty(sets: NonceSets, op: Op, signer: Address)
    requires op.Prune? && signer in op.addresses
    ensures RetainedFor(Step(sets, op), signer) == {}
  {
  }

  /** Raising the cap readmits every evicted nonce: after any run at the default cap, a nonce in
      the window, used or not, passes an expanded attempt exactly when it is not retained. */
  lemma RaisingCapReadmits(ops: seq<Op>, now: u64, signer: Address, nonce: u64)
    requires NeverExpanded(ops, signer) && InWindow(now, nonce)
    ensures Remember(Run(ops), now, true, signer, nonce).1.Accepted? <==> nonce !in RetainedFor(Run(ops), signer)
  {
    hide Run, Remember, RetainedFor;
    DefaultSize(ops, signer);
    TakenIff(Run(ops), now, true, signer, nonce);
  }

  // ----- the two conditions are needed

  function Range(lo: int, hi: int): (s: set<int>)
    ensures forall x :: x in s <==> lo <= x <= hi
    decreases hi - lo + 1
  {
    if lo > hi then {} else Range(lo, hi - 1) + {hi}
  }

  lemma {:induction false} RangeSize(lo: int, hi: int)
    requires lo <= hi + 1
    ensures |Range(lo, hi)| == hi - lo + 1
    decreases hi - lo + 1
  {
    if lo == hi + 1 {
      assert Range(lo, hi) == {};
    } else {
      RangeSize(lo, hi - 1);
      assert Range(lo, hi) == Range(lo, hi - 1) + {hi};
    }
  }

  /** Nonces base+1, ..., base+k from signer 7 at time zero with the default cap. */
  function Counting(base: nat, k: nat): (ops: seq<Op>)
    requires base + k <= 1000
    ensures |ops| == k
  {
    if k == 0 then [] else Counting(base, k - 1) + [Attempt(0, false, 7, base + k)]
  }

  lemma EvictRange(lo: int, hi: int, s: set<u64>)
    requires s == Range(lo, hi) && hi - lo + 1 == 101
    ensures Evict(s, 100) == Range(lo + 1, hi)
  {
    RangeSize(lo, hi);
    RangeSize(lo + 1, hi);
    assert lo in s;
    assert s - {lo} == Range(lo + 1, hi);
    assert Evict(s, 100) == Evict(s - {MinOf(s)}, 100);
  }

  /** One more default attempt above a consecutive run of at most a hundred nonces. */
  lemma NextJoins(retained: set<u64>, lo: nat, hi: nat)
    requires retained == Range(lo, hi) && 1 <= lo <= hi + 1 <= 1000 && hi - lo + 1 <= 100
    ensures ValidateCandidate(0, false, hi + 1, retained).Ok?
    ensures Evict(retained + {hi + 1}, 100) == Range(if hi - lo + 1 == 100 then lo + 1 else lo, hi + 1)
  {
    RangeSize(lo, hi);
    RangeSize(lo, hi + 1);
    assert retained + {hi + 1} == Range(lo, hi + 1);
    if hi - lo + 1 == 100 { EvictRange(lo, hi + 1, retained + {hi + 1}); }
  }

  lemma CountingStep(base: nat, k: nat)
    requires 1 <= k && base + k <= 1000
    ensures Run(Counting(base, k)) == Step(Run(Counting(base, k - 1)), Attempt(0, false, 7, base + k))
  {
    RunAppend(Counting(base, k - 1), Attempt(0, false, 7, base + k));
  }

  lemma CountingNothing(base: nat)
    requires base <= 1000
    ensures RetainedFor(Run(Counting(base, 0)), 7) == Range(base + 1, base)
  {
    assert Counting(base, 0) == [] && Range(base + 1, base) == {};
  }

  lemma {:induction false} CountingRetains(base: nat, k: nat)
    requires k <= 101 && base <= 100
    ensures RetainedFor(Run(Counting(base, k)), 7) == Range(base + Max(1, k - 99), base + k)
  {
    hide Range, Evict, ValidateCandidate, RetainedFor, Remember, Step, Counting, Run;
    if k == 0 {
      CountingNothing(base);
    } else {
      CountingRetains(base, k - 1);
      CountingStep(base, k);
      NextJoins(RetainedFor(Run(Counting(base, k - 1)), 7), base + Max(1, k - 100), base + k - 1);
      StepRetained(Run(Counting(base, k - 1)), Attempt(0, false, 7, base + k), 7);
    }
  }

  lemma {:induction false} CountingHead(base: nat, k: nat)
    requires 1 <= k && base + k <= 1000
    ensures Counting(base, k)[0] == Attempt(0, false, 7, base + 1)
  {
    if k == 1 {
      assert Counting(base, 0) == [];
    } else {
      CountingHead(base, k - 1);
    }
  }

  /** Raising the cap after an eviction lets the evicted nonce in again. */
  lemma GrowingCapReplays() returns (ops: seq<Op>)
    ensures |ops| == 102 && ops[0].Attempt? && ops[101].Attempt? && ops[0].nonce == ops[101].nonce
    ensures AcceptedAt(ops, 0, 7) && AcceptedAt(ops, 101, 7)
  {
    hide Counting, Range, Evict;
    ops := Counting(0, 101) + [Attempt(0, true, 7, 1)];
    CountingHead(0, 101);
    CountingRetains(0, 101);
    RangeSize(2, 101);
    assert ops[..101] == Counting(0, 101);
    assert ops[..0] == [];
  }

  /** One expanded attempt is enough to let a used nonce in later at the default cap, although
      the set is then full: the unused nonce it admits lies below everything evicted. */
  lemma OneExpandedAttemptReplays() returns (ops: seq<Op>)
    ensures |ops| == 103 && ops[0].Attempt? && ops[102].Attempt? && ops[0].nonce == ops[102].nonce
    ensures !ops[102].expanded && |RetainedFor(Run(ops[..102]), 7)| > DEFAULT_RETAINED
    ensures AcceptedAt(ops, 0, 7) && AcceptedAt(ops, 102, 7)
  {
    hide Counting, Range, Evict;
    var first := Counting(49, 101);
    ops := first + [Attempt(0, true, 7, 10), Attempt(0, false, 7, 50)];
    CountingHead(49, 101);
    CountingRetains(49, 101);
    RangeSize(51, 150);
    assert ops[..101] == first && ops[..102][..101] == first && ops[..0] == [];
    var old100 := RetainedFor(Run(first), 7);
    LowNonceJoins(Run(first), 7, 10);
    StepRetained(Run(first), ops[101], 7);
    assert Run(ops[..102]) == Step(Run(first), ops[101]);
    var now101 := RetainedFor(Run(ops[..102]), 7);
    assert now101 == old100 + {10} && 10 in now101 && 50 !in now101;
    assert MinOf(now101) <= 10;
  }

  /** An expanded attempt on a full default set keeps everything and adds its nonce. */
  lemma LowNonceJoins(sets: NonceSets, signer: Address, nonce: u64)
    requires |RetainedFor(sets, signer)| == DEFAULT_RETAINED && nonce !in RetainedFor(sets, signer) && nonce <= WINDOW_MS
    ensures ValidateCandidate(0, true, nonce, RetainedFor(sets, signer)).Ok?
    ensures RetainedFor(Step(sets, Attempt(0, true, signer, nonce)), signer) == RetainedFor(sets, signer) + {nonce}
  {
    var s := RetainedFor(sets, signer) + {nonce};
    assert |s| <= EXPANDED_RETAINED;
  }

  /** Pruning a signer's set lets its nonces in again. */
  lemma PruneReplays() returns (ops: seq<Op>)
    ensures |ops| == 3 && ops[0].Attempt? && ops[2].Attempt? && ops[0].nonce == ops[2].nonce
    ensures AcceptedAt(ops, 0, 7) && AcceptedAt(ops, 2, 7)
  {
    ops := [Attempt(0, false, 7, 1), Prune({7}), Attempt(0, false, 7, 1)];
    assert ops[..0] == [];
    assert ops[..2][..1] == ops[..1];
    assert ops[..2] == ops[..1] + [ops[1]];
    assert 7 !in Run(ops[..2]);
  }

  /** Whatever is pruned and however the cap changes, the window bounds the damage: two
      acceptances of one nonce, by whichever signers, are at most two days apart. */
  lemma ReplaysWithinTwoDays(ops: seq<Op>, i: nat, j: nat, a: Address, b: Address)
    requires i < |ops| && j < |ops| && AcceptedAt(ops, i, a) && AcceptedAt(ops, j, b) && ops[i].nonce == ops[j].nonce
    ensures -2 * WINDOW_MS <= ops[j].now - ops[i].now <= 2 * WINDOW_MS
  {
    hide Run;
    AcceptedWithinDay(Run(ops[..i]), ops[i]);
    AcceptedWithinDay(Run(ops[..j]), ops[j]);
  }

  /** Whatever is accepted lies within a day of the clock, before any saturation. */
  lemma AcceptedWithinDay(sets: NonceSets, op: Op)
    requires op.Attempt? && Remember(sets, op.now, op.expanded, op.signer, op.nonce).1.Accepted?
    ensures op.now - WINDOW_MS <= op.nonce <= op.now + WINDOW_MS && op.nonce !in RetainedFor(sets, op.signer)
  {
  }
}
