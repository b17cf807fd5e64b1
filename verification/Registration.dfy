/**
 * Registration under concurrency: any number of transactions, each redeeming its challenge,
 * reserving its slot and inserting its volunteer in separate steps, committing, being refused or
 * dying at any point, beside the two sweepers. A row a transaction has written stays locked until
 * it ends; its own `NOW()` is its start. Uncommitted writes are seen by nobody else.
 */
module Registration {
  import opened Admission
  import opened Digits
  import opened Results

  /** How far a transaction has got; a gate that asks for nothing is passed by a step that does nothing. */
  datatype Stage = Begun | PowDone | SlotDone | RowDone

  datatype Txn = Txn(
    gate: Gate, key: Key, startedAt: Time, stage: Stage,
    consumed: Option<nat>,              // challenge row deleted, not yet committed
    reserved: Option<(Slot, nat)>)      // counter row written, not yet committed, and its new value

  /** A committed registration: what was asked of it and when, the slot it was counted under, the challenge used up. */
  datatype Creation = Creation(gate: Gate, startedAt: Time, key: Key, slot: Option<Slot>, challenge: Option<nat>)

  datatype State = State(
    now: Time, db: Tables, active: map<nat, Txn>,
    issued: map<nat, Challenge>,        // every challenge ever handed out
    created: seq<Creation>,             // every registration that committed, in order
    swept: set<Slot>)                   // every counter row a sweep has removed

  datatype Step =
    | Tick(later: Time)
    | Issue(id: nat, challenge: Challenge)
    | Begin(tx: nat, gate: Gate, key: Key)
    | RedeemStep(tx: nat)
    | ReserveStep(tx: nat)
    | InsertStep(tx: nat)
    | Commit(tx: nat)
    | Abort(tx: nat)
    | CreateUngated(key: Key)
    | SweepCounters(rows: set<Slot>)
    | SweepChallenges(expired: set<nat>)

  datatype Outcome = Committed | Refused(refusal: Refusal) | Aborted

  // ---- locks --------------------------------------------------------------------------

  ghost predicate ChallengeLocked(s: State, id: nat) {
    exists tx :: tx in s.active && s.active[tx].consumed == Some(id)
  }

  ghost predicate SlotLocked(s: State, slot: Slot) {
    exists tx :: tx in s.active && s.active[tx].reserved.Some? && s.active[tx].reserved.value.0 == slot
  }

  ghost predicate KeyLocked(s: State, key: Key) {
    exists tx :: tx in s.active && s.active[tx].stage == RowDone && s.active[tx].key == key
  }

  function SlotOf(t: Txn): Slot { Slot(t.gate.bucket, DayOf(t.startedAt)) }

  // ---- steps --------------------------------------------------------------------------

  /** A step can be taken now; one that would have to wait for a row lock cannot. */
  ghost predicate Enabled(cap: nat, s: State, step: Step) {
    match step
    case Tick(later) => later >= s.now
    case Issue(id, _) => id !in s.issued
    case Begin(tx, gate, _) => tx !in s.active && gate.capPerDay <= cap
    case RedeemStep(tx) =>
      && tx in s.active && s.active[tx].stage == Begun
      && (s.active[tx].gate.pow.Some? && Redeemable(s.db, s.active[tx].startedAt, s.active[tx].gate.pow.value)
          ==> !ChallengeLocked(s, s.active[tx].gate.pow.value.challengeId))
    case ReserveStep(tx) =>
      && tx in s.active && s.active[tx].stage == PowDone
      && (s.active[tx].gate.capPerDay > 0 ==> !SlotLocked(s, SlotOf(s.active[tx])))
    case InsertStep(tx) =>
      && tx in s.active && s.active[tx].stage == SlotDone
      && (s.active[tx].key !in s.db.volunteers ==> !KeyLocked(s, s.active[tx].key))
    case Commit(tx) => tx in s.active && s.active[tx].stage == RowDone
    case Abort(tx) => tx in s.active
    case CreateUngated(key) => key !in s.db.volunteers && !KeyLocked(s, key)
    case SweepCounters(rows) =>
      forall slot :: slot in rows ==>
        slot in s.db.counters && slot.day + COUNTER_RETENTION_DAYS < DayOf(s.now) && !SlotLocked(s, slot)
    case SweepChallenges(rows) =>
      forall id :: id in rows ==>
        id in s.db.challenges && s.db.challenges[id].expiresAt < s.now && !ChallengeLocked(s, id)
  }

  function Advance(s: State, tx: nat, t: Txn): State { s.(active := s.active[tx := t]) }

  function End(s: State, tx: nat): State { s.(active := s.active - {tx}) }

  /** The tables once a transaction's own writes become visible. */
  function Published(db: Tables, t: Txn): Tables {
    Tables(
      if t.consumed.Some? then db.challenges - {t.consumed.value} else db.challenges,
      if t.reserved.Some? then db.counters[t.reserved.value.0 := t.reserved.value.1] else db.counters,
      db.volunteers + {t.key})
  }

  function CreationOf(t: Txn): Creation {
    Creation(t.gate, t.startedAt, t.key, if t.reserved.Some? then Some(t.reserved.value.0) else None, t.consumed)
  }

  const NO_GATE := Gate("", 0, None)

  function Ungated(key: Key, now: Time): Creation { Creation(NO_GATE, now, key, None, None) }

  /** The next state, and how the transaction taking the step ended if it did. */
  function Next(sha: Sha, s: State, step: Step): (State, Option<Outcome>) {
    match step
    case Tick(later) => (s.(now := later), None)
    case Issue(id, c) => (s.(db := s.db.(challenges := s.db.challenges[id := c]), issued := s.issued[id := c]), None)
    case Begin(tx, gate, key) => (Advance(s, tx, Txn(gate, key, s.now, Begun, None, None)), None)
    case RedeemStep(tx) =>
      if tx !in s.active then (s, None)
      else
        var t := s.active[tx];
        if t.gate.pow.None? then (Advance(s, tx, t.(stage := PowDone)), None)
        else
          var red := t.gate.pow.value;
          if !Redeemable(s.db, t.startedAt, red) then (End(s, tx), Some(Refused(ChallengeInvalid)))
          else if !Solves(sha, s.db.challenges[red.challengeId], red) then (End(s, tx), Some(Refused(SolutionInvalid)))
          else (Advance(s, tx, t.(stage := PowDone, consumed := Some(red.challengeId))), None)
    case ReserveStep(tx) =>
      if tx !in s.active then (s, None)
      else
        var t := s.active[tx];
        var count := Counter(s.db, SlotOf(t)) + 1;
        if t.gate.capPerDay <= 0 then (Advance(s, tx, t.(stage := SlotDone)), None)
        else if count > t.gate.capPerDay then (End(s, tx), Some(Refused(CapExceeded)))
        else (Advance(s, tx, t.(stage := SlotDone, reserved := Some((SlotOf(t), count)))), None)
    case InsertStep(tx) =>
      if tx !in s.active then (s, None)
      else if s.active[tx].key in s.db.volunteers then (End(s, tx), Some(Refused(DuplicateKey)))
      else (Advance(s, tx, s.active[tx].(stage := RowDone)), None)
    case Commit(tx) =>
      if tx !in s.active then (s, None)
      else
        var t := s.active[tx];
        (End(s, tx).(db := Published(s.db, t), created := s.created + [CreationOf(t)]), Some(Committed))
    case Abort(tx) => (End(s, tx), Some(Aborted))
    case CreateUngated(key) =>
      (s.(db := s.db.(volunteers := s.db.volunteers + {key}), created := s.created + [Ungated(key, s.now)]), None)
    case SweepCounters(rows) =>
      (s.(db := s.db.(counters := s.db.counters - rows), swept := s.swept + rows), None)
    case SweepChallenges(rows) => (s.(db := s.db.(challenges := s.db.challenges - rows)), None)
  }

  // ---- the invariant ------------------------------------------------------------------

  /** How many committed registrations were counted under a slot. */
  function Count(created: seq<Creation>, slot: Slot): nat {
    if created == [] then 0
    else Count(created[..|created| - 1], slot) + (if created[|created| - 1].slot == Some(slot) then 1 else 0)
  }

  /** What a transaction's pending writes have to do with the tables. */
  ghost predicate TxnOk(sha: Sha, cap: nat, s: State, t: Txn) {
    && t.gate.capPerDay <= cap && t.startedAt <= s.now
    && t.consumed == (if t.stage != Begun && t.gate.pow.Some? then Some(t.gate.pow.value.challengeId) else None)
    && (t.consumed.Some? ==>
          && Redeemable(s.db, t.startedAt, t.gate.pow.value)
          && Solves(sha, s.db.challenges[t.consumed.value], t.gate.pow.value))
    && (t.reserved.Some? <==> (t.stage == SlotDone || t.stage == RowDone) && t.gate.capPerDay > 0)
    && (t.reserved.Some? ==>
          && t.reserved.value.0 == SlotOf(t)
          && t.reserved.value.1 == Counter(s.db, SlotOf(t)) + 1 <= t.gate.capPerDay)
    && (t.stage == RowDone ==> t.key !in s.db.volunteers)
  }

  /** No row is locked twice. */
  ghost predicate LocksExclusive(s: State) {
    forall x, y :: x in s.active && y in s.active && x != y ==> NoClash(s.active[x], s.active[y])
  }

  ghost predicate NoClash(t: Txn, u: Txn) {
    && (t.consumed.Some? ==> t.consumed != u.consumed)
    && (t.reserved.Some? && u.reserved.Some? ==> t.reserved.value.0 != u.reserved.value.0)
    && (t.stage == RowDone && u.stage == RowDone ==> t.key != u.key)
  }

  /** A counter is the number of registrations under its slot until a sweep takes it, and short of it for ever after. */
  ghost predicate CountersExact(cap: nat, s: State) {
    && (forall slot :: slot !in s.swept ==> Counter(s.db, slot) == Count(s.created, slot))
    && (forall slot :: slot in s.swept ==> Counter(s.db, slot) < Count(s.created, slot))
    && (forall slot :: slot in s.db.counters ==> 1 <= s.db.counters[slot] <= cap)
  }

  ghost predicate ChallengesSingleUse(s: State) {
    && (forall id :: id in s.db.challenges ==> id in s.issued && s.issued[id] == s.db.challenges[id])
    && (forall i :: 0 <= i < |s.created| && s.created[i].challenge.Some? ==>
          s.created[i].challenge.value in s.issued && s.created[i].challenge.value !in s.db.challenges)
    && (forall i, j :: 0 <= i < j < |s.created| && s.created[i].challenge.Some? ==>
          s.created[i].challenge != s.created[j].challenge)
  }

  ghost predicate KeysUnique(s: State) {
    && (forall i :: 0 <= i < |s.created| ==> s.created[i].key in s.db.volunteers)
    && (forall i, j :: 0 <= i < j < |s.created| ==> s.created[i].key != s.created[j].key)
  }

  /** A committed registration used what its gate asked for, as it stood when its transaction began. */
  ghost predicate Earned(sha: Sha, issued: map<nat, Challenge>, c: Creation) {
    && c.slot == (if c.gate.capPerDay > 0 then Some(Slot(c.gate.bucket, c.startedAt / 86_400_000_000)) else None)
    && match c.gate.pow
       case None => c.challenge.None?
       case Some(red) =>
         && c.challenge == Some(red.challengeId) && red.challengeId in issued
         && issued[red.challengeId].publicKey == red.publicKey
         && c.startedAt < issued[red.challengeId].expiresAt
         && Worked(sha, issued[red.challengeId].bytes, red, issued[red.challengeId].difficulty)
  }

  ghost predicate AllEarned(sha: Sha, s: State) {
    forall i :: 0 <= i < |s.created| ==> Earned(sha, s.issued, s.created[i])
  }

  ghost predicate SweptAreOld(s: State) {
    forall slot :: slot in s.swept ==> slot.day + COUNTER_RETENTION_DAYS < DayOf(s.now)
  }

  ghost predicate Inv(sha: Sha, cap: nat, s: State) {
    && (forall tx :: tx in s.active ==> TxnOk(sha, cap, s, s.active[tx]))
    && LocksExclusive(s) && CountersExact(cap, s) && ChallengesSingleUse(s) && KeysUnique(s) && SweptAreOld(s)
    && AllEarned(sha, s)
  }

  /** A head starting on empty admission tables, with whatever volunteers it already has. */
  ghost predicate Init(s: State) {
    s.db.challenges == map[] && s.db.counters == map[] && s.active == map[]
    && s.created == [] && s.swept == {}
  }

  lemma InitInv(sha: Sha, cap: nat, s: State)
    requires Init(s)
    ensures Inv(sha, cap, s)
  {
  }

  lemma CountAppend(created: seq<Creation>, c: Creation, slot: Slot)
    ensures Count(created + [c], slot) == Count(created, slot) + (if c.slot == Some(slot) then 1 else 0)
  {
    assert (created + [c])[..|created|] == created;
  }

  lemma DayMonotone(a: Time, b: Time)
    requires a <= b
    ensures DayOf(a) <= DayOf(b)
  {
  }

  /** A step that only moves one transaction on keeps the invariant when the moved one is well formed. */
  lemma AdvanceInv(sha: Sha, cap: nat, s: State, tx: nat, t: Txn)
    requires Inv(sha, cap, s) && TxnOk(sha, cap, s, t)
    requires forall y :: y in s.active && y != tx ==> NoClash(t, s.active[y]) && NoClash(s.active[y], t)
    ensures Inv(sha, cap, Advance(s, tx, t))
  {
    var r := Advance(s, tx, t);
    forall y | y in r.active ensures TxnOk(sha, cap, r, r.active[y]) {
      assert y != tx ==> TxnOk(sha, cap, s, s.active[y]);
    }
  }

  lemma EndInv(sha: Sha, cap: nat, s: State, tx: nat)
    requires Inv(sha, cap, s)
    ensures Inv(sha, cap, End(s, tx))
  {
    var r := End(s, tx);
    forall y | y in r.active ensures TxnOk(sha, cap, r, r.active[y]) {
      assert TxnOk(sha, cap, s, s.active[y]);
    }
  }

  lemma RedeemInv(sha: Sha, cap: nat, s: State, tx: nat)
    requires Inv(sha, cap, s) && Enabled(cap, s, RedeemStep(tx))
    ensures Inv(sha, cap, Next(sha, s, RedeemStep(tx)).0)
  {
    var t := s.active[tx];
    assert TxnOk(sha, cap, s, t);
    if t.gate.pow.None? {
      AdvanceInv(sha, cap, s, tx, t.(stage := PowDone));
    } else if Next(sha, s, RedeemStep(tx)).1.Some? {
      EndInv(sha, cap, s, tx);
    } else {
      var id := t.gate.pow.value.challengeId;
      assert forall y :: y in s.active ==> s.active[y].consumed != Some(id);
      AdvanceInv(sha, cap, s, tx, t.(stage := PowDone, consumed := Some(id)));
    }
  }

  lemma ReserveInv(sha: Sha, cap: nat, s: State, tx: nat)
    requires Inv(sha, cap, s) && Enabled(cap, s, ReserveStep(tx))
    ensures Inv(sha, cap, Next(sha, s, ReserveStep(tx)).0)
  {
    hide Count, Redeemable, Solves, ChallengesSingleUse, KeysUnique, SweptAreOld;
    var t := s.active[tx];
    assert TxnOk(sha, cap, s, t);
    var count := Counter(s.db, SlotOf(t)) + 1;
    if t.gate.capPerDay <= 0 {
      AdvanceInv(sha, cap, s, tx, t.(stage := SlotDone));
    } else if count > t.gate.capPerDay {
      EndInv(sha, cap, s, tx);
    } else {
      assert forall y :: y in s.active && s.active[y].reserved.Some? ==> s.active[y].reserved.value.0 != SlotOf(t);
      AdvanceInv(sha, cap, s, tx, t.(stage := SlotDone, reserved := Some((SlotOf(t), count))));
    }
  }

  lemma InsertInv(sha: Sha, cap: nat, s: State, tx: nat)
    requires Inv(sha, cap, s) && Enabled(cap, s, InsertStep(tx))
    ensures Inv(sha, cap, Next(sha, s, InsertStep(tx)).0)
  {
    var t := s.active[tx];
    assert TxnOk(sha, cap, s, t);
    if t.key in s.db.volunteers {
      EndInv(sha, cap, s, tx);
    } else {
      assert forall y :: y in s.active && s.active[y].stage == RowDone ==> s.active[y].key != t.key;
      AdvanceInv(sha, cap, s, tx, t.(stage := RowDone));
    }
  }

  lemma CommitInv(sha: Sha, cap: nat, s: State, tx: nat)
    requires Inv(sha, cap, s) && Enabled(cap, s, Commit(tx))
    ensures Inv(sha, cap, Next(sha, s, Commit(tx)).0)
  {
    CommitKeepsTxns(sha, cap, s, tx);
    CommitKeepsCounters(sha, cap, s, tx);
    CommitKeepsRows(sha, cap, s, tx);
    CommitIsEarned(sha, cap, s, tx);
    hide TxnOk, AllEarned, CountersExact, ChallengesSingleUse, KeysUnique, NoClash, Published, CreationOf;
  }

  /** A commit moves the counter of the slot it was counted under on by one, and no other. */
  lemma CommitCounts(sha: Sha, cap: nat, s: State, tx: nat, slot: Slot)
    requires tx in s.active && TxnOk(sha, cap, s, s.active[tx])
    ensures var t, db := s.active[tx], Published(s.db, s.active[tx]);
      && Counter(db, slot) == Counter(s.db, slot) + (if CreationOf(t).slot == Some(slot) then 1 else 0)
      && (slot in db.counters ==>
            || (slot in s.db.counters && db.counters[slot] == s.db.counters[slot])
            || 1 <= db.counters[slot] <= cap)
  {
    hide Redeemable, Solves;
  }

  lemma CommitKeepsCounters(sha: Sha, cap: nat, s: State, tx: nat)
    requires Inv(sha, cap, s) && Enabled(cap, s, Commit(tx))
    ensures CountersExact(cap, Next(sha, s, Commit(tx)).0)
  {
    hide LocksExclusive, ChallengesSingleUse, KeysUnique, SweptAreOld, AllEarned, Count, Published, Counter, CreationOf;
    hide TxnOk;
    var t, r := s.active[tx], Next(sha, s, Commit(tx)).0;
    forall slot
      ensures Counter(r.db, slot) - Counter(s.db, slot) == Count(r.created, slot) - Count(s.created, slot)
      ensures slot in r.db.counters ==> 1 <= r.db.counters[slot] <= cap
    {
      CommitCounts(sha, cap, s, tx, slot);
      CountAppend(s.created, CreationOf(t), slot);
    }
  }

  lemma CommitIsEarned(sha: Sha, cap: nat, s: State, tx: nat)
    requires Inv(sha, cap, s) && Enabled(cap, s, Commit(tx))
    ensures AllEarned(sha, Next(sha, s, Commit(tx)).0)
  {
    assert TxnOk(sha, cap, s, s.active[tx]);
    hide LocksExclusive, CountersExact, KeysUnique, SweptAreOld;
  }

  lemma CommitKeepsRows(sha: Sha, cap: nat, s: State, tx: nat)
    requires Inv(sha, cap, s) && Enabled(cap, s, Commit(tx))
    ensures ChallengesSingleUse(Next(sha, s, Commit(tx)).0) && KeysUnique(Next(sha, s, Commit(tx)).0)
  {
    assert TxnOk(sha, cap, s, s.active[tx]);
    hide LocksExclusive, CountersExact, SweptAreOld;
  }

  lemma CommitKeepsTxns(sha: Sha, cap: nat, s: State, tx: nat)
    requires Inv(sha, cap, s) && Enabled(cap, s, Commit(tx))
    ensures var r := Next(sha, s, Commit(tx)).0; forall y :: y in r.active ==> TxnOk(sha, cap, r, r.active[y])
  {
    var t, r := s.active[tx], Next(sha, s, Commit(tx)).0;
    forall y | y in r.active ensures TxnOk(sha, cap, r, r.active[y]) {
      assert TxnOk(sha, cap, s, s.active[y]) && NoClash(s.active[y], t);
    }
  }

  lemma UngatedInv(sha: Sha, cap: nat, s: State, key: Key)
    requires Inv(sha, cap, s) && Enabled(cap, s, CreateUngated(key))
    ensures Inv(sha, cap, Next(sha, s, CreateUngated(key)).0)
  {
    var r := Next(sha, s, CreateUngated(key)).0;
    forall y | y in r.active ensures TxnOk(sha, cap, r, r.active[y]) {
      assert TxnOk(sha, cap, s, s.active[y]);
    }
    forall slot ensures Count(r.created, slot) == Count(s.created, slot) {
      CountAppend(s.created, Ungated(key, s.now), slot);
    }
  }

  lemma SweepCountersInv(sha: Sha, cap: nat, s: State, rows: set<Slot>)
    requires Inv(sha, cap, s) && Enabled(cap, s, SweepCounters(rows))
    ensures Inv(sha, cap, Next(sha, s, SweepCounters(rows)).0)
  {
    hide Earned, Solves;
    var r := Next(sha, s, SweepCounters(rows)).0;
    forall y | y in r.active ensures TxnOk(sha, cap, r, r.active[y]) {
      assert TxnOk(sha, cap, s, s.active[y]);
    }
  }

  lemma SweepChallengesInv(sha: Sha, cap: nat, s: State, rows: set<nat>)
    requires Inv(sha, cap, s) && Enabled(cap, s, SweepChallenges(rows))
    ensures Inv(sha, cap, Next(sha, s, SweepChallenges(rows)).0)
  {
    hide Earned, Solves;
    var r := Next(sha, s, SweepChallenges(rows)).0;
    forall y | y in r.active ensures TxnOk(sha, cap, r, r.active[y]) {
      assert TxnOk(sha, cap, s, s.active[y]);
    }
  }

  lemma OutsideInv(sha: Sha, cap: nat, s: State, step: Step)
    requires Inv(sha, cap, s) && Enabled(cap, s, step) && (step.Tick? || step.Issue?)
    ensures Inv(sha, cap, Next(sha, s, step).0)
  {
    var r := Next(sha, s, step).0;
    DayMonotone(s.now, r.now);
    forall y | y in r.active ensures TxnOk(sha, cap, r, r.active[y]) {
      assert TxnOk(sha, cap, s, s.active[y]);
    }
  }

  lemma StepInv(sha: Sha, cap: nat, s: State, step: Step)
    requires Inv(sha, cap, s) && Enabled(cap, s, step)
    ensures Inv(sha, cap, Next(sha, s, step).0)
  {
    match step
    case Tick(_) => OutsideInv(sha, cap, s, step);
    case Issue(_, _) => OutsideInv(sha, cap, s, step);
    case Begin(tx, gate, key) => AdvanceInv(sha, cap, s, tx, Txn(gate, key, s.now, Begun, None, None));
    case RedeemStep(tx) => RedeemInv(sha, cap, s, tx);
    case ReserveStep(tx) => ReserveInv(sha, cap, s, tx);
    case InsertStep(tx) => InsertInv(sha, cap, s, tx);
    case Commit(tx) => CommitInv(sha, cap, s, tx);
    case Abort(tx) => EndInv(sha, cap, s, tx);
    case CreateUngated(key) => UngatedInv(sha, cap, s, key);
    case SweepCounters(rows) => SweepCountersInv(sha, cap, s, rows);
    case SweepChallenges(rows) => SweepChallengesInv(sha, cap, s, rows);
  }

  // ---- runs ---------------------------------------------------------------------------

  ghost predicate IsRun(sha: Sha, cap: nat, s: State, steps: seq<Step>)
    decreases |steps|
  {
    steps == [] || (Enabled(cap, s, steps[0]) && IsRun(sha, cap, Next(sha, s, steps[0]).0, steps[1..]))
  }

  function After(sha: Sha, s: State, steps: seq<Step>): State
    decreases |steps|
  {
    if steps == [] then s else After(sha, Next(sha, s, steps[0]).0, steps[1..])
  }

  lemma {:induction false} RunInv(sha: Sha, cap: nat, s: State, steps: seq<Step>)
    requires Inv(sha, cap, s) && IsRun(sha, cap, s, steps)
    ensures Inv(sha, cap, After(sha, s, steps))
    decreases |steps|
  {
    if steps != [] {
      StepInv(sha, cap, s, steps[0]);
      RunInv(sha, cap, Next(sha, s, steps[0]).0, steps[1..]);
    }
  }

  /**
   * In every interleaving a slot's counter is the number of registrations committed under it exactly
   * when no sweep has removed it, and is at most the cap; and no challenge and no key backs two.
   */
  lemma AdmissionExact(sha: Sha, cap: nat, s: State, steps: seq<Step>, slot: Slot)
    requires Init(s) && IsRun(sha, cap, s, steps)
    ensures var r := After(sha, s, steps);
      && (slot !in r.swept <==> Counter(r.db, slot) == Count(r.created, slot))
      && Counter(r.db, slot) <= cap
      && (slot !in r.swept ==> Count(r.created, slot) <= cap)
      && (forall i, j :: 0 <= i < j < |r.created| ==>
            r.created[i].key != r.created[j].key
            && (r.created[i].challenge.Some? ==> r.created[i].challenge != r.created[j].challenge))
  {
    InitInv(sha, cap, s);
    RunInv(sha, cap, s, steps);
  }

  /**
   * In every run each registration that asked for work used up a challenge issued to the same key,
   * unexpired when its transaction began and solved at its own difficulty; and each that was capped is
   * counted under its own bucket and the day it began.
   */
  lemma RegistrationsAreEarned(sha: Sha, cap: nat, s: State, steps: seq<Step>, i: nat)
    requires Init(s) && IsRun(sha, cap, s, steps) && i < |After(sha, s, steps).created|
    ensures Earned(sha, After(sha, s, steps).issued, After(sha, s, steps).created[i])
  {
    hide IsRun, After, Earned;
    InitInv(sha, cap, s);
    RunInv(sha, cap, s, steps);
  }

  // ---- every attempt is atomic --------------------------------------------------------

  ghost function TxOf(step: Step): Option<nat> {
    match step
    case RedeemStep(tx) => Some(tx)
    case ReserveStep(tx) => Some(tx)
    case InsertStep(tx) => Some(tx)
    case Commit(tx) => Some(tx)
    case Abort(tx) => Some(tx)
    case _ => None
  }

  /**
   * An attempt that commits changes the tables exactly as the whole registration run alone at that
   * instant would; one that is refused is refused as it would be alone, and one that is refused or
   * dies leaves the tables as they were and its locks released.
   */
  lemma AttemptsAreAtomic(sha: Sha, cap: nat, s: State, step: Step)
    requires Inv(sha, cap, s) && Enabled(cap, s, step) && TxOf(step).Some?
    ensures var tx := TxOf(step).value;
      var t := s.active[tx];
      var (r, outcome) := Next(sha, s, step);
      var alone := CreateAdmitted(sha, s.db, t.startedAt, t.gate, t.key);
      && tx in s.active
      && (outcome == Some(Committed) ==> alone == Ok(r.db))
      && (outcome.Some? && outcome.value.Refused? ==> alone == Err(outcome.value.refusal))
      && (outcome != Some(Committed) ==> r.db == s.db && r.created == s.created)
      && (outcome.Some? <==> tx !in r.active)
  {
    var tx := TxOf(step).value;
    var t := s.active[tx];
    assert TxnOk(sha, cap, s, t);
    hide Inv, ChallengeLocked, SlotLocked, KeyLocked;
    match step
    case RedeemStep(_) =>
    case ReserveStep(_) =>
    case InsertStep(_) =>
    case Commit(_) =>
    case Abort(_) =>
  }

  /**
   * What a step can take out of the tables: a challenge only by the commit that used it or once it has expired, a
   * counter row only when its day is more than seven before today, and a volunteer never.
   */
  lemma RowsLast(sha: Sha, cap: nat, s: State, step: Step)
    requires Inv(sha, cap, s) && Enabled(cap, s, step)
    ensures var r := Next(sha, s, step).0;
      && (forall id :: id in s.db.challenges && id !in r.db.challenges ==>
            || s.db.challenges[id].expiresAt < s.now
            || (step.Commit? && r.created == s.created + [CreationOf(s.active[step.tx])]
                && CreationOf(s.active[step.tx]).challenge == Some(id)))
      && (forall slot :: slot in s.db.counters && slot !in r.db.counters ==>
            slot.day + 7 < s.now / 86_400_000_000)
      && s.db.volunteers <= r.db.volunteers
  {
    hide Inv;
  }

  // ---- progress -----------------------------------------------------------------------

  ghost function NextStep(s: State, tx: nat): Step
    requires tx in s.active
  {
    match s.active[tx].stage
    case Begun => RedeemStep(tx)
    case PowDone => ReserveStep(tx)
    case SlotDone => InsertStep(tx)
    case RowDone => Commit(tx)
  }

  ghost predicate AtStage(s: State, stage: Stage) { exists tx :: tx in s.active && s.active[tx].stage == stage }

  /** Rows are locked in one order, so transactions never wait for each other in a circle. */
  lemma NoDeadlock(sha: Sha, cap: nat, s: State)
    requires Inv(sha, cap, s) && s.active != map[]
    ensures exists tx :: tx in s.active && Enabled(cap, s, NextStep(s, tx))
  {
    assert forall tx :: tx in s.active ==> TxnOk(sha, cap, s, s.active[tx]);
    if AtStage(s, RowDone) {
      var tx :| tx in s.active && s.active[tx].stage == RowDone;
      assert Enabled(cap, s, NextStep(s, tx));
    } else if AtStage(s, SlotDone) {
      var tx :| tx in s.active && s.active[tx].stage == SlotDone;
      assert Enabled(cap, s, NextStep(s, tx));
    } else if AtStage(s, PowDone) {
      var tx :| tx in s.active && s.active[tx].stage == PowDone;
      assert Enabled(cap, s, NextStep(s, tx));
    } else {
      var tx :| tx in s.active;
      assert s.active[tx].stage == Begun;
      assert Enabled(cap, s, NextStep(s, tx));
    }
  }

  // ---- exactly when the cap holds -----------------------------------------------------

  /**
   * A reservation takes the number it should, one more than the registrations committed under its
   * slot, exactly when no sweep has removed the slot's row.
   */
  lemma ReservedCountExactlyWhen(sha: Sha, cap: nat, s: State, steps: seq<Step>, tx: nat)
    requires Init(s) && IsRun(sha, cap, s, steps)
    requires Enabled(cap, After(sha, s, steps), ReserveStep(tx)) && After(sha, s, steps).active[tx].gate.capPerDay > 0
    ensures var v := After(sha, s, steps);
      var t := v.active[tx];
      var (r, outcome) := Next(sha, v, ReserveStep(tx));
      && (outcome == Some(Refused(CapExceeded)) <==> Counter(v.db, SlotOf(t)) >= t.gate.capPerDay)
      && (outcome == None ==>
            && tx in r.active && r.active[tx].reserved.Some? && r.active[tx].reserved.value.0 == SlotOf(t)
            && (r.active[tx].reserved.value.1 == Count(v.created, SlotOf(t)) + 1 <==> SlotOf(t) !in v.swept))
  {
    InitInv(sha, cap, s);
    RunInv(sha, cap, s, steps);
  }

  /** A slot that is full to the cap takes another reservation exactly when its row has been swept. */
  lemma FullSlotAdmitsExactlyWhenSwept(sha: Sha, cap: nat, s: State, tx: nat)
    requires Inv(sha, cap, s) && Enabled(cap, s, ReserveStep(tx))
    requires s.active[tx].gate.capPerDay == cap > 0 && Count(s.created, SlotOf(s.active[tx])) == cap
    ensures Next(sha, s, ReserveStep(tx)).1 == None <==> SlotOf(s.active[tx]) in s.swept
  {
  }

  /** No step of the run reserves under a slot whose row a sweep has removed. */
  ghost predicate ReservesUnswept(sha: Sha, s: State, steps: seq<Step>)
    decreases |steps|
  {
    steps == [] ||
      (&& (steps[0].ReserveStep? && steps[0].tx in s.active && s.active[steps[0].tx].gate.capPerDay > 0 ==>
             SlotOf(s.active[steps[0].tx]) !in s.swept)
       && ReservesUnswept(sha, Next(sha, s, steps[0]).0, steps[1..]))
  }

  /** No pending reservation is on a swept row, and no slot has ever been overfilled. */
  ghost predicate NeverOverfilled(cap: nat, s: State) {
    && (forall slot :: Count(s.created, slot) <= cap)
    && (forall tx :: tx in s.active && s.active[tx].reserved.Some? ==> s.active[tx].reserved.value.0 !in s.swept)
  }

  lemma NeverOverfilledStep(sha: Sha, cap: nat, s: State, step: Step)
    requires Inv(sha, cap, s) && Enabled(cap, s, step) && NeverOverfilled(cap, s) && ReservesUnswept(sha, s, [step])
    ensures NeverOverfilled(cap, Next(sha, s, step).0)
  {
    hide ChallengesSingleUse, KeysUnique, LocksExclusive, SweptAreOld, Redeemable, Solves, AllEarned, Count;
    var r := Next(sha, s, step).0;
    forall slot ensures Count(r.created, slot) <= cap {
      match step
      case Commit(tx) =>
        assert TxnOk(sha, cap, s, s.active[tx]);
        CountAppend(s.created, CreationOf(s.active[tx]), slot);
      case CreateUngated(key) =>
        CountAppend(s.created, Ungated(key, s.now), slot);
      case _ =>
    }
  }

  /** While no reservation is made on a swept row, no slot is ever overfilled, swept or not. */
  lemma {:induction false} CapHoldsForever(sha: Sha, cap: nat, s: State, steps: seq<Step>)
    requires Inv(sha, cap, s) && NeverOverfilled(cap, s)
    requires IsRun(sha, cap, s, steps) && ReservesUnswept(sha, s, steps)
    ensures NeverOverfilled(cap, After(sha, s, steps))
    decreases |steps|
  {
    hide Inv, NeverOverfilled, Enabled, Next;
    if steps != [] {
      FirstReservesUnswept(sha, s, steps);
      NeverOverfilledStep(sha, cap, s, steps[0]);
      StepInv(sha, cap, s, steps[0]);
      CapHoldsForever(sha, cap, Next(sha, s, steps[0]).0, steps[1..]);
    }
  }

  lemma FirstReservesUnswept(sha: Sha, s: State, steps: seq<Step>)
    requires steps != [] && ReservesUnswept(sha, s, steps)
    ensures ReservesUnswept(sha, s, [steps[0]])
  {
    hide Next;
    assert [steps[0]][1..] == [];
    assert ReservesUnswept(sha, Next(sha, s, steps[0]).0, []);
  }

  /** Every reservation happens within the retention window of its transaction's start. */
  ghost predicate Timely(sha: Sha, s: State, steps: seq<Step>)
    decreases |steps|
  {
    steps == [] ||
      (&& (steps[0].ReserveStep? && steps[0].tx in s.active ==>
             DayOf(s.active[steps[0].tx].startedAt) + COUNTER_RETENTION_DAYS >= DayOf(s.now))
       && Timely(sha, Next(sha, s, steps[0]).0, steps[1..]))
  }

  /** Within the window no row a transaction reserves can have been swept. */
  lemma {:induction false} TimelyReservesUnswept(sha: Sha, cap: nat, s: State, steps: seq<Step>)
    requires Inv(sha, cap, s) && IsRun(sha, cap, s, steps) && Timely(sha, s, steps)
    ensures ReservesUnswept(sha, s, steps)
    decreases |steps|
  {
    hide Enabled, Next;
    if steps != [] {
      StepInv(sha, cap, s, steps[0]);
      TimelyReservesUnswept(sha, cap, Next(sha, s, steps[0]).0, steps[1..]);
    }
  }

  /** So the cap holds for ever on runs whose transactions reserve within the retention window. */
  lemma TimelyCapHolds(sha: Sha, cap: nat, s: State, steps: seq<Step>, slot: Slot)
    requires Init(s) && IsRun(sha, cap, s, steps) && Timely(sha, s, steps)
    ensures Count(After(sha, s, steps).created, slot) <= cap
  {
    hide IsRun, Timely, After, ReservesUnswept, Inv;
    InitInv(sha, cap, s);
    TimelyReservesUnswept(sha, cap, s, steps);
    CapHoldsForever(sha, cap, s, steps);
  }

  // ---- a reservation on a swept row ---------------------------------------------------

  const BUCKET := "192.0.2.1"

  function Registered(key: Byte): Creation { Creation(Gate(BUCKET, 1, None), 0, [key], Some(Slot(BUCKET, 0)), None) }

  function Registering(tx: nat): seq<Step> { [RedeemStep(tx), ReserveStep(tx), InsertStep(tx), Commit(tx)] }

  /**
   * A transaction begun on a day, left open until that day's counter row has been swept, and only
   * then reserving, is counted from one again.
   */
  function LateReservation(): seq<Step> { (Opening() + Registering(0)) + (Late() + Registering(1)) }

  lemma {:induction false} RunJoin(sha: Sha, cap: nat, s: State, a: seq<Step>, b: seq<Step>)
    ensures IsRun(sha, cap, s, a + b) <==> IsRun(sha, cap, s, a) && IsRun(sha, cap, After(sha, s, a), b)
    ensures After(sha, s, a + b) == After(sha, After(sha, s, a), b)
    decreases |a|
  {
    if a == [] {
      assert a + b == b;
    } else {
      assert (a + b)[1..] == a[1..] + b;
      RunJoin(sha, cap, Next(sha, s, a[0]).0, a[1..], b);
    }
  }

  lemma RunTwo(sha: Sha, cap: nat, s: State, x: Step, y: Step)
    requires Enabled(cap, s, x) && Enabled(cap, Next(sha, s, x).0, y)
    ensures IsRun(sha, cap, s, [x, y]) && After(sha, s, [x, y]) == Next(sha, Next(sha, s, x).0, y).0
  {
    hide Next, Enabled;
    assert [x, y][1..] == [y];
    RunOne(sha, cap, Next(sha, s, x).0, y);
  }

  lemma RunOne(sha: Sha, cap: nat, s: State, y: Step)
    requires Enabled(cap, s, y)
    ensures IsRun(sha, cap, s, [y]) && After(sha, s, [y]) == Next(sha, s, y).0
  {
    hide Next, Enabled;
    assert [y][1..] == [];
    assert IsRun(sha, cap, Next(sha, s, y).0, []) && After(sha, Next(sha, s, y).0, []) == Next(sha, s, y).0;
  }

  lemma ReservesAlone(sha: Sha, s: State, tx: Byte)
    requires tx in s.active && s.active[tx] == Txn(Gate(BUCKET, 1, None), [tx], 0, Begun, None, None)
    requires forall y :: y in s.active ==> s.active[y].reserved.None?
    requires Slot(BUCKET, 0) !in s.db.counters
    ensures var t := s.active[tx];
      var s1 := Advance(s, tx, t.(stage := PowDone));
      && Enabled(1, s, RedeemStep(tx)) && Next(sha, s, RedeemStep(tx)).0 == s1
      && Enabled(1, s1, ReserveStep(tx))
      && Next(sha, s1, ReserveStep(tx)).0 ==
         Advance(s, tx, t.(stage := SlotDone, reserved := Some((Slot(BUCKET, 0), 1))))
  {
    assert SlotOf(s.active[tx]) == Slot(BUCKET, 0);
  }

  lemma CommitsAlone(sha: Sha, s: State, tx: Byte)
    requires tx in s.active && s.active[tx].stage == SlotDone && s.active[tx].key !in s.db.volunteers
    requires forall y :: y in s.active ==> s.active[y].stage != RowDone
    ensures var t := s.active[tx].(stage := RowDone);
      var s1 := Advance(s, tx, t);
      && Enabled(1, s, InsertStep(tx)) && Next(sha, s, InsertStep(tx)).0 == s1
      && Enabled(1, s1, Commit(tx))
      && Next(sha, s1, Commit(tx)).0 == End(s1, tx).(db := Published(s.db, t), created := s.created + [CreationOf(t)])
  {
  }

  /** A transaction with the cap of one, no proof of work and nothing in its way goes through. */
  lemma RegistersAlone(sha: Sha, s: State, tx: Byte)
    requires tx in s.active && s.active[tx] == Txn(Gate(BUCKET, 1, None), [tx], 0, Begun, None, None)
    requires forall y :: y in s.active ==> s.active[y].stage == Begun && s.active[y].reserved.None?
    requires Slot(BUCKET, 0) !in s.db.counters && [tx] !in s.db.volunteers
    ensures IsRun(sha, 1, s, Registering(tx))
    ensures After(sha, s, Registering(tx)) ==
      End(s, tx).(db := s.db.(counters := s.db.counters[Slot(BUCKET, 0) := 1], volunteers := s.db.volunteers + {[tx]}),
                  created := s.created + [Registered(tx)])
  {
    hide IsRun, After;
    hide Next, Enabled;
    var t := s.active[tx];
    var s1 := Advance(s, tx, t.(stage := PowDone));
    var s2 := Advance(s, tx, t.(stage := SlotDone, reserved := Some((Slot(BUCKET, 0), 1))));
    var s3 := Advance(s, tx, t.(stage := RowDone, reserved := Some((Slot(BUCKET, 0), 1))));
    ReservesAlone(sha, s, tx);
    RunTwo(sha, 1, s, RedeemStep(tx), ReserveStep(tx));
    CommitsAlone(sha, s2, tx);
    RunTwo(sha, 1, s2, InsertStep(tx), Commit(tx));
    RunJoin(sha, 1, s, [RedeemStep(tx), ReserveStep(tx)], [InsertStep(tx), Commit(tx)]);
    assert Registering(tx) == [RedeemStep(tx), ReserveStep(tx)] + [InsertStep(tx), Commit(tx)];
    assert End(s3, tx).active == End(s, tx).active;
    assert s.db.volunteers + {[tx]} == Published(s.db, s3.active[tx]).volunteers;
  }

  function Fresh(): State { State(0, Tables(map[], map[], {}), map[], map[], [], {}) }

  function Opening(): seq<Step> { [Begin(0, Gate(BUCKET, 1, None), [0]), Begin(1, Gate(BUCKET, 1, None), [1])] }

  function Waiting(key: Byte): Txn { Txn(Gate(BUCKET, 1, None), [key], 0, Begun, None, None) }

  lemma OpeningRuns(sha: Sha)
    ensures IsRun(sha, 1, Fresh(), Opening())
    ensures After(sha, Fresh(), Opening()) == Fresh().(active := map[0 := Waiting(0), 1 := Waiting(1)])
  {
    hide IsRun, After;
    RunTwo(sha, 1, Fresh(), Opening()[0], Opening()[1]);
  }

  function Late(): seq<Step> { [Tick(8 * DAY), SweepCounters({Slot(BUCKET, 0)})] }

  lemma LateRuns(sha: Sha, b: State)
    requires b.now == 0 && b.active == map[1 := Waiting(1)] && b.db.counters == map[Slot(BUCKET, 0) := 1]
    ensures IsRun(sha, 1, b, Late())
    ensures var c := After(sha, b, Late());
            c.db == b.db.(counters := map[]) && c.active == b.active && c.created == b.created
  {
    hide IsRun, After;
    assert DayOf(8 * DAY) == 8;
    RunTwo(sha, 1, b, Late()[0], Late()[1]);
  }

  /** The first registration commits while the second transaction waits. */
  lemma FirstCommits(sha: Sha)
    ensures IsRun(sha, 1, Fresh(), Opening() + Registering(0))
    ensures var b := After(sha, Fresh(), Opening() + Registering(0));
            && b.now == 0 && b.active == map[1 := Waiting(1)] && b.created == [Registered(0)]
            && b.db == Tables(map[], map[Slot(BUCKET, 0) := 1], {[0]})
  {
    hide IsRun, After, Next, Enabled, Registering, Opening;
    OpeningRuns(sha);
    var a := After(sha, Fresh(), Opening());
    RegistersAlone(sha, a, 0);
    RunJoin(sha, 1, Fresh(), Opening(), Registering(0));
    assert [] + [Registered(0)] == [Registered(0)] && map[][Slot(BUCKET, 0) := 1] == map[Slot(BUCKET, 0) := 1];
  }

  /** Then the sweep takes the counter row and the second one is counted from one again. */
  lemma SecondCommits(sha: Sha, b: State)
    requires b.now == 0 && b.active == map[1 := Waiting(1)]
    requires b.db == Tables(map[], map[Slot(BUCKET, 0) := 1], {[0]})
    ensures IsRun(sha, 1, b, Late() + Registering(1))
    ensures After(sha, b, Late() + Registering(1)).created == b.created + [Registered(1)]
  {
    hide IsRun, After, Next, Enabled, Registering, Late;
    LateRuns(sha, b);
    RegistersAlone(sha, After(sha, b, Late()), 1);
    RunJoin(sha, 1, b, Late(), Registering(1));
  }

  lemma LateReservationOverfills(sha: Sha)
    ensures Init(Fresh()) && IsRun(sha, 1, Fresh(), LateReservation())
    ensures Count(After(sha, Fresh(), LateReservation()).created, Slot(BUCKET, 0)) == 2
  {
    hide IsRun, After, Next, Enabled, Registering, Opening, Late;
    FirstCommits(sha);
    SecondCommits(sha, After(sha, Fresh(), Opening() + Registering(0)));
    RunJoin(sha, 1, Fresh(), Opening() + Registering(0), Late() + Registering(1));
    CountAppend([], Registered(0), Slot(BUCKET, 0));
    CountAppend([Registered(0)], Registered(1), Slot(BUCKET, 0));
    assert [] + [Registered(0)] == [Registered(0)];
  }
}
