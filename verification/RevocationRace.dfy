/**
 * Revocation under concurrency: any number of emitters, from the clawback handler or from
 * overlapping sweeps, each loading its adjustment, looking the grant up, signing and inserting in
 * separate steps and free to vanish between any two, while adjustments and grants keep arriving.
 */
module RevocationRace {
  import opened Formats
  import opened Results
  import opened Revocation
  import opened Signer

  datatype Emission =
    | Loaded(id: Uuid, adj: Adjustment)
    | Found(id: Uuid, adj: Adjustment, grantId: Uuid, grant: Attestation)
    | Signed(id: Uuid, att: Attestation)

  datatype State = State(adjustments: Adjustments, rows: Rows, emitters: map<nat, Emission>)

  datatype Step =
    | ClawBack(id: Uuid, adj: Adjustment)       // a new adjustment is committed
    | Attest(id: Uuid, att: Attestation)        // validation appends a grant or a rejection
    | Load(p: nat, id: Uuid)                    // an emitter picks up an adjustment
    | LookUp(p: nat, grantId: Uuid)             // and finds the grant of its result
    | LookUpNone(p: nat)                        // or finds there is none, and is done
    | Sign(p: nat, now: Instant)
    | Insert(p: nat, newId: Uuid)
    | Lose(p: nat)                              // the emission is lost

  ghost predicate Enabled(s: State, step: Step) {
    match step
    case ClawBack(id, _) => id !in s.adjustments
    case Attest(id, att) => id !in s.rows && att.adjustmentId.None? && att.validationOutcome != OUTCOME_REVOKED
    case Load(p, id) => p !in s.emitters && id in s.adjustments
    case LookUp(p, grantId) =>
      && p in s.emitters && s.emitters[p].Loaded?
      && grantId in s.rows && GrantFor(s.rows[grantId], s.emitters[p].adj.resultId)
    case LookUpNone(p) => p in s.emitters && s.emitters[p].Loaded? && !HasGrant(s.rows, s.emitters[p].adj.resultId)
    case Sign(p, now) => p in s.emitters && s.emitters[p].Found?
    case Insert(p, newId) => p in s.emitters && s.emitters[p].Signed? && newId !in s.rows
    case Lose(p) => p in s.emitters
  }

  ghost function Append(rows: Rows, id: Uuid, a: Attestation): Rows {
    if InsertResult(rows, a) == Inserted then rows[id := a] else rows
  }

  ghost function Next(s: State, step: Step): State
    requires Enabled(s, step)
  {
    match step
    case ClawBack(id, adj) => s.(adjustments := s.adjustments[id := adj])
    case Attest(id, att) => s.(rows := Append(s.rows, id, att))
    case Load(p, id) => s.(emitters := s.emitters[p := Loaded(id, s.adjustments[id])])
    case LookUp(p, grantId) =>
      var e := s.emitters[p];
      s.(emitters := s.emitters[p := Found(e.id, e.adj, grantId, s.rows[grantId])])
    case LookUpNone(p) => s.(emitters := s.emitters - {p})
    case Sign(p, now) =>
      var e := s.emitters[p];
      var att := Built(e.id, e.adj, e.grantId, e.grant, now);
      if CanonicalBytes(att).Ok? then s.(emitters := s.emitters[p := Signed(e.id, att)])
      else s.(emitters := s.emitters - {p})
    case Insert(p, newId) =>
      s.(rows := Append(s.rows, newId, s.emitters[p].att), emitters := s.emitters - {p})
    case Lose(p) => s.(emitters := s.emitters - {p})
  }

  /** What an emitter has read is still so: adjustments and rows are only ever appended. */
  ghost predicate EmissionOk(s: State, e: Emission) {
    match e
    case Loaded(id, adj) => id in s.adjustments && s.adjustments[id] == adj
    case Found(id, adj, grantId, grant) =>
      && id in s.adjustments && s.adjustments[id] == adj
      && grantId in s.rows && s.rows[grantId] == grant && GrantFor(grant, adj.resultId)
    case Signed(id, att) =>
      att.adjustmentId == Some(id) && Faithful(s.adjustments, s.rows, att) && CanonicalBytes(att).Ok?
  }

  ghost predicate AllSignable(rows: Rows) {
    forall id :: id in rows && rows[id].adjustmentId.Some? ==> CanonicalBytes(rows[id]).Ok?
  }

  ghost predicate Inv(s: State) {
    && IndexesHold(s.rows) && RevocationsFaithful(s.adjustments, s.rows) && AllSignable(s.rows)
    && forall p :: p in s.emitters ==> EmissionOk(s, s.emitters[p])
  }

  /** No revocations and no emissions yet; the rest of the table may hold anything its indexes allow. */
  ghost predicate Init(s: State) {
    s.emitters == map[] && IndexesHold(s.rows) && forall id :: id in s.rows ==> s.rows[id].adjustmentId.None?
  }

  ghost predicate Grows(s: State, t: State) {
    && (forall id :: id in s.adjustments ==> id in t.adjustments && t.adjustments[id] == s.adjustments[id])
    && (forall id :: id in s.rows ==> id in t.rows && t.rows[id] == s.rows[id])
  }

  lemma FaithfulGrows(s: State, t: State, a: Attestation)
    requires Grows(s, t) && a.adjustmentId.Some? && Faithful(s.adjustments, s.rows, a)
    ensures Faithful(t.adjustments, t.rows, a)
  {
    hide MagnitudeText;
  }

  lemma EmissionGrows(s: State, t: State, e: Emission)
    requires Grows(s, t) && EmissionOk(s, e)
    ensures EmissionOk(t, e)
  {
    hide CanonicalBytes, Faithful;
    if e.Signed? {
      FaithfulGrows(s, t, e.att);
    }
  }

  /** Both tables are append-only under every step. */
  lemma StepGrows(s: State, step: Step)
    requires Enabled(s, step)
    ensures Grows(s, Next(s, step))
  {
    hide Built, CanonicalBytes, InsertResult;
  }

  lemma AppendInv(s: State, t: State, id: Uuid, a: Attestation)
    requires Inv(s) && Grows(s, t) && t.rows == Append(s.rows, id, a) && id !in s.rows
    requires a.adjustmentId.Some? ==> Faithful(s.adjustments, s.rows, a) && CanonicalBytes(a).Ok?
    ensures IndexesHold(t.rows) && RevocationsFaithful(t.adjustments, t.rows) && AllSignable(t.rows)
  {
    hide Faithful, CanonicalBytes, InsertResult;
    if InsertResult(s.rows, a) == Inserted {
      InsertKeepsIndexes(s.rows, id, a);
    }
    forall x | x in t.rows && t.rows[x].adjustmentId.Some? ensures Faithful(t.adjustments, t.rows, t.rows[x]) {
      FaithfulGrows(s, t, t.rows[x]);
    }
  }

  lemma SameRowsInv(s: State, t: State)
    requires Inv(s) && Grows(s, t) && t.rows == s.rows
    ensures IndexesHold(t.rows) && RevocationsFaithful(t.adjustments, t.rows) && AllSignable(t.rows)
  {
    hide Faithful, CanonicalBytes;
    forall x | x in t.rows && t.rows[x].adjustmentId.Some? ensures Faithful(t.adjustments, t.rows, t.rows[x]) {
      FaithfulGrows(s, t, t.rows[x]);
    }
  }

  lemma RowsInv(s: State, step: Step)
    requires Inv(s) && Enabled(s, step)
    ensures var t := Next(s, step);
            IndexesHold(t.rows) && RevocationsFaithful(t.adjustments, t.rows) && AllSignable(t.rows)
  {
    hide CanonicalBytes, IndexesHold, InsertResult, Append, Built, Faithful;
    var t := Next(s, step);
    StepGrows(s, step);
    match step {
      case Attest(id, att) => AppendInv(s, t, id, att);
      case Insert(p, newId) => AppendInv(s, t, newId, s.emitters[p].att);
      case _ => SameRowsInv(s, t);
    }
  }

  lemma EmissionsInv(s: State, step: Step)
    requires Inv(s) && Enabled(s, step)
    ensures var t := Next(s, step); forall p :: p in t.emitters ==> EmissionOk(t, t.emitters[p])
  {
    hide CanonicalBytes, IndexesHold, InsertResult;
    var t := Next(s, step);
    StepGrows(s, step);
    forall p | p in t.emitters ensures EmissionOk(t, t.emitters[p]) {
      if p in s.emitters && s.emitters[p] == t.emitters[p] {
        EmissionGrows(s, t, s.emitters[p]);
      }
    }
  }

  lemma StepInv(s: State, step: Step)
    requires Inv(s) && Enabled(s, step)
    ensures Inv(Next(s, step))
  {
    hide Next, Enabled, EmissionOk, IndexesHold, RevocationsFaithful, AllSignable;
    RowsInv(s, step);
    EmissionsInv(s, step);
  }

  // ---- runs ---------------------------------------------------------------------------

  ghost predicate IsRun(s: State, steps: seq<Step>)
    decreases |steps|
  {
    steps == [] || (Enabled(s, steps[0]) && IsRun(Next(s, steps[0]), steps[1..]))
  }

  ghost function After(s: State, steps: seq<Step>): State
    requires IsRun(s, steps)
    decreases |steps|
  {
    if steps == [] then s else After(Next(s, steps[0]), steps[1..])
  }

  lemma {:induction false} RunInv(s: State, steps: seq<Step>)
    requires Inv(s) && IsRun(s, steps)
    ensures Inv(After(s, steps))
    decreases |steps|
  {
    if steps != [] {
      StepInv(s, steps[0]);
      RunInv(Next(s, steps[0]), steps[1..]);
    }
  }

  /** A version 2 revocation of its adjustment's result, for its reason. */
  ghost predicate SaysItsAdjustment(a: Attestation, adj: Adjustment) {
    && a.schemaVersion == 2 && a.validationOutcome == "REVOKED"
    && a.resultId == Some(adj.resultId) && a.reason == Some(adj.reason)
  }

  /** The attestation revoked is the agreed version 2 grant of the same result, leaf, work unit and volunteer. */
  ghost predicate SaysItsGrant(a: Attestation, grant: Attestation) {
    && grant.schemaVersion == 2 && grant.validationOutcome == "AGREED" && grant.resultId == a.resultId
    && grant.leafId == a.leafId && grant.workUnitId == a.workUnitId && grant.volunteerPublicKey == a.volunteerPublicKey
  }

  /**
   * In every interleaving each adjustment has at most one revocation; each revocation names an
   * agreed version 2 grant of the adjustment's own result, carries its reason and exactly its
   * magnitude, and can be signed; and an adjustment whose result has no such grant has none.
   */
  lemma RevocationsExact(s: State, steps: seq<Step>, adjustmentId: Uuid)
    requires Init(s) && IsRun(s, steps)
    ensures var r := After(s, steps);
      && (forall x, y :: x in r.rows && y in r.rows ==>
            r.rows[x].adjustmentId == r.rows[y].adjustmentId == Some(adjustmentId) ==> x == y)
      && (forall x :: x in r.rows && r.rows[x].adjustmentId == Some(adjustmentId) ==>
            CanonicalBytes(r.rows[x]).Ok? && adjustmentId in r.adjustments
            && SaysItsAdjustment(r.rows[x], r.adjustments[adjustmentId])
            && r.rows[x].revokesAttestationId.Some? && r.rows[x].revokesAttestationId.value in r.rows
            && SaysItsGrant(r.rows[x], r.rows[r.rows[x].revokesAttestationId.value]))
      && (forall x, micros: nat :: x in r.rows && r.rows[x].adjustmentId == Some(adjustmentId) ==>
            (r.rows[x].creditAmountCanonical == MagnitudeText(micros) <==>
             micros == r.adjustments[adjustmentId].micros))
      && (adjustmentId in r.adjustments && !HasGrant(r.rows, r.adjustments[adjustmentId].resultId) ==>
            !HasRevocation(r.rows, adjustmentId))
  {
    hide CanonicalBytes;
    RunInv(s, steps);
    var r := After(s, steps);
    forall x, y | x in r.rows && y in r.rows && r.rows[x].adjustmentId == r.rows[y].adjustmentId == Some(adjustmentId)
      ensures x == y
    {
      assert x != y ==> !SameAdjustment(r.rows[x], r.rows[y]);
    }
    hide MagnitudeText;
    forall x, micros: nat | x in r.rows && r.rows[x].adjustmentId == Some(adjustmentId)
      ensures r.rows[x].creditAmountCanonical == MagnitudeText(micros) <==> micros == r.adjustments[adjustmentId].micros
    {
      if r.rows[x].creditAmountCanonical == MagnitudeText(micros) {
        MagnitudeTextInjective(micros, r.adjustments[adjustmentId].micros);
      }
    }
  }
}
