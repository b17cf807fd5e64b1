/**
 * Revocation attestations: the store they are appended to, with its two unique indexes, one
 * emission for one adjustment, and the bounded reconciliation sweep.
 */
module Revocation {
  import opened Formats
  import opened Results
  import opened Signer
  import opened TextForms

  const SCHEMA_VERSION_V2 := 2
  const OUTCOME_AGREED := "AGREED"
  const BATCH_LIMIT := 100

  /** A clawback: a magnitude in millionths of a credit, against one result. */
  datatype Adjustment = Adjustment(resultId: Uuid, micros: nat, reason: string, createdAt: nat)

  type Adjustments = map<Uuid, Adjustment>
  type Rows = map<Uuid, Attestation>

  /** The magnitude at six fractional digits, as the database renders it. */
  function MagnitudeText(micros: nat): string { NatText(micros / 1_000_000) + "." + Padded(micros % 1_000_000, 6) }

  lemma MagnitudeCanonical(micros: nat)
    ensures CreditCanonical(MagnitudeText(micros))
  {
    var whole, cents := NatText(micros / 1_000_000), Padded(micros % 1_000_000, 6);
    var t := MagnitudeText(micros);
    assert t[0] == whole[0];
    assert t[..|t| - 7] == whole && t[|t| - 6..] == cents;
  }

  /** Whole credits, a point, and the millionths in six digits. */
  lemma MagnitudeReads(micros: nat)
    ensures var t := MagnitudeText(micros); var point := |t| - 7;
      && point > 0 && t[point] == '.' && (t[..point] == "0" || t[0] != '0')
      && Reads(t[..point], micros / 1_000_000) && Reads(t[point + 1..], micros % 1_000_000)
  {
    hide Decimal, NatText, Padded;
    SmallPowers();
    NatTextReads(micros / 1_000_000);
    PaddedReads(micros % 1_000_000, 6);
    var t := MagnitudeText(micros);
    assert t[..|t| - 7] == NatText(micros / 1_000_000) && t[|t| - 6..] == Padded(micros % 1_000_000, 6);
  }

  lemma MagnitudeTextInjective(m: nat, n: nat)
    requires MagnitudeText(m) == MagnitudeText(n)
    ensures m == n
  {
    var s, t := MagnitudeText(m), MagnitudeText(n);
    assert NatText(m / 1_000_000) == s[..|s| - 7] && NatText(n / 1_000_000) == t[..|t| - 7];
    assert Padded(m % 1_000_000, 6) == s[|s| - 6..] && Padded(n % 1_000_000, 6) == t[|t| - 6..];
    NatTextInjective(m / 1_000_000, n / 1_000_000);
    SmallPowers();
    PaddedInjective(m % 1_000_000, n % 1_000_000, 6);
  }

  // ---- the table ----------------------------------------------------------------------

  /** THE agreed version 2 grant of a result. */
  predicate GrantFor(a: Attestation, resultId: Uuid) {
    a.resultId == Some(resultId) && a.validationOutcome == OUTCOME_AGREED && a.schemaVersion == SCHEMA_VERSION_V2
  }

  ghost predicate HasGrant(rows: Rows, resultId: Uuid) {
    exists id :: id in rows && GrantFor(rows[id], resultId)
  }

  ghost predicate HasRevocation(rows: Rows, adjustmentId: Uuid) {
    exists id :: id in rows && rows[id].adjustmentId == Some(adjustmentId)
  }

  /** At most one row per adjustment, and at most one agreed row per result. */
  ghost predicate IndexesHold(rows: Rows) {
    forall x, y :: x in rows && y in rows && x != y ==>
      !SameAdjustment(rows[x], rows[y]) && !SameAgreedResult(rows[x], rows[y])
  }

  predicate SameAdjustment(a: Attestation, b: Attestation) {
    a.adjustmentId.Some? && a.adjustmentId == b.adjustmentId
  }

  predicate SameAgreedResult(a: Attestation, b: Attestation) {
    && a.resultId.Some? && a.resultId == b.resultId
    && a.validationOutcome == OUTCOME_AGREED && b.validationOutcome == OUTCOME_AGREED
  }

  datatype InsertOutcome = Inserted | DuplicateAdjustment | DuplicateGrant | MissingReference

  ghost predicate AdjustmentTaken(rows: Rows, a: Attestation) {
    a.adjustmentId.Some? && HasRevocation(rows, a.adjustmentId.value)
  }

  ghost predicate GrantTaken(rows: Rows, a: Attestation) {
    && a.resultId.Some? && a.validationOutcome == OUTCOME_AGREED
    && exists id :: id in rows && rows[id].resultId == a.resultId && rows[id].validationOutcome == OUTCOME_AGREED
  }

  ghost function InsertResult(rows: Rows, a: Attestation): InsertOutcome {
    if AdjustmentTaken(rows, a) then DuplicateAdjustment
    else if GrantTaken(rows, a) then DuplicateGrant
    else Inserted
  }

  /** The rows of other tables an attestation may point to. */
  datatype References = References(leafs: set<Uuid>, workUnits: set<Uuid>, results: set<Uuid>)

  /** Every foreign key of the row names a row that is there. */
  predicate ReferencesMet(refs: References, adjustments: Adjustments, rows: Rows, a: Attestation) {
    && a.leafId in refs.leafs && a.workUnitId in refs.workUnits
    && (a.resultId.Some? ==> a.resultId.value in refs.results)
    && (a.adjustmentId.Some? ==> a.adjustmentId.value in adjustments)
    && (a.revokesAttestationId.Some? ==> a.revokesAttestationId.value in rows)
  }

  ghost predicate AllReferencesMet(refs: References, adjustments: Adjustments, rows: Rows) {
    forall id :: id in rows ==> ReferencesMet(refs, adjustments, rows, rows[id])
  }

  /** What the insert statement does: a unique index refuses first, then a missing reference. */
  ghost function CreateResult(refs: References, adjustments: Adjustments, rows: Rows, a: Attestation): InsertOutcome {
    if InsertResult(rows, a) != Inserted then InsertResult(rows, a)
    else if !ReferencesMet(refs, adjustments, rows, a) then MissingReference
    else Inserted
  }

  /** When an insert appends, and which constraint refuses it otherwise, on the fields. */
  lemma CreatedExactlyWhen(refs: References, adjustments: Adjustments, rows: Rows, a: Attestation)
    ensures var sameAdjustment :=
        a.adjustmentId.Some? && exists id :: id in rows && rows[id].adjustmentId == a.adjustmentId;
      var sameResult :=
        && a.resultId.Some? && a.validationOutcome == "AGREED"
        && exists id :: id in rows && rows[id].resultId == a.resultId && rows[id].validationOutcome == "AGREED";
      var referencesMet :=
        && a.leafId in refs.leafs && a.workUnitId in refs.workUnits
        && (a.resultId.Some? ==> a.resultId.value in refs.results)
        && (a.adjustmentId.Some? ==> a.adjustmentId.value in adjustments)
        && (a.revokesAttestationId.Some? ==> a.revokesAttestationId.value in rows);
      var outcome := CreateResult(refs, adjustments, rows, a);
      && (outcome == DuplicateAdjustment <==> sameAdjustment)
      && (outcome == DuplicateGrant <==> !sameAdjustment && sameResult)
      && (outcome == MissingReference <==> !sameAdjustment && !sameResult && !referencesMet)
      && (outcome == Inserted <==> !sameAdjustment && !sameResult && referencesMet)
  {
  }

  lemma InsertKeepsIndexes(rows: Rows, id: Uuid, a: Attestation)
    requires IndexesHold(rows) && id !in rows && InsertResult(rows, a) == Inserted
    ensures IndexesHold(rows[id := a])
  {
  }

  // ---- one emission -------------------------------------------------------------------

  function Built(adjustmentId: Uuid, adj: Adjustment, grantId: Uuid, grant: Attestation, now: Instant): Attestation {
    Attestation(
      SCHEMA_VERSION_V2, grant.leafId, grant.volunteerPublicKey, grant.workUnitId, grant.resultId,
      None, None, None, Some(grantId), Some(adjustmentId), Some(adj.reason), OUTCOME_REVOKED,
      NotFinite, MagnitudeText(adj.micros), now, [])
  }

  /** Signing a built revocation fails for a reason outside the code charset and for nothing else. */
  lemma BuiltSignable(adjustmentId: Uuid, adj: Adjustment, grantId: Uuid, grant: Attestation, now: Instant)
    requires GrantFor(grant, adj.resultId)
    ensures CanonicalBytes(Built(adjustmentId, adj, grantId, grant, now)).Ok? <==> ReasonCode(adj.reason)
  {
    hide TimestampText, UuidText, Base64Text, IntText, CreditCanonical, ReasonCode, MagnitudeText;
    MagnitudeCanonical(adj.micros);
    SignableExactlyWhenAdmitted(Built(adjustmentId, adj, grantId, grant, now));
  }

  /** A revocation row says what its adjustment says, about a grant that is in the table. */
  ghost predicate Faithful(adjustments: Adjustments, rows: Rows, a: Attestation)
    requires a.adjustmentId.Some?
  {
    && a.adjustmentId.value in adjustments
    && var adj := adjustments[a.adjustmentId.value];
    && a.validationOutcome == OUTCOME_REVOKED && a.schemaVersion == SCHEMA_VERSION_V2
    && a.resultId == Some(adj.resultId) && a.reason == Some(adj.reason)
    && a.creditAmountCanonical == MagnitudeText(adj.micros)
    && a.revokesAttestationId.Some? && a.revokesAttestationId.value in rows
    && var grant := rows[a.revokesAttestationId.value];
    && GrantFor(grant, adj.resultId)
    && a.leafId == grant.leafId && a.workUnitId == grant.workUnitId && a.volunteerPublicKey == grant.volunteerPublicKey
  }

  ghost predicate RevocationsFaithful(adjustments: Adjustments, rows: Rows) {
    forall id :: id in rows && rows[id].adjustmentId.Some? ==> Faithful(adjustments, rows, rows[id])
  }

  // ---- what is still to be emitted ----------------------------------------------------

  ghost function Pending(adjustments: Adjustments, rows: Rows): set<Uuid> {
    set id | id in adjustments && HasGrant(rows, adjustments[id].resultId) && !HasRevocation(rows, id)
  }

  /** What the query may return: the oldest hundred, ties in any order. */
  ghost predicate IsBatch(created: Uuid -> int, pending: set<Uuid>, batch: set<Uuid>) {
    && batch <= pending
    && |batch| == (if |pending| < BATCH_LIMIT then |pending| else BATCH_LIMIT)
    && forall x, y :: x in batch && y in pending - batch ==> created(x) <= created(y)
  }

  datatype EmitError = NoSuchAdjustment | Unsignable(error: SignError) | Unavailable | Refused(outcome: InsertOutcome)

  class Emitter {
    var references: References
    var adjustments: Adjustments
    var rows: Rows

    ghost predicate Valid()
      reads this
    {
      IndexesHold(rows) && RevocationsFaithful(adjustments, rows) && AllReferencesMet(references, adjustments, rows)
    }

    /** Appends one attestation, or reports which constraint refused it. */
    method Create(id: Uuid, a: Attestation) returns (outcome: InsertOutcome)
      requires id !in rows && IndexesHold(rows) && AllReferencesMet(references, adjustments, rows)
      modifies this`rows
      ensures outcome == CreateResult(references, adjustments, old(rows), a)
      ensures rows == (if outcome == Inserted then old(rows)[id := a] else old(rows))
      ensures IndexesHold(rows) && AllReferencesMet(references, adjustments, rows)
    {
      if a.adjustmentId.Some? && exists x :: x in rows && rows[x].adjustmentId == a.adjustmentId {
        return DuplicateAdjustment;
      }
      if a.resultId.Some? && a.validationOutcome == OUTCOME_AGREED
         && exists x :: x in rows && rows[x].resultId == a.resultId && rows[x].validationOutcome == OUTCOME_AGREED {
        return DuplicateGrant;
      }
      if !ReferencesMet(references, adjustments, rows, a) {
        return MissingReference;
      }
      InsertKeepsIndexes(rows, id, a);
      rows := rows[id := a];
      outcome := Inserted;
    }

    /** The unique agreed grant, if the result has one. */
    method GetGrantByResultID(resultId: Uuid) returns (found: Option<Uuid>)
      ensures found.Some? <==>
        exists id :: id in rows && rows[id].resultId == Some(resultId)
                     && rows[id].validationOutcome == "AGREED" && rows[id].schemaVersion == 2
      ensures found.Some? <==> HasGrant(rows, resultId)
      ensures found.Some? ==> found.value in rows && GrantFor(rows[found.value], resultId)
    {
      if x :| x in rows && GrantFor(rows[x], resultId) {
        return Some(x);
      }
      found := None;
    }

    /**
     * Emission for one adjustment. `available` is whether the database takes the insert this time.
     * Success means the adjustment needs no further emission: it has its row, or no grant. The
     * insert is never refused but for the row being there: its references are those of the grant.
     */
    method EmitForAdjustment(adjustmentId: Uuid, newId: Uuid, now: Instant, available: bool)
      returns (r: Result<(), EmitError>)
      requires Valid() && newId !in rows
      modifies this`rows
      ensures Valid()
      ensures rows == old(rows) || (newId in rows && rows == old(rows)[newId := rows[newId]])
      ensures r.Err? ==> rows == old(rows) && !r.error.Refused?
      ensures adjustmentId !in adjustments ==> r == Err(NoSuchAdjustment)
      ensures adjustmentId in adjustments && !HasGrant(old(rows), adjustments[adjustmentId].resultId) ==>
        r.Ok? && rows == old(rows)
      ensures adjustmentId in adjustments && HasGrant(old(rows), adjustments[adjustmentId].resultId) ==>
        && (r.Ok? <==> available && ReasonCode(adjustments[adjustmentId].reason))
        && (r == Err(Unavailable) <==> !available && ReasonCode(adjustments[adjustmentId].reason))
      ensures HasRevocation(old(rows), adjustmentId) ==> rows == old(rows)
      ensures r.Ok? && adjustmentId in Pending(adjustments, old(rows)) ==>
        && newId in rows && rows[newId].adjustmentId == Some(adjustmentId) && rows[newId].attestationTimestamp == now
        && Pending(adjustments, rows) == Pending(adjustments, old(rows)) - {adjustmentId}
    {
      if adjustmentId !in adjustments {
        return Err(NoSuchAdjustment);
      }
      var adj := adjustments[adjustmentId];
      var grantId := GetGrantByResultID(adj.resultId);
      if grantId.None? {
        return Ok(());
      }
      var grant := rows[grantId.value];
      var att := Built(adjustmentId, adj, grantId.value, grant, now);
      BuiltSignable(adjustmentId, adj, grantId.value, grant, now);
      var bytes := CanonicalJSON(att);
      if bytes.Err? {
        return Err(Unsignable(bytes.error));
      }
      if !available {
        return Err(Unavailable);
      }
      ghost var before := rows;
      var outcome := Create(newId, att);
      r := Ok(());
      if outcome == DuplicateGrant || outcome == MissingReference {
        return Err(Refused(outcome));
      }
      if outcome == Inserted {
        AppendFaithful(adjustments, before, newId, att);
        PendingAfterEmission(adjustments, before, newId, att, adjustmentId);
      }
    }

    /**
     * One sweep over the ids the query returned, in order; a failing one is skipped. What is
     * pending afterwards is what was pending before, less the ids of the batch that did not fail.
     */
    method Reconcile(ids: seq<Uuid>, newIds: seq<Uuid>, now: Instant, down: set<Uuid>) returns (emitted: nat)
      requires Valid() && |newIds| == |ids|
      requires forall i :: 0 <= i < |ids| ==> ids[i] in Pending(adjustments, rows)
      requires forall i, j :: 0 <= i < j < |ids| ==> ids[i] != ids[j] && newIds[i] != newIds[j]
      requires forall i :: 0 <= i < |newIds| ==> newIds[i] !in rows
      modifies this`rows
      ensures Valid()
      ensures forall id :: id in old(rows) ==> id in rows && rows[id] == old(rows)[id]
      ensures Pending(adjustments, rows) == Pending(adjustments, old(rows)) - Succeeding(adjustments, ids, down)
      ensures emitted == |Succeeding(adjustments, ids, down)|
    {
      hide Valid, Pending, Succeeding, IndexesHold, RevocationsFaithful, AllReferencesMet, ReasonCode;
      emitted := 0;
      SucceedingNone(adjustments, ids, down);
      for i := 0 to |ids|
        invariant Valid()
        invariant forall id :: id in old(rows) ==> id in rows && rows[id] == old(rows)[id]
        invariant forall j :: i <= j < |newIds| ==> newIds[j] !in rows
        invariant Pending(adjustments, rows) ==
          Pending(adjustments, old(rows)) - Succeeding(adjustments, ids[..i], down)
        invariant emitted == |Succeeding(adjustments, ids[..i], down)|
      {
        SucceedingNext(adjustments, ids, i, down);
        PendingKnown(adjustments, rows, ids[i]);
        var r := EmitForAdjustment(ids[i], newIds[i], now, ids[i] !in down);
        if r.Ok? {
          emitted := emitted + 1;
        }
      }
      assert ids[..|ids|] == ids;
    }
  }

  ghost function Succeeding(adjustments: Adjustments, ids: seq<Uuid>, down: set<Uuid>): set<Uuid> {
    set id | id in ids && id in adjustments && id !in down && ReasonCode(adjustments[id].reason)
  }

  lemma SucceedingNone(adjustments: Adjustments, ids: seq<Uuid>, down: set<Uuid>)
    ensures Succeeding(adjustments, ids[..0], down) == {}
  {
  }

  lemma SucceedingNext(adjustments: Adjustments, ids: seq<Uuid>, i: nat, down: set<Uuid>)
    requires i < |ids| && forall j :: 0 <= j < i ==> ids[j] != ids[i]
    ensures ids[i] !in Succeeding(adjustments, ids[..i], down)
    ensures Succeeding(adjustments, ids[..i + 1], down) ==
      Succeeding(adjustments, ids[..i], down)
      + (if ids[i] in adjustments && ids[i] !in down && ReasonCode(adjustments[ids[i]].reason) then {ids[i]} else {})
  {
    assert ids[..i + 1] == ids[..i] + [ids[i]];
  }

  lemma PendingKnown(adjustments: Adjustments, rows: Rows, id: Uuid)
    requires id in Pending(adjustments, rows)
    ensures id in adjustments
  {
  }

  lemma AppendFaithful(adjustments: Adjustments, rows: Rows, id: Uuid, a: Attestation)
    requires RevocationsFaithful(adjustments, rows) && id !in rows
    requires a.adjustmentId.Some? && Faithful(adjustments, rows, a)
    ensures RevocationsFaithful(adjustments, rows[id := a])
  {
  }

  /** Appending one adjustment's revocation takes that adjustment, and no other, off the list. */
  lemma PendingAfterEmission(adjustments: Adjustments, rows: Rows, newId: Uuid, a: Attestation, adjustmentId: Uuid)
    requires newId !in rows && a.adjustmentId == Some(adjustmentId) && a.validationOutcome == OUTCOME_REVOKED
    ensures Pending(adjustments, rows[newId := a]) == Pending(adjustments, rows) - {adjustmentId}
  {
    var after := rows[newId := a];
    forall id | id in adjustments
      ensures HasGrant(after, adjustments[id].resultId) <==> HasGrant(rows, adjustments[id].resultId)
      ensures HasRevocation(after, id) <==> HasRevocation(rows, id) || id == adjustmentId
    {
      if x :| x in rows && GrantFor(rows[x], adjustments[id].resultId) {
        assert after[x] == rows[x];
      }
      if x :| x in rows && rows[x].adjustmentId == Some(id) {
        assert after[x] == rows[x];
      }
      if id == adjustmentId {
        assert after[newId].adjustmentId == Some(id);
      }
    }
  }
}
