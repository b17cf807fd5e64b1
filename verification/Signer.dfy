/**
 * Which bytes a credit attestation is signed over: the frozen six-field form of version 1, and
 * the grant and revocation forms of version 2, each with its own admission checks.
 */
module Signer {
  import opened Digits
  import opened Formats
  import opened Results
  import J = Json

  const SCHEMA_VERSION_V1 := 1
  const OUTCOME_REVOKED := "REVOKED"
  const CONTEXT_GRANT_V2 := "lettuce/credit-attestation/v2"
  const CONTEXT_REVOCATION_V2 := "lettuce/credit-attestation-revocation/v2"

  datatype QuorumDescriptor = QuorumDescriptor(
    auditRatePpm: int, groupSize: int, minQuorum: int, minTrustedCorroborators: int,
    pendingSize: int, targetCopies: int, trustFloor: int, trustedCorroborators: int)

  /** A float64 as the encoder sees it: the JSON number it prints as, or no JSON form at all. */
  datatype Float = Finite(token: J.NumberToken) | NotFinite

  datatype Attestation = Attestation(
    schemaVersion: int,
    leafId: Uuid,
    volunteerPublicKey: seq<Byte>,
    workUnitId: Uuid,
    resultId: Option<Uuid>,
    outputChecksum: Option<string>,
    quorumDescriptor: Option<QuorumDescriptor>,
    policyVersion: Option<int>,
    revokesAttestationId: Option<Uuid>,
    adjustmentId: Option<Uuid>,
    reason: Option<string>,
    validationOutcome: string,
    creditAmount: Float,
    creditAmountCanonical: string,
    attestationTimestamp: Instant,
    signature: seq<Byte>)

  datatype SignError = MissingFields | BadCredit | BadChecksum | BadReason | NotMarshalable

  // ---- admission checks ---------------------------------------------------------------

  predicate IsDigit(c: char) { '0' <= c <= '9' }

  predicate AllDigits(s: string) { forall i :: 0 <= i < |s| ==> IsDigit(s[i]) }

  /** An optional minus sign, at least one digit, a point and exactly six digits. */
  predicate CreditCanonical(s: string) {
    var t := if s != "" && s[0] == '-' then s[1..] else s;
    |t| >= 8 && AllDigits(t[..|t| - 7]) && t[|t| - 7] == '.' && AllDigits(t[|t| - 6..])
  }

  predicate ReasonCode(s: string) {
    1 <= |s| <= 64 && forall i :: 0 <= i < |s| ==> 'A' <= s[i] <= 'Z' || IsDigit(s[i]) || s[i] == '_'
  }

  predicate HexChecksum(s: string) {
    s == "" || (|s| == 64 && forall i :: 0 <= i < 64 ==> IsDigit(s[i]) || 'a' <= s[i] <= 'f')
  }

  // ---- the signed lists ---------------------------------------------------------------

  function Text(key: string, s: string): J.Pair { J.Pair(key, J.Str(s)) }

  function Integer(key: string, n: int): J.Pair { J.Pair(key, J.Number(IntText(n))) }

  function CanonicalV1(a: Attestation): seq<J.Pair> {
    [ Text("attestation_timestamp", TimestampText(a.attestationTimestamp)),
      J.Pair("credit_amount", match a.creditAmount case Finite(t) => J.Number(t) case NotFinite => J.Unsupported),
      Text("leaf_id", UuidText(a.leafId)),
      Text("validation_outcome", a.validationOutcome),
      Text("volunteer_public_key", Base64Text(a.volunteerPublicKey)),
      Text("work_unit_id", UuidText(a.workUnitId)) ]
  }

  function DescriptorKV(d: QuorumDescriptor): seq<J.Pair> {
    [ Integer("audit_rate_ppm", d.auditRatePpm),
      Integer("group_size", d.groupSize),
      Integer("min_quorum", d.minQuorum),
      Integer("min_trusted_corroborators", d.minTrustedCorroborators),
      Integer("pending_size", d.pendingSize),
      Integer("target_copies", d.targetCopies),
      Integer("trust_floor", d.trustFloor),
      Integer("trusted_corroborators", d.trustedCorroborators) ]
  }

  function GrantKV(a: Attestation): seq<J.Pair>
    requires a.resultId.Some? && a.outputChecksum.Some? && a.quorumDescriptor.Some? && a.policyVersion.Some?
  {
    [ Text("attestation_timestamp", TimestampText(a.attestationTimestamp)),
      Text("context", CONTEXT_GRANT_V2),
      Text("credit_amount", a.creditAmountCanonical),
      Text("leaf_id", UuidText(a.leafId)),
      Text("output_checksum", a.outputChecksum.value),
      Integer("policy_version", a.policyVersion.value),
      J.Pair("quorum_descriptor", J.Object(DescriptorKV(a.quorumDescriptor.value))),
      Text("result_id", UuidText(a.resultId.value)),
      Integer("schema_version", a.schemaVersion),
      Text("validation_outcome", a.validationOutcome),
      Text("volunteer_public_key", Base64Text(a.volunteerPublicKey)),
      Text("work_unit_id", UuidText(a.workUnitId)) ]
  }

  function RevocationKV(a: Attestation): seq<J.Pair>
    requires a.resultId.Some? && a.revokesAttestationId.Some? && a.adjustmentId.Some? && a.reason.Some?
  {
    [ Text("adjustment_id", UuidText(a.adjustmentId.value)),
      Text("attestation_timestamp", TimestampText(a.attestationTimestamp)),
      Text("context", CONTEXT_REVOCATION_V2),
      Text("credit_amount", a.creditAmountCanonical),
      Text("leaf_id", UuidText(a.leafId)),
      Text("reason", a.reason.value),
      Text("result_id", UuidText(a.resultId.value)),
      Text("revokes_attestation_id", UuidText(a.revokesAttestationId.value)),
      Integer("schema_version", a.schemaVersion),
      Text("volunteer_public_key", Base64Text(a.volunteerPublicKey)),
      Text("work_unit_id", UuidText(a.workUnitId)) ]
  }

  function CanonicalV2Grant(a: Attestation): Result<seq<J.Pair>, SignError> {
    if a.resultId.None? || a.outputChecksum.None? || a.quorumDescriptor.None? || a.policyVersion.None? then
      Err(MissingFields)
    else if !CreditCanonical(a.creditAmountCanonical) then Err(BadCredit)
    else if !HexChecksum(a.outputChecksum.value) then Err(BadChecksum)
    else Ok(GrantKV(a))
  }

  function CanonicalV2Revocation(a: Attestation): Result<seq<J.Pair>, SignError> {
    if a.resultId.None? || a.revokesAttestationId.None? || a.adjustmentId.None? || a.reason.None? then
      Err(MissingFields)
    else if !CreditCanonical(a.creditAmountCanonical) then Err(BadCredit)
    else if !ReasonCode(a.reason.value) then Err(BadReason)
    else Ok(RevocationKV(a))
  }

  datatype Kind = V1 | Grant | Revocation

  function KindOf(a: Attestation): Kind {
    if a.schemaVersion <= SCHEMA_VERSION_V1 then V1
    else if a.validationOutcome == OUTCOME_REVOKED then Revocation
    else Grant
  }

  function CanonicalList(a: Attestation): Result<seq<J.Pair>, SignError> {
    match KindOf(a)
    case V1 => Ok(CanonicalV1(a))
    case Revocation => CanonicalV2Revocation(a)
    case Grant => CanonicalV2Grant(a)
  }

  function CanonicalBytes(a: Attestation): Result<string, SignError> {
    match CanonicalList(a)
    case Err(e) => Err(e)
    case Ok(pairs) => if J.AllMarshalable(pairs) then Ok(J.Marshal(pairs)) else Err(NotMarshalable)
  }

  method CanonicalJSON(a: Attestation) returns (r: Result<string, SignError>)
    ensures r == CanonicalBytes(a)
  {
    var pairs := CanonicalList(a);
    if pairs.Err? {
      return Err(pairs.error);
    }
    var bytes := J.MarshalSortedKV(pairs.value);
    r := match bytes case Ok(b) => Ok(b) case Err(_) => Err(NotMarshalable);
  }

  // ---- what is signed -----------------------------------------------------------------

  /** The statement the head makes, field by field, times to the microsecond. */
  datatype Statement =
    | V1Statement(timestamp: Instant, credit: J.NumberToken, leafId: Uuid, outcome: string,
                  publicKey: seq<Byte>, workUnitId: Uuid)
    | GrantStatement(timestamp: Instant, creditText: string, leafId: Uuid, checksum: string, policyVersion: int,
                     quorum: QuorumDescriptor, resultId: Uuid, schemaVersion: int, outcome: string,
                     publicKey: seq<Byte>, workUnitId: Uuid)
    | RevocationStatement(adjustmentId: Uuid, timestamp: Instant, creditText: string, leafId: Uuid, reason: string,
                          resultId: Uuid, revokes: Uuid, schemaVersion: int, publicKey: seq<Byte>, workUnitId: Uuid)

  /** What the checks of the form let through, a version 1 float having to be finite. */
  ghost predicate Admitted(a: Attestation) {
    CanonicalList(a).Ok? && (KindOf(a) == V1 ==> a.creditAmount.Finite?)
  }

  ghost function StatementOf(a: Attestation): Statement
    requires Admitted(a)
  {
    var t := ToMicroseconds(a.attestationTimestamp);
    match KindOf(a)
    case V1 =>
      V1Statement(t, a.creditAmount.token, a.leafId, a.validationOutcome, a.volunteerPublicKey, a.workUnitId)
    case Grant =>
      GrantStatement(t, a.creditAmountCanonical, a.leafId, a.outputChecksum.value, a.policyVersion.value,
                     a.quorumDescriptor.value, a.resultId.value, a.schemaVersion, a.validationOutcome,
                     a.volunteerPublicKey, a.workUnitId)
    case Revocation =>
      RevocationStatement(a.adjustmentId.value, t, a.creditAmountCanonical, a.leafId, a.reason.value,
                          a.resultId.value, a.revokesAttestationId.value, a.schemaVersion,
                          a.volunteerPublicKey, a.workUnitId)
  }

  lemma DescriptorMarshalable(d: QuorumDescriptor)
    ensures J.AllMarshalable(DescriptorKV(d))
  {
    hide IntText;
    J.AllMarshalableEach(DescriptorKV(d));
  }

  lemma GrantMarshalable(a: Attestation)
    requires a.resultId.Some? && a.outputChecksum.Some? && a.quorumDescriptor.Some? && a.policyVersion.Some?
    ensures J.AllMarshalable(GrantKV(a))
  {
    hide TimestampText, UuidText, Base64Text, IntText, DescriptorKV, J.AllMarshalable;
    DescriptorMarshalable(a.quorumDescriptor.value);
    J.AllMarshalableEach(GrantKV(a));
  }

  lemma RevocationMarshalable(a: Attestation)
    requires a.resultId.Some? && a.revokesAttestationId.Some? && a.adjustmentId.Some? && a.reason.Some?
    ensures J.AllMarshalable(RevocationKV(a))
  {
    hide TimestampText, UuidText, Base64Text, IntText, J.AllMarshalable;
    J.AllMarshalableEach(RevocationKV(a));
  }

  lemma V1Marshalable(a: Attestation)
    ensures J.AllMarshalable(CanonicalV1(a)) <==> a.creditAmount.Finite?
  {
    hide TimestampText, UuidText, Base64Text, J.AllMarshalable;
    J.AllMarshalableEach(CanonicalV1(a));
    if a.creditAmount.NotFinite? {
      assert !J.Marshalable(CanonicalV1(a)[1].value);
    }
  }

  /** An attestation is refused by the checks of its form, or for a float with no JSON form, and never otherwise. */
  lemma SignableExactlyWhenAdmitted(a: Attestation)
    ensures CanonicalBytes(a).Ok? <==> Admitted(a)
    ensures Admitted(a) ==> J.AllMarshalable(CanonicalList(a).value)
  {
    hide CanonicalV1, GrantKV, RevocationKV, J.AllMarshalable, J.Marshal, CreditCanonical, HexChecksum, ReasonCode;
    if CanonicalList(a).Ok? {
      match KindOf(a)
      case V1 => V1Marshalable(a);
      case Grant => GrantMarshalable(a);
      case Revocation => RevocationMarshalable(a);
    }
  }

  // ---- the bytes determine the statement ----------------------------------------------

  lemma SameDescriptor(d: QuorumDescriptor, e: QuorumDescriptor)
    requires DescriptorKV(d) == DescriptorKV(e)
    ensures d == e
  {
    hide IntText;
    var x, y := DescriptorKV(d), DescriptorKV(e);
    SameInteger(x[0], y[0], d.auditRatePpm, e.auditRatePpm);
    SameInteger(x[1], y[1], d.groupSize, e.groupSize);
    SameInteger(x[2], y[2], d.minQuorum, e.minQuorum);
    SameInteger(x[3], y[3], d.minTrustedCorroborators, e.minTrustedCorroborators);
    SameInteger(x[4], y[4], d.pendingSize, e.pendingSize);
    SameInteger(x[5], y[5], d.targetCopies, e.targetCopies);
    SameInteger(x[6], y[6], d.trustFloor, e.trustFloor);
    SameInteger(x[7], y[7], d.trustedCorroborators, e.trustedCorroborators);
  }

  lemma SameInteger(p: J.Pair, q: J.Pair, m: int, n: int)
    requires p == q && p.value == J.Number(IntText(m)) && q.value == J.Number(IntText(n))
    ensures m == n
  {
    IntTextInjective(m, n);
  }

  lemma SameV1(a: Attestation, b: Attestation)
    requires Admitted(a) && Admitted(b) && KindOf(a) == V1 && KindOf(b) == V1
    requires CanonicalV1(a) == CanonicalV1(b)
    ensures StatementOf(a) == StatementOf(b)
  {
    hide TimestampText, UuidText, Base64Text;
    var x, y := CanonicalV1(a), CanonicalV1(b);
    assert x[0] == y[0] && x[1] == y[1] && x[2] == y[2] && x[4] == y[4] && x[5] == y[5];
    TimestampTextInjective(a.attestationTimestamp, b.attestationTimestamp);
    UuidTextInjective(a.leafId, b.leafId);
    assert x[3] == y[3];
    Base64TextInjective(a.volunteerPublicKey, b.volunteerPublicKey);
    UuidTextInjective(a.workUnitId, b.workUnitId);
  }

  lemma SameGrant(a: Attestation, b: Attestation)
    requires Admitted(a) && Admitted(b) && KindOf(a) == Grant && KindOf(b) == Grant
    requires GrantKV(a) == GrantKV(b)
    ensures StatementOf(a) == StatementOf(b)
  {
    hide TimestampText, UuidText, Base64Text, IntText, DescriptorKV;
    var x, y := GrantKV(a), GrantKV(b);
    assert x[0] == y[0] && x[2] == y[2] && x[3] == y[3] && x[4] == y[4] && x[6] == y[6];
    assert x[7] == y[7] && x[9] == y[9] && x[10] == y[10] && x[11] == y[11];
    TimestampTextInjective(a.attestationTimestamp, b.attestationTimestamp);
    UuidTextInjective(a.leafId, b.leafId);
    SameInteger(x[5], y[5], a.policyVersion.value, b.policyVersion.value);
    SameDescriptor(a.quorumDescriptor.value, b.quorumDescriptor.value);
    UuidTextInjective(a.resultId.value, b.resultId.value);
    SameInteger(x[8], y[8], a.schemaVersion, b.schemaVersion);
    Base64TextInjective(a.volunteerPublicKey, b.volunteerPublicKey);
    UuidTextInjective(a.workUnitId, b.workUnitId);
  }

  lemma SameRevocation(a: Attestation, b: Attestation)
    requires Admitted(a) && Admitted(b) && KindOf(a) == Revocation && KindOf(b) == Revocation
    requires RevocationKV(a) == RevocationKV(b)
    ensures StatementOf(a) == StatementOf(b)
  {
    hide TimestampText, UuidText, Base64Text, IntText;
    var x, y := RevocationKV(a), RevocationKV(b);
    assert x[0] == y[0] && x[1] == y[1] && x[3] == y[3] && x[4] == y[4] && x[5] == y[5];
    assert x[6] == y[6] && x[7] == y[7] && x[9] == y[9] && x[10] == y[10];
    UuidTextInjective(a.adjustmentId.value, b.adjustmentId.value);
    TimestampTextInjective(a.attestationTimestamp, b.attestationTimestamp);
    UuidTextInjective(a.leafId, b.leafId);
    UuidTextInjective(a.resultId.value, b.resultId.value);
    UuidTextInjective(a.revokesAttestationId.value, b.revokesAttestationId.value);
    SameInteger(x[8], y[8], a.schemaVersion, b.schemaVersion);
    Base64TextInjective(a.volunteerPublicKey, b.volunteerPublicKey);
    UuidTextInjective(a.workUnitId, b.workUnitId);
  }

  /** The context literal, or its absence, tells the three forms apart. */
  lemma ContextSeparates(a: Attestation, b: Attestation)
    requires CanonicalList(a).Ok? && CanonicalList(b).Ok?
    requires CanonicalList(a) == CanonicalList(b)
    ensures KindOf(a) == KindOf(b)
  {
    hide TimestampText, UuidText, Base64Text, IntText, DescriptorKV;
    var x, y := CanonicalList(a).value, CanonicalList(b).value;
    assert |x| == |y|;
  }

  lemma SameStatementSameList(a: Attestation, b: Attestation)
    requires Admitted(a) && Admitted(b) && StatementOf(a) == StatementOf(b)
    ensures CanonicalList(a) == CanonicalList(b)
  {
    hide TimestampText, UuidText, Base64Text, IntText, DescriptorKV, CreditCanonical, HexChecksum, ReasonCode;
    TimestampTextInjective(a.attestationTimestamp, b.attestationTimestamp);
  }

  /**
   * Two attestations that can be signed have the same signed bytes exactly when they make the
   * same statement: same form, same value in every signed field.
   */
  lemma BytesDetermineStatement(a: Attestation, b: Attestation)
    requires Admitted(a) && Admitted(b)
    ensures CanonicalBytes(a).Ok? && CanonicalBytes(b).Ok?
    ensures CanonicalBytes(a) == CanonicalBytes(b) <==> StatementOf(a) == StatementOf(b)
  {
    hide CanonicalV1, GrantKV, RevocationKV, J.AllMarshalable, J.Marshal;
    SignableExactlyWhenAdmitted(a);
    SignableExactlyWhenAdmitted(b);
    if CanonicalBytes(a) == CanonicalBytes(b) {
      J.MarshalInjective(CanonicalList(a).value, CanonicalList(b).value);
      ContextSeparates(a, b);
      match KindOf(a)
      case V1 => SameV1(a, b);
      case Grant => SameGrant(a, b);
      case Revocation => SameRevocation(a, b);
    }
    if StatementOf(a) == StatementOf(b) {
      SameStatementSameList(a, b);
    }
  }

  /** No bytes are signed under two forms. */
  lemma FormsDisjoint(a: Attestation, b: Attestation)
    requires Admitted(a) && Admitted(b) && KindOf(a) != KindOf(b)
    ensures CanonicalBytes(a).Ok? && CanonicalBytes(b).Ok? && CanonicalBytes(a) != CanonicalBytes(b)
  {
    BytesDetermineStatement(a, b);
  }
}
