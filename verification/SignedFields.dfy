/** What a third party reads back from signed bytes: each form's keys, and under each key that key's own field. */
module SignedFields {
  import opened Formats
  import opened Results
  import opened Signer
  import J = Json

  // ---- reading a printed object -------------------------------------------------------

  /** `a` comes before `b` by the characters at `k`, the first place where they differ. */
  ghost predicate Before(a: string, b: string, k: nat) {
    && k <= |a| && k < |b| && a[..k] == b[..k] && (k == |a| || a[k] < b[k])
  }

  ghost predicate TextLess(a: string, b: string) { exists k: nat :: Before(a, b, k) }

  lemma TextLessBy(a: string, b: string, k: nat)
    requires Before(a, b, k)
    ensures TextLess(a, b)
  {
  }

  lemma TextLessTransitive(a: string, b: string, c: string)
    requires TextLess(a, b) && TextLess(b, c)
    ensures TextLess(a, c)
  {
    var j: nat :| Before(a, b, j);
    var k: nat :| Before(b, c, k);
    var m: nat := if j < k then j else k;
    assert a[..m] == a[..j][..m] == b[..j][..m] == b[..m];
    assert b[..m] == b[..k][..m] == c[..k][..m] == c[..m];
    assert j < k ==> b[j] == b[..k][j] == c[..k][j] == c[j];
    assert k < j ==> a[k] == a[..j][k] == b[..j][k] == b[k];
    assert Before(a, c, m);
  }

  lemma TextNotLess(a: string)
    ensures !TextLess(a, a)
  {
  }

  ghost predicate KeysAscend(pairs: seq<J.Pair>) {
    forall i, j :: 0 <= i < j < |pairs| ==> TextLess(pairs[i].key, pairs[j].key)
  }

  lemma {:induction false} AdjacentAscend(pairs: seq<J.Pair>, i: nat, j: nat)
    requires forall k :: 0 <= k < |pairs| - 1 ==> TextLess(pairs[k].key, pairs[k + 1].key)
    requires i < j < |pairs|
    ensures TextLess(pairs[i].key, pairs[j].key)
    decreases j
  {
    if i + 1 < j {
      AdjacentAscend(pairs, i, j - 1);
      TextLessTransitive(pairs[i].key, pairs[j - 1].key, pairs[j].key);
    }
  }

  lemma NeighboursAscend(pairs: seq<J.Pair>)
    requires forall k :: 0 <= k < |pairs| - 1 ==> TextLess(pairs[k].key, pairs[k + 1].key)
    ensures KeysAscend(pairs)
  {
    hide TextLess;
    forall i, j | 0 <= i < j < |pairs| ensures TextLess(pairs[i].key, pairs[j].key) {
      AdjacentAscend(pairs, i, j);
    }
  }

  /** The value under a key. */
  function Lookup(pairs: seq<J.Pair>, key: string): Option<J.Value> {
    if pairs == [] then None
    else if pairs[0].key == key then Some(pairs[0].value)
    else Lookup(pairs[1..], key)
  }

  lemma {:induction false} LookupAt(pairs: seq<J.Pair>, i: nat)
    requires KeysAscend(pairs) && i < |pairs|
    ensures Lookup(pairs, pairs[i].key) == Some(pairs[i].value)
    decreases |pairs|
  {
    hide TextLess;
    if i > 0 {
      TextNotLess(pairs[0].key);
      assert forall k :: 0 <= k < |pairs| - 1 ==> pairs[1..][k] == pairs[k + 1];
      LookupAt(pairs[1..], i - 1);
    }
  }

  // ---- what each form says ------------------------------------------------------------

  ghost predicate Texts(p: seq<J.Pair>, key: string, text: string) { Lookup(p, key) == Some(J.Str(text)) }

  ghost predicate Counts(p: seq<J.Pair>, key: string, n: int) { Lookup(p, key) == Some(J.Number(IntText(n))) }

  ghost predicate SaysV1(p: seq<J.Pair>, a: Attestation) {
    && KeysAscend(p) && |p| == 6
    && Texts(p, "attestation_timestamp", TimestampText(a.attestationTimestamp))
    && a.creditAmount.Finite? && Lookup(p, "credit_amount") == Some(J.Number(a.creditAmount.token))
    && Texts(p, "leaf_id", UuidText(a.leafId))
    && Texts(p, "validation_outcome", a.validationOutcome)
    && Texts(p, "volunteer_public_key", Base64Text(a.volunteerPublicKey))
    && Texts(p, "work_unit_id", UuidText(a.workUnitId))
  }

  ghost predicate SaysQuorum(p: seq<J.Pair>, d: QuorumDescriptor) {
    && KeysAscend(p) && |p| == 8
    && Counts(p, "audit_rate_ppm", d.auditRatePpm)
    && Counts(p, "group_size", d.groupSize)
    && Counts(p, "min_quorum", d.minQuorum)
    && Counts(p, "min_trusted_corroborators", d.minTrustedCorroborators)
    && Counts(p, "pending_size", d.pendingSize)
    && Counts(p, "target_copies", d.targetCopies)
    && Counts(p, "trust_floor", d.trustFloor)
    && Counts(p, "trusted_corroborators", d.trustedCorroborators)
  }

  ghost predicate SaysGrant(p: seq<J.Pair>, a: Attestation) {
    && a.resultId.Some? && a.outputChecksum.Some? && a.quorumDescriptor.Some? && a.policyVersion.Some?
    && KeysAscend(p) && |p| == 12
    && Texts(p, "attestation_timestamp", TimestampText(a.attestationTimestamp))
    && Texts(p, "context", "lettuce/credit-attestation/v2")
    && Texts(p, "credit_amount", a.creditAmountCanonical)
    && Texts(p, "leaf_id", UuidText(a.leafId))
    && Texts(p, "output_checksum", a.outputChecksum.value)
    && Counts(p, "policy_version", a.policyVersion.value)
    && (var q := Lookup(p, "quorum_descriptor");
        q.Some? && q.value.Object? && SaysQuorum(q.value.pairs, a.quorumDescriptor.value))
    && Texts(p, "result_id", UuidText(a.resultId.value))
    && Counts(p, "schema_version", a.schemaVersion)
    && Texts(p, "validation_outcome", a.validationOutcome)
    && Texts(p, "volunteer_public_key", Base64Text(a.volunteerPublicKey))
    && Texts(p, "work_unit_id", UuidText(a.workUnitId))
  }

  ghost predicate SaysRevocation(p: seq<J.Pair>, a: Attestation) {
    && a.resultId.Some? && a.revokesAttestationId.Some? && a.adjustmentId.Some? && a.reason.Some?
    && KeysAscend(p) && |p| == 11
    && Texts(p, "adjustment_id", UuidText(a.adjustmentId.value))
    && Texts(p, "attestation_timestamp", TimestampText(a.attestationTimestamp))
    && Texts(p, "context", "lettuce/credit-attestation-revocation/v2")
    && Texts(p, "credit_amount", a.creditAmountCanonical)
    && Texts(p, "leaf_id", UuidText(a.leafId))
    && Texts(p, "reason", a.reason.value)
    && Texts(p, "result_id", UuidText(a.resultId.value))
    && Texts(p, "revokes_attestation_id", UuidText(a.revokesAttestationId.value))
    && Counts(p, "schema_version", a.schemaVersion)
    && Texts(p, "volunteer_public_key", Base64Text(a.volunteerPublicKey))
    && Texts(p, "work_unit_id", UuidText(a.workUnitId))
  }

  // ---- key order ----------------------------------------------------------------------

  lemma SharedOrder()
    ensures TextLess("attestation_timestamp", "credit_amount") && TextLess("attestation_timestamp", "context")
    ensures TextLess("context", "credit_amount") && TextLess("credit_amount", "leaf_id")
  {
    TextLessBy("attestation_timestamp", "credit_amount", 0);
    TextLessBy("attestation_timestamp", "context", 0);
    TextLessBy("context", "credit_amount", 1);
    TextLessBy("credit_amount", "leaf_id", 0);
  }

  lemma LastOrder()
    ensures TextLess("leaf_id", "validation_outcome") && TextLess("validation_outcome", "volunteer_public_key")
    ensures TextLess("volunteer_public_key", "work_unit_id")
  {
    TextLessBy("leaf_id", "validation_outcome", 0);
    TextLessBy("validation_outcome", "volunteer_public_key", 1);
    TextLessBy("volunteer_public_key", "work_unit_id", 0);
  }

  lemma GrantOrder()
    ensures TextLess("leaf_id", "output_checksum") && TextLess("output_checksum", "policy_version")
    ensures TextLess("policy_version", "quorum_descriptor") && TextLess("quorum_descriptor", "result_id")
    ensures TextLess("result_id", "schema_version") && TextLess("schema_version", "validation_outcome")
  {
    TextLessBy("leaf_id", "output_checksum", 0);
    TextLessBy("output_checksum", "policy_version", 0);
    TextLessBy("policy_version", "quorum_descriptor", 0);
    TextLessBy("quorum_descriptor", "result_id", 0);
    TextLessBy("result_id", "schema_version", 0);
    TextLessBy("schema_version", "validation_outcome", 0);
  }

  lemma RevocationOrder()
    ensures TextLess("adjustment_id", "attestation_timestamp") && TextLess("leaf_id", "reason")
    ensures TextLess("reason", "result_id") && TextLess("result_id", "revokes_attestation_id")
    ensures TextLess("revokes_attestation_id", "schema_version") && TextLess("schema_version", "volunteer_public_key")
  {
    TextLessBy("adjustment_id", "attestation_timestamp", 1);
    TextLessBy("leaf_id", "reason", 0);
    TextLessBy("reason", "result_id", 2);
    TextLessBy("result_id", "revokes_attestation_id", 2);
    TextLessBy("revokes_attestation_id", "schema_version", 0);
    TextLessBy("schema_version", "volunteer_public_key", 0);
  }

  lemma QuorumOrder()
    ensures TextLess("audit_rate_ppm", "group_size") && TextLess("group_size", "min_quorum")
    ensures TextLess("min_quorum", "min_trusted_corroborators")
    ensures TextLess("min_trusted_corroborators", "pending_size")
  {
    TextLessBy("audit_rate_ppm", "group_size", 0);
    TextLessBy("group_size", "min_quorum", 0);
    TextLessBy("min_quorum", "min_trusted_corroborators", 4);
    TextLessBy("min_trusted_corroborators", "pending_size", 0);
  }

  lemma TrustOrder()
    ensures TextLess("pending_size", "target_copies") && TextLess("target_copies", "trust_floor")
    ensures TextLess("trust_floor", "trusted_corroborators")
  {
    TextLessBy("pending_size", "target_copies", 0);
    TextLessBy("target_copies", "trust_floor", 1);
    TextLessBy("trust_floor", "trusted_corroborators", 5);
  }

  // ---- the lists say it ---------------------------------------------------------------

  lemma V1Says(a: Attestation)
    requires a.creditAmount.Finite?
    ensures SaysV1(CanonicalV1(a), a)
  {
    hide TextLess, TimestampText, UuidText, Base64Text, KeysAscend, Lookup;
    var p := CanonicalV1(a);
    SharedOrder();
    LastOrder();
    NeighboursAscend(p);
    LookupAt(p, 0); LookupAt(p, 1); LookupAt(p, 2); LookupAt(p, 3); LookupAt(p, 4); LookupAt(p, 5);
  }

  lemma QuorumSays(d: QuorumDescriptor)
    ensures SaysQuorum(DescriptorKV(d), d)
  {
    hide TextLess, IntText, KeysAscend, Lookup;
    var p := DescriptorKV(d);
    QuorumOrder();
    TrustOrder();
    NeighboursAscend(p);
    LookupAt(p, 0); LookupAt(p, 1); LookupAt(p, 2); LookupAt(p, 3);
    LookupAt(p, 4); LookupAt(p, 5); LookupAt(p, 6); LookupAt(p, 7);
  }

  lemma GrantSays(a: Attestation)
    requires CanonicalV2Grant(a).Ok?
    ensures SaysGrant(GrantKV(a), a)
  {
    hide TextLess, TimestampText, UuidText, Base64Text, IntText, DescriptorKV, SaysQuorum, KeysAscend, Lookup;
    hide CreditCanonical, HexChecksum;
    var p := GrantKV(a);
    SharedOrder();
    LastOrder();
    GrantOrder();
    NeighboursAscend(p);
    QuorumSays(a.quorumDescriptor.value);
    LookupAt(p, 0); LookupAt(p, 1); LookupAt(p, 2); LookupAt(p, 3); LookupAt(p, 4); LookupAt(p, 5);
    LookupAt(p, 6); LookupAt(p, 7); LookupAt(p, 8); LookupAt(p, 9); LookupAt(p, 10); LookupAt(p, 11);
  }

  lemma RevocationSays(a: Attestation)
    requires CanonicalV2Revocation(a).Ok?
    ensures SaysRevocation(RevocationKV(a), a)
  {
    hide TextLess, TimestampText, UuidText, Base64Text, IntText, KeysAscend, Lookup;
    hide CreditCanonical, ReasonCode;
    var p := RevocationKV(a);
    SharedOrder();
    LastOrder();
    RevocationOrder();
    NeighboursAscend(p);
    LookupAt(p, 0); LookupAt(p, 1); LookupAt(p, 2); LookupAt(p, 3); LookupAt(p, 4); LookupAt(p, 5);
    LookupAt(p, 6); LookupAt(p, 7); LookupAt(p, 8); LookupAt(p, 9); LookupAt(p, 10);
  }

  /**
   * Whoever parses the signed bytes finds the keys of the form that the version and the outcome select,
   * in strictly ascending order and no others, and under each key the text of that key's own field.
   */
  lemma SignedBytesSay(a: Attestation)
    requires CanonicalBytes(a).Ok?
    ensures var p := J.Parse(CanonicalBytes(a).value);
      p.Some? &&
      if a.schemaVersion <= 1 then SaysV1(p.value, a)
      else if a.validationOutcome == "REVOKED" then SaysRevocation(p.value, a)
      else SaysGrant(p.value, a)
  {
    hide J.Parse, J.Marshal, J.AllMarshalable, SaysV1, SaysGrant, SaysRevocation, CanonicalV1, GrantKV, RevocationKV;
    J.ParseMarshal(CanonicalList(a).value);
    if a.schemaVersion <= 1 {
      V1Marshalable(a);
      V1Says(a);
    } else if a.validationOutcome == "REVOKED" {
      RevocationSays(a);
    } else {
      GrantSays(a);
    }
  }

  // ---- what is refused ----------------------------------------------------------------

  /** Decimal digits, a point and six more, with an optional sign: `^-?[0-9]+\.[0-9]{6}$`. */
  ghost predicate IsSixPlaces(s: string) {
    exists whole: string, cents: string :: IsAmount(s, whole, cents)
  }

  ghost predicate IsAmount(s: string, whole: string, cents: string) {
    && (s == whole + "." + cents || s == "-" + (whole + "." + cents))
    && whole != "" && |cents| == 6
    && (forall c :: c in whole || c in cents ==> '0' <= c <= '9')
  }

  lemma AmountParts(s: string) returns (whole: string, cents: string)
    requires CreditCanonical(s)
    ensures IsAmount(s, whole, cents)
  {
    var t := if s != "" && s[0] == '-' then s[1..] else s;
    whole, cents := t[..|t| - 7], t[|t| - 6..];
    assert t == whole + "." + cents;
  }

  lemma AmountIsCanonical(s: string, whole: string, cents: string)
    requires IsAmount(s, whole, cents)
    ensures CreditCanonical(s)
  {
    var t := whole + "." + cents;
    assert whole[0] in whole && t[0] == whole[0];
    AreDigits(whole);
    AreDigits(cents);
    assert t[..|t| - 7] == whole && t[|t| - 6..] == cents && t[|t| - 7] == '.';
    hide AllDigits;
    if s != t { assert s[0] == '-' && s[1..] == t; }
  }

  lemma AreDigits(s: string)
    requires forall c :: c in s ==> '0' <= c <= '9'
    ensures AllDigits(s)
  {
    assert forall i :: 0 <= i < |s| ==> s[i] in s;
  }

  lemma CreditCanonicalMeans(s: string)
    ensures CreditCanonical(s) <==> IsSixPlaces(s)
  {
    hide CreditCanonical, IsAmount;
    if CreditCanonical(s) {
      var whole, cents := AmountParts(s);
    }
    if whole: string, cents: string :| IsAmount(s, whole, cents) {
      AmountIsCanonical(s, whole, cents);
    }
  }

  /**
   * A version 2 attestation is refused for a missing field first, then for its amount, then for its
   * checksum or reason; a version 1 attestation only for an amount with no JSON form.
   */
  lemma RefusedExactlyWhen(a: Attestation)
    ensures var r := CanonicalBytes(a);
      if a.schemaVersion <= 1 then r.Ok? <==> a.creditAmount.Finite?
      else if a.validationOutcome == "REVOKED" then
        var complete := a.resultId.Some? && a.revokesAttestationId.Some? && a.adjustmentId.Some? && a.reason.Some?;
        && (r == Err(MissingFields) <==> !complete)
        && (r == Err(BadCredit) <==> complete && !IsSixPlaces(a.creditAmountCanonical))
        && (r == Err(BadReason) <==>
              complete && IsSixPlaces(a.creditAmountCanonical) && !IsReasonCode(a.reason.value))
        && (r.Ok? <==> complete && IsSixPlaces(a.creditAmountCanonical) && IsReasonCode(a.reason.value))
      else
        var complete :=
          a.resultId.Some? && a.outputChecksum.Some? && a.quorumDescriptor.Some? && a.policyVersion.Some?;
        && (r == Err(MissingFields) <==> !complete)
        && (r == Err(BadCredit) <==> complete && !IsSixPlaces(a.creditAmountCanonical))
        && (r == Err(BadChecksum) <==>
              complete && IsSixPlaces(a.creditAmountCanonical) && !IsLowerHex64(a.outputChecksum.value))
        && (r.Ok? <==> complete && IsSixPlaces(a.creditAmountCanonical) && IsLowerHex64(a.outputChecksum.value))
  {
    hide J.Marshal, J.AllMarshalable, CanonicalV1, GrantKV, RevocationKV, CreditCanonical, IsSixPlaces;
    hide ReasonCode, HexChecksum, IsReasonCode, IsLowerHex64;
    CreditCanonicalMeans(a.creditAmountCanonical);
    if a.reason.Some? { CodesMean(a.reason.value); }
    if a.outputChecksum.Some? { CodesMean(a.outputChecksum.value); }
    SignableExactlyWhenAdmitted(a);
  }

  /** One to 64 capitals, digits and underscores: `^[A-Z0-9_]{1,64}$`. */
  predicate IsReasonCode(s: string) {
    0 < |s| < 65 && forall c :: c in s ==> 'A' <= c <= 'Z' || '0' <= c <= '9' || c == '_'
  }

  /** Nothing, or 64 lower-case hexadecimal characters: `^(?:[0-9a-f]{64})?$`. */
  predicate IsLowerHex64(s: string) {
    s == "" || (|s| == 64 && forall c :: c in s ==> '0' <= c <= '9' || 'a' <= c <= 'f')
  }

  lemma CodesMean(s: string)
    ensures ReasonCode(s) <==> IsReasonCode(s)
    ensures HexChecksum(s) <==> IsLowerHex64(s)
  {
    assert forall i :: 0 <= i < |s| ==> s[i] in s;
  }
}
