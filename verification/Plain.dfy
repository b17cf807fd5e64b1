/** Text no JSON encoder has to escape: printable ASCII without quotes, backslashes and the HTML characters. */
module Plain {
  import opened Digits
  import opened Formats
  import Json

  predicate IsPlainChar(c: char) {
    0x20 <= c as int < 0x7F && c != '"' && c != '\\' && c != '<' && c != '>' && c != '&'
  }

  predicate IsPlain(s: string) { forall i :: 0 <= i < |s| ==> IsPlainChar(s[i]) }

  /** A plain string is printed as it is, between quotes. */
  lemma {:induction false} PlainIsPrintedAsIs(s: string)
    requires IsPlain(s)
    ensures Json.EscapeAll(s) == s
  {
    if s != "" {
      PlainIsPrintedAsIs(s[1..]);
      assert [s[0]] + s[1..] == s;
    }
  }

  lemma ClockIsPlain(t: Instant)
    ensures IsPlain(ClockText(t))
  {
    hide Padded;
  }

  lemma YearIsPlain(year: int)
    ensures IsPlain(YearText(year))
  {
    hide Padded, NatText;
  }

  lemma TimestampIsPlain(t: Instant)
    ensures IsPlain(TimestampText(t))
  {
    hide YearText, ClockText, IsPlainChar;
    YearIsPlain(t.year);
    ClockIsPlain(t);
  }

  lemma HexIsPlain(b: seq<Byte>)
    ensures IsPlain(HexText(b))
  {
    HexIsAlphabet();
  }

  lemma UuidIsPlain(id: Uuid)
    ensures IsPlain(UuidText(id))
  {
    hide HexText;
    HexIsPlain(id);
  }

  lemma Base64IsPlain(b: seq<Byte>)
    ensures IsPlain(Base64Text(b))
  {
    hide BASE64URL;
    Base64urlIsAlphabet();
    forall d: nat | d < 64 ensures |BASE64URL| == 64 && IsPlainChar(BASE64URL[d]) {
      Base64urlCode(d);
    }
  }
}

/** Which signed payloads hold only plain text, so that any encoder prints the same bytes. */
module PlainPayload {
  import opened Formats
  import opened Plain
  import opened Results
  import opened Signer
  import J = Json

  ghost predicate PlainValue(v: J.Value) {
    match v
    case Str(s) => IsPlain(s)
    case Object(pairs) => PlainValues(pairs)
    case _ => true
  }

  ghost predicate PlainValues(pairs: seq<J.Pair>) {
    forall i :: 0 <= i < |pairs| ==> PlainValue(pairs[i].value)
  }

  lemma ChecksArePlain(s: string)
    ensures CreditCanonical(s) || ReasonCode(s) || HexChecksum(s) ==> IsPlain(s)
  {
    if CreditCanonical(s) {
      var t := if s != "" && s[0] == '-' then s[1..] else s;
      forall i | 0 <= i < |t| ensures IsPlainChar(t[i]) {
        assert i < |t| - 7 ==> t[i] == t[..|t| - 7][i];
        assert i > |t| - 7 ==> t[i] == t[|t| - 6..][i - (|t| - 6)];
      }
      assert forall i :: 0 <= i < |s| ==> s[i] == '-' || s[i] in t;
    }
  }

  lemma DescriptorIsPlain(d: QuorumDescriptor)
    ensures PlainValues(DescriptorKV(d))
  {
    hide IntText;
  }

  lemma ContextsArePlain()
    ensures IsPlain(CONTEXT_GRANT_V2) && IsPlain(CONTEXT_REVOCATION_V2)
  {
  }

  lemma RevocationIsPlain(a: Attestation)
    requires CanonicalV2Revocation(a).Ok?
    ensures PlainValues(RevocationKV(a))
  {
    hide IntText, TimestampText, UuidText, Base64Text, CreditCanonical, ReasonCode, HexChecksum;
    TimestampIsPlain(a.attestationTimestamp);
    UuidIsPlain(a.adjustmentId.value);
    UuidIsPlain(a.leafId);
    UuidIsPlain(a.resultId.value);
    UuidIsPlain(a.revokesAttestationId.value);
    UuidIsPlain(a.workUnitId);
    Base64IsPlain(a.volunteerPublicKey);
    ChecksArePlain(a.creditAmountCanonical);
    ChecksArePlain(a.reason.value);
    ContextsArePlain();
    hide IsPlain;
  }

  lemma GrantIsPlain(a: Attestation)
    requires CanonicalV2Grant(a).Ok?
    ensures PlainValues(GrantKV(a)) <==> IsPlain(a.validationOutcome)
  {
    hide IntText, TimestampText, UuidText, Base64Text, CreditCanonical, ReasonCode, HexChecksum, DescriptorKV;
    TimestampIsPlain(a.attestationTimestamp);
    UuidIsPlain(a.leafId);
    UuidIsPlain(a.resultId.value);
    UuidIsPlain(a.workUnitId);
    Base64IsPlain(a.volunteerPublicKey);
    ChecksArePlain(a.creditAmountCanonical);
    ChecksArePlain(a.outputChecksum.value);
    DescriptorIsPlain(a.quorumDescriptor.value);
    ContextsArePlain();
    hide IsPlain;
    assert GrantKV(a)[9].value == J.Str(a.validationOutcome);
  }

  /**
   * Every string value of a version 2 payload is plain, as the form promises, exactly when it is a
   * revocation or its outcome, the one text the form does not check, is plain.
   */
  lemma PayloadIsPlainExactlyWhen(a: Attestation)
    requires Admitted(a) && KindOf(a) != V1
    ensures PlainValues(CanonicalList(a).value) <==> KindOf(a) == Revocation || IsPlain(a.validationOutcome)
  {
    hide PlainValues, GrantKV, RevocationKV;
    if KindOf(a) == Grant { GrantIsPlain(a); } else { RevocationIsPlain(a); }
  }

  // ---- what any encoder prints --------------------------------------------------------

  /** A list printed by an encoder that never escapes. */
  function Unescaped(pairs: seq<J.Pair>): string
    requires J.AllMarshalable(pairs)
    decreases pairs, 1
  {
    "{" + UnescapedMembers(pairs)
  }

  function UnescapedMembers(pairs: seq<J.Pair>): string
    requires J.AllMarshalable(pairs)
    decreases pairs, 0
  {
    if pairs == [] then "}"
    else
      "\"" + pairs[0].key + "\"" + ":" + UnescapedValue(pairs[0].value)
      + (if |pairs| == 1 then "" else ",") + UnescapedMembers(pairs[1..])
  }

  function UnescapedValue(v: J.Value): string
    requires J.Marshalable(v)
  {
    match v
    case Str(s) => "\"" + s + "\""
    case Number(t) => t
    case Object(pairs) => Unescaped(pairs)
  }

  ghost predicate PlainKeys(pairs: seq<J.Pair>)
    decreases pairs
  {
    forall i :: 0 <= i < |pairs| ==>
      IsPlain(pairs[i].key) && (pairs[i].value.Object? ==> PlainKeys(pairs[i].value.pairs))
  }

  lemma {:induction false} PlainMembersPrint(pairs: seq<J.Pair>)
    requires J.AllMarshalable(pairs) && PlainKeys(pairs) && PlainValues(pairs)
    ensures J.Members(pairs) == UnescapedMembers(pairs)
    decreases pairs
  {
    hide J.EscapeAll, IsPlain;
    if pairs != [] {
      PlainIsPrintedAsIs(pairs[0].key);
      PlainMembersPrint(pairs[1..]);
      match pairs[0].value {
        case Str(s) => PlainIsPrintedAsIs(s);
        case Object(inner) =>
          PlainMembersPrint(inner);
          assert J.Marshal(inner) == Unescaped(inner);
        case _ =>
      }
      assert J.Print(pairs[0].value) == UnescapedValue(pairs[0].value);
    }
  }

  lemma SharedKeys()
    ensures IsPlain("attestation_timestamp") && IsPlain("context") && IsPlain("credit_amount") && IsPlain("leaf_id")
  {
  }

  lemma MoreSharedKeys()
    ensures IsPlain("result_id") && IsPlain("schema_version")
    ensures IsPlain("volunteer_public_key") && IsPlain("work_unit_id")
  {
  }

  lemma GrantKeys()
    ensures IsPlain("output_checksum") && IsPlain("policy_version") && IsPlain("quorum_descriptor")
    ensures IsPlain("validation_outcome")
  {
  }

  lemma RevocationKeys()
    ensures IsPlain("adjustment_id") && IsPlain("reason") && IsPlain("revokes_attestation_id")
  {
  }

  lemma QuorumKeys()
    ensures IsPlain("audit_rate_ppm") && IsPlain("group_size") && IsPlain("min_quorum") && IsPlain("pending_size")
  {
  }

  lemma TrustKeys()
    ensures IsPlain("target_copies") && IsPlain("trust_floor") && IsPlain("trusted_corroborators")
  {
  }

  lemma LongestKey()
    ensures IsPlain("min_trusted_corroborators")
  {
  }

  lemma PayloadKeys(a: Attestation)
    requires CanonicalList(a).Ok? && KindOf(a) != V1
    ensures PlainKeys(CanonicalList(a).value)
  {
    hide IsPlain, IntText, TimestampText, UuidText, Base64Text, CreditCanonical, ReasonCode, HexChecksum;
    SharedKeys();
    MoreSharedKeys();
    GrantKeys();
    RevocationKeys();
    if KindOf(a) == Grant { DescriptorKeys(a.quorumDescriptor.value); }
    hide DescriptorKV;
  }

  lemma DescriptorKeys(d: QuorumDescriptor)
    ensures PlainKeys(DescriptorKV(d))
  {
    hide IsPlain, IntText;
    QuorumKeys();
    TrustKeys();
    LongestKey();
  }

  /**
   * The signed bytes of a plain version 2 payload are what an encoder that never escapes prints, so
   * no serializer's escaping rules can make them differ.
   */
  lemma PlainBytesNeedNoEscape(a: Attestation)
    requires Admitted(a) && KindOf(a) != V1 && (KindOf(a) == Revocation || IsPlain(a.validationOutcome))
    ensures J.AllMarshalable(CanonicalList(a).value)
    ensures CanonicalBytes(a) == Ok(Unescaped(CanonicalList(a).value))
  {
    hide PlainValues, PlainKeys, GrantKV, RevocationKV, IsPlain, J.Members, UnescapedMembers;
    SignableExactlyWhenAdmitted(a);
    PayloadIsPlainExactlyWhen(a);
    PayloadKeys(a);
    PlainMembersPrint(CanonicalList(a).value);
  }

  /** The outcomes the attestation table's constraint lets a version 2 row carry. */
  predicate Storable(outcome: string) { outcome == "AGREED" || outcome == "DISAGREED" || outcome == OUTCOME_REVOKED }

  /** So the promise holds of every version 2 attestation that can be stored. */
  lemma StoredBytesNeedNoEscape(a: Attestation)
    requires Admitted(a) && KindOf(a) != V1 && Storable(a.validationOutcome)
    ensures J.AllMarshalable(CanonicalList(a).value)
    ensures CanonicalBytes(a) == Ok(Unescaped(CanonicalList(a).value))
  {
    hide CanonicalList, CanonicalBytes;
    assert IsPlain("AGREED") && IsPlain("DISAGREED") && IsPlain("REVOKED");
    PlainBytesNeedNoEscape(a);
  }

  /** A grant with nothing in it but an outcome that has to be escaped. */
  function OddGrant(): Attestation {
    var id: Uuid := seq(16, _ => 0);
    Attestation(
      2, id, [], id, Some(id), Some(""), Some(QuorumDescriptor(0, 0, 0, 0, 0, 0, 0, 0)), Some(0), None, None, None, "<",
      NotFinite, "0.000000", Utc(1970, 1, 1, 0, 0, 0, 0), [])
  }

  /** The signer itself lets it through: only the table's constraint keeps such a row out. */
  lemma UncheckedOutcome()
    ensures Admitted(OddGrant()) && KindOf(OddGrant()) == Grant && !Storable(OddGrant().validationOutcome)
    ensures !PlainValues(CanonicalList(OddGrant()).value) && J.EscapeAll("<") != "<"
  {
    hide GrantKV, PlainValues, TimestampText, UuidText, Base64Text, IntText;
    assert CreditCanonical("0.000000");
    assert !IsPlainChar("<"[0]);
    PayloadIsPlainExactlyWhen(OddGrant());
  }
}
