/** base58btc and the did:key form of an Ed25519 public key. */
module DidKey {
  import opened Alphabets
  import opened Digits
  import opened Results

  // The alphabet's runs of consecutive characters; 0, I, O and l are left out.
  const ONE_TO_NINE := "123456789"
  const A_TO_H := "ABCDEFGH"
  const J_TO_N := "JKLMN"
  const P_TO_Z := "PQRSTUVWXYZ"
  const LOWER_A_TO_K := "abcdefghijk"
  const LOWER_M_TO_Z := "mnopqrstuvwxyz"

  const ALPHABET := ONE_TO_NINE + A_TO_H + J_TO_N + P_TO_Z + LOWER_A_TO_K + LOWER_M_TO_Z
  const PREFIX := "did:key:z"
  const MULTICODEC: seq<Byte> := [0xed, 0x01]
  const KEY_SIZE := 32

  datatype DidError = WrongKeySize | MissingPrefix | InvalidCharacter(index: nat) | WrongLength | WrongMulticodec

  ghost predicate Consecutive(s: string, first: char, n: nat) {
    |s| == n && forall i :: 0 <= i < n ==> s[i] as int == first as int + i
  }

  lemma UpperRuns()
    ensures Consecutive(A_TO_H, 'A', 8) && Consecutive(J_TO_N, 'J', 5)
  {
  }

  lemma LastUpperRun()
    ensures Consecutive(P_TO_Z, 'P', 11)
  {
  }

  lemma DigitRun()
    ensures Consecutive(ONE_TO_NINE, '1', 9)
  {
  }

  lemma FirstLowerRun()
    ensures Consecutive(LOWER_A_TO_K, 'a', 11)
  {
  }

  lemma LastLowerRun()
    ensures Consecutive(LOWER_M_TO_Z, 'm', 14)
  {
  }

  lemma AlphabetIsOne()
    ensures |ALPHABET| == 58 && IsAlphabet(ALPHABET)
  {
    hide ALPHABET;
    AlphabetCode(0);
    forall i, j | 0 <= i < j < 58 ensures ALPHABET[i] != ALPHABET[j] {
      AlphabetCode(i);
      AlphabetCode(j);
    }
  }

  /** The alphabet in numbers. */
  lemma AlphabetCode(d: nat)
    requires d < 58
    ensures |ALPHABET| == 58
    ensures ALPHABET[d] as int ==
      if d < 9 then '1' as int + d
      else if d < 17 then 'A' as int + d - 9
      else if d < 22 then 'J' as int + d - 17
      else if d < 33 then 'P' as int + d - 22
      else if d < 44 then 'a' as int + d - 33
      else 'm' as int + d - 44
  {
    hide ONE_TO_NINE, A_TO_H, J_TO_N, P_TO_Z, LOWER_A_TO_K, LOWER_M_TO_Z;
    DigitRun();
    UpperRuns();
    LastUpperRun();
    FirstLowerRun();
    LastLowerRun();
  }

  // ---- what the codec means -----------------------------------------------------------

  function AsBytes(ds: seq<nat>): (b: seq<Byte>)
    requires InBase(ds, 256)
    ensures b == ds
  {
    seq(|ds|, i requires 0 <= i < |ds| => var d: Byte := ds[i]; d)
  }

  function Encoded(input: seq<Byte>): string {
    hide ALPHABET; AlphabetIsOne(); ConvertBack(input, 256, 58);
    Text(Convert(input, 256, 58), ALPHABET)
  }

  ghost function Decoded(s: string): Result<seq<Byte>, DidError> {
    AlphabetIsOne();
    if Over(s, ALPHABET) then
      (ConvertBack(DigitsOf(s, ALPHABET), 58, 256); Ok(AsBytes(Convert(DigitsOf(s, ALPHABET), 58, 256))))
    else Err(InvalidCharacter(FirstForeign(s, ALPHABET)))
  }

  /** The first position holding a character outside an alphabet. */
  ghost function FirstForeign(s: string, a: string): (i: nat)
    requires !Over(s, a)
    ensures i < |s| && s[i] !in a && Over(s[..i], a)
  {
    if Over(s[..|s| - 1], a) then |s| - 1
    else
      var i := FirstForeign(s[..|s| - 1], a);
      assert s[..|s| - 1][..i] == s[..i];
      i
  }

  /** Decoding undoes encoding on every byte string. */
  lemma DecodeEncoded(input: seq<Byte>)
    ensures Decoded(Encoded(input)) == Ok(input)
  {
    AlphabetIsOne();
    ConvertBack(input, 256, 58);
    DigitsOfText(Convert(input, 256, 58), ALPHABET);
  }

  /** Encoding undoes decoding on every string over the alphabet, and no other string decodes. */
  lemma EncodeDecoded(s: string)
    ensures Decoded(s).Ok? <==> Over(s, ALPHABET)
    ensures Decoded(s).Ok? ==> Encoded(Decoded(s).value) == s
  {
    AlphabetIsOne();
    if Over(s, ALPHABET) {
      ConvertBack(DigitsOf(s, ALPHABET), 58, 256);
      TextOfDigits(s, ALPHABET);
    }
  }

  // ---- the code -----------------------------------------------------------------------

  method Base58Encode(input: seq<Byte>) returns (text: string)
    ensures text == Encoded(input)
  {
    hide ALPHABET;
    AlphabetIsOne();
    var zeros := 0;
    while zeros < |input| && input[zeros] == 0
      invariant zeros <= LeadingZeros(input)
    {
      zeros := zeros + 1;
    }
    var n := Value(input, 256);
    var out := LowDigitsFirst(n, ALPHABET);
    out := AppendZeros(out, zeros, ALPHABET);
    text := Reversed(out);
    TextAppend(Zeros(zeros), Minimal(n, 58), ALPHABET);
  }

  method Base58Decode(s: string) returns (r: Result<seq<Byte>, DidError>)
    ensures r == Decoded(s)
  {
    hide ALPHABET, Minimal, IndexByte;
    AlphabetIsOne();
    var result := 0;
    for i := 0 to |s|
      invariant Over(s[..i], ALPHABET) && result == Value(DigitsOf(s[..i], ALPHABET), 58)
    {
      var idx := IndexByte(ALPHABET, s[i]);
      if idx.None? {
        ForeignIs(s, ALPHABET, i);
        return Err(InvalidCharacter(i));
      }
      ReadDigit(s, ALPHABET, i);
      result := result * 58 + idx.value;
    }
    assert s[..|s|] == s;
    ghost var ds := DigitsOf(s, ALPHABET);
    var decoded := Minimal(result, 256);
    var zeros := 0;
    while zeros < |s| && s[zeros] == ALPHABET[0]
      invariant zeros <= LeadingZeros(ds)
    {
      ZeroDigit(s, ALPHABET, zeros);
      zeros := zeros + 1;
    }
    if zeros < |s| {
      ZeroDigit(s, ALPHABET, zeros);
    }
    ConvertBack(ds, 58, 256);
    r := Ok(AsBytes(Zeros(zeros) + decoded));
  }

  lemma ForeignIs(s: string, a: string, i: nat)
    requires i < |s| && s[i] !in a && Over(s[..i], a)
    ensures !Over(s, a) && FirstForeign(s, a) == i
  {
    var j := FirstForeign(s, a);
    if j < i {
      PrefixOver(s, a, i, j);
    } else if i < j {
      PrefixOver(s, a, j, i);
    }
  }

  lemma PrefixOver(s: string, a: string, n: nat, k: nat)
    requires k < n <= |s| && Over(s[..n], a)
    ensures s[k] in a
  {
    assert s[..n][k] == s[k];
  }

  // ---- did:key ------------------------------------------------------------------------

  function EncodedDidKey(pub: seq<Byte>): Result<string, DidError> {
    if |pub| != KEY_SIZE then Err(WrongKeySize) else Ok(PREFIX + Encoded(MULTICODEC + pub))
  }

  ghost function DecodedDidKey(s: string): Result<seq<Byte>, DidError> {
    if !(PREFIX <= s) then Err(MissingPrefix)
    else
      match Decoded(s[|PREFIX|..])
      case Err(e) => Err(e)
      case Ok(raw) =>
        if |raw| != |MULTICODEC| + KEY_SIZE then Err(WrongLength)
        else if raw[0] != MULTICODEC[0] || raw[1] != MULTICODEC[1] then Err(WrongMulticodec)
        else Ok(raw[|MULTICODEC|..])
  }

  /** The decoder accepts exactly the strings the encoder produces, and returns the key they name. */
  lemma DidKeyRoundTrip(s: string, pub: seq<Byte>)
    ensures DecodedDidKey(s) == Ok(pub) <==> EncodedDidKey(pub) == Ok(s)
  {
    if EncodedDidKey(pub) == Ok(s) {
      assert s[|PREFIX|..] == Encoded(MULTICODEC + pub);
      DecodeEncoded(MULTICODEC + pub);
    }
    if DecodedDidKey(s) == Ok(pub) {
      EncodeDecoded(s[|PREFIX|..]);
      assert Decoded(s[|PREFIX|..]).value == MULTICODEC + pub;
      assert s == PREFIX + s[|PREFIX|..];
    }
  }

  lemma KeyRange(pub: seq<Byte>)
    requires |pub| == 32
    ensures 0xed01 * Power(256, 32) <= Value(MULTICODEC + pub, 256) < 0xed02 * Power(256, 32)
  {
    ValueConcat(MULTICODEC, pub, 256);
    ValueBelowPower(pub, 256);
    assert MULTICODEC[..1] == [0xed] && MULTICODEC[..1][..0] == [];
    assert Value(MULTICODEC, 256) == 0xed01;
  }

  lemma SixMk()
    ensures Minimal(18023, 58) == [5, 20, 43]
    ensures ALPHABET[5] == '6' && ALPHABET[20] == 'M' && ALPHABET[43] == 'k'
  {
    AlphabetCode(5);
    AlphabetCode(20);
    AlphabetCode(43);
  }

  lemma BasePowers()
    ensures Power(58, 11) == 24986644000165537792 && Power(256, 8) == 18446744073709551616
  {
  }

  /** 256^32 between its neighbours among the multiples of 58^44. */
  lemma PowersCompare()
    ensures 18023 * Power(58, 44) <= 0xed01 * Power(256, 32) && 0xed02 * Power(256, 32) <= 18024 * Power(58, 44)
  {
    hide Power;
    BasePowers();
    PowerSum(58, 11, 11);
    PowerSum(58, 22, 22);
    PowerSum(256, 8, 8);
    PowerSum(256, 16, 16);
    var p, q := Power(58, 22), Power(256, 16);
    assert p == 24986644000165537792 * 24986644000165537792;
    assert q == 18446744073709551616 * 18446744073709551616;
  }

  /** The did:key of every Ed25519 public key has 56 characters and begins in the same way. */
  lemma EveryDidKeyBegins(pub: seq<Byte>)
    requires |pub| == 32
    ensures EncodedDidKey(pub).Ok?
    ensures "did:key:z6Mk" <= EncodedDidKey(pub).value && |EncodedDidKey(pub).value| == 56
  {
    hide Value, Minimal, Power, ALPHABET;
    var raw := MULTICODEC + pub;
    var n := Value(raw, 256);
    KeyRange(pub);
    PowersCompare();
    LeadingDigits(n, 18023, 58, 44);
    SixMk();
    AlphabetIsOne();
    ConvertBack(raw, 256, 58);
    var ds := Minimal(n, 58);
    assert LeadingZeros(raw) == 0 by { assert raw[0] == 0xed; }
    assert Convert(raw, 256, 58) == ds;
    assert ds[0] == 5 && ds[1] == 20 && ds[2] == 43;
    assert Text(ds, ALPHABET)[..3] == "6Mk";
  }

  /** What each string of bytes decodes to behind the prefix, and what every other string is refused for. */
  lemma DidKeyOutcomes(s: string, raw: seq<Byte>)
    ensures s == "did:key:z" + Encoded(raw) ==>
      (DecodedDidKey(s) == (if |raw| != 34 then Err(WrongLength)
                            else if raw[0] != 0xed || raw[1] != 0x01 then Err(WrongMulticodec)
                            else Ok(raw[2..])))
    ensures DecodedDidKey(s) == Err(MissingPrefix) <==> !("did:key:z" <= s)
    ensures forall i: nat :: DecodedDidKey(s) == Err(InvalidCharacter(i)) <==>
      "did:key:z" <= s && 9 + i < |s| && s[9 + i] !in ALPHABET && Over(s[9..9 + i], ALPHABET)
  {
    if s == "did:key:z" + Encoded(raw) {
      assert s[9..] == Encoded(raw);
      DecodeEncoded(raw);
    }
    hide ALPHABET, Encoded;
    forall i: nat
      ensures DecodedDidKey(s) == Err(InvalidCharacter(i)) <==>
        "did:key:z" <= s && 9 + i < |s| && s[9 + i] !in ALPHABET && Over(s[9..9 + i], ALPHABET)
    {
      if "did:key:z" <= s {
        var rest := s[9..];
        if i < |rest| {
          assert rest[..i] == s[9..9 + i];
          if rest[i] !in ALPHABET && Over(rest[..i], ALPHABET) { ForeignIs(rest, ALPHABET, i); }
        }
      }
    }
  }

  method EncodeEd25519DIDKey(pub: seq<Byte>) returns (r: Result<string, DidError>)
    ensures r == EncodedDidKey(pub)
  {
    if |pub| != KEY_SIZE {
      return Err(WrongKeySize);
    }
    var text := Base58Encode(MULTICODEC + pub);
    r := Ok(PREFIX + text);
  }

  method DecodeEd25519DIDKey(s: string) returns (r: Result<seq<Byte>, DidError>)
    ensures r == DecodedDidKey(s)
  {
    if !(PREFIX <= s) {
      return Err(MissingPrefix);
    }
    var raw := Base58Decode(s[|PREFIX|..]);
    if raw.Err? {
      return Err(raw.error);
    }
    if |raw.value| != |MULTICODEC| + KEY_SIZE {
      return Err(WrongLength);
    }
    if raw.value[0] != MULTICODEC[0] || raw.value[1] != MULTICODEC[1] {
      return Err(WrongMulticodec);
    }
    r := Ok(raw.value[|MULTICODEC|..]);
  }
}
