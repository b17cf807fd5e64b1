/** base62 text of the random bytes of an API key. */
module ApiKey {
  import opened Alphabets
  import opened Digits

  const ALPHABET := DIGITS + UPPER + LOWER

  lemma AlphabetIsOne()
    ensures |ALPHABET| == 62 && IsAlphabet(ALPHABET)
  {
    forall i, j | 0 <= i < j < 62 ensures |ALPHABET| == 62 && ALPHABET[i] != ALPHABET[j] {
      AlphabetCode(i);
      AlphabetCode(j);
    }
  }

  lemma AlphabetCode(d: nat)
    requires d < 62
    ensures |ALPHABET| == 62
    ensures ALPHABET[d] as int ==
      if d < 10 then '0' as int + d else if d < 36 then 'A' as int + d - 10 else 'a' as int + d - 36
  {
    hide DIGITS, UPPER, LOWER;
    Sizes();
    if d < 10 {
      DigitCode(d);
    } else if d < 36 {
      UpperCode(d - 10);
    } else {
      LowerCode(d - 36);
    }
  }

  function Encoded(data: seq<Byte>): string {
    var n := Value(data, 256);
    AlphabetIsOne(); MinimalInBase(n, 62);
    if n == 0 then "0" else Text(Minimal(n, 62), ALPHABET)
  }

  /** Two inputs share a text exactly when they have the same big-endian value. */
  lemma EncodedDeterminesValue(a: seq<Byte>, b: seq<Byte>)
    ensures Encoded(a) == Encoded(b) <==> Value(a, 256) == Value(b, 256)
  {
    var da := EncodedDigits(a);
    var db := EncodedDigits(b);
    if Encoded(a) == Encoded(b) {
      AlphabetIsOne();
      TextInjective(da, db, ALPHABET);
    }
  }

  /** The text of an input is the text of digits that have the same big-endian value. */
  lemma EncodedDigits(data: seq<Byte>) returns (ds: seq<nat>)
    ensures |ALPHABET| == 62 && InBase(ds, 62) && Encoded(data) == Text(ds, ALPHABET)
    ensures Value(ds, 62) == Value(data, 256)
  {
    var n := Value(data, 256);
    AlphabetIsOne();
    MinimalInBase(n, 62);
    ValueOfMinimal(n, 62);
    if n == 0 {
      ds := [0];
      AlphabetCode(0);
      assert Text([0], ALPHABET) == "0";
      assert Value([], 62) == 0 && [0][..0] == [];
    } else {
      ds := Minimal(n, 62);
    }
  }

  /** No two inputs of the same length share a text. */
  lemma EncodedInjective(a: seq<Byte>, b: seq<Byte>)
    requires |a| == |b| && Encoded(a) == Encoded(b)
    ensures a == b
  {
    EncodedDeterminesValue(a, b);
    ValueInjective(a, b, 256);
  }

  /** The nine-character visible prefix exists exactly when the value is at least 62^8. */
  lemma VisiblePrefixExists(data: seq<Byte>)
    ensures |Encoded(data)| >= 9 <==> Value(data, 256) >= Power(62, 8)
  {
    MinimalLength(Value(data, 256), 62, 8);
    PowerPositive(62, 8);
  }

  /** Thirty-two zero bytes, which the generator may draw, have no nine characters to show. */
  lemma ZeroKeyHasNoPrefix()
    ensures var data: seq<Byte> := seq(32, _ => 0); Encoded(data) == "0" && |Encoded(data)| < 9
  {
    ZerosHaveNoValue(32);
  }

  lemma {:induction false} ZerosHaveNoValue(n: nat)
    ensures Value(seq(n, _ => 0), 256) == 0
  {
    if n != 0 {
      var zeros: seq<nat> := seq(n, _ => 0);
      assert zeros[..n - 1] == seq(n - 1, _ => 0);
      ZerosHaveNoValue(n - 1);
    }
  }

  method Base62Encode(data: seq<Byte>) returns (text: string)
    ensures text == Encoded(data)
  {
    AlphabetIsOne();
    var n := Value(data, 256);
    var result := LowDigitsFirst(n, ALPHABET);
    text := Reversed(result);
    MinimalInBase(n, 62);
    if |result| == 0 {
      return "0";
    }
  }
}
