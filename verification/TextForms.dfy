/** What the fixed text forms say to a reader who knows only the character codes. */
module TextForms {
  import opened Alphabets
  import opened Digits
  import opened Formats
  import J = Json

  // ---- decimal numbers ----------------------------------------------------------------

  ghost predicate AllDecimal(t: string) { forall i :: 0 <= i < |t| ==> '0' <= t[i] <= '9' }

  /** The number a string of decimal digits stands for. */
  function Decimal(t: string): nat
    requires AllDecimal(t)
  {
    Value(seq(|t|, i requires 0 <= i < |t| => (t[i] - '0') as nat), 10)
  }

  lemma DecimalOfText(ds: seq<nat>)
    requires InBase(ds, 10)
    ensures |DIGITS| == 10 && AllDecimal(Text(ds, DIGITS)) && Decimal(Text(ds, DIGITS)) == Value(ds, 10)
  {
    hide DIGITS;
    DecimalIsAlphabet();
    var t := Text(ds, DIGITS);
    forall i | 0 <= i < |ds| ensures t[i] as int == '0' as int + ds[i] {
      DigitCode(ds[i]);
    }
    assert seq(|t|, i requires 0 <= i < |t| => (t[i] - '0') as nat) == ds;
  }

  /** A natural number is written in decimal, with no leading zero. */
  lemma NatTextReads(n: nat)
    ensures AllDecimal(NatText(n)) && Decimal(NatText(n)) == n
    ensures NatText(n) == "0" || NatText(n)[0] != '0'
  {
    DecimalOfText(NatDigits(n));
    NatDigitsValue(n);
    MinimalInBase(n, 10);
    DigitCode(NatDigits(n)[0]);
    if n == 0 {
      assert NatText(n) == "0";
    }
  }

  /** An integer is a minus sign, when it is negative, and its magnitude in decimal. */
  lemma IntTextReads(n: int)
    ensures n >= 0 ==> AllDecimal(IntText(n)) && Decimal(IntText(n)) == n
    ensures n < 0 ==> IntText(n)[0] == '-' && AllDecimal(IntText(n)[1..]) && Decimal(IntText(n)[1..]) == -n
    ensures var t := if n < 0 then IntText(n)[1..] else IntText(n); t == "0" || t[0] != '0'
  {
    hide NatText, Decimal;
    NatTextReads(if n < 0 then -n else n);
    if n < 0 {
      assert IntText(n)[1..] == NatText(-n);
    }
  }

  lemma {:induction false} FixedDigitsValue(n: nat, w: nat)
    requires n < Power(10, w)
    ensures Value(FixedDigits(n, w), 10) == n
  {
    hide Value;
    if w == 0 {
      ValueNone(10);
    } else {
      DivLower(n, Power(10, w - 1), 10);
      FixedDigitsValue(n / 10, w - 1);
      ValueAppend(FixedDigits(n / 10, w - 1), n % 10, 10);
    }
  }

  lemma PaddedReads(n: nat, w: nat)
    requires n < Power(10, w)
    ensures AllDecimal(Padded(n, w)) && Decimal(Padded(n, w)) == n
  {
    FixedDigitsValue(n, w);
    DecimalOfText(FixedDigits(n, w));
  }

  // ---- timestamps ---------------------------------------------------------------------

  ghost predicate Reads(t: string, n: nat) { AllDecimal(t) && Decimal(t) == n }

  /** Every field of the clock at its own place, between fixed separators. */
  lemma ClockReads(t: Instant)
    ensures var s := ClockText(t);
      && s[0] == '-' && Reads(s[1..3], t.month) && s[3] == '-' && Reads(s[4..6], t.day)
      && s[6] == 'T' && Reads(s[7..9], t.hour) && s[9] == ':' && Reads(s[10..12], t.minute)
      && s[12] == ':' && Reads(s[13..15], t.second) && s[15] == '.' && Reads(s[16..22], t.nano / 1000) && s[22] == 'Z'
  {
    hide Decimal, Padded;
    SmallPowers();
    ClockTextFields(t);
    PaddedReads(t.month, 2);
    PaddedReads(t.day, 2);
    PaddedReads(t.hour, 2);
    PaddedReads(t.minute, 2);
    PaddedReads(t.second, 2);
    PaddedReads(t.nano / 1000, 6);
  }

  /**
   * `YYYY-MM-DDThh:mm:ss.ffffffZ`, every field at its own place. The year takes four characters from 0 to 9999,
   * more beyond, and a sign when it is negative.
   */
  lemma TimestampReads(t: Instant)
    ensures |TimestampText(t)| >= 27 && (0 <= t.year < 10_000 ==> |TimestampText(t)| == 27)
    ensures var s := TimestampText(t); var y := |s| - 23;
      && (if t.year < 0 then s[0] == '-' && Reads(s[1..y], -t.year) else Reads(s[..y], t.year))
      && s[y] == '-' && Reads(s[y + 1..y + 3], t.month) && s[y + 3] == '-' && Reads(s[y + 4..y + 6], t.day)
      && s[y + 6] == 'T' && Reads(s[y + 7..y + 9], t.hour) && s[y + 9] == ':' && Reads(s[y + 10..y + 12], t.minute)
      && s[y + 12] == ':' && Reads(s[y + 13..y + 15], t.second) && s[y + 15] == '.'
      && Reads(s[y + 16..y + 22], t.nano / 1000) && s[y + 22] == 'Z'
  {
    hide Reads, ClockText, YearText;
    var s, c := TimestampText(t), ClockText(t);
    var y := |s| - 23;
    ClockReads(t);
    YearReads(t.year);
    assert s[..y] == YearText(t.year) && s[y..] == c;
    assert s[1..y] == s[..y][1..];
    assert s[y + 1..y + 3] == c[1..3] && s[y + 4..y + 6] == c[4..6] && s[y + 7..y + 9] == c[7..9];
    assert s[y + 10..y + 12] == c[10..12] && s[y + 13..y + 15] == c[13..15] && s[y + 16..y + 22] == c[16..22];
  }

  lemma YearReads(year: int)
    ensures |YearText(year)| >= 4 && (0 <= year < 10_000 ==> |YearText(year)| == 4)
    ensures var s := YearText(year); if year < 0 then s[0] == '-' && Reads(s[1..], -year) else Reads(s, year)
  {
    hide Padded, NatText, Decimal;
    SmallPowers();
    var n := if year < 0 then -year else year;
    if n < 10_000 { PaddedReads(n, 4); } else { NatTextReads(n); NatTextLong(n); }
    var t := if n < 10_000 then Padded(n, 4) else NatText(n);
    assert YearText(year) == if year < 0 then "-" + t else t;
    assert year < 0 ==> YearText(year)[1..] == t;
  }

  // ---- identifiers --------------------------------------------------------------------

  /** A lower-case hexadecimal digit. */
  function HexCode(n: nat): int { if n < 10 then '0' as int + n else 'a' as int + n - 10 }

  lemma HexCodes(n: nat)
    requires n < 16
    ensures J.HEX[n] as int == HexCode(n)
  {
  }

  lemma {:induction false} NibblesAt(b: seq<Byte>, i: nat)
    requires i < |b|
    ensures Nibbles(b)[2 * i] == b[i] / 16 && Nibbles(b)[2 * i + 1] == b[i] % 16
  {
    if i != 0 {
      NibblesAt(b[1..], i - 1);
      assert Nibbles(b)[2..] == Nibbles(b[1..]);
    }
  }

  lemma HexTextAt(b: seq<Byte>, i: nat)
    requires i < |b|
    ensures HexText(b)[2 * i] as int == HexCode(b[i] / 16) && HexText(b)[2 * i + 1] as int == HexCode(b[i] % 16)
  {
    hide HexCode, J.HEX;
    HexIsAlphabet();
    NibblesAt(b, i);
    HexCodes(b[i] / 16);
    HexCodes(b[i] % 16);
  }

  /** The place of a byte's two digits, past the dashes before it. */
  function Place(i: nat): nat {
    2 * i + if i < 4 then 0 else if i < 6 then 1 else if i < 8 then 2 else if i < 10 then 3 else 4
  }

  /** Thirty-six characters: dashes after the first four, six, eight and ten bytes, each byte as two digits. */
  lemma UuidReads(id: Uuid, i: nat)
    requires i < 16
    ensures var t := UuidText(id);
      && |t| == 36 && t[8] == '-' && t[13] == '-' && t[18] == '-' && t[23] == '-'
      && t[Place(i)] as int == HexCode(id[i] / 16) && t[Place(i) + 1] as int == HexCode(id[i] % 16)
  {
    hide HexCode, HexText;
    HexTextAt(id, i);
    var h, t := HexText(id), UuidText(id);
    UuidTextGroups(id);
    assert h[2 * i] == (t[..8] + t[9..13] + t[14..18] + t[19..23] + t[24..])[2 * i];
    assert h[2 * i + 1] == (t[..8] + t[9..13] + t[14..18] + t[19..23] + t[24..])[2 * i + 1];
  }

  // ---- base64url ----------------------------------------------------------------------

  /** The six bits of a character in the alphabet of section 5 of RFC 4648. */
  function SixBits(c: char): nat {
    if 'A' <= c <= 'Z' then (c - 'A') as nat
    else if 'a' <= c <= 'z' then (c - 'a') as nat + 26
    else if '0' <= c <= '9' then (c - '0') as nat + 52
    else if c == '-' then 62 else 63
  }

  /** The zero bits that fill the last character, as a factor. */
  function Fill(n: nat): nat { if n % 3 == 0 then 1 else if n % 3 == 1 then 16 else 4 }

  lemma ThreeBytes()
    ensures Power(256, 3) == 0x100_0000 && Power(64, 4) == 0x100_0000
  {
  }

  lemma ShortBits()
    ensures Power(256, 0) == 1 && Power(256, 1) == 256 && Power(256, 2) == 65536
    ensures Power(64, 0) == 1 && Power(64, 2) == 4096 && Power(64, 3) == 262144
  {
  }

  lemma Reorder(p: nat, q: nat, f: nat)
    ensures p * q * f == p * f * q
  {
  }

  /** The bits of `n` bytes and of the filling are the bits of the characters. */
  lemma {:induction false} BitsMatch(n: nat)
    ensures Power(256, n) * Fill(n) == Power(64, (4 * n + 2) / 3)
  {
    hide Power;
    ShortBits();
    if n >= 3 {
      BitsMatch(n - 3);
      ThreeBytes();
      PowerSum(256, n - 3, 3);
      PowerSum(64, (4 * (n - 3) + 2) / 3, 4);
      Reorder(Power(256, n - 3), 0x100_0000, Fill(n));
    }
  }

  lemma ValueTwo(x: nat, y: nat, base: nat)
    ensures Value([x, y], base) == x * base + y
  {
    ValueAppend([], x, base);
    ValueAppend([x], y, base);
    assert [] + [x] == [x] && [x] + [y] == [x, y];
  }

  lemma ValueThree(x: nat, y: nat, z: nat, base: nat)
    ensures Value([x, y, z], base) == (x * base + y) * base + z
  {
    ValueTwo(x, y, base);
    ValueAppend([x, y], z, base);
    assert [x, y] + [z] == [x, y, z];
  }

  lemma OneByte(x: Byte) returns (p: nat, q: nat)
    ensures Sextets([x]) == [p, q] && p * 64 + q == x * 16
  {
    p, q := x / 4, x % 4 * 16;
  }

  lemma TwoBytes(x: Byte, y: Byte) returns (p: nat, q: nat, r: nat)
    ensures Sextets([x, y]) == [p, q, r] && (p * 64 + q) * 64 + r == (x * 256 + y) * 4
  {
    p, q, r := x / 4, x % 4 * 16 + y / 16, y % 16 * 4;
  }

  lemma ShortGroups(b: seq<Byte>)
    requires |b| < 3
    ensures Value(Sextets(b), 64) == Value(b, 256) * Fill(|b|)
  {
    hide Value, Sextets;
    if |b| == 1 {
      var p, q := OneByte(b[0]);
      assert b == [b[0]];
      ValueOne(b[0], 256);
      ValueTwo(p, q, 64);
    } else if |b| == 2 {
      var p, q, r := TwoBytes(b[0], b[1]);
      assert b == [b[0], b[1]];
      ValueTwo(b[0], b[1], 256);
      ValueThree(p, q, r, 64);
    } else {
      NoBytes();
      ValueNone(64);
      ValueNone(256);
      assert b == [];
    }
  }

  lemma NoBytes()
    ensures Sextets([]) == []
  {
  }

  lemma ValueNone(base: nat)
    ensures Value([], base) == 0
  {
  }

  lemma ValueOne(x: nat, base: nat)
    ensures Value([x], base) == x
  {
    ValueAppend([], x, base);
    assert [] + [x] == [x];
  }

  lemma OneGroup(b: seq<Byte>)
    requires |b| > 2
    ensures |Sextets(b)| >= 4 && Value(Sextets(b)[..4], 64) == Value(b[..3], 256)
    ensures Sextets(b) == Sextets(b)[..4] + Sextets(b[3..]) && b == b[..3] + b[3..]
  {
    var x := Sextets(b);
    FirstSextets(b);
    ValueThree(x[0], x[1], x[2], 64);
    ValueAppend([x[0], x[1], x[2]], x[3], 64);
    assert x[..4] == [x[0], x[1], x[2]] + [x[3]];
    ValueThree(b[0], b[1], b[2], 256);
    assert b[..3] == [b[0], b[1], b[2]];
  }

  lemma {:induction false} SextetsValue(b: seq<Byte>)
    ensures Value(Sextets(b), 64) == Value(b, 256) * Fill(|b|)
  {
    hide Value, Sextets, Power, Fill;
    if |b| < 3 {
      ShortGroups(b);
    } else {
      var x, more := Sextets(b), b[3..];
      OneGroup(b);
      SextetsValue(more);
      SextetsLength(more);
      BitsMatch(|more|);
      ValueConcat(x[..4], Sextets(more), 64);
      ValueConcat(b[..3], more, 256);
      SameFill(|b|);
      SpreadFill(Value(b[..3], 256), Power(256, |more|), Value(more, 256), Fill(|b|));
    }
  }

  lemma SameFill(n: nat)
    requires n >= 3
    ensures Fill(n) == Fill(n - 3)
  {
  }

  lemma SpreadFill(v: nat, p: nat, w: nat, f: nat)
    ensures (v * p + w) * f == v * (p * f) + w * f
  {
    ProductOver(v * p, w, f);
    ProductRegroup(v, p, f);
  }

  /** The characters, read in base 64, are the bytes and then zero bits up to a whole character. */
  lemma Base64Reads(b: seq<Byte>)
    ensures var t := Base64Text(b);
      && |t| == (4 * |b| + 2) / 3
      && Value(seq(|t|, i requires 0 <= i < |t| => SixBits(t[i])), 64) == Value(b, 256) * Fill(|b|)
  {
    hide BASE64URL;
    Base64urlIsAlphabet();
    SextetsLength(b);
    SextetsValue(b);
    var t, ds := Base64Text(b), Sextets(b);
    forall i | 0 <= i < |ds| ensures SixBits(t[i]) == ds[i] {
      Base64urlCode(ds[i]);
    }
    assert seq(|t|, i requires 0 <= i < |t| => SixBits(t[i])) == ds;
  }

  // ---- JSON strings -------------------------------------------------------------------

  /** Which characters are printed as they are, and how each of the others is. */
  lemma EscapedExactly(c: char)
    ensures J.Escape(c) == [c] <==>
      c >= ' ' && c !in "\"\\<>&" && c as int != 0x2028 && c as int != 0x2029
    ensures J.Escape('"') == "\\\"" && J.Escape('\\') == "\\\\"
    ensures J.Escape('\n') == "\\n" && J.Escape('\r') == "\\r" && J.Escape('\t') == "\\t"
    ensures J.Escape(8 as char) == "\\b" && J.Escape(12 as char) == "\\f"
    ensures J.Escape(c) != [c] && |J.Escape(c)| != 2 ==>
      var e := J.Escape(c);
      && |e| == 6 && e[0] == '\\' && e[1] == 'u'
      && e[2] as int == HexCode(c as nat / 4096) && e[3] as int == HexCode(c as nat / 256 % 16)
      && e[4] as int == HexCode(c as nat / 16 % 16) && e[5] as int == HexCode(c as nat % 16)
    ensures |J.Escape(c)| == 2 ==> c in "\"\\\n\r\t" || c as int == 8 || c as int == 12
  {
    hide HexCode, J.HexDigit;
    if J.NeedsCode(c) {
      var code := c as nat;
      HexDigits(code / 4096);
      HexDigits(code / 256 % 16);
      HexDigits(code / 16 % 16);
      HexDigits(code % 16);
    }
  }

  lemma HexDigits(n: nat)
    requires n < 16
    ensures J.HexDigit(n) as int == HexCode(n)
  {
  }

  /** An object is printed without spaces: braces, a colon after each key, a comma between members. */
  lemma PrintedObject(key: string, number: J.NumberToken, other: string, text: string)
    ensures J.Marshal([]) == "{}" && J.Quote(text) == "\"" + J.EscapeAll(text) + "\""
    ensures var pairs := [J.Pair(key, J.Number(number)), J.Pair(other, J.Str(text))];
      && J.AllMarshalable(pairs)
      && J.Marshal(pairs) == "{" + (J.Quote(key) + ":" + number + ",") + J.Quote(other) + ":" + J.Quote(text) + "}"
  {
    LastMember(other, text);
    QuoteIs(text);
    hide J.Quote;
    var pairs := [J.Pair(key, J.Number(number)), J.Pair(other, J.Str(text))];
    assert pairs[1..] == [J.Pair(other, J.Str(text))];
    hide J.Members, J.Print;
    FirstMember(key, number, pairs);
    Braces(J.Quote(key) + ":" + number + ",", J.Quote(other), J.Quote(text));
  }

  lemma FirstMember(key: string, number: J.NumberToken, pairs: seq<J.Pair>)
    requires |pairs| == 2 && pairs[0] == J.Pair(key, J.Number(number)) && J.AllMarshalable(pairs)
    ensures J.Members(pairs) == J.Quote(key) + ":" + number + "," + J.Members(pairs[1..])
  {
    hide J.Quote;
  }

  lemma Braces(first: string, o: string, t: string)
    ensures "{" + (first + (o + ":" + t + "}")) == "{" + first + o + ":" + t + "}"
  {
  }

  lemma QuoteIs(text: string)
    ensures J.Quote(text) == "\"" + J.EscapeAll(text) + "\""
  {
  }

  lemma LastMember(key: string, text: string)
    ensures J.AllMarshalable([J.Pair(key, J.Str(text))])
    ensures J.Members([J.Pair(key, J.Str(text))]) == J.Quote(key) + ":" + J.Quote(text) + "}"
  {
    hide J.Quote;
    assert [J.Pair(key, J.Str(text))][1..] == [];
    assert J.Quote(key) + ":" + J.Quote(text) + "" + "}" == J.Quote(key) + ":" + J.Quote(text) + "}";
  }
}
