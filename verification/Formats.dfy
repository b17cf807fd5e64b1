/** The fixed text forms that go into signed fields; each determines the value it was made from. */
module Formats {
  import opened Alphabets
  import opened Digits
  import Json

  const BASE64URL := UPPER + LOWER + DIGITS + "-_"

  lemma DecimalIsAlphabet()
    ensures |DIGITS| == 10 && IsAlphabet(DIGITS)
    ensures forall d: nat :: d < 10 ==> '0' <= DIGITS[d] <= '9'
  {
  }

  lemma HexIsAlphabet()
    ensures |Json.HEX| == 16 && IsAlphabet(Json.HEX)
  {
  }

  lemma Base64urlCode(d: nat)
    requires d < 64
    ensures |BASE64URL| == 64
    ensures BASE64URL[d] as int ==
      if d < 26 then 'A' as int + d
      else if d < 52 then 'a' as int + d - 26
      else if d < 62 then '0' as int + d - 52
      else if d == 62 then '-' as int else '_' as int
  {
    hide DIGITS, UPPER, LOWER;
    Sizes();
    if d < 26 {
      UpperCode(d);
    } else if d < 52 {
      LowerCode(d - 26);
    } else if d < 62 {
      DigitCode(d - 52);
    }
  }

  lemma Base64urlIsAlphabet()
    ensures |BASE64URL| == 64 && IsAlphabet(BASE64URL)
  {
    forall i, j | 0 <= i < j < 64 ensures |BASE64URL| == 64 && BASE64URL[i] != BASE64URL[j] {
      Base64urlCode(i);
      Base64urlCode(j);
    }
  }

  // ---- integers -----------------------------------------------------------------------

  function NatDigits(n: nat): (ds: seq<nat>)
    ensures ds != [] && InBase(ds, 10)
  {
    MinimalInBase(n, 10);
    if n == 0 then [0] else Minimal(n, 10)
  }

  function NatText(n: nat): (t: string)
    ensures t != "" && forall i :: 0 <= i < |t| ==> '0' <= t[i] <= '9'
  {
    DecimalIsAlphabet();
    Text(NatDigits(n), DIGITS)
  }

  function IntText(n: int): Json.NumberToken {
    if n < 0 then "-" + NatText(-n) else NatText(n)
  }

  lemma NatTextInjective(m: nat, n: nat)
    requires NatText(m) == NatText(n)
    ensures m == n
  {
    DecimalIsAlphabet();
    TextInjective(NatDigits(m), NatDigits(n), DIGITS);
    NatDigitsValue(m);
    NatDigitsValue(n);
  }

  lemma NatDigitsValue(n: nat)
    ensures Value(NatDigits(n), 10) == n
  {
    ValueOfMinimal(n, 10);
    ValueAppend([], 0, 10);
  }

  lemma IntTextSign(n: int)
    ensures IntText(n)[0] == '-' <==> n < 0
  {
    if n >= 0 {
      assert NatText(n)[0] != '-';
    }
  }

  lemma IntTextInjective(m: int, n: int)
    requires IntText(m) == IntText(n)
    ensures m == n
  {
    IntTextSign(m);
    IntTextSign(n);
    if m < 0 && n < 0 {
      assert NatText(-m) == IntText(m)[1..] == IntText(n)[1..] == NatText(-n);
      NatTextInjective(-m, -n);
    } else if m >= 0 && n >= 0 {
      NatTextInjective(m, n);
    }
  }

  /** The last `w` decimal digits of `n`. */
  function FixedDigits(n: nat, w: nat): (ds: seq<nat>)
    ensures |ds| == w && InBase(ds, 10)
  {
    if w == 0 then [] else FixedDigits(n / 10, w - 1) + [n % 10]
  }

  function Padded(n: nat, w: nat): (t: string)
    ensures |t| == w && forall i :: 0 <= i < w ==> '0' <= t[i] <= '9'
  {
    DecimalIsAlphabet();
    Text(FixedDigits(n, w), DIGITS)
  }

  lemma {:induction false} FixedDigitsInjective(m: nat, n: nat, w: nat)
    requires m < Power(10, w) && n < Power(10, w) && FixedDigits(m, w) == FixedDigits(n, w)
    ensures m == n
  {
    if w != 0 {
      var a, b := FixedDigits(m, w), FixedDigits(n, w);
      assert a[w - 1] == m % 10 && b[w - 1] == n % 10;
      assert FixedDigits(m / 10, w - 1) == a[..w - 1] == b[..w - 1] == FixedDigits(n / 10, w - 1);
      FixedDigitsInjective(m / 10, n / 10, w - 1);
    }
  }

  lemma PaddedInjective(m: nat, n: nat, w: nat)
    requires m < Power(10, w) && n < Power(10, w) && Padded(m, w) == Padded(n, w)
    ensures m == n
  {
    DecimalIsAlphabet();
    TextInjective(FixedDigits(m, w), FixedDigits(n, w), DIGITS);
    FixedDigitsInjective(m, n, w);
  }

  // ---- timestamps ---------------------------------------------------------------------

  /** An instant in UTC calendar fields, to the nanosecond. */
  datatype Utc = Utc(year: int, month: nat, day: nat, hour: nat, minute: nat, second: nat, nano: nat)

  predicate InCalendar(t: Utc) {
    t.month < 100 && t.day < 100 && t.hour < 100 && t.minute < 100 && t.second < 100 && t.nano < 1_000_000_000
  }

  type Instant = t: Utc | InCalendar(t) witness Utc(1970, 1, 1, 0, 0, 0, 0)

  /** Calendar fields with the nanoseconds cut to microseconds. */
  function ToMicroseconds(t: Instant): Instant { t.(nano := t.nano / 1000 * 1000) }

  /** A year is at least four digits wide, with a sign in front when it is negative. */
  function YearText(year: int): string {
    var n := if year < 0 then -year else year;
    (if year < 0 then "-" else "") + (if n < 10000 then Padded(n, 4) else NatText(n))
  }

  function ClockText(t: Instant): (s: string)
    ensures |s| == 23
  {
    "-" + Padded(t.month, 2) + "-" + Padded(t.day, 2) + "T" + Padded(t.hour, 2) + ":" + Padded(t.minute, 2)
    + ":" + Padded(t.second, 2) + "." + Padded(t.nano / 1000, 6) + "Z"
  }

  function TimestampText(t: Instant): string { YearText(t.year) + ClockText(t) }

  lemma SmallPowers()
    ensures Power(10, 2) == 100 && Power(10, 4) == 10_000 && Power(10, 6) == 1_000_000
  {
    assert Power(10, 1) == 10 && Power(10, 3) == 1000 && Power(10, 5) == 100_000;
  }

  lemma {:induction false} NatTextLong(n: nat)
    requires n >= 10_000
    ensures |NatText(n)| > 4
  {
    SmallPowers();
    MinimalLength(n, 10, 4);
  }

  lemma MagnitudeInjective(m: nat, n: nat)
    requires (if m < 10000 then Padded(m, 4) else NatText(m)) == (if n < 10000 then Padded(n, 4) else NatText(n))
    ensures m == n
  {
    SmallPowers();
    if m >= 10000 { NatTextLong(m); }
    if n >= 10000 { NatTextLong(n); }
    if m < 10000 && n < 10000 {
      PaddedInjective(m, n, 4);
    } else {
      NatTextInjective(m, n);
    }
  }

  lemma YearTextInjective(m: int, n: int)
    requires YearText(m) == YearText(n)
    ensures m == n
  {
    var a, b := YearText(m), YearText(n);
    var p, q := if m < 0 then -m else m, if n < 0 then -n else n;
    assert (a[0] == '-') == (m < 0) && (b[0] == '-') == (n < 0);
    assert (if p < 10000 then Padded(p, 4) else NatText(p)) == if m < 0 then a[1..] else a;
    assert (if q < 10000 then Padded(q, 4) else NatText(q)) == if n < 0 then b[1..] else b;
    MagnitudeInjective(p, q);
  }

  lemma ClockTextFields(t: Instant)
    ensures var s := ClockText(t);
            && s[1..3] == Padded(t.month, 2) && s[4..6] == Padded(t.day, 2) && s[7..9] == Padded(t.hour, 2)
            && s[10..12] == Padded(t.minute, 2) && s[13..15] == Padded(t.second, 2)
            && s[16..22] == Padded(t.nano / 1000, 6)
  {
    hide Padded;
  }

  lemma ClockTextInjective(t: Instant, u: Instant)
    requires ClockText(t) == ClockText(u)
    ensures ToMicroseconds(t) == ToMicroseconds(u.(year := t.year))
  {
    hide ClockText, Padded;
    ClockTextFields(t);
    ClockTextFields(u);
    SmallPowers();
    PaddedInjective(t.month, u.month, 2);
    PaddedInjective(t.day, u.day, 2);
    PaddedInjective(t.hour, u.hour, 2);
    PaddedInjective(t.minute, u.minute, 2);
    PaddedInjective(t.second, u.second, 2);
    PaddedInjective(t.nano / 1000, u.nano / 1000, 6);
  }

  /** The text determines the instant to the microsecond, for every year. */
  lemma TimestampTextInjective(t: Instant, u: Instant)
    ensures TimestampText(t) == TimestampText(u) <==> ToMicroseconds(t) == ToMicroseconds(u)
  {
    hide YearText, ClockText;
    var a, b := TimestampText(t), TimestampText(u);
    if a == b {
      assert YearText(t.year) == a[..|a| - 23] && YearText(u.year) == b[..|b| - 23];
      assert ClockText(t) == a[|a| - 23..] && ClockText(u) == b[|b| - 23..];
      YearTextInjective(t.year, u.year);
      ClockTextInjective(t, u);
    } else if ToMicroseconds(t) == ToMicroseconds(u) {
      SameClock(t, u);
    }
  }

  lemma SameClock(t: Instant, u: Instant)
    requires ToMicroseconds(t) == ToMicroseconds(u)
    ensures ClockText(t) == ClockText(u) && t.year == u.year
  {
    assert t.nano / 1000 * 1000 / 1000 == u.nano / 1000 * 1000 / 1000;
  }

  // ---- identifiers --------------------------------------------------------------------

  type Uuid = id: seq<Byte> | |id| == 16 witness seq(16, _ => 0)

  function Nibbles(b: seq<Byte>): (ds: seq<nat>)
    ensures |ds| == 2 * |b| && InBase(ds, 16)
  {
    if b == [] then [] else [b[0] / 16, b[0] % 16] + Nibbles(b[1..])
  }

  lemma {:induction false} NibblesInjective(a: seq<Byte>, b: seq<Byte>)
    requires Nibbles(a) == Nibbles(b)
    ensures a == b
  {
    if a != [] && b != [] {
      var x, y := Nibbles(a), Nibbles(b);
      assert x[0] == a[0] / 16 && x[1] == a[0] % 16 && y[0] == b[0] / 16 && y[1] == b[0] % 16;
      assert x[2..] == Nibbles(a[1..]) && y[2..] == Nibbles(b[1..]);
      NibblesInjective(a[1..], b[1..]);
      assert a == [a[0]] + a[1..] && b == [b[0]] + b[1..];
    }
  }

  function HexText(b: seq<Byte>): (t: string)
    ensures |t| == 2 * |b|
  {
    HexIsAlphabet();
    Text(Nibbles(b), Json.HEX)
  }

  /** The 8-4-4-4-12 form. */
  function UuidText(id: Uuid): string {
    var h := HexText(id);
    h[..8] + "-" + h[8..12] + "-" + h[12..16] + "-" + h[16..20] + "-" + h[20..]
  }

  lemma UuidTextInjective(a: Uuid, b: Uuid)
    requires UuidText(a) == UuidText(b)
    ensures a == b
  {
    hide HexText;
    UuidTextGroups(a);
    UuidTextGroups(b);
    assert HexText(a) == HexText(b);
    HexTextInjective(a, b);
  }

  lemma UuidTextGroups(id: Uuid)
    ensures |UuidText(id)| == 36
    ensures var t := UuidText(id); HexText(id) == t[..8] + t[9..13] + t[14..18] + t[19..23] + t[24..]
  {
    hide HexText;
    var h, t := HexText(id), UuidText(id);
    assert t[..8] == h[..8] && t[9..13] == h[8..12] && t[14..18] == h[12..16] && t[19..23] == h[16..20];
    assert t[24..] == h[20..];
  }

  lemma HexTextInjective(a: seq<Byte>, b: seq<Byte>)
    requires HexText(a) == HexText(b)
    ensures a == b
  {
    HexIsAlphabet();
    TextInjective(Nibbles(a), Nibbles(b), Json.HEX);
    NibblesInjective(a, b);
  }

  // ---- base64url ----------------------------------------------------------------------

  /** Six-bit groups of the input; a short last group is padded with zero bits. */
  function Sextets(b: seq<Byte>): (ds: seq<nat>)
    ensures InBase(ds, 64)
  {
    if |b| == 0 then []
    else if |b| == 1 then [b[0] / 4, b[0] % 4 * 16]
    else if |b| == 2 then [b[0] / 4, b[0] % 4 * 16 + b[1] / 16, b[1] % 16 * 4]
    else [b[0] / 4, b[0] % 4 * 16 + b[1] / 16, b[1] % 16 * 4 + b[2] / 64, b[2] % 64] + Sextets(b[3..])
  }

  lemma {:induction false} SextetsLength(b: seq<Byte>)
    ensures |Sextets(b)| == (4 * |b| + 2) / 3
  {
    if |b| > 2 {
      SextetsLength(b[3..]);
    }
  }

  lemma {:induction false} SextetsInjective(a: seq<Byte>, b: seq<Byte>)
    requires Sextets(a) == Sextets(b)
    ensures a == b
  {
    SextetsLength(a);
    SextetsLength(b);
    assert |a| == |b|;
    var x, y := Sextets(a), Sextets(b);
    if |a| == 1 {
      assert x[0] == y[0] && x[1] == y[1];
    } else if |a| == 2 {
      assert x[0] == y[0] && x[1] == y[1] && x[2] == y[2];
    } else if |a| > 2 {
      FirstSextets(a);
      FirstSextets(b);
      SextetsInjective(a[3..], b[3..]);
      assert a == a[..3] + a[3..] && b == b[..3] + b[3..];
    }
  }

  /** Four groups carry three bytes. */
  lemma FirstSextets(b: seq<Byte>)
    requires |b| > 2
    ensures var x := Sextets(b);
            && |x| >= 4 && x[4..] == Sextets(b[3..])
            && b[0] == x[0] * 4 + x[1] / 16
            && b[1] == x[1] % 16 * 16 + x[2] / 4
            && b[2] == x[2] % 4 * 64 + x[3]
  {
  }

  function Base64Text(b: seq<Byte>): string {
    hide BASE64URL; Base64urlIsAlphabet();
    Text(Sextets(b), BASE64URL)
  }

  lemma Base64TextInjective(a: seq<Byte>, b: seq<Byte>)
    requires Base64Text(a) == Base64Text(b)
    ensures a == b
  {
    hide BASE64URL;
    Base64urlIsAlphabet();
    TextInjective(Sextets(a), Sextets(b), BASE64URL);
    SextetsInjective(a, b);
  }
}
