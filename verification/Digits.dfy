/** Positional notation, most significant digit first, in any base from two up. */
module Digits {

  type Byte = b: nat | b < 256

  ghost predicate InBase(ds: seq<nat>, base: nat) { forall i :: 0 <= i < |ds| ==> ds[i] < base }

  function Value(ds: seq<nat>, base: nat): nat {
    if ds == [] then 0 else Value(ds[..|ds| - 1], base) * base + ds[|ds| - 1]
  }

  lemma ValueAppend(ds: seq<nat>, d: nat, base: nat)
    ensures Value(ds + [d], base) == Value(ds, base) * base + d
  {
    assert (ds + [d])[..|ds|] == ds;
  }

  /** The digits of `n` with no leading zero; none at all for zero. */
  function Minimal(n: nat, base: nat): seq<nat>
    requires base >= 2
    decreases n
  {
    if n == 0 then [] else Minimal(n / base, base) + [n % base]
  }

  function Zeros(k: nat): (z: seq<nat>)
    ensures |z| == k && forall i :: 0 <= i < k ==> z[i] == 0
  {
    seq(k, _ => 0)
  }

  function LeadingZeros(ds: seq<nat>): (k: nat)
    ensures k <= |ds| && forall i :: 0 <= i < k ==> ds[i] == 0
    ensures k < |ds| ==> ds[k] != 0
  {
    if ds == [] || ds[0] != 0 then 0 else 1 + LeadingZeros(ds[1..])
  }

  /** Rewrite `ds` from one base to another, keeping its leading zeros one for one. */
  function Convert(ds: seq<nat>, from: nat, to: nat): seq<nat>
    requires to >= 2
  {
    Zeros(LeadingZeros(ds)) + Minimal(Value(ds, from), to)
  }

  lemma DivModUnique(q: nat, r: nat, base: nat)
    requires r < base
    ensures (q * base + r) / base == q && (q * base + r) % base == r
  {
    var n := q * base + r;
    var p := n / base;
    assert n == p * base + n % base;
    MulLess(p, q, base);
    MulLess(q, p, base);
  }

  lemma {:induction false} MulLess(p: nat, q: nat, base: nat)
    ensures p < q ==> p * base + base <= q * base
    decreases q
  {
    if p < q {
      MulLess(p, q - 1, base);
      assert q * base == (q - 1) * base + base;
    }
  }

  lemma {:induction false} MinimalInBase(n: nat, base: nat)
    requires base >= 2
    ensures InBase(Minimal(n, base), base)
    ensures n != 0 ==> |Minimal(n, base)| > 0 && Minimal(n, base)[0] != 0
    decreases n
  {
    if n != 0 {
      MinimalInBase(n / base, base);
    }
  }

  lemma QuotientRemainder(n: nat, base: nat)
    requires base >= 1
    ensures n == n / base * base + n % base
  {
  }

  lemma {:induction false} ValueOfMinimal(n: nat, base: nat)
    requires base >= 2
    ensures Value(Minimal(n, base), base) == n
    decreases n
  {
    if n != 0 {
      hide Value;
      ValueOfMinimal(n / base, base);
      ValueAppend(Minimal(n / base, base), n % base, base);
      QuotientRemainder(n, base);
    }
  }

  lemma {:induction false} ValuePositive(ds: seq<nat>, base: nat)
    requires base >= 2 && ds != [] && ds[0] != 0
    ensures Value(ds, base) > 0
  {
    if |ds| > 1 {
      ValuePositive(ds[..|ds| - 1], base);
    }
  }

  /** Digits with no leading zero are the minimal digits of their own value. */
  lemma {:induction false} MinimalOfValue(ds: seq<nat>, base: nat)
    requires base >= 2 && InBase(ds, base) && (ds != [] ==> ds[0] != 0)
    ensures Minimal(Value(ds, base), base) == ds
  {
    if ds != [] {
      var init, last := ds[..|ds| - 1], ds[|ds| - 1];
      ValuePositive(ds, base);
      MinimalOfValue(init, base);
      DivModUnique(Value(init, base), last, base);
      assert ds == init + [last];
    }
  }

  lemma {:induction false} ValueSkipsZeros(k: nat, ds: seq<nat>, base: nat)
    ensures Value(Zeros(k) + ds, base) == Value(ds, base)
  {
    var all := Zeros(k) + ds;
    if ds != [] {
      assert all[..|all| - 1] == Zeros(k) + ds[..|ds| - 1];
      ValueSkipsZeros(k, ds[..|ds| - 1], base);
    } else if k != 0 {
      assert all[..|all| - 1] == Zeros(k - 1) + ds;
      ValueSkipsZeros(k - 1, ds, base);
    }
  }

  /** Any digits are their leading zeros followed by the minimal digits of their value. */
  lemma Decompose(ds: seq<nat>, base: nat)
    requires base >= 2 && InBase(ds, base)
    ensures ds == Zeros(LeadingZeros(ds)) + Minimal(Value(ds, base), base)
  {
    var k := LeadingZeros(ds);
    assert ds == Zeros(k) + ds[k..];
    ValueSkipsZeros(k, ds[k..], base);
    MinimalOfValue(ds[k..], base);
  }

  lemma {:induction false} CountLeadingZeros(k: nat, ds: seq<nat>)
    requires ds != [] ==> ds[0] != 0
    ensures LeadingZeros(Zeros(k) + ds) == k
  {
    if k != 0 {
      assert (Zeros(k) + ds)[1..] == Zeros(k - 1) + ds;
      CountLeadingZeros(k - 1, ds);
    } else {
      assert Zeros(k) + ds == ds;
    }
  }

  /** Converting to another base and back is the identity, leading zeros included. */
  lemma ConvertBack(ds: seq<nat>, from: nat, to: nat)
    requires from >= 2 && to >= 2 && InBase(ds, from)
    ensures InBase(Convert(ds, from, to), to)
    ensures Convert(Convert(ds, from, to), to, from) == ds
  {
    var k, n := LeadingZeros(ds), Value(ds, from);
    MinimalInBase(n, to);
    CountLeadingZeros(k, Minimal(n, to));
    ValueSkipsZeros(k, Minimal(n, to), to);
    ValueOfMinimal(n, to);
    Decompose(ds, from);
  }

  /** Equal length and equal value means equal digits. */
  lemma {:induction false} ValueInjective(a: seq<nat>, b: seq<nat>, base: nat)
    requires InBase(a, base) && InBase(b, base) && |a| == |b|
    requires Value(a, base) == Value(b, base)
    ensures a == b
  {
    if a != [] {
      var n := |a| - 1;
      DivModUnique(Value(a[..n], base), a[n], base);
      DivModUnique(Value(b[..n], base), b[n], base);
      ValueInjective(a[..n], b[..n], base);
      assert a == a[..n] + [a[n]] && b == b[..n] + [b[n]];
    }
  }

  function Power(base: nat, k: nat): nat { if k == 0 then 1 else Power(base, k - 1) * base }

  lemma MulLessOrEqual(p: nat, q: nat, base: nat)
    requires p <= q
    ensures p * base <= q * base
  {
    MulLess(p, q, base);
  }

  lemma DivLower(n: nat, p: nat, base: nat)
    requires base >= 2
    ensures n >= p * base <==> n / base >= p
  {
    assert n == (n / base) * base + n % base;
    MulLess(n / base, p, base);
    if n / base >= p {
      MulLessOrEqual(p, n / base, base);
    }
  }

  /** More than `k` digits are needed exactly from the `k`-th power of the base up. */
  lemma {:induction false} MinimalLength(n: nat, base: nat, k: nat)
    requires base >= 2
    ensures |Minimal(n, base)| > k <==> n >= Power(base, k)
    decreases k
  {
    if n != 0 && k != 0 {
      MinimalLength(n / base, base, k - 1);
      DivLower(n, Power(base, k - 1), base);
    } else if n == 0 {
      PowerPositive(base, k);
    }
  }

  lemma {:induction false} PowerPositive(base: nat, k: nat)
    requires base >= 1
    ensures Power(base, k) >= 1
  {
    if k != 0 {
      PowerPositive(base, k - 1);
      assert Power(base, k - 1) * base >= 1 * base;
    }
  }

  /** A value is below the power of the base with as many factors as there are digits. */
  lemma {:induction false} ValueBelowPower(ds: seq<nat>, base: nat)
    requires InBase(ds, base)
    ensures Value(ds, base) < Power(base, |ds|)
  {
    if ds != [] {
      ValueBelowPower(ds[..|ds| - 1], base);
      MulLess(Value(ds[..|ds| - 1], base), Power(base, |ds| - 1), base);
    }
  }

  lemma ProductRegroup(a: nat, p: nat, b: nat)
    ensures a * (p * b) == a * p * b
  {
  }

  lemma ProductOver(a: nat, b: nat, c: nat)
    ensures (a + b) * c == a * c + b * c
  {
  }

  lemma {:induction false} ValueConcat(a: seq<nat>, b: seq<nat>, base: nat)
    ensures Value(a + b, base) == Value(a, base) * Power(base, |b|) + Value(b, base)
  {
    if b == [] {
      assert a + b == a;
    } else {
      var init := b[..|b| - 1];
      ValueConcat(a, init, base);
      assert (a + b)[..|a + b| - 1] == a + init;
      ProductOver(Value(a, base) * Power(base, |init|), Value(init, base), base);
      ProductRegroup(Value(a, base), Power(base, |init|), base);
    }
  }

  lemma {:induction false} PowerSum(base: nat, j: nat, k: nat)
    ensures Power(base, j + k) == Power(base, j) * Power(base, k)
  {
    if k != 0 {
      PowerSum(base, j, k - 1);
      ProductRegroup(Power(base, j), Power(base, k - 1), base);
    }
  }

  lemma DivBetween(n: nat, low: nat, high: nat, base: nat)
    requires base >= 2 && low * base <= n < high * base
    ensures low <= n / base < high
  {
    DivLower(n, low, base);
    DivLower(n, high, base);
  }

  /** What is left of `n` after `k` divisions by the base is its leading digits. */
  lemma {:induction false} LeadingDigits(n: nat, top: nat, base: nat, k: nat)
    requires base >= 2 && top > 0 && top * Power(base, k) <= n < (top + 1) * Power(base, k)
    ensures Minimal(top, base) <= Minimal(n, base)
    ensures |Minimal(n, base)| == |Minimal(top, base)| + k
    decreases k
  {
    PowerPositive(base, k);
    MulLess(0, top, Power(base, k));
    if k != 0 {
      var p := Power(base, k - 1);
      ProductRegroup(top, p, base);
      ProductRegroup(top + 1, p, base);
      DivBetween(n, top * p, (top + 1) * p, base);
      LeadingDigits(n / base, top, base, k - 1);
    }
  }

  function Reverse<T>(s: seq<T>): (r: seq<T>)
    ensures |r| == |s| && forall i :: 0 <= i < |s| ==> r[i] == s[|s| - 1 - i]
  {
    seq(|s|, i requires 0 <= i < |s| => s[|s| - 1 - i])
  }
}

/** Digits written with the characters of an alphabet, and the loops both encoders share. */
module Alphabets {
  import opened Digits
  import opened Results

  // The runs of consecutive characters the alphabets are put together from.
  const DIGITS := "0123456789"
  const UPPER := "ABCDEFGHIJKLM" + "NOPQRSTUVWXYZ"
  const LOWER := "abcdefghijklm" + "nopqrstuvwxyz"

  lemma Sizes()
    ensures |DIGITS| == 10 && |UPPER| == 26 && |LOWER| == 26
  {
  }

  lemma DigitCode(d: nat)
    requires d < |DIGITS|
    ensures DIGITS[d] as int == '0' as int + d
  {
  }

  lemma UpperCode(d: nat)
    requires d < |UPPER|
    ensures UPPER[d] as int == 'A' as int + d
  {
  }

  lemma LowerCode(d: nat)
    requires d < |LOWER|
    ensures LOWER[d] as int == 'a' as int + d
  {
  }

  /** No two digits are written alike. */
  ghost predicate IsAlphabet(a: string) {
    |a| >= 2 && forall i, j :: 0 <= i < j < |a| ==> a[i] != a[j]
  }

  ghost predicate Over(s: string, a: string) { forall i :: 0 <= i < |s| ==> s[i] in a }

  function Text(ds: seq<nat>, a: string): (s: string)
    requires InBase(ds, |a|)
    ensures |s| == |ds|
  {
    seq(|ds|, i requires 0 <= i < |ds| => a[ds[i]])
  }

  /** The position of `c` in the alphabet, if it is there. */
  function IndexByte(a: string, c: char): (r: Option<nat>)
    ensures r.Some? ==> r.value < |a| && a[r.value] == c
    ensures r.None? <==> c !in a
  {
    if a == "" then None
    else if a[|a| - 1] == c then Some(|a| - 1)
    else (assert a == a[..|a| - 1] + [a[|a| - 1]]; IndexByte(a[..|a| - 1], c))
  }

  lemma IndexOfDigit(a: string, d: nat)
    requires IsAlphabet(a) && d < |a|
    ensures IndexByte(a, a[d]) == Some(d)
  {
    assert a[d] in a;
  }

  function DigitsOf(s: string, a: string): (ds: seq<nat>)
    requires Over(s, a)
    ensures |ds| == |s| && InBase(ds, |a|)
  {
    seq(|s|, i requires 0 <= i < |s| => IndexByte(a, s[i]).value)
  }

  lemma DigitsOfText(ds: seq<nat>, a: string)
    requires IsAlphabet(a) && InBase(ds, |a|)
    ensures Over(Text(ds, a), a) && DigitsOf(Text(ds, a), a) == ds
  {
    forall i | 0 <= i < |ds| ensures IndexByte(a, Text(ds, a)[i]) == Some(ds[i]) {
      IndexOfDigit(a, ds[i]);
    }
  }

  lemma TextOfDigits(s: string, a: string)
    requires Over(s, a)
    ensures Text(DigitsOf(s, a), a) == s
  {
  }

  lemma TextInjective(x: seq<nat>, y: seq<nat>, a: string)
    requires IsAlphabet(a) && InBase(x, |a|) && InBase(y, |a|) && Text(x, a) == Text(y, a)
    ensures x == y
  {
    DigitsOfText(x, a);
    DigitsOfText(y, a);
  }

  /** Digit zero is written with the first character and no other. */
  lemma ZeroDigit(s: string, a: string, i: nat)
    requires IsAlphabet(a) && Over(s, a) && i < |s|
    ensures DigitsOf(s, a)[i] == 0 <==> s[i] == a[0]
  {
    IndexOfDigit(a, 0);
  }

  lemma ReverseAppend(out: string, c: char)
    ensures Reverse(out + [c]) == [c] + Reverse(out)
  {
  }

  lemma TextAppend(x: seq<nat>, y: seq<nat>, a: string)
    requires InBase(x, |a|) && InBase(y, |a|)
    ensures InBase(x + y, |a|) && Text(x + y, a) == Text(x, a) + Text(y, a)
  {
  }

  /** Reading one more character multiplies by the base and adds its digit. */
  lemma ReadDigit(s: string, a: string, i: nat)
    requires i < |s| && Over(s[..i], a) && s[i] in a
    ensures Over(s[..i + 1], a)
    ensures Value(DigitsOf(s[..i + 1], a), |a|)
         == Value(DigitsOf(s[..i], a), |a|) * |a| + IndexByte(a, s[i]).value
  {
    hide IndexByte, Value;
    assert s[..i + 1] == s[..i] + [s[i]];
    assert DigitsOf(s[..i + 1], a) == DigitsOf(s[..i], a) + [IndexByte(a, s[i]).value];
    ValueAppend(DigitsOf(s[..i], a), IndexByte(a, s[i]).value, |a|);
  }

  /** Moving one digit from the number to the output keeps what the two spell together. */
  lemma PeelDigit(num: nat, out: string, a: string)
    requires |a| >= 2 && num > 0
    ensures InBase(Minimal(num, |a|), |a|) && InBase(Minimal(num / |a|, |a|), |a|)
    ensures Text(Minimal(num, |a|), a) + Reverse(out)
         == Text(Minimal(num / |a|, |a|), a) + Reverse(out + [a[num % |a|]])
  {
    var base := |a|;
    MinimalInBase(num, base);
    MinimalInBase(num / base, base);
    var digit := num % base;
    assert Minimal(num, base) == Minimal(num / base, base) + [digit];
    TextAppend(Minimal(num / base, base), [digit], a);
    assert Text([digit], a) == [a[digit]];
    ReverseAppend(out, a[digit]);
  }

  /** Repeated division: the digits of `n`, least significant first. */
  method LowDigitsFirst(n: nat, a: string) returns (out: string)
    requires |a| >= 2
    ensures InBase(Minimal(n, |a|), |a|) && Reverse(out) == Text(Minimal(n, |a|), a)
  {
    hide Text, Minimal, Reverse;
    var num: nat := n;
    out := "";
    MinimalInBase(n, |a|);
    while num > 0
      invariant InBase(Minimal(num, |a|), |a|)
      invariant Text(Minimal(num, |a|), a) + Reverse(out) == Text(Minimal(n, |a|), a)
    {
      PeelDigit(num, out, a);
      var mod: nat;
      num, mod := DivMod(num, |a|);
      out := out + [a[mod]];
    }
    NothingLeft(a);
  }

  /** Euclidean division of a natural number, as the big-integer library's. */
  method DivMod(num: nat, radix: nat) returns (quotient: nat, mod: nat)
    requires radix >= 2
    ensures quotient == num / radix && mod == num % radix
    ensures num > 0 ==> quotient < num
  {
    quotient, mod := num / radix, num % radix;
    MulLess(1, radix, quotient);
  }

  lemma NothingLeft(a: string)
    requires |a| >= 2
    ensures Minimal(0, |a|) == [] && Text([], a) == ""
  {
  }

  /** The zero digits kept from the input go last, to be read first after the reversal. */
  method AppendZeros(low: string, zeros: nat, a: string) returns (out: string)
    requires |a| >= 2
    ensures Reverse(out) == Text(Zeros(zeros), a) + Reverse(low)
  {
    out := low;
    for i := 0 to zeros
      invariant Reverse(out) == Text(Zeros(i), a) + Reverse(low)
    {
      ReverseAppend(out, a[0]);
      assert Text(Zeros(i + 1), a) == [a[0]] + Text(Zeros(i), a);
      out := out + [a[0]];
    }
  }

  /** The two-index swap loop both encoders end with. */
  method ReverseInPlace<T>(cells: array<T>)
    modifies cells
    ensures cells[..] == Reverse(old(cells[..]))
  {
    var i, j := 0, cells.Length - 1;
    while i < j
      invariant i >= 0 && i + j == cells.Length - 1 && i <= j + 1
      invariant forall k :: i <= k <= j ==> cells[k] == old(cells[k])
      invariant forall k :: 0 <= k < i ==> cells[k] == old(cells[cells.Length - 1 - k])
      invariant forall k :: j < k < cells.Length ==> cells[k] == old(cells[cells.Length - 1 - k])
      decreases j - i
    {
      cells[i], cells[j] := cells[j], cells[i];
      i, j := i + 1, j - 1;
    }
  }

  method Reversed(out: string) returns (text: string)
    ensures text == Reverse(out)
  {
    var cells := new char[|out|](i requires 0 <= i < |out| => out[i]);
    assert cells[..] == out;
    ReverseInPlace(cells);
    text := cells[..];
  }
}
