/** The registration proof-of-work rule, with the hash function as a parameter. */
module Pow {
  import opened Digits

  const NONCE_SPACE := 0x1_0000_0000_0000_0000

  /** A nonce as eight big-endian bytes. */
  function NonceBytes(n: nat, w: nat): (b: seq<Byte>)
    ensures |b| == w
  {
    if w == 0 then [] else NonceBytes(n / 256, w - 1) + [n % 256]
  }

  lemma QuotientBelow(n: nat, p: nat)
    requires n < p * 256
    ensures n / 256 < p
  {
  }

  lemma {:induction false} NonceBytesValue(n: nat, w: nat)
    requires n < Power(256, w)
    ensures Value(NonceBytes(n, w), 256) == n
  {
    if w != 0 {
      QuotientBelow(n, Power(256, w - 1));
      NonceBytesValue(n / 256, w - 1);
      ValueAppend(NonceBytes(n / 256, w - 1), n % 256, 256);
      assert n == n / 256 * 256 + n % 256;
    }
  }

  /** The number of leading zero bits of one byte. */
  function ByteZeroBits(b: Byte): (n: nat)
    ensures n <= 8
  {
    if b == 0 then 8 else if b < 2 then 7 else if b < 4 then 6 else if b < 8 then 5
    else if b < 16 then 4 else if b < 32 then 3 else if b < 64 then 2 else if b < 128 then 1 else 0
  }

  function ZeroBits(digest: seq<Byte>): nat {
    if digest == [] then 0
    else if digest[0] == 0 then 8 + ZeroBits(digest[1..])
    else ByteZeroBits(digest[0])
  }

  method LeadingZeroBits(digest: seq<Byte>) returns (n: nat)
    ensures n == ZeroBits(digest)
  {
    n := 0;
    for i := 0 to |digest|
      invariant n + ZeroBits(digest[i..]) == ZeroBits(digest)
    {
      if digest[i] == 0 {
        n := n + 8;
        continue;
      }
      n := n + ByteZeroBits(digest[i]);
      break;
    }
  }

  lemma {:induction false} ValueFirst(ds: seq<nat>, base: nat)
    requires ds != []
    ensures Value(ds, base) == ds[0] * Power(base, |ds| - 1) + Value(ds[1..], base)
    decreases |ds|
  {
    var n := |ds|;
    if n > 1 {
      ValueFirst(ds[..n - 1], base);
      assert ds[..n - 1][1..] == ds[1..][..n - 2];
      var p, low := Power(base, n - 2), Value(ds[1..][..n - 2], base);
      assert (ds[0] * p + low) * base == ds[0] * (p * base) + low * base;
    } else {
      assert ds[..0] == [] && ds[1..] == [];
    }
  }

  lemma Power256(k: nat)
    ensures Power(256, k) == Power(2, 8 * k)
  {
    if k != 0 {
      Power256(k - 1);
      PowerSum(2, 8 * (k - 1), 8);
      assert Power(2, 8) == 256;
    }
  }

  lemma SmallPowersOfTwo()
    ensures Power(2, 0) == 1 && Power(2, 1) == 2 && Power(2, 2) == 4 && Power(2, 3) == 8 && Power(2, 4) == 16
    ensures Power(2, 5) == 32 && Power(2, 6) == 64 && Power(2, 7) == 128 && Power(2, 8) == 256
  {
    assert Power(2, 4) == 16;
    assert Power(2, 6) == 64;
  }

  /** A byte has at least `k` leading zero bits exactly when it is below 2^(8 - k). */
  lemma ByteBelow(b: Byte, k: nat)
    requires k <= 8
    ensures ByteZeroBits(b) >= k <==> b < Power(2, 8 - k)
  {
    SmallPowersOfTwo();
  }

  lemma TopDigitBelow(b: nat, low: nat, unit: nat, bound: nat)
    requires low < unit
    ensures b * unit + low < bound * unit <==> b < bound
  {
    MulLess(b, bound, unit);
    if b >= bound {
      MulLessOrEqual(bound, b, unit);
    }
  }

  /** With at most eight zero bits asked for, the first byte decides. */
  lemma FirstByteDecides(digest: seq<Byte>, k: nat)
    requires digest != [] && k <= 8
    ensures ByteZeroBits(digest[0]) >= k <==> Value(digest, 256) < Power(2, 8 * |digest| - k)
  {
    hide Value, Power, ByteZeroBits;
    var b, rest, m := digest[0], digest[1..], |digest| - 1;
    ValueFirst(digest, 256);
    ValueBelowPower(rest, 256);
    Power256(m);
    ByteBelow(b, k);
    PowerSum(2, 8 - k, 8 * m);
    assert 8 - k + 8 * m == 8 * |digest| - k;
    TopDigitBelow(b, Value(rest, 256), Power(2, 8 * m), Power(2, 8 - k));
  }

  /** With more asked for, a first byte that is not zero is too much by itself. */
  lemma FirstByteTooLarge(digest: seq<Byte>, k: nat)
    requires digest != [] && 8 < k <= 8 * |digest| && digest[0] != 0
    ensures Value(digest, 256) >= Power(2, 8 * |digest| - k)
  {
    hide Value, Power;
    var m := |digest| - 1;
    ValueFirst(digest, 256);
    Power256(m);
    PowerMonotone(8 * |digest| - k, 8 * m);
    MulLessOrEqual(1, digest[0], Power(2, 8 * m));
  }

  /**
   * A digest has at least `k` leading zero bits exactly when, read as a big-endian number, it is
   * below 2^(8 * length - k): the difficulty is a numeric target.
   */
  lemma {:induction false} DifficultyIsTarget(digest: seq<Byte>, k: nat)
    requires k <= 8 * |digest|
    ensures ZeroBits(digest) >= k <==> Value(digest, 256) < Power(2, 8 * |digest| - k)
    decreases |digest|
  {
    if digest != [] {
      if k <= 8 {
        FirstByteDecides(digest, k);
      } else if digest[0] == 0 {
        ValueFirst(digest, 256);
        DifficultyIsTarget(digest[1..], k - 8);
      } else {
        FirstByteTooLarge(digest, k);
      }
    }
  }

  lemma {:induction false} PowerMonotone(m: nat, n: nat)
    requires m <= n
    ensures Power(2, m) <= Power(2, n)
    decreases n
  {
    if m < n {
      PowerMonotone(m, n - 1);
    }
  }

  function Preimage(challenge: seq<Byte>, publicKey: seq<Byte>, nonce: nat): seq<Byte> {
    challenge + publicKey + NonceBytes(nonce, 8)
  }

  predicate VerifySolution(sha256: seq<Byte> -> seq<Byte>, challenge: seq<Byte>, publicKey: seq<Byte>,
                           nonce: nat, difficulty: int) {
    ZeroBits(sha256(Preimage(challenge, publicKey, nonce))) >= difficulty
  }

  lemma NonceSpace()
    ensures Power(256, 8) == NONCE_SPACE
  {
    assert Power(256, 4) == 0x1_0000_0000;
    PowerSum(256, 4, 4);
  }

  /**
   * A nonce solves a challenge exactly when the digest of the challenge, the key and the nonce as eight
   * big-endian bytes, in this order, is below the target.
   */
  lemma SolvesExactlyWhen(sha256: seq<Byte> -> seq<Byte>, challenge: seq<Byte>, publicKey: seq<Byte>,
                          nonce: nat, bytes: seq<Byte>, difficulty: nat)
    requires |bytes| == 8 && Value(bytes, 256) == nonce
    requires difficulty <= 8 * |sha256(challenge + publicKey + bytes)|
    ensures var digest := sha256(challenge + publicKey + bytes);
      VerifySolution(sha256, challenge, publicKey, nonce, difficulty) <==>
      Value(digest, 256) < Power(2, 8 * |digest| - difficulty)
  {
    hide Value, Power, ZeroBits;
    NonceSpace();
    ValueBelowPower(bytes, 256);
    NonceBytesValue(nonce, 8);
    ValueInjective(bytes, NonceBytes(nonce, 8), 256);
    DifficultyIsTarget(sha256(challenge + publicKey + bytes), difficulty);
  }

  /** For challenges of one length, a solution's preimage names its challenge, its key and its nonce. */
  lemma PreimageInjective(c: seq<Byte>, k: seq<Byte>, n: nat, c': seq<Byte>, k': seq<Byte>, n': nat)
    requires |c| == |c'| && n < NONCE_SPACE && n' < NONCE_SPACE
    requires Preimage(c, k, n) == Preimage(c', k', n')
    ensures c == c' && k == k' && n == n'
  {
    var p, p' := Preimage(c, k, n), Preimage(c', k', n');
    assert c == p[..|c|] && c' == p'[..|c|];
    assert NonceBytes(n, 8) == p[|p| - 8..] && NonceBytes(n', 8) == p'[|p| - 8..];
    assert k == p[|c|..|p| - 8] && k' == p'[|c|..|p| - 8];
    NonceSpace();
    NonceBytesValue(n, 8);
    NonceBytesValue(n', 8);
  }

  /** The solver returns the least solution, given that one exists. */
  method Solve(sha256: seq<Byte> -> seq<Byte>, challenge: seq<Byte>, publicKey: seq<Byte>, difficulty: int,
               ghost known: nat) returns (nonce: nat)
    requires known < NONCE_SPACE && VerifySolution(sha256, challenge, publicKey, known, difficulty)
    ensures nonce < NONCE_SPACE && VerifySolution(sha256, challenge, publicKey, nonce, difficulty)
    ensures forall n :: 0 <= n < nonce ==> !VerifySolution(sha256, challenge, publicKey, n, difficulty)
  {
    nonce := 0;
    while !VerifySolution(sha256, challenge, publicKey, nonce, difficulty)
      invariant nonce <= known
      invariant forall n :: 0 <= n < nonce ==> !VerifySolution(sha256, challenge, publicKey, n, difficulty)
      decreases known - nonce
    {
      nonce := nonce + 1;
    }
  }
}
