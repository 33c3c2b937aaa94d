/** Unsigned machine integers as naturals with their binary digits: the bitwise operators the program
    uses, and bit lists (most significant bit first) for the arguments that go bit by bit.

    `x << k` is `x * 2^k`, `x >> k` is `x / 2^k` and `x & (2^k - 1)` is `x % 2^k`; exclusive or and
    inclusive or are defined here digit by digit.
  */
module Binary {

  type byte = b: int | 0 <= b < 256
  type word = w: int | 0 <= w < 0x1_0000

  function Pow2(k: nat): (p: nat)
    ensures p >= 1
  {
    if k == 0 then 1 else 2 * Pow2(k - 1)
  }

  lemma {:induction false} Pow2Sum(i: nat, j: nat)
    ensures Pow2(i + j) == Pow2(i) * Pow2(j)
  {
    if j > 0 {
      Pow2Sum(i, j - 1);
    }
  }

  lemma SmallPowers()
    ensures Pow2(1) == 2 && Pow2(2) == 4 && Pow2(3) == 8 && Pow2(4) == 16 && Pow2(5) == 32
    ensures Pow2(7) == 128 && Pow2(8) == 256 && Pow2(15) == 0x8000 && Pow2(16) == 0x1_0000
  {
    assert Pow2(5) == 32;
    Pow2Sum(4, 4);
    Pow2Sum(8, 7);
    Pow2Sum(8, 8);
  }

  function Xor(a: nat, b: nat): nat {
    if a == 0 then b
    else if b == 0 then a
    else 2 * Xor(a / 2, b / 2) + (if a % 2 != b % 2 then 1 else 0)
  }

  function Or(a: nat, b: nat): nat {
    if a == 0 then b
    else if b == 0 then a
    else 2 * Or(a / 2, b / 2) + (if a % 2 == 1 || b % 2 == 1 then 1 else 0)
  }

  /** The `k` low binary digits of `n`, most significant first. */
  function Bits(n: nat, k: nat): (r: seq<bool>)
    ensures |r| == k
  {
    if k == 0 then [] else Bits(n / 2, k - 1) + [n % 2 == 1]
  }

  function Zeros(k: nat): (r: seq<bool>)
    ensures |r| == k && forall i | 0 <= i < k :: !r[i]
  {
    seq(k, _ => false)
  }

  function XorBits(a: seq<bool>, b: seq<bool>): (r: seq<bool>)
    requires |a| == |b|
    ensures |r| == |a| && forall i | 0 <= i < |r| :: r[i] == (a[i] != b[i])
  {
    seq(|a|, i requires 0 <= i < |a| => a[i] != b[i])
  }

  lemma XorDigits(a: nat, b: nat)
    ensures Xor(a, b) / 2 == Xor(a / 2, b / 2)
    ensures Xor(a, b) % 2 == 1 <==> a % 2 != b % 2
  {
  }

  lemma {:induction false} XorIsBitwise(a: nat, b: nat, k: nat)
    ensures Bits(Xor(a, b), k) == XorBits(Bits(a, k), Bits(b, k))
  {
    if k > 0 {
      XorDigits(a, b);
      XorIsBitwise(a / 2, b / 2, k - 1);
    }
  }

  lemma {:induction false} XorBound(a: nat, b: nat, k: nat)
    requires a < Pow2(k) && b < Pow2(k)
    ensures Xor(a, b) < Pow2(k)
  {
    if a > 0 && b > 0 {
      XorBound(a / 2, b / 2, k - 1);
    }
  }

  lemma {:induction false} BitsInjective(a: nat, b: nat, k: nat)
    requires a < Pow2(k) && b < Pow2(k)
    requires Bits(a, k) == Bits(b, k)
    ensures a == b
  {
    if k > 0 {
      assert Bits(a, k)[k - 1] == Bits(b, k)[k - 1];
      assert Bits(a, k)[..k - 1] == Bits(a / 2, k - 1);
      assert Bits(b, k)[..k - 1] == Bits(b / 2, k - 1);
      BitsInjective(a / 2, b / 2, k - 1);
    }
  }

  /** The digits of a number put together from a high and a low part. */
  lemma {:induction false} BitsOfParts(high: nat, i: nat, low: nat, j: nat)
    requires low < Pow2(j)
    ensures Bits(high * Pow2(j) + low, i + j) == Bits(high, i) + Bits(low, j)
  {
    if j > 0 {
      var n := high * Pow2(j) + low;
      HalfOfParts(high, Pow2(j - 1), low, Pow2(j));
      BitsOfParts(high, i, low / 2, j - 1);
      assert Bits(high, i) + (Bits(low / 2, j - 1) + [low % 2 == 1])
          == Bits(high, i) + Bits(low / 2, j - 1) + [low % 2 == 1];
    }
  }

  lemma Doubled(c: nat, p: nat, q: nat)
    requires q == 2 * p
    ensures c * q == 2 * (c * p)
  {
  }

  lemma HalfOfParts(high: nat, p: nat, low: nat, q: nat)
    requires q == 2 * p
    ensures (high * q + low) / 2 == high * p + low / 2
    ensures (high * q + low) % 2 == low % 2
  {
    Doubled(high, p, q);
  }

  lemma {:induction false} BitsOfZero(k: nat)
    ensures Bits(0, k) == Zeros(k)
  {
    if k > 0 {
      BitsOfZero(k - 1);
    }
  }

  /** A shifted field and a value below it share no digit, so `|` puts them side by side. */
  lemma {:induction false} OrOfFields(high: nat, k: nat, low: nat)
    requires low < Pow2(k)
    ensures Or(high * Pow2(k), low) == high * Pow2(k) + low
  {
    if k > 0 && low > 0 && high > 0 {
      HalfOfParts(high, Pow2(k - 1), 0, Pow2(k));
      OrOfFields(high, k - 1, low / 2);
      assert high * Pow2(k) > 0;
    }
  }
}
