/** The 16-bit division register of x^16 + x^12 + x^5 + 1 on bit lists, most significant bit first.

    Two independent readings of a CRC are proved equal here: feeding a message through the register
    bit by bit, and dividing the message (times x^16) by the generator on paper. The register is
    linear, and no nonzero stretch of at most 16 bits, placed anywhere in a message, divides evenly.
  */
module BitRegister {
  import opened Binary

  type Register = r: seq<bool> | |r| == 16 witness seq(16, _ => false)

  const ZERO: Register := Zeros(16)

  /** The generator's terms below x^16: x^12, x^5 and 1. */
  predicate Tap(i: nat) {
    i == 3 || i == 10 || i == 15
  }

  function Shift(r: Register): (r': Register) {
    seq(16, i requires 0 <= i < 16 => (i < 15 && r[i + 1]) != (r[0] && Tap(i)))
  }

  function ShiftN(r: Register, n: nat): Register
    decreases n
  {
    if n == 0 then r else ShiftN(Shift(r), n - 1)
  }

  /** The register after the bits of `m`: each bit is added to the bit about to leave the register. */
  function Feed(r: Register, m: seq<bool>): Register
    decreases m
  {
    if m == [] then r else Feed(Shift(r[0 := r[0] != m[0]]), m[1..])
  }

  // ----- Linearity

  lemma ShiftLinear(a: Register, b: Register)
    ensures Shift(XorBits(a, b)) == XorBits(Shift(a), Shift(b))
  {
  }

  lemma {:induction false} ShiftNLinear(a: Register, b: Register, n: nat)
    ensures ShiftN(XorBits(a, b), n) == XorBits(ShiftN(a, n), ShiftN(b, n))
    decreases n
  {
    if n > 0 {
      ShiftLinear(a, b);
      ShiftNLinear(Shift(a), Shift(b), n - 1);
    }
  }

  /** The register of a XOR of two messages is the XOR of their registers. */
  lemma {:induction false} FeedLinear(a: Register, m: seq<bool>, b: Register, w: seq<bool>)
    requires |m| == |w|
    ensures Feed(XorBits(a, b), XorBits(m, w)) == XorBits(Feed(a, m), Feed(b, w))
    decreases m
  {
    if m != [] {
      var a', b' := a[0 := a[0] != m[0]], b[0 := b[0] != w[0]];
      assert XorBits(a, b)[0 := XorBits(a, b)[0] != XorBits(m, w)[0]] == XorBits(a', b');
      ShiftLinear(a', b');
      assert XorBits(m, w)[1..] == XorBits(m[1..], w[1..]);
      FeedLinear(Shift(a'), m[1..], Shift(b'), w[1..]);
    }
  }

  lemma {:induction false} FeedConcat(r: Register, m: seq<bool>, w: seq<bool>)
    ensures Feed(r, m + w) == Feed(Feed(r, m), w)
    decreases m
  {
    if m == [] {
      assert m + w == w;
    } else {
      assert (m + w)[1..] == m[1..] + w;
      FeedConcat(Shift(r[0 := r[0] != m[0]]), m[1..], w);
    }
  }

  // ----- Up to 16 bits may be added to the register at once

  function AddTop(r: Register, m: seq<bool>): (r': Register)
    requires |m| <= 16
  {
    seq(16, i requires 0 <= i < 16 => r[i] != (i < |m| && m[i]))
  }

  lemma AddTopStep(r: Register, m: seq<bool>)
    requires 0 < |m| <= 16
    ensures Shift(AddTop(r, m)) == AddTop(Shift(r[0 := r[0] != m[0]]), m[1..])
  {
  }

  lemma {:induction false} FeedIsAddThenShift(r: Register, m: seq<bool>)
    requires |m| <= 16
    ensures Feed(r, m) == ShiftN(AddTop(r, m), |m|)
    decreases m
  {
    if m == [] {
      assert AddTop(r, m) == r;
    } else {
      AddTopStep(r, m);
      FeedIsAddThenShift(Shift(r[0 := r[0] != m[0]]), m[1..]);
    }
  }

  /** Bits that have not reached the top yet just move up. */
  lemma {:induction false} ShiftNMovesUp(r: Register, n: nat)
    requires n <= 16 && forall i | 0 <= i < n :: !r[i]
    ensures ShiftN(r, n) == r[n..] + Zeros(n)
    decreases n
  {
    if n == 0 {
      assert r[0..] + Zeros(0) == r;
    } else {
      assert Shift(r) == r[1..] + [false];
      ShiftNMovesUp(Shift(r), n - 1);
      assert Shift(r)[n - 1..] == r[n..] + [false];
      assert [false] + Zeros(n - 1) == Zeros(n);
      assert (r[n..] + [false]) + Zeros(n - 1) == r[n..] + ([false] + Zeros(n - 1));
    }
  }

  // ----- Burst detection

  lemma ShiftInjective(r: Register)
    requires Shift(r) == ZERO
    ensures r == ZERO
  {
    assert r[0] == Shift(r)[15];
    forall i | 0 <= i < 16
      ensures r[i] == ZERO[i]
    {
      if i > 0 {
        assert r[i] == Shift(r)[i - 1];
      }
    }
  }

  lemma {:induction false} ShiftNInjective(r: Register, n: nat)
    requires ShiftN(r, n) == ZERO
    ensures r == ZERO
    decreases n
  {
    if n > 0 {
      ShiftNInjective(Shift(r), n - 1);
      ShiftInjective(r);
    }
  }

  lemma {:induction false} FeedZeros(r: Register, n: nat)
    ensures Feed(r, Zeros(n)) == ShiftN(r, n)
    decreases n
  {
    if n > 0 {
      assert r[0 := r[0] != Zeros(n)[0]] == r;
      assert Zeros(n)[1..] == Zeros(n - 1);
      FeedZeros(Shift(r), n - 1);
    }
  }

  lemma {:induction false} ShiftNOfZero(n: nat)
    ensures ShiftN(ZERO, n) == ZERO
  {
    if n > 0 {
      assert Shift(ZERO) == ZERO;
      ShiftNOfZero(n - 1);
    }
  }

  /** Error bits that are not all clear and lie within 16 consecutive positions from `start`. */
  ghost predicate IsBurst(e: seq<bool>, start: nat) {
    && (exists j :: 0 <= j < |e| && e[j])
    && (forall j | 0 <= j < |e| && e[j] :: start <= j < start + 16)
  }

  /** Clear bits before and after a stretch of up to 16 bits do not hide it from the register. */
  lemma PaddedWindow(before: nat, v: seq<bool>, after: nat)
    requires |v| <= 16
    requires Feed(ZERO, Zeros(before) + (v + Zeros(after))) == ZERO
    ensures AddTop(ZERO, v) == ZERO
  {
    FeedConcat(ZERO, Zeros(before), v + Zeros(after));
    FeedZeros(ZERO, before);
    ShiftNOfZero(before);
    FeedConcat(ZERO, v, Zeros(after));
    FeedZeros(Feed(ZERO, v), after);
    FeedIsAddThenShift(ZERO, v);
    ShiftNInjective(Feed(ZERO, v), after);
    ShiftNInjective(AddTop(ZERO, v), |v|);
  }

  /** Every burst of at most 16 bits leaves a nonzero register, wherever it falls. */
  lemma BurstNotDivisible(e: seq<bool>, start: nat)
    requires IsBurst(e, start)
    ensures Feed(ZERO, e) != ZERO
  {
    var j :| 0 <= j < |e| && e[j];
    var end := if start + 16 <= |e| then start + 16 else |e|;
    var v := e[start..end];
    assert e == Zeros(start) + (v + Zeros(|e| - end));
    assert AddTop(ZERO, v)[j - start];
    if Feed(ZERO, e) == ZERO {
      PaddedWindow(start, v, |e| - end);
    }
  }

  // ----- Long division

  /** Polynomial long division by the generator: where the leading term is present, subtract the
      generator under it; either way bring down the next term. What is left are 16 terms. */
  function Remainder(dividend: seq<bool>): Register
    requires |dividend| >= 16
    decreases |dividend|
  {
    if |dividend| == 16 then dividend
    else if dividend[0] then Remainder(SubtractGenerator(dividend)[1..])
    else Remainder(dividend[1..])
  }

  function SubtractGenerator(d: seq<bool>): (r: seq<bool>)
    requires |d| > 16
    ensures |r| == |d|
  {
    seq(|d|, i requires 0 <= i < |d| => d[i] != (i == 0 || (i <= 16 && Tap(i - 1))))
  }

  function AddLeading(r: Register, d: seq<bool>): (s: seq<bool>)
    requires |d| >= 16
    ensures |s| == |d|
  {
    seq(|d|, i requires 0 <= i < |d| => (i < 16 && r[i]) != d[i])
  }

  lemma {:induction false} FeedIsRemainder(r: Register, m: seq<bool>)
    ensures Remainder(AddLeading(r, m + Zeros(16))) == Feed(r, m)
    decreases m
  {
    var d := m + Zeros(16);
    var a := AddLeading(r, d);
    if m == [] {
      assert a == r;
    } else {
      var r' := Shift(r[0 := r[0] != m[0]]);
      assert d[1..] == m[1..] + Zeros(16);
      DivisionStep(r, d, r');
      FeedIsRemainder(r', m[1..]);
    }
  }

  lemma DivisionStep(r: Register, d: seq<bool>, r': Register)
    requires |d| > 16
    requires r' == Shift(r[0 := r[0] != d[0]])
    ensures var a := AddLeading(r, d);
            (if a[0] then SubtractGenerator(a)[1..] else a[1..]) == AddLeading(r', d[1..])
  {
    var a := AddLeading(r, d);
    forall i | 0 <= i < |d| - 1
      ensures (if a[0] then SubtractGenerator(a)[1..] else a[1..])[i] == AddLeading(r', d[1..])[i]
    {
      assert a[i + 1] == ((i + 1 < 16 && r[i + 1]) != d[i + 1]);
    }
  }

  /** Feeding a message from the zero register leaves the remainder of message * x^16 by the generator. */
  lemma FeedIsLongDivision(m: seq<bool>)
    ensures Feed(ZERO, m) == Remainder(m + Zeros(16))
  {
    FeedIsRemainder(ZERO, m);
    assert AddLeading(ZERO, m + Zeros(16)) == m + Zeros(16);
  }

  // ----- Residue

  /** A register fed its own contents is emptied, and nothing else of its length empties it. */
  lemma ResidueIsZero(r: Register, m: seq<bool>)
    requires |m| == 16
    ensures Feed(r, m) == ZERO <==> m == r
  {
    FeedIsAddThenShift(r, m);
    var a := AddTop(r, m);
    if m == r {
      assert a == ZERO;
      ShiftNOfZero(16);
    }
    if ShiftN(a, 16) == ZERO {
      ShiftNInjective(a, 16);
      forall i | 0 <= i < 16
        ensures m[i] == r[i]
      {
        assert a[i] == ZERO[i];
      }
      assert m == r;
    }
  }
}
