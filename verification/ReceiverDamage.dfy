/** Damage in the stream, as the receiver meets it: it takes the length of a frame from the very bytes that may be
    damaged.
  */
module ReceiverDamage {
  import opened Binary
  import opened BitRegister
  import opened Crc16
  import opened IpcFrame
  import opened Receiver

  /** The header and LENGTH bytes of a frame, on which the receiver's framing rests. */
  predicate Framing(i: nat) {
    i < 3 || i == 7 || i == 8
  }

  /** The stream with an error added to the bytes from `p` on. */
  function Damaged(s: seq<byte>, p: nat, error: seq<byte>): (r: seq<byte>)
    requires p + |error| <= |s|
    ensures |r| == |s|
  {
    s[..p] + XorBytes(s[p..p + |error|], error) + s[p + |error|..]
  }

  lemma XorWithZero(a: nat)
    ensures Xor(a, 0) == a
  {
  }

  lemma DamagedAt(s: seq<byte>, p: nat, error: seq<byte>, i: nat)
    requires p + |error| <= |s| && i < |error|
    ensures Damaged(s, p, error)[p + i] == Xor(s[p + i], error[i])
    ensures error[i] == 0 ==> Damaged(s, p, error)[p + i] == s[p + i]
  {
    hide Xor;
    var x := XorBytes(s[p..p + |error|], error);
    assert Damaged(s, p, error)[p + i] == x[i];
    XorWithZero(s[p + i]);
  }

  lemma FramingKept(s: seq<byte>, p: nat, error: seq<byte>)
    requires PREPARE_SIZE <= |error| && p + |error| <= |s|
    requires forall i: nat | Framing(i) :: error[i] == 0
    ensures HeaderAt(Damaged(s, p, error), p) == HeaderAt(s, p)
    ensures FrameLength(Damaged(s, p, error), p) == FrameLength(s, p)
  {
    hide Damaged;
    assert Framing(0) && Framing(1) && Framing(2) && Framing(7) && Framing(8);
    DamagedAt(s, p, error, 0);
    DamagedAt(s, p, error, 1);
    DamagedAt(s, p, error, 2);
    DamagedAt(s, p, error, 7);
    DamagedAt(s, p, error, 8);
  }

  lemma TakenFacts(s: seq<byte>, p: nat)
    requires p <= |s| && StepAt(s, p).Take?
    ensures var n := StepAt(s, p).n;
            && HeaderAt(s, p) && p + PREPARE_SIZE <= |s| && n == FrameLength(s, p) && LengthOk(n) && p + n <= |s|
            && CrcOk(s[p..p + n])
  {
    hide CrcOk;
  }

  lemma ExactFrame(frame: seq<byte>)
    requires HeaderAt(frame, 0) && |frame| >= PREPARE_SIZE && FrameLength(frame, 0) == |frame| && LengthOk(|frame|)
    ensures CrcOk(frame) <==> Parse(frame).0 == Ok
  {
    hide Parse, CrcOk;
    ParseExact(frame);
  }

  lemma HeaderOfSlice(s: seq<byte>, p: nat, n: nat)
    requires HeaderAt(s, p) && p + PREPARE_SIZE <= |s| && PREPARE_SIZE <= n && p + n <= |s|
    ensures HeaderAt(s[p..p + n], 0) && FrameLength(s[p..p + n], 0) == FrameLength(s, p)
  {
  }

  lemma TakenFrameParses(s: seq<byte>, p: nat)
    requires p <= |s| && StepAt(s, p).Take?
    ensures Parse(s[p..p + StepAt(s, p).n]).0 == Ok
  {
    hide CrcOk, Parse, StepAt;
    TakenFacts(s, p);
    HeaderOfSlice(s, p, StepAt(s, p).n);
    ExactFrame(s[p..p + StepAt(s, p).n]);
  }

  /** On a whole frame with sound framing the receiver decides by the checksum, as the parser does. */
  lemma StepOfWhole(t: seq<byte>, p: nat, n: nat)
    requires HeaderAt(t, p) && p + PREPARE_SIZE <= |t| && n == FrameLength(t, p) && LengthOk(n) && p + n <= |t|
    ensures StepAt(t, p) == if Parse(t[p..p + n]).0 == Ok then Take(n) else Drop
  {
    hide CrcOk, Parse;
    HeaderOfSlice(t, p, n);
    ExactFrame(t[p..p + n]);
  }

  lemma DamagedSlice(s: seq<byte>, p: nat, error: seq<byte>)
    requires p + |error| <= |s|
    ensures Damaged(s, p, error)[p..p + |error|] == XorBytes(s[p..p + |error|], error)
  {
  }

  /** Damage that spares header and LENGTH leaves the decision to the checksum of the damaged frame. */
  lemma DamagedFrameDecides(s: seq<byte>, p: nat, error: seq<byte>)
    requires p <= |s| && StepAt(s, p) == Take(|error|) && p + |error| <= |s|
    requires forall i: nat | Framing(i) && i < |error| :: error[i] == 0
    ensures StepAt(Damaged(s, p, error), p)
         == if Parse(XorBytes(s[p..p + |error|], error)).0 == Ok then Take(|error|) else Drop
  {
    hide CrcOk, Parse, Damaged, StepAt, HeaderAt, FrameLength, LengthOk, XorBytes, Xor;
    TakenFacts(s, p);
    FramingKept(s, p, error);
    StepOfWhole(Damaged(s, p, error), p, |error|);
    DamagedSlice(s, p, error);
  }

  /** Burst detection at the receiver: a frame that would be taken is dropped, at the same position, when damage
      within 16 consecutive bits spares its header and LENGTH. */
  lemma BurstIsDropped(s: seq<byte>, p: nat, error: seq<byte>, start: nat)
    requires p <= |s| && StepAt(s, p) == Take(|error|) && p + |error| <= |s|
    requires forall i: nat | Framing(i) && i < |error| :: error[i] == 0
    requires IsBurst(BitsOf(error), start)
    ensures StepAt(Damaged(s, p, error), p) == Drop
  {
    hide Parse, Damaged, BitsOf, IsBurst, StepAt, Framing, XorBytes, Xor;
    TakenFrameParses(s, p);
    DamagedFrameDecides(s, p, error);
    BurstIsRefused(s[p..p + |error|], error, start);
  }

  /** Damage to the header alone drops the position too, whatever else is damaged. */
  lemma DamagedHeaderIsDropped(s: seq<byte>, p: nat, error: seq<byte>, i: nat)
    requires p <= |s| && StepAt(s, p) == Take(|error|) && p + |error| <= |s|
    requires i < 3 && i < |error| && error[i] != 0
    ensures StepAt(Damaged(s, p, error), p) == Drop
  {
    hide CrcOk, Damaged;
    TakenFacts(s, p);
    DamagedAt(s, p, error, i);
    XorChanges(s[p + i], error[i]);
  }

  lemma {:induction false} XorChanges(a: nat, e: nat)
    requires e != 0
    ensures Xor(a, e) != a
  {
    if a != 0 {
      if e / 2 == 0 {
        assert e == 1;
        XorWithZero(a / 2);
      } else {
        XorChanges(a / 2, e / 2);
      }
    }
  }
}
