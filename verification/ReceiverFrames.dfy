/** What counts as a frame in the stream, in terms of the bytes, and how promptly the receiver decides. */
module ReceiverFrames {
  import opened Binary
  import opened Crc16
  import opened IpcFrame
  import opened Receiver

  /** The bytes begin with a frame: start pattern, a LENGTH of 8 to 1013, and that many payload bytes and a checksum
      that make the whole divide evenly. */
  ghost predicate BeginsWithFrame(v: seq<byte>) {
    && StartsFrame(v) && |v| >= 11 && 8 <= LengthField(v) <= 1013 && LengthField(v) + 11 <= |v|
    && Crc(v[..LengthField(v) + 11]) == 0
  }

  lemma CrcOkIff(frame: seq<byte>)
    requires |frame| >= CRC_SIZE
    ensures CrcOk(frame) <==> Crc(frame) == 0
  {
    hide Crc;
    var body := |frame| - CRC_SIZE;
    ZeroResidue(frame[..body], frame[body], frame[body + 1]);
    assert frame[..body] + [frame[body], frame[body + 1]] == frame;
  }

  lemma FieldsOfView(s: seq<byte>, p: nat)
    requires p <= |s|
    ensures HeaderAt(s, p) <==> StartsFrame(s[p..])
    ensures p + PREPARE_SIZE <= |s| ==> FrameLength(s, p) == LengthField(s[p..]) + 11
  {
  }

  /** The frames that the receiver takes are exactly these. */
  lemma FrameAtIff(s: seq<byte>, p: nat)
    requires p <= |s|
    ensures FrameAt(s, p) <==> BeginsWithFrame(s[p..])
  {
    hide CrcOk, Crc, StartsFrame, HeaderAt, LengthField, FrameLength;
    FieldsOfView(s, p);
    if p + PREPARE_SIZE <= |s| {
      var n := LengthField(s[p..]) + 11;
      if p + n <= |s| {
        assert s[p..p + n] == s[p..][..n];
        CrcOkIff(s[p..p + n]);
      }
    }
  }

  // ----- Completing a frame

  /** A beginning of a frame with its framing bytes present can be completed unless it already has a wrong checksum
      byte. */
  lemma Completed(v: seq<byte>) returns (t: seq<byte>)
    requires StartsFrame(v) && |v| >= 9 && 8 <= LengthField(v) <= 1013 && |v| < LengthField(v) + 11
    requires |v| == LengthField(v) + 10 ==> v[|v| - 1] == Crc(v[..|v| - 1]) / 256
    ensures BeginsWithFrame(v + t)
  {
    hide Crc;
    var body := LengthField(v) + 9;
    if |v| == body + 1 {
      var crc := Crc(v[..body]);
      t := [crc % 256];
      ZeroResidue(v[..body], crc / 256, crc % 256);
      assert v + t == v[..body] + [crc / 256, crc % 256];
    } else {
      var packet := v + seq(body - |v|, _ => 0);
      var crc := Crc(packet);
      t := seq(body - |v|, _ => 0) + [crc / 256, crc % 256];
      ZeroResidue(packet, crc / 256, crc % 256);
      assert v + t == packet + [crc / 256, crc % 256];
    }
    assert (v + t)[..LengthField(v + t) + 11] == v + t;
  }

  /** A shorter beginning can be completed unless the one LENGTH byte present is already too large. */
  lemma FramedBeginning(v: seq<byte>) returns (pad: seq<byte>)
    requires StartsFrame(v) && |v| < 9 && (|v| == 8 ==> v[7] < 4)
    ensures |v + pad| == 9 && StartsFrame(v + pad) && 8 <= LengthField(v + pad) <= 1013
  {
    if |v| == 8 {
      pad := [if v[7] == 0 then 8 else 0];
    } else {
      pad := seq(7 - |v|, _ => 0) + [0, 8];
    }
  }

  /** The receiver is waiting for a frame that can no longer come: the high byte of LENGTH is too large, or the first
      byte of the checksum is already wrong. */
  ghost predicate Hopeless(v: seq<byte>) {
    || (|v| == 8 && v[7] >= 4)
    || (|v| >= 9 && |v| == LengthField(v) + 10 && v[|v| - 1] != Crc(v[..|v| - 1]) / 256)
  }

  lemma WaitingView(s: seq<byte>, p: nat)
    requires p <= |s| && |s| - p >= 3 && StepAt(s, p) == Wait
    ensures var v := s[p..];
            StartsFrame(v) && (|v| >= 9 ==> 8 <= LengthField(v) <= 1013 && |v| < LengthField(v) + 11)
  {
    hide CrcOk;
    FieldsOfView(s, p);
  }

  lemma ChecksumBytes(v: seq<byte>, body: nat)
    requires body + 2 <= |v|
    ensures Crc(v[..body + 2]) == 0 ==> v[body] == Crc(v[..body]) / 256
  {
    hide Crc;
    ZeroResidue(v[..body], v[body], v[body + 1]);
    assert v[..body + 2] == v[..body] + [v[body], v[body + 1]];
  }

  lemma HopelessForGood(v: seq<byte>, t: seq<byte>)
    requires Hopeless(v)
    ensures !BeginsWithFrame(v + t)
  {
    hide Crc;
    if |v| >= 9 && |v + t| >= |v| + 1 {
      assert LengthField(v + t) == LengthField(v);
      ChecksumBytes(v + t, |v| - 1);
      assert (v + t)[..|v| - 1] == v[..|v| - 1];
    }
  }

  /** Past the first three bytes the receiver waits only for bytes that could still complete a frame, with two
      exceptions where it could have known better by one or two bytes. */
  lemma WaitsForFrames(s: seq<byte>, p: nat)
    requires p <= |s| && |s| - p >= 3 && StepAt(s, p) == Wait
    ensures (exists t :: FrameAt(s + t, p)) <==> !Hopeless(s[p..])
  {
    hide Crc, FrameAt, BeginsWithFrame, Hopeless, StartsFrame, LengthField, StepAt;
    var v := s[p..];
    WaitingView(s, p);
    if Hopeless(v) {
      forall t
        ensures !FrameAt(s + t, p)
      {
        HopelessForGood(v, t);
        FrameAtIff(s + t, p);
        assert (s + t)[p..] == v + t;
      }
    } else {
      var t := CompletionOf(v);
      FrameAtIff(s + t, p);
      assert (s + t)[p..] == v + t;
    }
  }

  lemma CompletionOf(v: seq<byte>) returns (t: seq<byte>)
    requires StartsFrame(v) && (|v| >= 9 ==> 8 <= LengthField(v) <= 1013 && |v| < LengthField(v) + 11) && !Hopeless(v)
    ensures BeginsWithFrame(v + t)
  {
    hide Crc, BeginsWithFrame, StartsFrame, LengthField;
    if |v| >= 9 {
      t := Completed(v);
    } else {
      var pad := FramedBeginning(v);
      var more := Completed(v + pad);
      t := pad + more;
      assert v + t == v + pad + more;
    }
  }

  /** What is dropped could never have become a frame, and nothing is left undecided for 1024 bytes. */
  lemma DropsForGood(s: seq<byte>, p: nat, t: seq<byte>)
    requires p <= |s|
    ensures StepAt(s, p) == Drop ==> !FrameAt(s + t, p)
    ensures StepAt(s, p) == Wait ==> |s| - p < 1024
  {
    hide StepAt, FrameAt;
    if StepAt(s, p) == Drop {
      StepStable(s, t, p);
      StepMeansFrame(s + t, p);
    }
  }
}
