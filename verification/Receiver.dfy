/** The receiving side: reads of any size are appended to a 4096-byte buffer, and the buffer is scanned
    for frames, dropping one byte and looking again whenever something that starts like a frame turns
    out not to be one.

    The class is tied to a scanner of the whole byte stream ever received; the scanner in turn is tied
    to a declarative reading of the stream: a frame is taken wherever one starts outside an earlier one.
  */
module Receiver {
  import opened Binary
  import opened Crc16
  import opened IpcFrame
  import opened CanCodec

  const RX_BUFFER_SIZE := 4096

  // ----- Frames in a byte stream

  predicate HeaderAt(s: seq<byte>, p: nat) {
    p + 2 < |s| && s[p] == SYNC && s[p + 1] == START1 && s[p + 2] == START2
  }

  /** The length of the frame that starts at `p`, going by its LENGTH field. */
  function FrameLength(s: seq<byte>, p: nat): nat
    requires p + PREPARE_SIZE <= |s|
  {
    PREPARE_SIZE + U16(s[p + 7], s[p + 8]) + CRC_SIZE
  }

  predicate LengthOk(n: nat) {
    PREPARE_SIZE + 8 + CRC_SIZE <= n <= MAX_PACKET_SIZE
  }

  ghost predicate CrcOk(frame: seq<byte>)
    requires |frame| >= CRC_SIZE
  {
    var body := |frame| - CRC_SIZE;
    U16(frame[body], frame[body + 1]) == Crc(frame[..body])
  }

  /** A whole well-formed frame starts at `p`. */
  ghost predicate FrameAt(s: seq<byte>, p: nat) {
    && HeaderAt(s, p)
    && p + PREPARE_SIZE <= |s|
    && LengthOk(FrameLength(s, p))
    && p + FrameLength(s, p) <= |s|
    && CrcOk(s[p..p + FrameLength(s, p)])
  }

  /** The ego record a frame carries, if its payload is one. */
  ghost function EgoIn(frame: seq<byte>): seq<EgoVehicle>
    requires |frame| >= PREPARE_SIZE + CRC_SIZE
  {
    match DecodePayload(frame[PREPARE_SIZE..|frame| - CRC_SIZE])
    case Some(ego) => [ego]
    case None => []
  }

  // ----- The scanner

  // Where frames were taken, the ego records they carried, and the first undecided position.
  datatype ScanResult = ScanResult(accepted: seq<nat>, egos: seq<EgoVehicle>, end: nat)

  // What the bytes received so far decide about the position at the front of the buffer.
  datatype Step = Wait | Drop | Take(n: nat)

  ghost function StepAt(s: seq<byte>, p: nat): (step: Step)
    requires p <= |s|
    ensures step.Wait? ==> |s| - p < MAX_PACKET_SIZE
    ensures step.Drop? ==> p < |s|
    ensures step.Take? ==> 0 < step.n && p + step.n <= |s| && PREPARE_SIZE + CRC_SIZE <= step.n
  {
    if |s| - p <= 2 then Wait
    else if !HeaderAt(s, p) then Drop
    else if |s| - p < PREPARE_SIZE then Wait
    else
      var n := FrameLength(s, p);
      if !LengthOk(n) then Drop
      else if |s| - p < n then Wait
      else if !CrcOk(s[p..p + n]) then Drop
      else Take(n)
  }

  ghost function Scan(s: seq<byte>, p: nat): (r: ScanResult)
    requires p <= |s|
    ensures p <= r.end <= |s| && |s| - r.end < MAX_PACKET_SIZE
    decreases |s| - p
  {
    match StepAt(s, p)
    case Wait => ScanResult([], [], p)
    case Drop => Scan(s, p + 1)
    case Take(n) => Then(ScanResult([p], EgoIn(s[p..p + n]), p + n), Scan(s, p + n))
  }

  function Then(a: ScanResult, b: ScanResult): ScanResult {
    ScanResult(a.accepted + b.accepted, a.egos + b.egos, b.end)
  }

  /** Bytes that arrive later never change a decision. */
  lemma StepStable(s: seq<byte>, t: seq<byte>, p: nat)
    requires p <= |s| && !StepAt(s, p).Wait?
    ensures StepAt(s + t, p) == StepAt(s, p)
    ensures StepAt(s, p).Take? ==> (s + t)[p..p + StepAt(s, p).n] == s[p..p + StepAt(s, p).n]
  {
    hide CrcOk;
    assert HeaderAt(s + t, p) == HeaderAt(s, p);
    if HeaderAt(s, p) {
      var n := FrameLength(s, p);
      assert FrameLength(s + t, p) == n;
      if LengthOk(n) {
        assert (s + t)[p..p + n] == s[p..p + n];
      }
    }
  }

  lemma ThenAssociates(a: ScanResult, b: ScanResult, c: ScanResult)
    ensures Then(Then(a, b), c) == Then(a, Then(b, c))
  {
    assert a.accepted + b.accepted + c.accepted == a.accepted + (b.accepted + c.accepted);
    assert a.egos + b.egos + c.egos == a.egos + (b.egos + c.egos);
  }

  lemma ThenFromNothing(p: nat, b: ScanResult)
    ensures Then(ScanResult([], [], p), b) == b
  {
  }

  /** Scanning more of the stream picks up where scanning less of it stopped. */
  lemma {:induction false} ScanExtends(s: seq<byte>, t: seq<byte>, p: nat)
    requires p <= |s|
    ensures Scan(s + t, p) == Then(Scan(s, p), Scan(s + t, Scan(s, p).end))
    decreases |s| - p
  {
    hide StepAt, EgoIn;
    match StepAt(s, p)
    case Wait =>
      ThenFromNothing(p, Scan(s + t, p));
    case Drop =>
      StepStable(s, t, p);
      ScanExtends(s, t, p + 1);
    case Take(n) =>
      StepStable(s, t, p);
      ScanExtends(s, t, p + n);
      ThenAssociates(ScanResult([p], EgoIn(s[p..p + n]), p + n), Scan(s, p + n), Scan(s + t, Scan(s, p).end));
  }

  // ----- Greedy leftmost frames

  /** `p` lies inside an accepted frame, past its first byte. */
  ghost predicate Inside(s: seq<byte>, accepted: seq<nat>, p: nat) {
    exists i :: 0 <= i < |accepted| && Covers(s, accepted[i], p)
  }

  ghost predicate Covers(s: seq<byte>, q: nat, p: nat) {
    q < p && FrameAt(s, q) && p < q + FrameLength(s, q)
  }

  /** `accepted` lists, in order, exactly the positions in from..end where a frame starts outside every accepted one. */
  ghost predicate GreedyLeftmost(s: seq<byte>, from: nat, accepted: seq<nat>, end: nat) {
    && (forall i, j | 0 <= i < j < |accepted| :: accepted[i] < accepted[j])
    && (forall i | 0 <= i < |accepted| ::
        from <= accepted[i] < end && FrameAt(s, accepted[i]) && accepted[i] + FrameLength(s, accepted[i]) <= end)
    && (forall p | from <= p < end :: p in accepted <==> FrameAt(s, p) && !Inside(s, accepted, p))
  }

  lemma StepMeansFrame(s: seq<byte>, p: nat)
    requires p <= |s|
    ensures StepAt(s, p).Take? <==> FrameAt(s, p)
    ensures StepAt(s, p).Take? ==> StepAt(s, p).n == FrameLength(s, p)
  {
    hide CrcOk;
  }

  lemma GreedyDrop(s: seq<byte>, p: nat, accepted: seq<nat>, end: nat)
    requires GreedyLeftmost(s, p + 1, accepted, end) && !FrameAt(s, p)
    ensures GreedyLeftmost(s, p, accepted, end)
  {
    hide FrameAt, Inside;
  }

  lemma GreedyTake(s: seq<byte>, p: nat, n: nat, rest: seq<nat>, end: nat)
    requires FrameAt(s, p) && n == FrameLength(s, p) && p + n <= end && GreedyLeftmost(s, p + n, rest, end)
    ensures GreedyLeftmost(s, p, [p] + rest, end)
  {
    hide FrameAt;
    var accepted := [p] + rest;
    forall q | p <= q < end
      ensures q in accepted <==> FrameAt(s, q) && !Inside(s, accepted, q)
    {
      if q < p + n {
        assert q > p ==> Covers(s, accepted[0], q);
      } else {
        InsideRest(s, p, n, rest, q);
      }
    }
  }

  lemma InsideRest(s: seq<byte>, p: nat, n: nat, rest: seq<nat>, q: nat)
    requires FrameAt(s, p) && n == FrameLength(s, p) && p + n <= q
    ensures Inside(s, [p] + rest, q) == Inside(s, rest, q)
  {
    hide Covers;
    var accepted := [p] + rest;
    assert !Covers(s, p, q) by { NotCovered(s, p, q); }
    if Inside(s, accepted, q) {
      var i :| 0 <= i < |accepted| && Covers(s, accepted[i], q);
      assert Covers(s, rest[i - 1], q);
    }
    if Inside(s, rest, q) {
      var i :| 0 <= i < |rest| && Covers(s, rest[i], q);
      assert Covers(s, accepted[i + 1], q);
    }
  }

  lemma NotCovered(s: seq<byte>, p: nat, q: nat)
    requires FrameAt(s, p) && p + FrameLength(s, p) <= q
    ensures !Covers(s, p, q)
  {
  }

  /** The scanner takes frames greedily from the left and misses none before the first undecided position. */
  lemma {:induction false} ScanIsGreedy(s: seq<byte>, p: nat)
    requires p <= |s|
    ensures GreedyLeftmost(s, p, Scan(s, p).accepted, Scan(s, p).end)
    decreases |s| - p
  {
    hide GreedyLeftmost, StepAt, FrameAt, EgoIn;
    StepMeansFrame(s, p);
    match StepAt(s, p)
    case Wait =>
      NothingDecided(s, p);
    case Drop =>
      ScanIsGreedy(s, p + 1);
      GreedyDrop(s, p, Scan(s, p).accepted, Scan(s, p).end);
    case Take(n) =>
      ScanIsGreedy(s, p + n);
      GreedyTake(s, p, n, Scan(s, p + n).accepted, Scan(s, p).end);
  }

  lemma NothingDecided(s: seq<byte>, p: nat)
    ensures GreedyLeftmost(s, p, [], p)
  {
  }

  /** Greedy leftmost acceptance leaves no choice: at most one list of positions meets it. */
  lemma {:induction false} GreedyIsUnique(s: seq<byte>, from: nat, a: seq<nat>, b: seq<nat>, end: nat)
    requires GreedyLeftmost(s, from, a, end) && GreedyLeftmost(s, from, b, end)
    ensures a == b
    decreases |a|
  {
    hide GreedyLeftmost, FrameAt;
    if a != [] && b != [] {
      FirstIsLeast(s, from, a, b, end);
      FirstIsLeast(s, from, b, a, end);
      GreedyTail(s, from, a, end);
      GreedyTail(s, from, b, end);
      GreedyIsUnique(s, a[0] + FrameLength(s, a[0]), a[1..], b[1..], end);
      assert a == [a[0]] + a[1..] && b == [b[0]] + b[1..];
    } else if a != [] {
      FirstIsLeast(s, from, a, b, end);
    } else if b != [] {
      FirstIsLeast(s, from, b, a, end);
    }
  }

  lemma FirstIsLeast(s: seq<byte>, from: nat, a: seq<nat>, b: seq<nat>, end: nat)
    requires GreedyLeftmost(s, from, a, end) && GreedyLeftmost(s, from, b, end) && a != []
    ensures b != [] && b[0] <= a[0]
  {
    hide FrameAt;
    var x := a[0];
    assert FrameAt(s, x);
    if x in b {
      var i :| 0 <= i < |b| && b[i] == x;
      assert i == 0 || b[0] < b[i];
    } else {
      assert Inside(s, b, x);
      var i :| 0 <= i < |b| && Covers(s, b[i], x);
      assert i == 0 || b[0] < b[i];
    }
  }

  lemma GreedyTail(s: seq<byte>, from: nat, a: seq<nat>, end: nat)
    requires GreedyLeftmost(s, from, a, end) && a != []
    ensures FrameAt(s, a[0]) && a[0] + PREPARE_SIZE <= |s|
    ensures GreedyLeftmost(s, a[0] + FrameLength(s, a[0]), a[1..], end)
  {
    assert FrameAt(s, a[0]);
    var x, n, rest := a[0], FrameLength(s, a[0]), a[1..];
    hide FrameAt;
    assert a == [x] + rest;
    forall i | 0 <= i < |rest|
      ensures x + n <= rest[i]
    {
      assert rest[i] == a[i + 1] && a[i + 1] in a;
      assert Covers(s, a[0], rest[i]) || x + n <= rest[i];
    }
    forall q | x + n <= q < end
      ensures q in rest <==> FrameAt(s, q) && !Inside(s, rest, q)
    {
      InsideRest(s, x, n, rest, q);
    }
  }

  // ----- The receive buffer

  lemma {:induction false} SkipHeaderless(s: seq<byte>, p: nat, q: nat)
    requires p <= q <= |s| && q + 2 <= |s|
    requires forall i | p <= i < q :: !HeaderAt(s, i)
    ensures Scan(s, p) == Scan(s, q)
    decreases q - p
  {
    hide HeaderAt;
    if p < q {
      SkipHeaderless(s, p + 1, q);
    }
  }

  /** On a buffer of exactly the declared length the parser checks the checksum and hands out exactly the payload. */
  lemma ParseExact(frame: seq<byte>)
    requires HeaderAt(frame, 0) && |frame| >= PREPARE_SIZE && FrameLength(frame, 0) == |frame| && LengthOk(|frame|)
    ensures Parse(frame)
         == (if CrcOk(frame) then Ok else CrcMismatch, Frame(0, frame[PREPARE_SIZE..|frame| - CRC_SIZE]))
  {
    hide Crc;
  }

  /** What the loop finds out about a frame it holds in full. */
  lemma StepOfFrame(s: seq<byte>, p: nat, view: seq<byte>, n: nat)
    requires p <= |s| && view == s[p..] && HeaderAt(view, 0) && |view| >= PREPARE_SIZE
    requires n == FrameLength(view, 0) && LengthOk(n) && n <= |view|
    ensures StepAt(s, p) == if CrcOk(view[..n]) then Take(n) else Drop
    ensures s[p..p + n] == view[..n]
    ensures Parse(view[..n])
         == (if CrcOk(view[..n]) then Ok else CrcMismatch, Frame(0, view[..n][PREPARE_SIZE..n - CRC_SIZE]))
  {
    hide Crc, CrcOk, Parse;
    assert s[p..p + n] == view[..n];
    ParseExact(view[..n]);
  }

  /** What the loop finds out before it holds a whole frame. */
  lemma StepOfShortView(s: seq<byte>, p: nat, view: seq<byte>)
    requires p <= |s| && view == s[p..]
    ensures |view| <= 2 ==> StepAt(s, p) == Wait
    ensures HeaderAt(view, 0) && |view| < PREPARE_SIZE ==> StepAt(s, p) == Wait
    ensures HeaderAt(view, 0) && |view| >= PREPARE_SIZE && !LengthOk(FrameLength(view, 0)) ==> StepAt(s, p) == Drop
    ensures HeaderAt(view, 0) && PREPARE_SIZE <= |view| < FrameLength(view, 0) && LengthOk(FrameLength(view, 0))
        ==> StepAt(s, p) == Wait
  {
    hide CrcOk;
  }

  function Advance(step: Step): nat {
    match step
    case Wait => 0
    case Drop => 1
    case Take(n) => n
  }

  lemma ScanStep(s: seq<byte>, p: nat, q: nat, egos: seq<EgoVehicle>)
    requires p <= |s| && q == p + Advance(StepAt(s, p))
    requires egos == if StepAt(s, p).Take? then EgoIn(s[p..q]) else []
    ensures q <= |s|
    ensures Scan(s, p).egos == egos + Scan(s, q).egos && Scan(s, p).end == Scan(s, q).end
    ensures StepAt(s, p).Wait? ==> Scan(s, p) == ScanResult([], [], p)
  {
    hide StepAt, EgoIn;
  }

  lemma HeaderHasThreeBytes(view: seq<byte>, i: nat)
    requires HeaderAt(view, i)
    ensures i + 2 < |view|
  {
  }

  lemma EgoOfPayload(frame: seq<byte>, data: seq<byte>)
    requires |frame| >= PREPARE_SIZE + CRC_SIZE && data == frame[PREPARE_SIZE..|frame| - CRC_SIZE]
    ensures EgoIn(frame) == match DecodePayload(data) case Some(ego) => [ego] case None => []
  {
  }

  lemma HeadersInView(s: seq<byte>, p: nat, view: seq<byte>)
    requires p <= |s| && view == s[p..]
    ensures forall i | p <= i <= |s| :: HeaderAt(s, i) == HeaderAt(view, i - p)
  {
    forall i | p <= i <= |s|
      ensures HeaderAt(s, i) == HeaderAt(view, i - p)
    {
      assert i + 2 < |s| ==> s[i] == view[i - p] && s[i + 1] == view[i - p + 1] && s[i + 2] == view[i - p + 2];
    }
  }

  class CanHandler {
    const rxBuffer: array<byte>
    var rxBufferLen: nat
    // The records handed to the ego callback, in order.
    var emitted: seq<EgoVehicle>
    // Every byte ever read.
    ghost var received: seq<byte>

    ghost predicate Valid()
      reads this`rxBufferLen, this`received, rxBuffer
      ensures Valid() ==> rxBufferLen <= |received|
    {
      && rxBuffer.Length == RX_BUFFER_SIZE
      && rxBufferLen <= RX_BUFFER_SIZE
      && rxBufferLen <= |received|
      && rxBuffer[..rxBufferLen] == received[Position()..]
    }

    /** Where in the stream the buffer starts. */
    ghost function Position(): nat
      reads this`rxBufferLen, this`received
      requires rxBufferLen <= |received|
    {
      |received| - rxBufferLen
    }

    /** Everything the stream decides has been done: the state is a function of the bytes received. */
    ghost predicate Settled()
      reads this, rxBuffer
    {
      && Valid()
      && emitted == Scan(received, 0).egos
      && Position() == Scan(received, 0).end
    }

    constructor ()
      ensures Settled() && received == [] && fresh(rxBuffer)
    {
      rxBuffer := new byte[RX_BUFFER_SIZE];
      rxBufferLen := 0;
      emitted := [];
      received := [];
    }

    method ConsumeRxBytes(count: nat)
      requires Valid()
      modifies this`rxBufferLen, rxBuffer
      ensures Valid()
      ensures rxBufferLen == if count >= old(rxBufferLen) then 0 else old(rxBufferLen) - count
    {
      if count >= rxBufferLen {
        rxBufferLen := 0;
        return;
      }
      forall i | 0 <= i < rxBufferLen - count {
        rxBuffer[i] := rxBuffer[i + count];
      }
      rxBufferLen := rxBufferLen - count;
      assert rxBuffer[..rxBufferLen] == old(rxBuffer[..rxBufferLen])[count..];
    }

    /** Offset of the first header among the first `length` bytes, or `length` if there is none. */
    method FindIpcHeader(length: nat) returns (offset: nat)
      requires length <= rxBuffer.Length
      ensures offset <= length
      ensures offset < length ==> HeaderAt(rxBuffer[..length], offset)
      ensures forall i | 0 <= i < offset :: !HeaderAt(rxBuffer[..length], i)
    {
      var i := 0;
      while i + 2 < length
        invariant forall j | 0 <= j < i :: !HeaderAt(rxBuffer[..length], j)
      {
        if rxBuffer[i] == SYNC && rxBuffer[i + 1] == START1 && rxBuffer[i + 2] == START2 {
          return i;
        }
        i := i + 1;
      }
      return length;
    }

    /** Drops everything before the first header; without one, all but a possible partial FF 55. */
    method SkipToHeader() returns (found: bool)
      requires Valid()
      modifies this`rxBufferLen, rxBuffer
      ensures Valid() && rxBufferLen <= old(rxBufferLen)
      ensures Scan(received, Position()) == Scan(received, old(Position()))
      ensures if found then HeaderAt(rxBuffer[..rxBufferLen], 0) else StepAt(received, Position()) == Wait
    {
      hide Scan, StepAt, HeaderAt;
      var headerOffset := FindIpcHeader(rxBufferLen);
      HeadersInView(received, Position(), rxBuffer[..rxBufferLen]);
      found := headerOffset < rxBufferLen;
      if !found {
        if rxBufferLen > 2 {
          SkipHeaderless(received, Position(), |received| - 2);
          ConsumeRxBytes(rxBufferLen - 2);
        }
        StepOfShortView(received, Position(), rxBuffer[..rxBufferLen]);
      } else if headerOffset > 0 {
        HeaderHasThreeBytes(rxBuffer[..rxBufferLen], headerOffset);
        ghost var p := Position() + headerOffset;
        assert HeaderAt(received, p);
        SkipHeaderless(received, Position(), Position() + headerOffset);
        ConsumeRxBytes(headerOffset);
        HeadersInView(received, Position(), rxBuffer[..rxBufferLen]);
        assert Position() == p;
      }
    }

    /** Decides about the frame that starts with the header at the front of the buffer. */
    method DecideFront() returns (step: Step, ego: Option<EgoVehicle>)
      requires Valid() && HeaderAt(rxBuffer[..rxBufferLen], 0)
      modifies this`rxBufferLen, rxBuffer
      ensures Valid()
      ensures step == StepAt(received, old(Position()))
      ensures Position() == old(Position()) + Advance(step)
      ensures (if ego.Some? then [ego.value] else [])
           == if step.Take? then EgoIn(received[old(Position())..Position()]) else []
    {
      hide StepAt, HeaderAt, CrcOk, Parse, EgoIn, DecodePayload;
      ego := None;
      ghost var view := rxBuffer[..rxBufferLen];
      StepOfShortView(received, Position(), view);
      HeaderHasThreeBytes(view, 0);
      if rxBufferLen < PREPARE_SIZE {
        return Wait, None;
      }
      var payloadLength := U16(rxBuffer[7], rxBuffer[8]);
      var frameLength := PREPARE_SIZE + payloadLength + CRC_SIZE;
      if payloadLength < 8 || frameLength > MAX_PACKET_SIZE {
        ConsumeRxBytes(1);
        return Drop, None;
      }
      if rxBufferLen < frameLength {
        return Wait, None;
      }
      StepOfFrame(received, Position(), view, frameLength);
      assert view[..frameLength] == rxBuffer[..frameLength];
      var result, frame := ParseFrame(rxBuffer, frameLength);
      if result != Ok {
        ConsumeRxBytes(1);
        return Drop, None;
      }
      ego := DecodeCanPayload(frame.data);
      EgoOfPayload(view[..frameLength], frame.data);
      ConsumeRxBytes(frameLength);
      step := Take(frameLength);
    }

    /** The scan loop: it takes and drops exactly what the scanner does, emits the same records and stops at the same
        byte. */
    method ProcessIpcRxBuffer() returns (processed: bool)
      requires Valid()
      modifies this`rxBufferLen, this`emitted, rxBuffer
      ensures Valid()
      ensures var r := Scan(received, old(Position()));
              Position() == r.end && emitted == old(emitted) + r.egos && processed == (r.egos != [])
    {
      hide Valid, Scan, EgoIn, StepAt, HeaderAt;
      processed := false;
      ghost var all := Scan(received, Position());
      ghost var out := [];
      while rxBufferLen > 0
        invariant Valid()
        invariant emitted == old(emitted) + out && processed == (out != [])
        invariant all.egos == out + Scan(received, Position()).egos && all.end == Scan(received, Position()).end
        decreases rxBufferLen
      {
        var found := SkipToHeader();
        ghost var p := Position();
        if !found {
          ScanStep(received, p, p, []);
          break;
        }
        var step, ego := DecideFront();
        ghost var egos := if ego.Some? then [ego.value] else [];
        ScanStep(received, p, Position(), egos);
        if step.Wait? {
          break;
        }
        if ego.Some? {
          emitted := emitted + [ego.value];
          processed := true;
        }
        Regroup(out, egos, Scan(received, Position()).egos);
        out := out + egos;
      }
      EmptyView(received);
    }

    /** Appends one read to the buffer. A read that does not fit throws away what was buffered. */
    method AppendRead(recv: seq<byte>)
      requires Valid() && |recv| <= RX_BUFFER_SIZE
      modifies this`rxBufferLen, this`received, rxBuffer
      ensures Valid()
      ensures received == old(received) + recv
      ensures rxBufferLen == |recv| + if |recv| > RX_BUFFER_SIZE - old(rxBufferLen) then 0 else old(rxBufferLen)
    {
      if |recv| > RX_BUFFER_SIZE - rxBufferLen {
        rxBufferLen := 0;
      }
      ghost var kept := rxBuffer[..rxBufferLen];
      forall i | 0 <= i < |recv| {
        rxBuffer[rxBufferLen + i] := recv[i];
      }
      assert rxBuffer[..rxBufferLen] == kept;
      rxBufferLen := rxBufferLen + |recv|;
      received := received + recv;
      assert rxBuffer[..rxBufferLen] == kept + recv;
    }

    /** One poll with the bytes a read returned; an empty read stands for a timeout or a failed read. */
    method Poll(recv: seq<byte>) returns (processed: bool)
      requires Settled() && |recv| <= MAX_PACKET_SIZE
      modifies this, rxBuffer
      ensures Settled() && received == old(received) + recv
      ensures processed == (emitted != old(emitted))
      ensures rxBufferLen < MAX_PACKET_SIZE
    {
      if recv == [] {
        assert received + recv == received;
        return false;
      }
      hide Scan, EgoIn, StepAt, HeaderAt;
      ghost var before := received;
      AppendRead(recv);
      processed := ProcessIpcRxBuffer();
      ScanExtends(before, recv, 0);
    }

    /** The receive loop: any number of polls, whatever the sizes of their reads. */
    method PollAll(chunks: seq<seq<byte>>)
      requires Settled() && forall i | 0 <= i < |chunks| :: |chunks[i]| <= MAX_PACKET_SIZE
      modifies this, rxBuffer
      ensures Settled() && received == old(received) + Flatten(chunks)
    {
      for i := 0 to |chunks|
        invariant Settled() && received == old(received) + Flatten(chunks[..i])
      {
        FlattenOneMore(chunks, i);
        var _ := Poll(chunks[i]);
      }
      assert chunks[..|chunks|] == chunks;
    }
  }

  ghost function Flatten(chunks: seq<seq<byte>>): seq<byte> {
    if chunks == [] then [] else Flatten(chunks[..|chunks| - 1]) + chunks[|chunks| - 1]
  }

  /** The records in a stream that arrives in the given reads: they depend on the bytes alone. */
  ghost function Received(chunks: seq<seq<byte>>): seq<EgoVehicle> {
    Scan(Flatten(chunks), 0).egos
  }

  /** A receive session from an empty buffer. */
  method ReceiveSession(chunks: seq<seq<byte>>) returns (emitted: seq<EgoVehicle>)
    requires forall i | 0 <= i < |chunks| :: |chunks[i]| <= MAX_PACKET_SIZE
    ensures emitted == Received(chunks)
  {
    var handler := new CanHandler();
    handler.PollAll(chunks);
    assert [] + Flatten(chunks) == Flatten(chunks);
    emitted := handler.emitted;
  }

  lemma FlattenOneMore(chunks: seq<seq<byte>>, i: nat)
    requires i < |chunks|
    ensures Flatten(chunks[..i + 1]) == Flatten(chunks[..i]) + chunks[i]
  {
    assert chunks[..i + 1][..i] == chunks[..i];
  }

  lemma Regroup(a: seq<EgoVehicle>, b: seq<EgoVehicle>, c: seq<EgoVehicle>)
    ensures a + (b + c) == (a + b) + c
  {
  }

  lemma EmptyView(s: seq<byte>)
    ensures Scan(s, |s|) == ScanResult([], [], |s|)
  {
  }
}
