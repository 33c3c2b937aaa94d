/** What the receive thread does with each ego record: decide the turn state, update our own record with it and
    switch candidate transmission on or off.
  */
module CanRx {
  import opened Binary
  import opened CanCodec
  import opened Vehicles
  import opened ConflictMap
  import opened ConflictIndex
  import opened SelfVehicle
  import opened NtpTime

  const SIGNAL_NONE := 0
  const SIGNAL_RIGHT := 1
  const SIGNAL_LEFT := 2

  function DecideTurnState(current: TurnState, signal: nat, context: MapContext): TurnState {
    if current != Straight then
      if signal == SIGNAL_NONE then Straight else current
    else if !context.found then Straight
    else if signal == SIGNAL_RIGHT && context.direction == ToRight then RightTurn
    else if signal == SIGNAL_LEFT && context.direction == ToLeft then LeftTurn
    else if signal == SIGNAL_LEFT && context.direction == ToUnprotectedLeft then UnprotectedLeft
    else Straight
  }

  predicate CandidateMode(t: TurnState) {
    t == RightTurn || t == UnprotectedLeft
  }

  // An ego record with what the map says about its position and the epoch time of its arrival; the monotonic clock
  // when the record is updated and when it is read back; and whether the MQTT thread emptied the publish queue since
  // the frame before.
  datatype Frame = Frame(ego: EgoVehicle, context: MapContext, nowMs: nat, updatedMs: nat, checkedMs: nat, taken: bool)

  predicate FrameFits(f: Frame) {
    FitsRecord(f.ego) && f.nowMs < TWO_64
  }

  function SensedAt(f: Frame): nat
    requires FrameFits(f)
  {
    Reconstruct(f.ego.timestamp, f.nowMs)
  }

  // The queue to the MQTT thread holds the latest record only.
  datatype RxState = RxState(self: SelfState, txEnabled: bool, queue: Option<VehicleInfo>)

  function OnFrame(s: RxState, id: byte, relations: seq<Relation>, behind: Behind, f: Frame): RxState
    requires FrameFits(f)
  {
    var next := DecideTurnState(s.self.turnState, f.ego.turnSignal, f.context);
    var self := AfterEgo(s.self.(turnState := next), id, relations, behind, f.ego, f.context, SensedAt(f), f.updatedMs);
    RxState(
      self,
      if CandidateMode(s.self.turnState) != CandidateMode(next) then CandidateMode(next) else s.txEnabled,
      if FreshInfo(self, f.checkedMs).Some? then FreshInfo(self, f.checkedMs) else s.queue)
  }

  class RxThread {
    const self: SelfVehicleManager
    var txEnabled: bool
    var queue: Option<VehicleInfo>

    ghost function State(): RxState
      reads this, self
    {
      RxState(self.State(), txEnabled, queue)
    }

    constructor (self: SelfVehicleManager)
      ensures this.self == self && State() == RxState(self.State(), false, None)
    {
      this.self := self;
      txEnabled := false;
      queue := None;
    }

    /** The MQTT thread takes the record that is waiting, if any. */
    method TryPop() returns (record: Option<VehicleInfo>)
      modifies this`queue
      ensures record == old(queue) && queue == None
    {
      record := queue;
      queue := None;
    }

    method OnEgoFrame(f: Frame)
      requires FrameFits(f) && |self.info.conflictZoneIds| <= MAX_CONFLICT_ZONES
      modifies this, self
      ensures State() == OnFrame(old(State()), self.vehicleId, self.relations, self.behind, f)
      ensures |self.info.conflictZoneIds| <= MAX_CONFLICT_ZONES
    {
      hide AfterEgo, FreshInfo;
      var current := self.turnState;
      var next := DecideTurnState(current, f.ego.turnSignal, f.context);
      self.SetTurnState(next);
      self.UpdateFromCan(f.ego, f.context, SensedAt(f), f.updatedMs);
      var record := self.GetInfo(f.checkedMs);
      if record.Some? {
        queue := record;
      }
      if CandidateMode(current) != CandidateMode(next) {
        txEnabled := CandidateMode(next);
      }
    }
  }

  // ----- Runs

  predicate FramesFit(frames: seq<Frame>) {
    forall i | 0 <= i < |frames| :: FrameFits(frames[i])
  }

  function Popped(s: RxState, f: Frame): RxState {
    if f.taken then s.(queue := None) else s
  }

  /** The state after the first `n` frames. */
  function ReachedRx(id: byte, relations: seq<Relation>, behind: Behind, frames: seq<Frame>, n: nat): RxState
    requires n <= |frames| && FramesFit(frames)
  {
    if n == 0 then RxState(Initial(id), false, None)
    else OnFrame(Popped(ReachedRx(id, relations, behind, frames, n - 1), frames[n - 1]), id, relations, behind,
        frames[n - 1])
  }

  predicate SignalOff(f: Frame) {
    f.ego.turnSignal == 0
  }

  /** The turn that the signal and the lane of a frame allow together, straight if none. */
  function Enables(f: Frame): TurnState {
    if !f.context.found then Straight
    else
      match f.context.direction
      case ToRight => if f.ego.turnSignal == 1 then RightTurn else Straight
      case ToLeft => if f.ego.turnSignal == 2 then LeftTurn else Straight
      case ToUnprotectedLeft => if f.ego.turnSignal == 2 then UnprotectedLeft else Straight
      case _ => Straight
  }

  /** The first turn enabled among frames from..to. */
  function FirstEnabled(frames: seq<Frame>, from: nat, to: nat): TurnState
    requires from <= to <= |frames|
    decreases |frames| - from
  {
    if from == to then Straight
    else if Enables(frames[from]) != Straight then Enables(frames[from])
    else FirstEnabled(frames, from + 1, to)
  }

  /** The frame after the last one with the signal off, among the first `n`. */
  function SinceOff(frames: seq<Frame>, n: nat): (k: nat)
    requires n <= |frames|
    ensures k <= n && (forall i | k <= i < n :: !SignalOff(frames[i])) && (k > 0 ==> SignalOff(frames[k - 1]))
  {
    if n == 0 then 0 else if SignalOff(frames[n - 1]) then n else SinceOff(frames, n - 1)
  }

  lemma {:induction false} FirstEnabledNext(frames: seq<Frame>, from: nat, to: nat)
    requires from <= to < |frames|
    ensures FirstEnabled(frames, from, to + 1)
        == (if FirstEnabled(frames, from, to) != Straight then FirstEnabled(frames, from, to) else Enables(frames[to]))
    decreases |frames| - from
  {
    hide Enables;
    if from == to {
      assert FirstEnabled(frames, to + 1, to + 1) == Straight;
    } else {
      FirstEnabledNext(frames, from + 1, to);
    }
  }

  lemma FrameTurn(s: RxState, id: byte, relations: seq<Relation>, behind: Behind, f: Frame)
    requires FrameFits(f)
    ensures var s' := OnFrame(s, id, relations, behind, f);
            var next := DecideTurnState(s.self.turnState, f.ego.turnSignal, f.context);
            && s'.self.turnState == next
            && s'.txEnabled
               == if CandidateMode(s.self.turnState) != CandidateMode(next) then CandidateMode(next) else s.txEnabled
  {
    hide ZonesAfter, TurnStateName, FreshInfo, Reconstruct, DecideTurnState;
  }

  lemma TurnNext(id: byte, relations: seq<Relation>, behind: Behind, frames: seq<Frame>, n: nat)
    requires n < |frames| && FramesFit(frames)
    ensures var t, t' := ReachedRx(id, relations, behind, frames, n).self.turnState,
                         ReachedRx(id, relations, behind, frames, n + 1).self.turnState;
            t' == (if SignalOff(frames[n]) then Straight else if t != Straight then t else Enables(frames[n]))
  {
    hide OnFrame, FrameFits;
    FrameTurn(Popped(ReachedRx(id, relations, behind, frames, n), frames[n]), id, relations, behind, frames[n]);
  }

  /** Turn state in closed form: the first turn enabled since the signal was last off, straight if there was none. */
  lemma {:induction false} TurnStateClosedForm(id: byte, relations: seq<Relation>, behind: Behind, frames: seq<Frame>,
      n: nat)
    requires n <= |frames| && FramesFit(frames)
    ensures ReachedRx(id, relations, behind, frames, n).self.turnState == FirstEnabled(frames, SinceOff(frames, n), n)
  {
    hide OnFrame, Enables;
    if n > 0 {
      TurnStateClosedForm(id, relations, behind, frames, n - 1);
      TurnNext(id, relations, behind, frames, n - 1);
      if !SignalOff(frames[n - 1]) {
        FirstEnabledNext(frames, SinceOff(frames, n - 1), n - 1);
      }
    }
  }

  /** A turn only ever ends on a signal-off frame, in straight: one turn never becomes another directly. */
  lemma NoDirectSwitch(id: byte, relations: seq<Relation>, behind: Behind, frames: seq<Frame>, n: nat)
    requires n < |frames| && FramesFit(frames)
    ensures var t, t' := ReachedRx(id, relations, behind, frames, n).self.turnState,
                         ReachedRx(id, relations, behind, frames, n + 1).self.turnState;
            && (t != Straight ==> (t' != t <==> SignalOff(frames[n])) && (t' == t || t' == Straight))
            && (t == Straight ==> t' == Enables(frames[n]))
  {
    TurnNext(id, relations, behind, frames, n);
  }

  lemma {:induction false} FlagIsMode(id: byte, relations: seq<Relation>, behind: Behind, frames: seq<Frame>, n: nat)
    requires n <= |frames| && FramesFit(frames)
    ensures var s := ReachedRx(id, relations, behind, frames, n); s.txEnabled <==> CandidateMode(s.self.turnState)
  {
    hide DecideTurnState, OnFrame, FrameFits;
    if n > 0 {
      var s := Popped(ReachedRx(id, relations, behind, frames, n - 1), frames[n - 1]);
      FlagIsMode(id, relations, behind, frames, n - 1);
      FrameTurn(s, id, relations, behind, frames[n - 1]);
    }
  }

  /** Candidate transmission is enabled exactly while the first turn since the signal was last off is a right turn or
      an unprotected left. */
  lemma FlagFollowsTurn(id: byte, relations: seq<Relation>, behind: Behind, frames: seq<Frame>, n: nat)
    requires n <= |frames| && FramesFit(frames)
    ensures var turn := FirstEnabled(frames, SinceOff(frames, n), n);
            ReachedRx(id, relations, behind, frames, n).txEnabled <==> turn == RightTurn || turn == UnprotectedLeft
  {
    hide ReachedRx;
    FlagIsMode(id, relations, behind, frames, n);
    TurnStateClosedForm(id, relations, behind, frames, n);
  }

  /** A text cut to at most 15 characters. */
  predicate CutOf(cut: string, text: string) {
    cut <= text && (|cut| == 15 || cut == text)
  }

  /** The record after a frame, field by field: the ego fields, the map's ids cut to their length, and the name of the
      turn in force. */
  lemma RecordOfFrame(id: byte, relations: seq<Relation>, behind: Behind, frames: seq<Frame>, n: nat)
    requires n < |frames| && FramesFit(frames)
    ensures var s, f := ReachedRx(id, relations, behind, frames, n + 1).self, frames[n];
            && s.valid && s.ego == f.ego && s.updatedMs == f.updatedMs
            && s.info.vehicleId == id && s.info.x == f.ego.x && s.info.y == f.ego.y
            && s.info.speed == f.ego.speed && s.info.heading == f.ego.heading
            && (if f.context.found then
                  CutOf(s.info.laneletId, f.context.laneletId) && CutOf(s.info.linkedTlId, f.context.trafficLightId)
                else s.info.laneletId == s.info.linkedTlId == "")
            && s.info.turnState == match FirstEnabled(frames, SinceOff(frames, n + 1), n + 1)
                                   case Straight => "straight"
                                   case RightTurn => "right_turn"
                                   case LeftTurn => "left_turn"
                                   case UnprotectedLeft => "unprotected_left"
  {
    hide ZonesAfter, FreshInfo, SensedAt, DecideTurnState, FirstEnabled;
    TurnStateClosedForm(id, relations, behind, frames, n + 1);
  }

  /** The record can be read back exactly while the last frame is at most 300 ms old, and never before the first. */
  lemma ReadableIff(id: byte, relations: seq<Relation>, behind: Behind, frames: seq<Frame>, n: nat, nowMs: nat)
    requires n <= |frames| && FramesFit(frames)
    ensures var s := ReachedRx(id, relations, behind, frames, n).self;
            FreshInfo(s, nowMs) ==
            if n > 0 && (nowMs - frames[n - 1].updatedMs) % TWO_64 <= 300 then Some(s.info) else None
  {
    hide ZonesAfter, SensedAt, DecideTurnState, TurnStateName;
  }

  /** The record is stamped with the sensing time of the last frame if that frame arrived within 4096 ms. */
  lemma StampedWithSensingTime(id: byte, relations: seq<Relation>, behind: Behind, frames: seq<Frame>, n: nat, t: nat)
    requires n < |frames| && FramesFit(frames)
    requires frames[n].ego.timestamp == t % MODULO_MS && t <= frames[n].nowMs < t + MODULO_MS
    ensures ReachedRx(id, relations, behind, frames, n + 1).self.info.timestampMs == t
  {
    hide Reconstruct, ZonesAfter, DecideTurnState, TurnStateName, FreshInfo;
    ReconstructIff(t, frames[n].nowMs);
  }

  /** The records of frames that are read back within 300 ms go to the publish queue. */
  predicate Publishes(f: Frame) {
    (f.checkedMs - f.updatedMs) % TWO_64 <= 300
  }

  /** Frame `k` is the last that published, and the MQTT thread has not emptied the queue since. */
  predicate Waiting(frames: seq<Frame>, k: nat, n: nat) {
    k < n <= |frames| && Publishes(frames[k]) && forall i | k < i < n :: !Publishes(frames[i]) && !frames[i].taken
  }

  lemma FrameQueue(s: RxState, id: byte, relations: seq<Relation>, behind: Behind, f: Frame)
    requires FrameFits(f)
    ensures var s' := OnFrame(s, id, relations, behind, f);
            s'.queue == if Publishes(f) then Some(s'.self.info) else s.queue
  {
    hide ZonesAfter, TurnStateName, Reconstruct, DecideTurnState;
  }

  /** The queue holds the record of the last frame that published, unless the MQTT thread has taken it since. */
  lemma {:induction false} QueueHoldsLatest(id: byte, relations: seq<Relation>, behind: Behind, frames: seq<Frame>,
      n: nat)
    requires n <= |frames| && FramesFit(frames)
    ensures var queue := ReachedRx(id, relations, behind, frames, n).queue;
            && (queue.Some? <==> exists k: nat :: Waiting(frames, k, n))
            && (forall k: nat | Waiting(frames, k, n) ::
                  queue == Some(ReachedRx(id, relations, behind, frames, k + 1).self.info))
  {
    hide OnFrame, Publishes, FramesFit, Waiting;
    if n == 0 {
      NothingWaiting(frames);
    } else {
      var m := n - 1;
      QueueHoldsLatest(id, relations, behind, frames, m);
      FrameOfRun(frames, m);
      FrameQueue(Popped(ReachedRx(id, relations, behind, frames, m), frames[m]), id, relations, behind, frames[m]);
      forall k: nat
        ensures Waiting(frames, k, n) <==>
                if k == m then Publishes(frames[m])
                else Waiting(frames, k, m) && !Publishes(frames[m]) && !frames[m].taken
      {
        WaitingNext(frames, k, m);
      }
      if Publishes(frames[m]) {
        assert Waiting(frames, m, n);
      } else if k: nat :| Waiting(frames, k, m) && !frames[m].taken {
        WaitingNext(frames, k, m);
        assert Waiting(frames, k, n);
      }
    }
  }

  lemma FrameOfRun(frames: seq<Frame>, i: nat)
    requires i < |frames| && FramesFit(frames)
    ensures FrameFits(frames[i])
  {
  }

  lemma NothingWaiting(frames: seq<Frame>)
    ensures forall k: nat :: !Waiting(frames, k, 0)
  {
  }

  lemma WaitingNext(frames: seq<Frame>, k: nat, n: nat)
    requires n < |frames|
    ensures Waiting(frames, k, n) ==> k < n
    ensures Waiting(frames, k, n + 1) <==>
            if k == n then Publishes(frames[n]) else Waiting(frames, k, n) && !Publishes(frames[n]) && !frames[n].taken
  {
    hide Publishes;
    if k < n && Waiting(frames, k, n + 1) {
      assert !Publishes(frames[n]) && !frames[n].taken;
    }
  }

  // ----- Frames as steps of the self-vehicle record

  /** Each frame sets the turn state and then updates the record. */
  function StepsOf(id: byte, relations: seq<Relation>, behind: Behind, frames: seq<Frame>, n: nat): (r: seq<Step>)
    requires n <= |frames| && FramesFit(frames)
    ensures |r| == 2 * n && StepsFit(r)
  {
    if n == 0 then []
    else
      var f := frames[n - 1];
      StepsOf(id, relations, behind, frames, n - 1)
      + [SetTurn(ReachedRx(id, relations, behind, frames, n).self.turnState),
          SelfVehicle.Ego(f.ego, f.context, SensedAt(f), f.updatedMs)]
  }

  lemma {:induction false} ReachedOfPrefix(id: byte, relations: seq<Relation>, behind: Behind, steps: seq<Step>,
      more: seq<Step>, n: nat)
    requires n <= |steps| && StepsFit(steps) && StepsFit(steps + more)
    ensures Reached(id, relations, behind, steps + more, n) == Reached(id, relations, behind, steps, n)
  {
    hide AfterEgo;
    if n > 0 {
      ReachedOfPrefix(id, relations, behind, steps, more, n - 1);
    }
  }

  lemma FrameIsTwoSteps(s: RxState, id: byte, relations: seq<Relation>, behind: Behind, f: Frame)
    requires FrameFits(f)
    ensures var s' := OnFrame(s, id, relations, behind, f);
            s'.self == After(After(s.self, id, relations, behind, SetTurn(s'.self.turnState)), id, relations, behind,
                SelfVehicle.Ego(f.ego, f.context, SensedAt(f), f.updatedMs))
  {
    hide ZonesAfter, TurnStateName;
  }

  lemma {:induction false} FramesAreSteps(id: byte, relations: seq<Relation>, behind: Behind, frames: seq<Frame>,
      n: nat)
    requires n <= |frames| && FramesFit(frames)
    ensures ReachedRx(id, relations, behind, frames, n).self
        == Reached(id, relations, behind, StepsOf(id, relations, behind, frames, n), 2 * n)
  {
    hide After, OnFrame, StepsFit;
    if n > 0 {
      FramesAreSteps(id, relations, behind, frames, n - 1);
      var before, steps := StepsOf(id, relations, behind, frames, n - 1), StepsOf(id, relations, behind, frames, n);
      ReachedOfPrefix(id, relations, behind, before, steps[2 * n - 2..], 2 * n - 2);
      assert before + steps[2 * n - 2..] == steps;
      FrameIsTwoSteps(Popped(ReachedRx(id, relations, behind, frames, n - 1), frames[n - 1]), id, relations, behind,
          frames[n - 1]);
      StepsAt(id, relations, behind, frames, n, n - 1);
      assert Reached(id, relations, behind, steps, 2 * n - 1)
          == After(Reached(id, relations, behind, steps, 2 * n - 2), id, relations, behind, steps[2 * n - 2]);
    }
  }

  lemma {:induction false} StepsAt(id: byte, relations: seq<Relation>, behind: Behind, frames: seq<Frame>, n: nat,
      i: nat)
    requires i < n <= |frames| && FramesFit(frames)
    ensures var steps := StepsOf(id, relations, behind, frames, n);
            && steps[2 * i] == SetTurn(ReachedRx(id, relations, behind, frames, i + 1).self.turnState)
            && steps[2 * i + 1] == SelfVehicle.Ego(frames[i].ego, frames[i].context, SensedAt(frames[i]),
                frames[i].updatedMs)
  {
    hide ReachedRx, StepsFit, FramesFit;
    var before, steps := StepsOf(id, relations, behind, frames, n - 1), StepsOf(id, relations, behind, frames, n);
    if i < n - 1 {
      StepsAt(id, relations, behind, frames, n - 1, i);
      assert steps[2 * i] == before[2 * i] && steps[2 * i + 1] == before[2 * i + 1];
    } else {
      assert |before| == 2 * i;
    }
  }

  lemma NothingFilled(id: byte, relations: seq<Relation>, behind: Behind, frames: seq<Frame>, k: nat, n: nat)
    requires k < n <= |frames| && FramesFit(frames) && forall i | k < i < n :: !OnLane(frames[i].context)
    ensures var steps := StepsOf(id, relations, behind, frames, n);
            forall i | 2 * k + 1 < i < 2 * n :: !Fills(steps[i])
  {
    hide OnLane, ReachedRx, StepsOf, FramesFit, StepsFit;
    var steps := StepsOf(id, relations, behind, frames, n);
    forall i | 2 * k + 1 < i < 2 * n
      ensures !Fills(steps[i])
    {
      StepsAt(id, relations, behind, frames, n, i / 2);
    }
  }

  /** Zone tracking over frames: the zones filled in at the last on-lane frame `k`, for the turn in force after it, less
      those that a later frame found behind the vehicle. */
  lemma ZonesOfFrames(id: byte, relations: seq<Relation>, behind: Behind, frames: seq<Frame>, k: nat, n: nat)
    requires k < n <= |frames| && FramesFit(frames) && ZonesNamed(relations)
    requires OnLane(frames[k].context) && forall i | k < i < n :: !OnLane(frames[i].context)
    ensures ReachedRx(id, relations, behind, frames, n).self.info.conflictZoneIds
         == Unpassed(FilledZones(relations, frames[k].context.laneletId,
             FirstEnabled(frames, SinceOff(frames, k + 1), k + 1)),
                     behind, StepsOf(id, relations, behind, frames, n), 2 * k + 2, 2 * n)
  {
    hide FilledZones, Unpassed, OnLane, ZonesNamed, After, ReachedRx, StepsOf, FramesFit, StepsFit;
    var steps := StepsOf(id, relations, behind, frames, n);
    FramesAreSteps(id, relations, behind, frames, n);
    StepsAt(id, relations, behind, frames, n, k);
    NothingFilled(id, relations, behind, frames, k, n);
    ZonesTracked(id, relations, behind, steps, 2 * k + 1, 2 * n);
    TurnBeforeUpdate(id, relations, behind, steps, 2 * k);
    TurnStateClosedForm(id, relations, behind, frames, k + 1);
  }

  lemma TurnBeforeUpdate(id: byte, relations: seq<Relation>, behind: Behind, steps: seq<Step>, i: nat)
    requires i < |steps| && StepsFit(steps) && steps[i].SetTurn?
    ensures Reached(id, relations, behind, steps, i + 1).turnState == steps[i].t
  {
  }
}
