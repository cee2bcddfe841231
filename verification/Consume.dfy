/** Consume sessions (cmd/reckon/cmd_subs.go): the bridge and pump, with the Ack calls
    of the three ack modes and the concurrent stdin reader, and the checkpoint that
    survives from one session to the next.

    Server contract: an RPC opened when the stored checkpoint says `next` delivers
    events next, next + 1, ... in order; an Ack that takes effect moves the checkpoint
    past the event it names and never back; a delivery's checkpoint is its own event
    number.  An Ack may also fail, which the tool ignores.  The stdin reader starts
    before the RPC is opened, so an Ack can move the checkpoint the stream starts at. */
module Consume {
  import opened Options
  import opened Errors
  import opened Bridge

  datatype Delivery = Delivery(event: nat, checkpoint: nat)

  datatype Mode = Auto | NoAck | Stdin

  /** A line of stdin: not JSON, or an object whose "ack" key may be absent. */
  datatype Line = Malformed | AckLine(ack: Option<nat>)

  datatype Act =
    | Step(a: Action, acked: bool)        // acked: whether an Ack made here takes effect
    | StdinLine(line: Line, acked: bool)
    | StdinEof

  /** `from` is the first event of the stream, fixed when the RPC opens; `next` is the
      first event the stored checkpoint does not cover; `tried` records every Ack call
      in order and `took` those that took effect. */
  datatype Session = Session(b: State<Delivery>, from: nat, next: nat, tried: seq<nat>, took: seq<nat>,
                             stdinDone: bool)

  /** What the server has to offer a session: so many events, and how it ends. */
  datatype Offer = Offer(count: nat, openErr: Option<GoError>, end: End)

  function ToDelivery(n: nat): Delivery {
    Delivery(n, n)
  }

  function Offered(from: nat, count: nat): (ns: seq<nat>)
    ensures |ns| == count && forall i :: 0 <= i < count ==> ns[i] == from + i
  {
    seq(count, i requires 0 <= i < count => from + i)
  }

  /** The stream of an RPC opened at checkpoint `from`. */
  function OpenAt(from: nat, o: Offer): Config<nat, Delivery> {
    Config(Script(o.openErr, Offered(from, o.count), o.end), ToDelivery)
  }

  function Advance(next: nat, n: nat): nat {
    if n < next then next else n + 1
  }

  function AckNumber(line: Line): nat
    requires line.AckLine?
  {
    if line.ack.Some? then line.ack.value else 0
  }

  function Acked(s: Session, n: nat, effective: bool): Session {
    if effective then s.(tried := s.tried + [n], took := s.took + [n], next := Advance(s.next, n))
    else s.(tried := s.tried + [n])
  }

  function SessionStep(o: Offer, mode: Mode, s: Session, act: Act): Option<Session> {
    match act
    case Step(a, acked) =>
      if a.Quit? then None
      else
        var from := if a.Open? then s.next else s.from;
        var b := Apply(OpenAt(from, o), s.b, a);
        if b.None? then None
        else if mode.Auto? && a.CallFrame? && s.b.cons.CFrame? then
          Some(Acked(s, s.b.cons.v.checkpoint, acked).(b := b.value))
        else Some(s.(b := b.value, from := from))
    case StdinLine(line, acked) =>
      if !mode.Stdin? || s.stdinDone then None
      else if line.Malformed? then Some(s)
      else Some(Acked(s, AckNumber(line), acked))
    case StdinEof =>
      if !mode.Stdin? || s.stdinDone then None
      else Some(s.(stdinDone := true, b := if s.b.ctx.None? then s.b.(ctx := Some(CtxCanceled)) else s.b))
  }

  function RunSession(o: Offer, mode: Mode, s: Session, acts: seq<Act>): Option<Session>
    decreases |acts|
  {
    if acts == [] then Some(s)
    else
      var next := SessionStep(o, mode, s, acts[0]);
      if next.None? then None else RunSession(o, mode, next.value, acts[1..])
  }

  function Start(from: nat): Session {
    Session(Init(), from, from, [], [], false)
  }

  /** Event numbers whose delivery frame was written. */
  function Written(out: seq<Frame<Delivery>>): set<nat> {
    set i | 0 <= i < |out| && out[i].Value? :: out[i].v.checkpoint
  }

  function WrittenCount(b: State<Delivery>): int {
    |b.delivered| - (if b.cons.CFrame? || b.cons.CLine? then 1 else 0)
  }

  // ------------------------------------------------------- one session, any mode

  ghost predicate Sound(o: Offer, s: Session) {
    Inv(OpenAt(s.from, o), s.b) && !s.b.cons.CGone? && s.from <= s.next
  }

  lemma StartIsSound(from: nat, o: Offer)
    ensures Sound(o, Start(from))
  {
  }

  lemma SentAt(from: nat, o: Offer, i: nat)
    requires i < o.count
    ensures Sent(OpenAt(from, o))[i] == Delivery(from + i, from + i)
  {
  }

  /** Until the RPC is opened it makes no difference where the stream will start. */
  lemma NotYetOpen(m: nat, n: nat, o: Offer, b: State<Delivery>)
    requires Inv(OpenAt(m, o), b) && b.prod.POpen? && !b.cons.CGone?
    ensures Inv(OpenAt(n, o), b) && b.delivered == [] && Written(b.out) == {}
  {
    assert [Ready] + Values<Delivery>([]) == [Ready];
    assert b.out == [] || b.out == [Ready];
    assert forall i :: 0 <= i < |b.out| ==> !b.out[i].Value?;
  }

  lemma StepKeepsSound(o: Offer, mode: Mode, s: Session, act: Act)
    requires Sound(o, s) && SessionStep(o, mode, s, act).Some?
    ensures Sound(o, SessionStep(o, mode, s, act).value)
  {
    if act.Step? {
      var from := if act.a.Open? then s.next else s.from;
      if act.a.Open? {
        NotYetOpen(s.from, from, o, s.b);
      }
      StepKeepsInv(OpenAt(from, o), s.b, act.a);
      OnlyQuitLeaves(OpenAt(from, o), s.b, act.a);
    } else if act.StdinEof? && s.b.ctx.None? {
      StepKeepsInv(OpenAt(s.from, o), s.b, Cancel(CtxCanceled));
    }
  }

  lemma {:induction false} RunKeepsSound(o: Offer, mode: Mode, s: Session, acts: seq<Act>)
    requires Sound(o, s) && RunSession(o, mode, s, acts).Some?
    ensures Sound(o, RunSession(o, mode, s, acts).value)
    decreases |acts|
  {
    if acts == [] {
    } else {
      StepKeepsSound(o, mode, s, acts[0]);
      RunKeepsSound(o, mode, SessionStep(o, mode, s, acts[0]).value, acts[1..]);
    }
  }

  /** The frames a pump has written so far: ready, the values, a terminal. */
  lemma OutShape(cfg: Config<nat, Delivery>, b: State<Delivery>)
    requires Inv(cfg, b) && !b.cons.CGone?
    ensures 0 <= WrittenCount(b) <= |b.delivered|
    ensures b.cons.CReady? ==> b.out == [] && b.delivered == []
    ensures !b.cons.CReady? ==>
      && [Ready] + Values(b.delivered[..WrittenCount(b)]) <= b.out
      && forall i :: WrittenCount(b) < i < |b.out| ==> !b.out[i].Value?
  {
    assert b.delivered[..|b.delivered|] == b.delivered;
  }

  /** What a session has written is an unbroken block of event numbers starting at
      the checkpoint its RPC was opened at. */
  lemma WrittenIsBlock(o: Offer, s: Session)
    requires Sound(o, s)
    ensures WrittenCount(s.b) >= 0
    ensures forall n: nat :: n in Written(s.b.out) <==> s.from <= n < s.from + WrittenCount(s.b)
  {
    OutShape(OpenAt(s.from, o), s.b);
    forall n: nat
      ensures n in Written(s.b.out) <==> s.from <= n < s.from + WrittenCount(s.b)
    {
      if s.from <= n < s.from + WrittenCount(s.b) {
        FrameAt(o, s, n - s.from);
        assert s.b.out[(n - s.from) + 1].Value?;
      }
      if n in Written(s.b.out) {
        WrittenIsInBlock(o, s, n);
      }
    }
  }

  lemma WrittenIsInBlock(o: Offer, s: Session, n: nat)
    requires Sound(o, s) && n in Written(s.b.out)
    ensures s.from <= n < s.from + WrittenCount(s.b)
  {
    OutShape(OpenAt(s.from, o), s.b);
    var i :| 0 <= i < |s.b.out| && s.b.out[i].Value? && s.b.out[i].v.checkpoint == n;
    assert 1 <= i <= WrittenCount(s.b);
    FrameAt(o, s, i - 1);
  }

  lemma FrameAt(o: Offer, s: Session, i: nat)
    requires Sound(o, s) && i < WrittenCount(s.b)
    ensures i + 1 < |s.b.out| && s.b.out[i + 1] == Value(Delivery(s.from + i, s.from + i))
  {
    OutShape(OpenAt(s.from, o), s.b);
    SentAt(s.from, o, i);
    var shown := s.b.delivered[..WrittenCount(s.b)];
    assert shown[i] == Sent(OpenAt(s.from, o))[i];
    assert s.b.out[i + 1] == ([Ready] + Values(shown))[i + 1];
  }

  /** One of the Acks in took is at or above n. */
  predicate AckedAtOrAbove(took: seq<nat>, n: nat) {
    exists m :: m in took && n <= m
  }

  /** An event from the session's first checkpoint on is covered exactly when an Ack at
      or above it took effect. */
  ghost predicate CheckpointInv(start: nat, s: Session) {
    && start <= s.from
    && start <= s.next
    && forall n: nat :: start <= n ==> (n < s.next <==> AckedAtOrAbove(s.took, n))
  }

  lemma StepKeepsCheckpoint(o: Offer, mode: Mode, start: nat, s: Session, act: Act)
    requires CheckpointInv(start, s) && SessionStep(o, mode, s, act).Some?
    ensures CheckpointInv(start, SessionStep(o, mode, s, act).value)
  {
    var t := SessionStep(o, mode, s, act).value;
    if t.took != s.took {
      var a := t.took[|s.took|];
      assert t.took == s.took + [a] && t.next == Advance(s.next, a);
      forall n: nat {:trigger AckedAtOrAbove(t.took, n)} | start <= n
        ensures n < t.next <==> AckedAtOrAbove(t.took, n)
      {
        if AckedAtOrAbove(s.took, n) {
          var m :| m in s.took && n <= m;
          assert m in t.took;
        } else {
          assert a in t.took;
        }
      }
    }
  }

  lemma {:induction false} RunKeepsCheckpoint(o: Offer, mode: Mode, start: nat, s: Session, acts: seq<Act>)
    requires CheckpointInv(start, s) && RunSession(o, mode, s, acts).Some?
    ensures CheckpointInv(start, RunSession(o, mode, s, acts).value)
    decreases |acts|
  {
    if acts == [] {
    } else {
      StepKeepsCheckpoint(o, mode, start, s, acts[0]);
      RunKeepsCheckpoint(o, mode, start, SessionStep(o, mode, s, acts[0]).value, acts[1..]);
    }
  }

  // ------------------------------------------------------------------- auto mode

  /** Auto mode acks each delivery once, in delivery order, before its line. */
  ghost predicate AutoInv(o: Offer, from: nat, s: Session) {
    && Sound(o, s)
    && !s.stdinDone
    && s.from == from
    && s.tried == Offered(from, AckedCount(s.b))
    && s.next <= from + AckedCount(s.b)
  }

  function AckedCount(b: State<Delivery>): (k: nat) {
    if b.cons.CFrame? && b.delivered != [] then |b.delivered| - 1 else |b.delivered|
  }

  lemma OnlyCallFrameAcks(cfg: Config<nat, Delivery>, b: State<Delivery>, a: Action)
    requires Inv(cfg, b) && Apply(cfg, b, a).Some?
    ensures AckedCount(Apply(cfg, b, a).value) == AckedCount(b) + (if a.CallFrame? then 1 else 0)
    ensures a.CallFrame? ==> AckedCount(b) < |Sent(cfg)| && b.cons == CFrame(Sent(cfg)[AckedCount(b)])
  {
  }

  lemma OfferedSnoc(from: nat, k: nat)
    ensures Offered(from, k) + [from + k] == Offered(from, k + 1)
  {
  }

  lemma AutoOpensWhereItStarted(o: Offer, from: nat, s: Session)
    requires AutoInv(o, from, s) && s.b.prod.POpen?
    ensures s.next == from
  {
    NotYetOpen(s.from, s.next, o, s.b);
  }

  /** A step of an auto session either acks the next event or leaves the Acks alone. */
  lemma AutoStep(o: Offer, from: nat, s: Session, act: Act)
    requires AutoInv(o, from, s) && SessionStep(o, Auto, s, act).Some?
    requires act.a.Open? ==> s.next == from
    ensures var k, t := AckedCount(s.b), SessionStep(o, Auto, s, act).value;
      && t.from == from
      && !t.stdinDone
      && if act.a.CallFrame?
         then AckedCount(t.b) == k + 1 && t.tried == s.tried + [from + k] && t.next <= from + k + 1
         else AckedCount(t.b) == k && t.tried == s.tried && t.next == s.next
  {
    OnlyCallFrameAcks(OpenAt(from, o), s.b, act.a);
    if act.a.CallFrame? {
      SentAt(from, o, AckedCount(s.b));
    }
  }

  lemma StepKeepsAuto(o: Offer, from: nat, s: Session, act: Act)
    requires AutoInv(o, from, s) && SessionStep(o, Auto, s, act).Some?
    ensures AutoInv(o, from, SessionStep(o, Auto, s, act).value)
  {
    var k := AckedCount(s.b);
    StepKeepsSound(o, Auto, s, act);
    if act.a.Open? {
      AutoOpensWhereItStarted(o, from, s);
    }
    AutoStep(o, from, s, act);
    OfferedSnoc(from, k);
  }

  lemma {:induction false} RunKeepsAuto(o: Offer, from: nat, s: Session, acts: seq<Act>)
    requires AutoInv(o, from, s) && RunSession(o, Auto, s, acts).Some?
    ensures AutoInv(o, from, RunSession(o, Auto, s, acts).value)
    decreases |acts|
  {
    if acts == [] {
    } else {
      StepKeepsAuto(o, from, s, acts[0]);
      RunKeepsAuto(o, from, SessionStep(o, Auto, s, acts[0]).value, acts[1..]);
    }
  }

  /** One auto session cut anywhere: the Ack calls name from, from + 1, ... without a
      gap; they run at most one event ahead of the frames, and exactly one ahead
      precisely when the cut fell between an Ack and its line; an event the session
      moved the checkpoint over is unwritten if and only if it is that one event and
      its Ack took effect. */
  lemma AutoSession(from: nat, o: Offer, acts: seq<Act>)
    requires RunSession(o, Auto, Start(from), acts).Some?
    ensures var s := RunSession(o, Auto, Start(from), acts).value;
      && s.tried == Offered(from, |s.tried|)
      && 0 <= WrittenCount(s.b)
      && |s.tried| == WrittenCount(s.b) + (if s.b.cons.CLine? then 1 else 0)
      && (forall n: nat :: n in Written(s.b.out) <==> from <= n < from + WrittenCount(s.b))
      && from <= s.next <= from + |s.tried|
      && (forall n: nat :: from <= n < s.next && n !in Written(s.b.out) <==>
            s.b.cons.CLine? && s.next == from + |s.tried| && n == from + WrittenCount(s.b))
  {
    StartIsSound(from, o);
    RunKeepsAuto(o, from, Start(from), acts);
    WrittenIsBlock(o, RunSession(o, Auto, Start(from), acts).value);
  }

  // ------------------------------------------------------------- end of stdin

  /** After the end of stdin the session's ctx is done, and no line is read any more. */
  ghost predicate StdinInv(s: Session) {
    s.stdinDone ==> s.b.ctx.Some?
  }

  lemma ActKeepsStdinInv(o: Offer, mode: Mode, s: Session, act: Act)
    requires StdinInv(s) && SessionStep(o, mode, s, act).Some?
    ensures StdinInv(SessionStep(o, mode, s, act).value)
  {
    if act.Step? && s.b.ctx.Some? {
      StepKeepsCtxDone(OpenAt(if act.a.Open? then s.next else s.from, o), s.b, act.a);
    }
  }

  lemma {:induction false} RunKeepsStdinInv(o: Offer, mode: Mode, s: Session, acts: seq<Act>)
    requires StdinInv(s) && RunSession(o, mode, s, acts).Some?
    ensures StdinInv(RunSession(o, mode, s, acts).value)
    decreases |acts|
  {
    if acts == [] {
    } else {
      ActKeepsStdinInv(o, mode, s, acts[0]);
      RunKeepsStdinInv(o, mode, SessionStep(o, mode, s, acts[0]).value, acts[1..]);
    }
  }

  /** A stdin session can be at any time at the end of its input, which is final: ctx is
      done, no line and no second end follow. */
  lemma StdinEndsOnce(o: Offer, s: Session, line: Line, acked: bool)
    requires StdinInv(s)
    ensures !s.stdinDone <==> SessionStep(o, Stdin, s, StdinEof).Some?
    ensures !s.stdinDone <==> SessionStep(o, Stdin, s, StdinLine(line, acked)).Some?
    ensures !s.stdinDone ==>
      var t := SessionStep(o, Stdin, s, StdinEof).value;
      t.stdinDone && t.b.ctx == (if s.b.ctx.Some? then s.b.ctx else Some(CtxCanceled))
      && t == s.(stdinDone := true, b := s.b.(ctx := t.b.ctx))
  {
  }

  lemma {:induction false} StoppingRun(o: Offer, mode: Mode, s: Session, acts: seq<Action>)
    requires Run(OpenAt(s.from, o), s.b, acts).Some? && forall a :: a in acts ==> OwnStep(a)
    ensures var t := RunSession(o, mode, s, Unacked(acts));
      t.Some? && t.value.b == Run(OpenAt(s.from, o), s.b, acts).value && t.value.next == s.next
    decreases |acts|
  {
    if acts == [] {
    } else {
      assert OwnStep(acts[0]);
      assert Unacked(acts)[1..] == Unacked(acts[1..]);
      StoppingRun(o, mode, SessionStep(o, mode, s, Step(acts[0], false)).value, acts[1..]);
    }
  }

  /** Closing stdin shuts a session down: from every state it can reach, both goroutines
      can finish without the server doing anything and without another delivery. */
  lemma StdinEofStops(from: nat, o: Offer, acts: seq<Act>) returns (more: seq<Act>)
    requires RunSession(o, Stdin, Start(from), acts).Some?
    requires RunSession(o, Stdin, Start(from), acts).value.stdinDone
    ensures var s := RunSession(o, Stdin, Start(from), acts).value;
      var t := RunSession(o, Stdin, s, more);
      && t.Some? && t.value.b.cons.CDone? && t.value.b.prod.PDone?
      && t.value.b.delivered == s.b.delivered
    ensures forall m :: m in more ==> m.Step? && OwnStep(m.a)
  {
    var s := RunSession(o, Stdin, Start(from), acts).value;
    StartIsSound(from, o);
    RunKeepsSound(o, Stdin, Start(from), acts);
    RunKeepsStdinInv(o, Stdin, Start(from), acts);
    var steps := DonePumpStops(OpenAt(s.from, o), s.b);
    StoppingRun(o, Stdin, s, steps);
    more := Unacked(steps);
  }

  lemma ActKeepsStopped(o: Offer, mode: Mode, s: Session, act: Act)
    requires StoppedBefore(s.b) && SessionStep(o, mode, s, act).Some?
    ensures StoppedBefore(SessionStep(o, mode, s, act).value.b)
  {
    if act.Step? {
      StepKeepsStopped(OpenAt(if act.a.Open? then s.next else s.from, o), s.b, act.a);
    }
  }

  lemma {:induction false} RunKeepsStopped(o: Offer, mode: Mode, s: Session, acts: seq<Act>)
    requires StoppedBefore(s.b) && RunSession(o, mode, s, acts).Some?
    ensures StoppedBefore(RunSession(o, mode, s, acts).value.b)
    decreases |acts|
  {
    if acts == [] {
    } else {
      ActKeepsStopped(o, mode, s, acts[0]);
      RunKeepsStopped(o, mode, SessionStep(o, mode, s, acts[0]).value, acts[1..]);
    }
  }

  /** A session that was still running when stdin ended finishes cleanly, whatever it
      meets after that: an end frame and no error. */
  lemma StdinEofEndsCleanly(from: nat, o: Offer, acts: seq<Act>, more: seq<Act>)
    requires RunSession(o, Stdin, Start(from), acts).Some?
    requires var s := RunSession(o, Stdin, Start(from), acts).value;
      s.stdinDone && !s.b.cons.CDone? && RunSession(o, Stdin, s, more).Some?
      && RunSession(o, Stdin, s, more).value.b.cons.CDone?
    ensures var b := RunSession(o, Stdin, RunSession(o, Stdin, Start(from), acts).value, more).value.b;
      b.cons.result.None? && b.out != [] && b.out[|b.out| - 1] in {EndEof, EndClientEof}
  {
    var s := RunSession(o, Stdin, Start(from), acts).value;
    StartIsSound(from, o);
    RunKeepsSound(o, Stdin, Start(from), acts);
    RunKeepsStdinInv(o, Stdin, Start(from), acts);
    RunKeepsSound(o, Stdin, s, more);
    RunKeepsStopped(o, Stdin, s, more);
  }

  // ------------------------------------------------- sequences of cut sessions

  /** One session: its ack mode, what the server has to offer, and what happens up to
      its cut.  A subscription may be consumed in another mode each time. */
  datatype Plan = Plan(mode: Mode, offer: Offer, acts: seq<Act>)

  /** The subscription across sessions. `cutsAfterAck` counts auto sessions that were cut
      with a delivery evaluated by frame but not yet written. */
  datatype Sub = Sub(next: nat, written: set<nat>, cutsAfterAck: nat)

  function SessionOf(sub: Sub, plan: Plan): Option<Session> {
    RunSession(plan.offer, plan.mode, Start(sub.next), plan.acts)
  }

  function AfterSession(mode: Mode, sub: Sub, s: Session): Sub {
    Sub(s.next, sub.written + Written(s.b.out), sub.cutsAfterAck + if mode.Auto? && s.b.cons.CLine? then 1 else 0)
  }

  function RunSub(sub: Sub, plans: seq<Plan>): Option<Sub>
    decreases |plans|
  {
    if plans == [] then Some(sub)
    else
      var s := SessionOf(sub, plans[0]);
      if s.None? then None else RunSub(AfterSession(plans[0].mode, sub, s.value), plans[1..])
  }

  /** Events from startFrom on that the checkpoint covers but no session wrote. */
  function Lost(startFrom: nat, next: nat, written: set<nat>): set<nat> {
    set n | startFrom <= n < next && n !in written
  }

  lemma AutoSessionLosesAtMostOne(startFrom: nat, sub: Sub, plan: Plan)
    requires startFrom <= sub.next && plan.mode.Auto? && SessionOf(sub, plan).Some?
    ensures var after := AfterSession(Auto, sub, SessionOf(sub, plan).value);
      && sub.next <= after.next
      && |Lost(startFrom, after.next, after.written)|
         <= |Lost(startFrom, sub.next, sub.written)| + after.cutsAfterAck - sub.cutsAfterAck
  {
    var s := SessionOf(sub, plan).value;
    var after := AfterSession(Auto, sub, s);
    AutoSession(sub.next, plan.offer, plan.acts);
    var before := Lost(startFrom, sub.next, sub.written);
    var now := Lost(startFrom, after.next, after.written);
    var extra: set<nat> := if s.b.cons.CLine? then {sub.next + WrittenCount(s.b)} else {};
    var bound: set<nat> := before + extra;
    assert now <= bound;
    SubsetSize(now, bound);
  }

  lemma {:induction false} SubsetSize(a: set<nat>, b: set<nat>)
    requires a <= b
    ensures |a| <= |b|
  {
    if a == {} {
    } else {
      var x :| x in a;
      SubsetSize(a - {x}, b - {x});
    }
  }

  /** A session of one event, cut after its Ack and before its line. */
  function CutActs(): (acts: seq<Act>)
    ensures |acts| == 5
  {
    [Step(WriteReady, false), Step(Open, false), Step(Recv, false), Step(Send, false), Step(CallFrame, true)]
  }

  /** The states of that session. */
  function CutAt(k: nat): Session
    requires k <= 5
  {
    var d := Delivery(0, 0);
    var s: State<Delivery> := Init();
    var out: seq<Frame<Delivery>> := [Ready];
    if k == 0 then Session(s, 0, 0, [], [], false)
    else if k == 1 then Session(s.(cons := CRange, out := out), 0, 0, [], [], false)
    else if k == 2 then Session(s.(cons := CRange, out := out, prod := PRecv), 0, 0, [], [], false)
    else if k == 3 then Session(s.(cons := CRange, out := out, prod := PSelect(d), received := 1), 0, 0, [], [], false)
    else if k == 4 then
      Session(s.(cons := CFrame(d), out := out, prod := PRecv, received := 1, delivered := [d]), 0, 0, [], [], false)
    else
      Session(s.(cons := CLine(d), out := out, prod := PRecv, received := 1, delivered := [d]), 0, 1, [0], [0], false)
  }

  lemma {:induction false} CutStep(k: nat)
    requires k < 5
    ensures SessionStep(Offer(1, None, Eof), Auto, CutAt(k), CutActs()[k]) == Some(CutAt(k + 1))
  {
    if k == 0 {
      var noFrames: seq<Frame<Delivery>> := [];
      assert noFrames + [Ready] == [Ready];
    } else if k == 3 {
      var none: seq<Delivery> := [];
      assert none + [Delivery(0, 0)] == [Delivery(0, 0)];
    } else if k == 4 {
      var noAcks: seq<nat> := [];
      assert noAcks + [0] == [0];
    }
  }

  lemma {:induction false} CutRun(k: nat)
    requires k <= 5
    ensures RunSession(Offer(1, None, Eof), Auto, CutAt(k), CutActs()[k..]) == Some(CutAt(5))
    decreases 5 - k
  {
    if k == 5 {
    } else {
      CutStep(k);
      CutRun(k + 1);
      assert CutActs()[k..][1..] == CutActs()[k + 1..];
    }
  }

  /** The bound is reached: that session leaves its event behind the checkpoint and
      unwritten. */
  lemma AutoCanLoseOne()
    ensures var after := RunSub(Sub(0, {}, 0), [Plan(Auto, Offer(1, None, Eof), CutActs())]);
      after.Some? && Lost(0, after.value.next, after.value.written) == {0}
  {
    CutRun(0);
    assert CutActs()[0..] == CutActs();
    var sub, plan := Sub(0, {}, 0), Plan(Auto, Offer(1, None, Eof), CutActs());
    OneSession(sub, plan, CutAt(5));
    AfterTheCut();
  }

  lemma OneSession(sub: Sub, plan: Plan, s: Session)
    requires SessionOf(sub, plan) == Some(s)
    ensures RunSub(sub, [plan]) == Some(AfterSession(plan.mode, sub, s))
  {
    assert [plan][1..] == [];
  }

  lemma AfterTheCut()
    ensures AfterSession(Auto, Sub(0, {}, 0), CutAt(5)) == Sub(1, {}, 1)
  {
    assert Written(CutAt(5).b.out) == {};
  }

  // ------------------------------------------------------ events written twice

  lemma {:induction false} CheckpointOf(sub: Sub, plan: Plan)
    requires SessionOf(sub, plan).Some?
    ensures CheckpointInv(sub.next, SessionOf(sub, plan).value)
    ensures Sound(plan.offer, SessionOf(sub, plan).value)
  {
    var s := Start(sub.next);
    StartIsSound(sub.next, plan.offer);
    RunKeepsSound(plan.offer, plan.mode, s, plan.acts);
    RunKeepsCheckpoint(plan.offer, plan.mode, sub.next, s, plan.acts);
  }

  /** An event the checkpoint covers is never written again. */
  lemma {:induction false} CoveredIsNotWritten(sub: Sub, plans: seq<Plan>)
    requires RunSub(sub, plans).Some?
    ensures forall n: nat :: n < sub.next && n in RunSub(sub, plans).value.written ==> n in sub.written
    decreases |plans|
  {
    if plans == [] {
    } else {
      var s := SessionOf(sub, plans[0]).value;
      CheckpointOf(sub, plans[0]);
      WrittenIsBlock(plans[0].offer, s);
      CoveredIsNotWritten(AfterSession(plans[0].mode, sub, s), plans[1..]);
    }
  }

  /** The bridge's steps as a session in which no Ack takes effect. */
  function Unacked(acts: seq<Action>): (steps: seq<Act>)
    ensures |steps| == |acts|
  {
    seq(|acts|, i requires 0 <= i < |acts| => Step(acts[i], false))
  }

  lemma UnackedStep(o: Offer, mode: Mode, s: Session, a: Action)
    requires s.from == s.next && !a.Quit? && Apply(OpenAt(s.from, o), s.b, a).Some?
    ensures var t := SessionStep(o, mode, s, Step(a, false));
      && t.Some?
      && t.value.b == Apply(OpenAt(s.from, o), s.b, a).value
      && t.value.from == s.from && t.value.next == s.next && t.value.took == s.took
  {
  }

  lemma {:induction false} UnackedRun(o: Offer, mode: Mode, s: Session, acts: seq<Action>)
    requires s.from == s.next && Run(OpenAt(s.from, o), s.b, acts).Some?
    requires forall a :: a in acts ==> !a.Quit?
    ensures var t := RunSession(o, mode, s, Unacked(acts));
      && t.Some?
      && t.value.b == Run(OpenAt(s.from, o), s.b, acts).value
      && t.value.next == s.next && t.value.took == s.took
    decreases |acts|
  {
    if acts == [] {
    } else {
      UnackedStep(o, mode, s, acts[0]);
      assert Unacked(acts)[1..] == Unacked(acts[1..]);
      UnackedRun(o, mode, SessionStep(o, mode, s, Step(acts[0], false)).value, acts[1..]);
    }
  }

  /** Whatever the mode, some session writes any event the checkpoint does not cover
      and, all its Acks failing, leaves the checkpoint where it was. */
  lemma SomeSessionWrites(mode: Mode, sub: Sub, n: nat) returns (plan: Plan)
    requires sub.next <= n
    ensures plan.mode == mode && SessionOf(sub, plan).Some?
    ensures n in Written(SessionOf(sub, plan).value.b.out)
    ensures SessionOf(sub, plan).value.took == [] && SessionOf(sub, plan).value.next == sub.next
  {
    var o := Offer(n - sub.next + 1, None, Eof);
    var cfg := OpenAt(sub.next, o);
    StartIsSound(sub.next, o);
    var acts := PumpCompletes(cfg, Init());
    UncancelledPumpIsDeterministic(cfg, acts);
    UnackedRun(o, mode, Start(sub.next), acts);
    SentAt(sub.next, o, n - sub.next);
    plan := Plan(mode, o, Unacked(acts));
    var out := SessionOf(sub, plan).value.b.out;
    assert out[n - sub.next + 1] == Value(Delivery(n, n));
  }

  /** Some sequence of sessions in these modes, from checkpoint `next` on, writes event n. */
  ghost predicate WrittenLater(modes: set<Mode>, next: nat, n: nat) {
    exists plans: seq<Plan> ::
      && RunSub(Sub(next, {}, 0), plans).Some?
      && (forall p <- plans :: p.mode in modes)
      && n in RunSub(Sub(next, {}, 0), plans).value.written
  }

  /** In every mode: an event that a session wrote can be written again by the sessions
      that follow, whatever modes they may have, if and only if no Ack at or above it
      took effect in that session. */
  lemma WrittenAgainIff(modes: set<Mode>, sub: Sub, plan: Plan, n: nat)
    requires modes != {}
    requires SessionOf(sub, plan).Some? && n in Written(SessionOf(sub, plan).value.b.out)
    ensures var s := SessionOf(sub, plan).value;
      WrittenLater(modes, s.next, n) <==> !AckedAtOrAbove(s.took, n)
  {
    var s := SessionOf(sub, plan).value;
    CheckpointOf(sub, plan);
    WrittenIsBlock(plan.offer, s);
    var after := Sub(s.next, {}, 0);
    if s.next <= n {
      var mode :| mode in modes;
      var again := SomeSessionWrites(mode, after, n);
      OneSession(after, again, SessionOf(after, again).value);
    } else {
      forall plans: seq<Plan> | RunSub(after, plans).Some?
        ensures n !in RunSub(after, plans).value.written
      {
        CoveredIsNotWritten(after, plans);
      }
    }
  }

  /** No event number has two delivery frames in out. */
  predicate Distinct(out: seq<Frame<Delivery>>) {
    forall i, j :: 0 <= i < j < |out| && out[i].Value? && out[j].Value? ==> out[i].v.checkpoint != out[j].v.checkpoint
  }

  lemma WrittenOnce(o: Offer, s: Session)
    requires Sound(o, s)
    ensures Distinct(s.b.out)
  {
    OutShape(OpenAt(s.from, o), s.b);
    forall i, j | 0 <= i < j < |s.b.out| && s.b.out[i].Value? && s.b.out[j].Value?
      ensures s.b.out[i].v.checkpoint != s.b.out[j].v.checkpoint
    {
      assert 1 <= i < j <= WrittenCount(s.b);
      FrameAt(o, s, i - 1);
      FrameAt(o, s, j - 1);
    }
  }

  /** An Ack at or above every event the session wrote took effect. */
  predicate Settled(s: Session) {
    forall n <- Written(s.b.out) :: AckedAtOrAbove(s.took, n)
  }

  /** In an auto session it is enough that every Ack takes effect. */
  predicate AcksHeld(mode: Mode, s: Session) {
    if mode.Auto? then s.tried == s.took else Settled(s)
  }

  predicate AllAcksHeld(sub: Sub, plans: seq<Plan>)
    decreases |plans|
  {
    plans == [] ||
    var s := SessionOf(sub, plans[0]);
    s.Some? ==>
      AcksHeld(plans[0].mode, s.value) && AllAcksHeld(AfterSession(plans[0].mode, sub, s.value), plans[1..])
  }

  /** No event is written twice, in one session or in two. */
  ghost predicate AtMostOnce(sub: Sub, plans: seq<Plan>)
    decreases |plans|
  {
    plans == [] ||
    var s := SessionOf(sub, plans[0]);
    s.Some? ==>
      && Distinct(s.value.b.out)
      && sub.written !! Written(s.value.b.out)
      && AtMostOnce(AfterSession(plans[0].mode, sub, s.value), plans[1..])
  }

  /** An auto session in which every Ack takes effect leaves nothing unacked. */
  lemma {:induction false} AutoSettles(sub: Sub, plan: Plan)
    requires plan.mode.Auto? && SessionOf(sub, plan).Some?
    requires SessionOf(sub, plan).value.tried == SessionOf(sub, plan).value.took
    ensures Settled(SessionOf(sub, plan).value)
  {
    var s := SessionOf(sub, plan).value;
    AutoSession(sub.next, plan.offer, plan.acts);
    forall n | n in Written(s.b.out)
      ensures AckedAtOrAbove(s.took, n)
    {
      assert s.took[n - sub.next] == n;
      assert n in s.took;
    }
  }

  lemma {:induction false} HeldAcksCover(sub: Sub, plan: Plan)
    requires SessionOf(sub, plan).Some? && AcksHeld(plan.mode, SessionOf(sub, plan).value)
    ensures var s := SessionOf(sub, plan).value;
      && Distinct(s.b.out)
      && sub.next <= s.next
      && forall n: nat :: n in Written(s.b.out) ==> sub.next <= n < s.next
  {
    var s := SessionOf(sub, plan).value;
    if plan.mode.Auto? {
      AutoSettles(sub, plan);
    }
    CheckpointOf(sub, plan);
    WrittenOnce(plan.offer, s);
    WrittenIsBlock(plan.offer, s);
  }

  /** At most once over any sequence of sessions, in any modes, cut at any step: every
      Ack of the auto sessions takes effect, and the others had everything they wrote
      acked.  The tool itself ignores an Ack that failed. */
  lemma {:induction false} AtMostOnceIfAcked(sub: Sub, plans: seq<Plan>)
    requires RunSub(sub, plans).Some? && AllAcksHeld(sub, plans)
    requires forall n: nat :: n in sub.written ==> n < sub.next
    ensures AtMostOnce(sub, plans)
    decreases |plans|
  {
    if plans == [] {
    } else {
      var s := SessionOf(sub, plans[0]).value;
      HeldAcksCover(sub, plans[0]);
      AtMostOnceIfAcked(AfterSession(plans[0].mode, sub, s), plans[1..]);
    }
  }

  // ------------------------------------------------------------ events never lost

  lemma {:induction false} NoAckLeavesCheckpoint(o: Offer, s: Session, acts: seq<Act>)
    requires RunSession(o, NoAck, s, acts).Some?
    ensures RunSession(o, NoAck, s, acts).value.next == s.next
    ensures RunSession(o, NoAck, s, acts).value.tried == s.tried
    decreases |acts|
  {
    if acts == [] {
    } else {
      NoAckLeavesCheckpoint(o, SessionStep(o, NoAck, s, acts[0]).value, acts[1..]);
    }
  }

  /** The event named by the Ack of this step, if it makes one that takes effect. */
  function EffectiveAck(mode: Mode, s: Session, act: Act): Option<nat> {
    match act
    case Step(a, acked) =>
      if acked && mode.Auto? && a.CallFrame? && s.b.cons.CFrame? then Some(s.b.cons.v.checkpoint) else None
    case StdinLine(line, acked) =>
      if acked && line.AckLine? then Some(AckNumber(line)) else None
    case StdinEof => None
  }

  /** The condition on an Ack: if it takes effect and would move the checkpoint, the
      event it names was already written. */
  predicate Guard(mode: Mode, s: Session, act: Act, prior: set<nat>) {
    var n := EffectiveAck(mode, s, act);
    n.Some? ==> n.value < s.next || n.value in prior + Written(s.b.out)
  }

  /** What is lost was lost before. */
  predicate Safe(startFrom: nat, s: Session, prior: set<nat>, had: set<nat>) {
    Lost(startFrom, s.next, prior + Written(s.b.out)) <= had
  }

  predicate Guarded(o: Offer, mode: Mode, s: Session, acts: seq<Act>, prior: set<nat>)
    decreases |acts|
  {
    acts == [] ||
    (Guard(mode, s, acts[0], prior) &&
     (SessionStep(o, mode, s, acts[0]).Some? ==>
        Guarded(o, mode, SessionStep(o, mode, s, acts[0]).value, acts[1..], prior)))
  }

  /** No state along the run has an event behind the checkpoint that was not written,
      other than those in `had`. */
  predicate NeverLoses(o: Offer, mode: Mode, startFrom: nat, s: Session, acts: seq<Act>, prior: set<nat>,
                       had: set<nat>)
    decreases |acts|
  {
    && Safe(startFrom, s, prior, had)
    && (acts != [] && SessionStep(o, mode, s, acts[0]).Some? ==>
          NeverLoses(o, mode, startFrom, SessionStep(o, mode, s, acts[0]).value, acts[1..], prior, had))
  }

  /** Everything from `from` up to a written event is written. */
  ghost predicate Closed(from: nat, written: set<nat>) {
    forall m: nat, n: nat :: n in written && from <= m <= n ==> m in written
  }

  lemma BridgeKeepsOut(cfg: Config<nat, Delivery>, b: State<Delivery>, a: Action)
    requires Apply(cfg, b, a).Some?
    ensures b.out <= Apply(cfg, b, a).value.out
  {
  }

  lemma StepKeepsOut(o: Offer, mode: Mode, s: Session, act: Act)
    requires SessionStep(o, mode, s, act).Some?
    ensures s.b.out <= SessionStep(o, mode, s, act).value.b.out
  {
    if act.Step? {
      BridgeKeepsOut(OpenAt(if act.a.Open? then s.next else s.from, o), s.b, act.a);
    }
  }

  lemma WrittenGrows(out: seq<Frame<Delivery>>, more: seq<Frame<Delivery>>)
    requires out <= more
    ensures Written(out) <= Written(more)
  {
    forall n | n in Written(out)
      ensures n in Written(more)
    {
      var i :| 0 <= i < |out| && out[i].Value? && out[i].v.checkpoint == n;
      assert more[i] == out[i];
    }
  }

  /** The checkpoint moves by the effective Ack of the step, which is recorded, and by
      nothing else. */
  lemma OnlyAcksAdvance(o: Offer, mode: Mode, s: Session, act: Act)
    requires SessionStep(o, mode, s, act).Some?
    ensures var n := EffectiveAck(mode, s, act);
      && SessionStep(o, mode, s, act).value.next == (if n.Some? then Advance(s.next, n.value) else s.next)
      && SessionStep(o, mode, s, act).value.took == (if n.Some? then s.took + [n.value] else s.took)
  {
  }

  /** A session writes without gaps from behind the checkpoint on, so nothing beyond the
      checkpoint is skipped, whatever is lost behind it. */
  lemma SessionClosed(o: Offer, s: Session, prior: set<nat>)
    requires Sound(o, s) && Closed(s.next, prior)
    ensures Closed(s.next, prior + Written(s.b.out))
  {
    WrittenIsBlock(o, s);
  }

  /** What the exactness theorems assume of a state, and every step keeps. */
  ghost predicate Orderly(o: Offer, startFrom: nat, s: Session, prior: set<nat>, had: set<nat>) {
    && Sound(o, s)
    && startFrom <= s.next
    && Closed(s.next, prior)
    && forall n <- had :: n < s.next
  }

  lemma StepKeepsReady(o: Offer, mode: Mode, startFrom: nat, s: Session, act: Act, prior: set<nat>, had: set<nat>)
    requires Orderly(o, startFrom, s, prior, had) && SessionStep(o, mode, s, act).Some?
    ensures Orderly(o, startFrom, SessionStep(o, mode, s, act).value, prior, had)
  {
    StepKeepsSound(o, mode, s, act);
    OnlyAcksAdvance(o, mode, s, act);
  }

  lemma LostGrowsExactly(startFrom: nat, next: nat, n: nat, was: set<nat>, now: set<nat>, had: set<nat>)
    requires startFrom <= next <= n && was <= now && Closed(next, was)
    requires Lost(startFrom, next, was) <= had && forall k <- had :: k < next
    requires n in now ==> n in was
    ensures n in was <==> Lost(startFrom, n + 1, now) <= had
  {
    if n in was {
      forall k | k in Lost(startFrom, n + 1, now)
        ensures k in had
      {
        assert k < next;
        assert k in Lost(startFrom, next, was);
      }
    } else {
      assert n in Lost(startFrom, n + 1, now);
    }
  }

  lemma StepExact(o: Offer, mode: Mode, startFrom: nat, s: Session, act: Act, prior: set<nat>, had: set<nat>)
    requires Orderly(o, startFrom, s, prior, had) && Safe(startFrom, s, prior, had)
    requires SessionStep(o, mode, s, act).Some?
    ensures Guard(mode, s, act, prior) <==> Safe(startFrom, SessionStep(o, mode, s, act).value, prior, had)
  {
    var t := SessionStep(o, mode, s, act).value;
    var was, now := prior + Written(s.b.out), prior + Written(t.b.out);
    StepKeepsOut(o, mode, s, act);
    WrittenGrows(s.b.out, t.b.out);
    OnlyAcksAdvance(o, mode, s, act);
    var n := EffectiveAck(mode, s, act);
    if n.None? || n.value < s.next {
      assert Lost(startFrom, t.next, now) <= Lost(startFrom, s.next, was);
    } else {
      SessionClosed(o, s, prior);
      AckWritesNothing(o, mode, s, act);
      LostGrowsExactly(startFrom, s.next, n.value, was, now, had);
    }
  }

  lemma AckWritesNothing(o: Offer, mode: Mode, s: Session, act: Act)
    requires SessionStep(o, mode, s, act).Some? && EffectiveAck(mode, s, act).Some?
    ensures SessionStep(o, mode, s, act).value.b.out == s.b.out
  {
  }

  /** One session in any mode, any prefix of it: no event is ever lost if and only if
      every effective Ack that moves the checkpoint names an event already written. */
  lemma {:induction false} SessionExact(o: Offer, mode: Mode, startFrom: nat, s: Session, acts: seq<Act>,
                                        prior: set<nat>, had: set<nat>)
    requires Orderly(o, startFrom, s, prior, had) && Safe(startFrom, s, prior, had)
    requires RunSession(o, mode, s, acts).Some?
    ensures Guarded(o, mode, s, acts, prior) <==> NeverLoses(o, mode, startFrom, s, acts, prior, had)
    ensures NeverLoses(o, mode, startFrom, s, acts, prior, had) ==>
      Safe(startFrom, RunSession(o, mode, s, acts).value, prior, had)
    decreases |acts|
  {
    if acts == [] {
    } else {
      var t := SessionStep(o, mode, s, acts[0]).value;
      StepExact(o, mode, startFrom, s, acts[0], prior, had);
      StepKeepsReady(o, mode, startFrom, s, acts[0], prior, had);
      if Safe(startFrom, t, prior, had) {
        SessionExact(o, mode, startFrom, t, acts[1..], prior, had);
      }
    }
  }

  /** What every sequence of sessions keeps: nothing beyond the checkpoint is skipped. */
  ghost predicate SubInv(startFrom: nat, sub: Sub) {
    startFrom <= sub.next && Closed(sub.next, sub.written)
  }

  lemma SessionKeepsSub(startFrom: nat, sub: Sub, plan: Plan)
    requires SubInv(startFrom, sub) && SessionOf(sub, plan).Some?
    ensures SubInv(startFrom, AfterSession(plan.mode, sub, SessionOf(sub, plan).value))
    ensures sub.next <= SessionOf(sub, plan).value.next
  {
    CheckpointOf(sub, plan);
    SessionClosed(plan.offer, SessionOf(sub, plan).value, sub.written);
  }

  lemma {:induction false} RunKeepsSub(startFrom: nat, sub: Sub, plans: seq<Plan>)
    requires SubInv(startFrom, sub) && RunSub(sub, plans).Some?
    ensures SubInv(startFrom, RunSub(sub, plans).value)
    decreases |plans|
  {
    if plans == [] {
    } else {
      SessionKeepsSub(startFrom, sub, plans[0]);
      RunKeepsSub(startFrom, AfterSession(plans[0].mode, sub, SessionOf(sub, plans[0]).value), plans[1..]);
    }
  }

  /** Every state of a subscription that began with nothing written. */
  lemma ReachableSub(startFrom: nat, plans: seq<Plan>)
    requires RunSub(Sub(startFrom, {}, 0), plans).Some?
    ensures SubInv(startFrom, RunSub(Sub(startFrom, {}, 0), plans).value)
  {
    RunKeepsSub(startFrom, Sub(startFrom, {}, 0), plans);
  }

  /** One session of the sequence, measured by what was lost before it. */
  lemma PlanExact(startFrom: nat, sub: Sub, plan: Plan, had: set<nat>)
    requires SubInv(startFrom, sub) && SessionOf(sub, plan).Some?
    requires Lost(startFrom, sub.next, sub.written) <= had && forall n <- had :: n < sub.next
    ensures var (o, s, w) := (plan.offer, Start(sub.next), sub.written);
      && (Guarded(o, plan.mode, s, plan.acts, w) <==> NeverLoses(o, plan.mode, startFrom, s, plan.acts, w, had))
      && (Guarded(o, plan.mode, s, plan.acts, w) ==>
            var after := AfterSession(plan.mode, sub, SessionOf(sub, plan).value);
            Lost(startFrom, after.next, after.written) <= had)
  {
    var s := Start(sub.next);
    StartIsSound(sub.next, plan.offer);
    assert Written(s.b.out) == {};
    assert sub.written + Written(s.b.out) == sub.written;
    SessionExact(plan.offer, plan.mode, startFrom, s, plan.acts, sub.written, had);
  }

  predicate GuardedSub(sub: Sub, plans: seq<Plan>)
    decreases |plans|
  {
    plans == [] ||
    (Guarded(plans[0].offer, plans[0].mode, Start(sub.next), plans[0].acts, sub.written) &&
     (SessionOf(sub, plans[0]).Some? ==>
        GuardedSub(AfterSession(plans[0].mode, sub, SessionOf(sub, plans[0]).value), plans[1..])))
  }

  predicate NeverLosesSub(startFrom: nat, sub: Sub, plans: seq<Plan>, had: set<nat>)
    decreases |plans|
  {
    plans == [] ||
    (NeverLoses(plans[0].offer, plans[0].mode, startFrom, Start(sub.next), plans[0].acts, sub.written, had) &&
     (SessionOf(sub, plans[0]).Some? ==>
        NeverLosesSub(startFrom, AfterSession(plans[0].mode, sub, SessionOf(sub, plans[0]).value), plans[1..], had)))
  }

  /** Any sequence of sessions in any modes, cut at any step, ack lines before the RPC
      opens included: no state loses an event beyond those already lost if and only if
      every effective Ack keeps the guard.  With nothing lost at first, this is
      at-least-once delivery. */
  lemma {:induction false} AtLeastOnceIff(startFrom: nat, sub: Sub, plans: seq<Plan>, had: set<nat>)
    requires SubInv(startFrom, sub) && RunSub(sub, plans).Some?
    requires Lost(startFrom, sub.next, sub.written) <= had && forall n <- had :: n < sub.next
    ensures GuardedSub(sub, plans) <==> NeverLosesSub(startFrom, sub, plans, had)
    decreases |plans|
  {
    if plans == [] {
    } else {
      var plan := plans[0];
      PlanExact(startFrom, sub, plan, had);
      SessionKeepsSub(startFrom, sub, plan);
      if Guarded(plan.offer, plan.mode, Start(sub.next), plan.acts, sub.written) {
        AtLeastOnceIff(startFrom, AfterSession(plan.mode, sub, SessionOf(sub, plan).value), plans[1..], had);
      }
    }
  }

  /** The stdin sessions keep the guard; the others need not. */
  predicate StdinGuarded(sub: Sub, plans: seq<Plan>)
    decreases |plans|
  {
    plans == [] ||
    var plan := plans[0];
    && (plan.mode.Stdin? ==> Guarded(plan.offer, Stdin, Start(sub.next), plan.acts, sub.written))
    && (SessionOf(sub, plan).Some? ==>
          StdinGuarded(AfterSession(plan.mode, sub, SessionOf(sub, plan).value), plans[1..]))
  }

  lemma SessionLosesAtMostOne(startFrom: nat, sub: Sub, plan: Plan)
    requires SubInv(startFrom, sub) && SessionOf(sub, plan).Some?
    requires plan.mode.Stdin? ==> Guarded(plan.offer, Stdin, Start(sub.next), plan.acts, sub.written)
    ensures var after := AfterSession(plan.mode, sub, SessionOf(sub, plan).value);
      |Lost(startFrom, after.next, after.written)|
         <= |Lost(startFrom, sub.next, sub.written)| + after.cutsAfterAck - sub.cutsAfterAck
  {
    var had := Lost(startFrom, sub.next, sub.written);
    var after := AfterSession(plan.mode, sub, SessionOf(sub, plan).value);
    match plan.mode
    case Auto =>
      AutoSessionLosesAtMostOne(startFrom, sub, plan);
    case NoAck =>
      NoAckLeavesCheckpoint(plan.offer, Start(sub.next), plan.acts);
      assert Lost(startFrom, after.next, after.written) <= had;
      SubsetSize(Lost(startFrom, after.next, after.written), had);
    case Stdin =>
      PlanExact(startFrom, sub, plan, had);
      SubsetSize(Lost(startFrom, after.next, after.written), had);
  }

  /** Any sequence of sessions in any modes, cut at any step: every event the checkpoint
      covers was written, except at most one for each auto session cut between an Ack
      and its line, as long as the ack lines of the stdin sessions keep the guard. */
  lemma {:induction false} LosesAtMostOnePerCut(startFrom: nat, sub: Sub, plans: seq<Plan>)
    requires SubInv(startFrom, sub) && RunSub(sub, plans).Some? && StdinGuarded(sub, plans)
    requires |Lost(startFrom, sub.next, sub.written)| <= sub.cutsAfterAck
    ensures var after := RunSub(sub, plans).value;
      && |Lost(startFrom, after.next, after.written)| <= after.cutsAfterAck
      && after.cutsAfterAck <= sub.cutsAfterAck + |plans|
    decreases |plans|
  {
    if plans == [] {
    } else {
      SessionLosesAtMostOne(startFrom, sub, plans[0]);
      SessionKeepsSub(startFrom, sub, plans[0]);
      var after := AfterSession(plans[0].mode, sub, SessionOf(sub, plans[0]).value);
      LosesAtMostOnePerCut(startFrom, after, plans[1..]);
    }
  }

  /** An ack line read before the RPC opens moves the start of the stream: acking event
      n at once, the session starts at n + 1. */
  lemma AckBeforeOpenSkips(o: Offer, from: nat, n: nat)
    requires from <= n
    ensures var s := RunSession(o, Stdin, Start(from), [StdinLine(AckLine(Some(n)), true), Step(Open, false)]);
      s.Some? && s.value.from == n + 1 && Lost(from, s.value.next, Written(s.value.b.out)) != {}
  {
    var acts := [StdinLine(AckLine(Some(n)), true), Step(Open, false)];
    var s1 := SessionStep(o, Stdin, Start(from), acts[0]).value;
    assert acts[1..] == [Step(Open, false)] && acts[1..][1..] == [];
    assert RunSession(o, Stdin, s1, acts[1..]) == SessionStep(o, Stdin, s1, Step(Open, false));
    var s := SessionStep(o, Stdin, s1, Step(Open, false)).value;
    assert Written(s.b.out) == {};
    assert n in Lost(from, s.next, Written(s.b.out));
  }

  /** A JSON object without an "ack" key acks event 0: sent before event 0 is written,
      it loses event 0. */
  lemma BareObjectAcksEventZero(o: Offer)
    ensures var s := SessionStep(o, Stdin, Start(0), StdinLine(AckLine(None), true));
      s.Some? && s.value.next == 1 && Lost(0, s.value.next, Written(s.value.b.out)) != {}
  {
    var s := SessionStep(o, Stdin, Start(0), StdinLine(AckLine(None), true)).value;
    assert 0 in Lost(0, s.next, Written(s.b.out));
  }
}
