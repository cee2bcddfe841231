/** The streaming bridge (streams.Watch, subscriptions.Subscribe, stores.Watch)
    together with its consumer, the NDJSON pump, as an interleaved step system.

    The producer goroutine, the consumer, the canceller and the server each move
    in atomic steps; channels are explicit (closed flags, a one-slot buffer, an
    unbuffered rendezvous).  A run is any sequence of enabled actions.  The three
    producers differ only in how a wire message becomes a channel value, which is
    the parameter `conv`. */
module Bridge {
  import opened Options
  import opened Errors

  /** How the server ends a stream that it opened. */
  datatype End = Eof | Fail(err: GoError)

  /** What the server would do if nobody cancelled. */
  datatype Script<M> = Script(openErr: Option<GoError>, msgs: seq<M>, end: End)

  datatype Config<!M, V> = Config(script: Script<M>, conv: M -> V)

  /** Program points of the producer goroutine. */
  datatype Producer<V> =
    | POpen                  // about to open the RPC
    | PRecv                  // about to call stream.Recv
    | PSelect(v: V)          // select { events <- v, <-ctx.Done() }
    | PPutErr(err: GoError)  // about to execute errs <- err
    | PCloseErrs             // deferred close(errs), which runs first
    | PCloseEvents           // deferred close(events), which runs last
    | PDone

  /** Program points of the consumer. */
  datatype Consumer<V> =
    | CReady                            // about to write the ready frame
    | CRange                            // waiting in `for ev := range events`
    | CFrame(v: V)                      // received v, frame(v) not yet evaluated
    | CLine(v: V)                       // frame(v) evaluated, its line not yet written
    | CErrs                             // about to execute <-errs
    | CSwitch(err: Option<GoError>)     // about to evaluate the final switch
    | CDone(err: Option<GoError>, ctxDone: bool, result: Option<CliError>)
    | CGone                             // a caller that stopped receiving; never the pump

  datatype Frame<V> =
    | Ready
    | Value(v: V)
    | EndEof
    | EndClientEof
    | ErrorFrame(code: string, message: string)

  /** `received`, `delivered`, `put` and `lost` record history; no step reads
      `delivered`, `put` or `lost`. */
  datatype State<V> = State(
    prod: Producer<V>,
    cons: Consumer<V>,
    eventsClosed: bool,
    errsClosed: bool,
    errsBuf: seq<GoError>,
    ctx: Option<GoError>,
    received: nat,
    delivered: seq<V>,
    put: seq<GoError>,
    lost: bool,
    out: seq<Frame<V>>,
    panicked: bool)

  datatype Action =
    | Cancel(why: GoError)
    | Open
    | OpenFail(err: GoError)   // the open call fails because ctx is done
    | Recv
    | RecvFail(err: GoError)   // Recv fails because ctx is done
    | Send
    | SelectDone
    | PutErr
    | CloseErrs
    | CloseEvents
    | WriteReady
    | CallFrame
    | WriteLine
    | RangeEnd
    | TakeErr
    | Finish
    | Quit

  function Init<V>(): State<V> {
    State(POpen, CReady, false, false, [], None, 0, [], [], false, [], false)
  }

  /** The final switch of pump: its terminal frame and its result. */
  function Terminal<V>(err: Option<GoError>, ctxDone: bool): (Frame<V>, Option<CliError>) {
    if err.None? then (EndEof, None)
    else if IsCanceled(err.value) || ctxDone then (EndClientEof, None)
    else
      var ce := FromGRPC(err.value);
      (ErrorFrame(ce.code, ce.msg), Some(ce))
  }

  /** One atomic step; None when the action is not enabled (a blocked goroutine). */
  function Apply<M, V>(cfg: Config<M, V>, s: State<V>, a: Action): Option<State<V>> {
    if s.panicked then None
    else if a.Cancel? then
      if s.ctx.None? && (a.why.CtxCanceled? || a.why.CtxDeadline?)
      then Some(s.(ctx := Some(a.why))) else None
    else if a.WriteReady? || a.CallFrame? || a.WriteLine? || a.RangeEnd? || a.TakeErr? || a.Finish? || a.Quit?
    then ApplyConsumer(s, a)
    else ApplyProducer(cfg, s, a)
  }

  function ApplyProducer<M, V>(cfg: Config<M, V>, s: State<V>, a: Action): Option<State<V>> {
    match (a, s.prod)
    case (Open, POpen) =>
      Some(if cfg.script.openErr.Some? then s.(prod := PPutErr(cfg.script.openErr.value)) else s.(prod := PRecv))
    case (OpenFail(e), POpen) =>
      if s.ctx.Some? then Some(s.(prod := PPutErr(e))) else None
    case (Recv, PRecv) =>
      Some(
        if s.received < |cfg.script.msgs| then
          s.(prod := PSelect(cfg.conv(cfg.script.msgs[s.received])), received := s.received + 1)
        else match cfg.script.end
          case Eof => s.(prod := PCloseErrs)
          case Fail(e) => s.(prod := PPutErr(e)))
    case (RecvFail(e), PRecv) =>
      if s.ctx.Some? then Some(s.(prod := PPutErr(e))) else None
    case (Send, PSelect(v)) =>
      if s.eventsClosed then Some(s.(panicked := true))
      else if s.cons.CRange? then
        Some(s.(prod := PRecv, cons := CFrame(v), delivered := s.delivered + [v]))
      else None
    case (SelectDone, PSelect(v)) =>
      if s.ctx.Some? then Some(s.(prod := PPutErr(s.ctx.value), lost := true)) else None
    case (PutErr, PPutErr(e)) =>
      if s.errsClosed then Some(s.(panicked := true))
      else if |s.errsBuf| == 1 then None
      else Some(s.(prod := PCloseErrs, errsBuf := s.errsBuf + [e], put := s.put + [e]))
    case (CloseErrs, PCloseErrs) =>
      Some(if s.errsClosed then s.(panicked := true) else s.(prod := PCloseEvents, errsClosed := true))
    case (CloseEvents, PCloseEvents) =>
      Some(if s.eventsClosed then s.(panicked := true) else s.(prod := PDone, eventsClosed := true))
    case _ => None
  }

  function ApplyConsumer<V>(s: State<V>, a: Action): Option<State<V>> {
    match (a, s.cons)
    case (WriteReady, CReady) => Some(s.(cons := CRange, out := s.out + [Ready]))
    case (CallFrame, CFrame(v)) => Some(s.(cons := CLine(v)))
    case (WriteLine, CLine(v)) => Some(s.(cons := CRange, out := s.out + [Value(v)]))
    case (RangeEnd, CRange) => if s.eventsClosed then Some(s.(cons := CErrs)) else None
    case (TakeErr, CErrs) =>
      if s.errsBuf != [] then Some(s.(cons := CSwitch(Some(s.errsBuf[0])), errsBuf := s.errsBuf[1..]))
      else if s.errsClosed then Some(s.(cons := CSwitch(None)))
      else None
    case (Finish, CSwitch(err)) =>
      var done := s.ctx.Some?;
      var (frame, result) := Terminal<V>(err, done);
      Some(s.(cons := CDone(err, done, result), out := s.out + [frame]))
    case (Quit, CRange) => Some(s.(cons := CGone))
    case _ => None
  }

  function Run<M, V>(cfg: Config<M, V>, s: State<V>, acts: seq<Action>): Option<State<V>>
    decreases |acts|
  {
    if acts == [] then Some(s)
    else
      var next := Apply(cfg, s, acts[0]);
      if next.None? then None else Run(cfg, next.value, acts[1..])
  }

  // ---------------------------------------------------------------- invariant

  /** What the consumer would see if every message of the script arrived. */
  function Sent<M, V>(cfg: Config<M, V>): (vs: seq<V>)
    ensures |vs| == |cfg.script.msgs|
  {
    seq(|cfg.script.msgs|, i requires 0 <= i < |cfg.script.msgs| => cfg.conv(cfg.script.msgs[i]))
  }

  function Values<V>(vs: seq<V>): (fs: seq<Frame<V>>)
    ensures |fs| == |vs|
  {
    seq(|vs|, i requires 0 <= i < |vs| => Value(vs[i]))
  }

  /** The whole output of a pump that received vs, then err. */
  function PumpOutput<V>(vs: seq<V>, err: Option<GoError>, ctxDone: bool): seq<Frame<V>> {
    [Ready] + Values(vs) + [Terminal<V>(err, ctxDone).0]
  }

  predicate Closing<V>(p: Producer<V>) {
    p.PCloseErrs? || p.PCloseEvents? || p.PDone?
  }

  /** Every message was handed over and the server then said EOF. */
  ghost predicate SawEof<M, V>(cfg: Config<M, V>, s: State<V>) {
    cfg.script.openErr.None? && cfg.script.end.Eof? && s.delivered == Sent(cfg)
  }

  /** e is the server's own doing: the open call failed, or the script ended in e. */
  ghost predicate ServerCause<M, V>(cfg: Config<M, V>, s: State<V>, e: GoError) {
    || (cfg.script.openErr == Some(e) && s.delivered == [])
    || (cfg.script.openErr.None? && cfg.script.end == Fail(e) && s.delivered == Sent(cfg))
  }

  ghost predicate Justified<M, V>(cfg: Config<M, V>, s: State<V>, e: GoError) {
    s.ctx.Some? || ServerCause(cfg, s, e)
  }

  ghost predicate ProducerInv<M, V>(cfg: Config<M, V>, s: State<V>) {
    && !s.panicked
    && (s.errsClosed <==> s.prod.PCloseEvents? || s.prod.PDone?)
    && (s.eventsClosed <==> s.prod.PDone?)
    && s.delivered <= Sent(cfg)
    && s.received == |s.delivered| + (if s.prod.PSelect? || s.lost then 1 else 0) <= |cfg.script.msgs|
    && (s.prod.POpen? ==> s.received == 0)
    && (s.prod.PRecv? || s.prod.PSelect? ==> cfg.script.openErr.None?)
    && (s.prod.PSelect? ==> s.prod.v == Sent(cfg)[|s.delivered|])
    && (if Closing(s.prod) then |s.put| <= 1 else s.put == [])
    && (s.prod.PPutErr? ==> Justified(cfg, s, s.prod.err))
    && (Closing(s.prod) ==> if s.put == [] then SawEof(cfg, s) else Justified(cfg, s, s.put[0]))
    && (s.lost ==> s.ctx.Some? && (s.prod == PPutErr(s.ctx.value) || s.put == [s.ctx.value]))
  }

  ghost predicate ConsumerInv<V>(s: State<V>) {
    && s.errsBuf == (if s.cons.CSwitch? || s.cons.CDone? then [] else s.put)
    && (s.cons.CErrs? || s.cons.CSwitch? || s.cons.CDone? ==> s.eventsClosed)
    && match s.cons
       case CReady => s.out == [] && s.delivered == []
       case CRange => s.out == [Ready] + Values(s.delivered)
       case CFrame(v) => Pending(s, v)
       case CLine(v) => Pending(s, v)
       case CErrs => s.out == [Ready] + Values(s.delivered)
       case CSwitch(err) => Took(s, err) && s.out == [Ready] + Values(s.delivered)
       case CDone(err, ctxDone, result) =>
         && Took(s, err)
         && (ctxDone ==> s.ctx.Some?)
         && s.out == PumpOutput(s.delivered, err, ctxDone)
         && result == Terminal<V>(err, ctxDone).1
       case CGone => true
  }

  /** v was received but its line is not written yet. */
  ghost predicate Pending<V>(s: State<V>, v: V) {
    && s.delivered != []
    && s.delivered[|s.delivered| - 1] == v
    && s.out == [Ready] + Values(s.delivered[..|s.delivered| - 1])
  }

  ghost predicate Took<V>(s: State<V>, err: Option<GoError>) {
    s.put == if err.None? then [] else [err.value]
  }

  ghost predicate Inv<M, V>(cfg: Config<M, V>, s: State<V>) {
    && ProducerInv(cfg, s)
    && ConsumerInv(s)
    // an error judged while ctx was live came from the server
    && (s.cons.CDone? && s.cons.err.Some? && !s.cons.ctxDone ==> ServerCause(cfg, s, s.cons.err.value))
  }

  lemma ValuesSnoc<V>(vs: seq<V>, v: V)
    ensures Values(vs + [v]) == Values(vs) + [Value(v)]
  {
  }

  lemma ProducerStepKeepsProducer<M, V>(cfg: Config<M, V>, s: State<V>, a: Action)
    requires ProducerInv(cfg, s) && ApplyProducer(cfg, s, a).Some?
    requires s.prod.PPutErr? ==> s.errsBuf == []
    ensures ProducerInv(cfg, ApplyProducer(cfg, s, a).value)
  {
  }

  lemma ProducerStepKeepsConsumer<M, V>(cfg: Config<M, V>, s: State<V>, a: Action)
    requires Inv(cfg, s) && ApplyProducer(cfg, s, a).Some?
    ensures ConsumerInv(ApplyProducer(cfg, s, a).value)
  {
    if a.Send? {
      var t := ApplyProducer(cfg, s, a).value;
      assert t.delivered[..|t.delivered| - 1] == s.delivered;
    }
  }

  lemma ConsumerStepKeepsProducer<M, V>(cfg: Config<M, V>, s: State<V>, a: Action)
    requires Inv(cfg, s) && ApplyConsumer(s, a).Some?
    ensures ProducerInv(cfg, ApplyConsumer(s, a).value)
  {
  }

  lemma WriteLineKeepsOut<V>(s: State<V>)
    requires ConsumerInv(s) && s.cons.CLine?
    ensures s.out + [Value(s.cons.v)] == [Ready] + Values(s.delivered)
  {
    var n := |s.delivered| - 1;
    ValuesSnoc(s.delivered[..n], s.cons.v);
    assert s.delivered[..n] + [s.cons.v] == s.delivered;
  }

  lemma ConsumerStepKeepsConsumer<V>(s: State<V>, a: Action)
    requires ConsumerInv(s) && ApplyConsumer(s, a).Some?
    requires s.cons.CErrs? ==> |s.put| <= 1
    ensures ConsumerInv(ApplyConsumer(s, a).value)
  {
    if a.WriteLine? {
      WriteLineKeepsOut(s);
    }
  }

  lemma StepKeepsInv<M, V>(cfg: Config<M, V>, s: State<V>, a: Action)
    requires Inv(cfg, s) && Apply(cfg, s, a).Some?
    ensures Inv(cfg, Apply(cfg, s, a).value)
  {
    if Apply(cfg, s, a) == ApplyConsumer(s, a) {
      ConsumerStepKeepsProducer(cfg, s, a);
      ConsumerStepKeepsConsumer(s, a);
    } else if !a.Cancel? {
      ProducerStepKeepsProducer(cfg, s, a);
      ProducerStepKeepsConsumer(cfg, s, a);
    }
  }

  lemma {:induction false} RunKeepsInv<M, V>(cfg: Config<M, V>, s: State<V>, acts: seq<Action>)
    requires Inv(cfg, s) && Run(cfg, s, acts).Some?
    ensures Inv(cfg, Run(cfg, s, acts).value)
    decreases |acts|
  {
    if acts == [] {
    } else {
      StepKeepsInv(cfg, s, acts[0]);
      RunKeepsInv(cfg, Apply(cfg, s, acts[0]).value, acts[1..]);
    }
  }

  // ----------------------------------------------------------------- theorems

  /** Every reachable state satisfies the invariant. */
  lemma ReachableInv<M, V>(cfg: Config<M, V>, acts: seq<Action>)
    requires Run(cfg, Init(), acts).Some?
    ensures Inv(cfg, Run(cfg, Init(), acts).value)
  {
    RunKeepsInv(cfg, Init(), acts);
  }

  /** Bridge safety in every reachable state, whatever the interleaving: no panic,
      errs closed before events, at most one error ever put and none once either
      channel is closed, what was delivered is a prefix of what the server sent, at
      most one received message is missing from it, and none is unless the select
      chose ctx.Done(). */
  lemma BridgeSafety<M, V>(cfg: Config<M, V>, acts: seq<Action>)
    requires Run(cfg, Init(), acts).Some?
    ensures var s := Run(cfg, Init(), acts).value;
      && !s.panicked
      && (s.eventsClosed ==> s.errsClosed)
      && |s.put| <= 1
      && (s.prod.PPutErr? ==> s.put == [] && !s.errsClosed && !s.eventsClosed)
      && s.delivered <= Sent(cfg)
      && |s.delivered| <= s.received <= |s.delivered| + 1
      && (s.received > |s.delivered| ==> s.prod.PSelect? || SelectDone in acts)
  {
    RunKeepsInv(cfg, Init(), acts);
    LostOnlyBySelect(cfg, Init(), acts);
  }

  /** The error can be received while the event channel is still open: whatever the
      server fails the open call with is in errs two steps later. */
  lemma ErrorIsThereBeforeEventsClose<M, V>(cfg: Config<M, V>)
    requires cfg.script.openErr.Some?
    ensures var s := Run(cfg, Init(), [Open, PutErr]);
      s.Some? && s.value.errsBuf == [cfg.script.openErr.value] && !s.value.errsClosed && !s.value.eventsClosed
  {
    var none: seq<GoError> := [];
    var s1 := Init<V>().(prod := PPutErr(cfg.script.openErr.value));
    assert none + [cfg.script.openErr.value] == [cfg.script.openErr.value];
    assert [Open, PutErr][1..] == [PutErr] && [PutErr][1..] == [];
    assert Apply(cfg, Init(), Open) == Some(s1);
    assert Run(cfg, s1, [PutErr]) == Apply(cfg, s1, PutErr);
  }

  /** Exactly when an error can be received before the event channel closes: once it is
      put, for as long as the producer has not run its last deferred close. */
  lemma ErrorBeforeCloseIff<M, V>(cfg: Config<M, V>, acts: seq<Action>)
    requires Run(cfg, Init(), acts).Some?
    ensures var s := Run(cfg, Init(), acts).value;
      s.errsBuf != [] && !s.eventsClosed <==> s.put != [] && (s.prod.PCloseErrs? || s.prod.PCloseEvents?)
  {
    RunKeepsInv(cfg, Init(), acts);
  }

  lemma {:induction false} LostOnlyBySelect<M, V>(cfg: Config<M, V>, s: State<V>, acts: seq<Action>)
    requires Run(cfg, s, acts).Some?
    ensures Run(cfg, s, acts).value.lost ==> s.lost || SelectDone in acts
    decreases |acts|
  {
    if acts == [] {
    } else {
      LostOnlyBySelect(cfg, Apply(cfg, s, acts[0]).value, acts[1..]);
    }
  }

  /** The frame grammar of every completed pump: one ready frame, the values of a
      prefix of the server's messages in order, one terminal frame.  EOF is claimed
      only when the server said EOF and every message has its frame; an error frame
      carries the server's own error, and only if that was not a cancellation and ctx
      was still live; pump returns nil exactly when the terminal frame is an end. */
  lemma CompletedPumpOutput<M, V>(cfg: Config<M, V>, acts: seq<Action>)
    requires Run(cfg, Init(), acts).Some? && Run(cfg, Init(), acts).value.cons.CDone?
    ensures var s := Run(cfg, Init(), acts).value;
      var k := |s.delivered|;
      && k <= |Sent(cfg)|
      && |s.out| == k + 2
      && s.out[..k + 1] == [Ready] + Values(Sent(cfg)[..k])
      && var last := s.out[k + 1];
      && (last.EndEof? || last.EndClientEof? || last.ErrorFrame?)
      && (s.cons.result.None? <==> last.EndEof? || last.EndClientEof?)
      && (last.EndEof? ==> cfg.script.openErr.None? && cfg.script.end.Eof? && k == |Sent(cfg)|)
      && (s.cons.ctxDone ==> s.ctx.Some?)
      && (last.EndEof? <==> s.cons.err.None?)
      && (last.EndClientEof? <==> s.cons.err.Some? && (IsCanceled(s.cons.err.value) || s.cons.ctxDone))
      && (last.ErrorFrame? ==>
            && !s.cons.ctxDone
            && s.cons.err.Some? && ServerCause(cfg, s, s.cons.err.value) && !IsCanceled(s.cons.err.value)
            && s.cons.result == Some(FromGRPC(s.cons.err.value))
            && last == ErrorFrame(s.cons.result.value.code, s.cons.result.value.msg))
  {
    RunKeepsInv(cfg, Init(), acts);
  }

  /** The terminal of every completed pump by the kind of the error it took, without the
      functions that classify errors: eof for none; client_eof for context.Canceled, for
      status 1 and whenever ctx was done; otherwise an error frame with the name of the
      design's table and the error's own message, returned with the table's exit code. */
  lemma TerminalByKind<M, V>(cfg: Config<M, V>, acts: seq<Action>)
    requires Run(cfg, Init(), acts).Some? && Run(cfg, Init(), acts).value.cons.CDone?
    ensures var s := Run(cfg, Init(), acts).value;
      && s.out != []
      && var (last, result, err) := (s.out[|s.out| - 1], s.cons.result, s.cons.err);
      if err.None? then last == EndEof && result.None?
      else if err == Some(CtxCanceled) || (err.value.Status? && err.value.code == 1) || s.cons.ctxDone
      then last == EndClientEof && result.None?
      else result.Some? && ReportedAs(err.value, result.value)
           && last == ErrorFrame(result.value.code, result.value.msg)
  {
    RunKeepsInv(cfg, Init(), acts);
    var err := Run(cfg, Init(), acts).value.cons.err;
    if err.Some? {
      MappedByTheTable(err.value, err.value);
    }
  }

  /** Without a cancellation the script alone decides: nil is returned exactly when it
      ends in EOF, context.Canceled or status 1, and otherwise its own error is reported. */
  lemma UncancelledTerminalByKind<M, V>(cfg: Config<M, V>, acts: seq<Action>)
    requires Run(cfg, Init(), acts).Some? && Run(cfg, Init(), acts).value.cons.CDone?
    requires forall a :: a in acts ==> !a.Cancel?
    ensures var s := Run(cfg, Init(), acts).value;
      && s.out != []
      && var (last, result) := (s.out[|s.out| - 1], s.cons.result);
      if cfg.script.openErr.None? && cfg.script.end.Eof? then last == EndEof && result.None?
      else
        var e := if cfg.script.openErr.Some? then cfg.script.openErr.value else cfg.script.end.err;
        if e == CtxCanceled || (e.Status? && e.code == 1) then last == EndClientEof && result.None?
        else result.Some? && ReportedAs(e, result.value) && last == ErrorFrame(result.value.code, result.value.msg)
  {
    TerminalByKind(cfg, acts);
    RunKeepsInv(cfg, Init(), acts);
    CtxStaysLive(cfg, Init(), acts);
  }

  /** Where a pump cannot need the server any more: no open call, message or delivery. */
  predicate OwnStep(a: Action) {
    !a.Cancel? && !a.Quit? && !a.Open? && !a.Recv? && !a.Send?
  }

  /** The step with which a pump whose ctx is done goes on. */
  function StoppingStep<V>(s: State<V>): Action
    requires s.ctx.Some?
  {
    match s.prod
    case POpen => OpenFail(s.ctx.value)
    case PRecv => RecvFail(s.ctx.value)
    case PSelect(_) => SelectDone
    case PPutErr(_) => PutErr
    case PCloseErrs => CloseErrs
    case PCloseEvents => CloseEvents
    case PDone =>
      match s.cons
      case CReady => WriteReady
      case CRange => RangeEnd
      case CFrame(_) => CallFrame
      case CLine(_) => WriteLine
      case CErrs => TakeErr
      case _ => Finish
  }

  lemma StoppingStepEnabled<M, V>(cfg: Config<M, V>, s: State<V>)
    requires Inv(cfg, s) && s.ctx.Some? && !s.cons.CGone? && !(s.cons.CDone? && s.prod.PDone?)
    ensures OwnStep(StoppingStep(s)) && Apply(cfg, s, StoppingStep(s)).Some?
    ensures var t := Apply(cfg, s, StoppingStep(s)).value;
      t.ctx == s.ctx && t.delivered == s.delivered && !t.cons.CGone?
  {
  }

  /** A done ctx stops a pump: from every reachable state both goroutines can finish with
      the server doing nothing more, and nothing more is delivered. */
  lemma {:induction false} DonePumpStops<M, V>(cfg: Config<M, V>, s: State<V>) returns (acts: seq<Action>)
    requires Inv(cfg, s) && s.ctx.Some? && !s.cons.CGone?
    ensures Run(cfg, s, acts).Some?
    ensures var t := Run(cfg, s, acts).value; t.cons.CDone? && t.prod.PDone? && t.delivered == s.delivered
    ensures forall a :: a in acts ==> OwnStep(a)
    decreases Fuel(cfg, s)
  {
    if s.cons.CDone? && s.prod.PDone? {
      acts := [];
    } else {
      var a := StoppingStep(s);
      StoppingStepEnabled(cfg, s);
      StepKeepsInv(cfg, s, a);
      StepBurnsFuel(cfg, s, a);
      var rest := DonePumpStops(cfg, Apply(cfg, s, a).value);
      RunCons(cfg, s, a, rest);
      acts := [a] + rest;
    }
  }

  /** Cancelling stops a pump: it can be cancelled, or its deadline can pass, in every
      reachable state with a live ctx, and then it can finish without the server. */
  lemma CancelStopsPump<M, V>(cfg: Config<M, V>, s: State<V>, why: GoError) returns (acts: seq<Action>)
    requires Inv(cfg, s) && s.ctx.None? && !s.cons.CGone?
    requires why == CtxCanceled || why == CtxDeadline
    ensures Run(cfg, s, [Cancel(why)] + acts).Some?
    ensures var t := Run(cfg, s, [Cancel(why)] + acts).value;
      t.cons.CDone? && t.prod.PDone? && t.delivered == s.delivered && t.ctx == Some(why)
    ensures forall a :: a in acts ==> OwnStep(a)
  {
    StepKeepsInv(cfg, s, Cancel(why));
    var t := Apply(cfg, s, Cancel(why)).value;
    acts := DonePumpStops(cfg, t);
    CtxStaysDone(cfg, t, acts);
    RunCons(cfg, s, Cancel(why), acts);
  }

  lemma {:induction false} CtxStaysDone<M, V>(cfg: Config<M, V>, s: State<V>, acts: seq<Action>)
    requires Run(cfg, s, acts).Some? && s.ctx.Some?
    ensures Run(cfg, s, acts).value.ctx == s.ctx
    decreases |acts|
  {
    if acts == [] {
    } else {
      CtxStaysDone(cfg, Apply(cfg, s, acts[0]).value, acts[1..]);
    }
  }

  /** ctx was done before the final switch. */
  predicate StoppedBefore<V>(s: State<V>) {
    s.ctx.Some? && (s.cons.CDone? ==> s.cons.ctxDone)
  }

  lemma StepKeepsStopped<M, V>(cfg: Config<M, V>, s: State<V>, a: Action)
    requires StoppedBefore(s) && Apply(cfg, s, a).Some?
    ensures StoppedBefore(Apply(cfg, s, a).value)
  {
  }

  lemma StepKeepsCtxDone<M, V>(cfg: Config<M, V>, s: State<V>, a: Action)
    requires s.ctx.Some? && Apply(cfg, s, a).Some?
    ensures Apply(cfg, s, a).value.ctx == s.ctx
  {
  }

  /** The error the server's script leads to when nobody cancels. */
  function ScriptError<M>(script: Script<M>): Option<GoError> {
    if script.openErr.Some? then script.openErr
    else if script.end.Eof? then None
    else Some(script.end.err)
  }

  /** Without a cancellation the output does not depend on the schedule at all: no
      message is lost and the terminal frame is the script's. */
  lemma UncancelledPumpIsDeterministic<M, V>(cfg: Config<M, V>, acts: seq<Action>)
    requires Run(cfg, Init(), acts).Some? && Run(cfg, Init(), acts).value.cons.CDone?
    requires forall a :: a in acts ==> !a.Cancel?
    ensures Run(cfg, Init(), acts).value.out
         == PumpOutput(if cfg.script.openErr.Some? then [] else Sent(cfg), ScriptError(cfg.script), false)
  {
    RunKeepsInv(cfg, Init(), acts);
    CtxStaysLive(cfg, Init(), acts);
  }

  lemma {:induction false} CtxStaysLive<M, V>(cfg: Config<M, V>, s: State<V>, acts: seq<Action>)
    requires Run(cfg, s, acts).Some? && s.ctx.None?
    requires forall a :: a in acts ==> !a.Cancel?
    ensures Run(cfg, s, acts).value.ctx.None?
    decreases |acts|
  {
    if acts == [] {
    } else {
      CtxStaysLive(cfg, Apply(cfg, s, acts[0]).value, acts[1..]);
    }
  }

  /** Steps left: four for each message not yet received, and what the program
      counters and a pending cancellation still allow. */
  function Fuel<M, V>(cfg: Config<M, V>, s: State<V>): int {
    4 * (|cfg.script.msgs| - s.received)
    + (match s.prod
       case POpen => 5
       case PRecv => 4
       case PSelect(_) => 7
       case PPutErr(_) => 3
       case PCloseErrs => 2
       case PCloseEvents => 1
       case PDone => 0)
    + (match s.cons
       case CReady => 4
       case CRange => 3
       case CFrame(_) => 5
       case CLine(_) => 4
       case CErrs => 2
       case CSwitch(_) => 1
       case CDone(_, _, _) => 0
       case CGone => 0)
    + (if s.ctx.None? then 1 else 0)
  }

  lemma ProducerBurnsFuel<M, V>(cfg: Config<M, V>, s: State<V>, a: Action)
    requires ApplyProducer(cfg, s, a).Some? && !ApplyProducer(cfg, s, a).value.panicked
    ensures Fuel(cfg, ApplyProducer(cfg, s, a).value) < Fuel(cfg, s)
  {
  }

  lemma ConsumerBurnsFuel<M, V>(cfg: Config<M, V>, s: State<V>, a: Action)
    requires ApplyConsumer(s, a).Some?
    ensures Fuel(cfg, ApplyConsumer(s, a).value) < Fuel(cfg, s)
  {
  }

  lemma FuelIsNatural<M, V>(cfg: Config<M, V>, s: State<V>)
    requires Inv(cfg, s)
    ensures Fuel(cfg, s) >= 0
  {
  }

  lemma StepBurnsFuel<M, V>(cfg: Config<M, V>, s: State<V>, a: Action)
    requires Inv(cfg, s) && Apply(cfg, s, a).Some?
    ensures 0 <= Fuel(cfg, Apply(cfg, s, a).value) < Fuel(cfg, s)
  {
    var t := Apply(cfg, s, a).value;
    StepKeepsInv(cfg, s, a);
    FuelIsNatural(cfg, t);
    if Apply(cfg, s, a) == ApplyConsumer(s, a) {
      ConsumerBurnsFuel(cfg, s, a);
    } else if !a.Cancel? {
      ProducerBurnsFuel(cfg, s, a);
    }
  }

  lemma {:induction false} RunBurnsFuel<M, V>(cfg: Config<M, V>, s: State<V>, acts: seq<Action>)
    requires Inv(cfg, s) && Run(cfg, s, acts).Some?
    ensures |acts| + Fuel(cfg, Run(cfg, s, acts).value) <= Fuel(cfg, s)
    decreases |acts|
  {
    if acts == [] {
    } else {
      StepBurnsFuel(cfg, s, acts[0]);
      StepKeepsInv(cfg, s, acts[0]);
      RunBurnsFuel(cfg, Apply(cfg, s, acts[0]).value, acts[1..]);
    }
  }

  /** Termination: no interleaving takes more than 4n + 10 steps for n messages. */
  lemma EveryRunIsShort<M, V>(cfg: Config<M, V>, acts: seq<Action>)
    requires Run(cfg, Init(), acts).Some?
    ensures |acts| <= 4 * |cfg.script.msgs| + 10
  {
    RunBurnsFuel(cfg, Init(), acts);
    RunKeepsInv(cfg, Init(), acts);
  }

  /** Some step other than a cancellation or the consumer walking away is enabled. */
  ghost predicate Moves<M, V>(cfg: Config<M, V>, s: State<V>) {
    exists a: Action :: !a.Cancel? && !a.Quit? && Apply(cfg, s, a).Some?
  }

  /** When each step can be taken in a reachable state.  The environment is not narrowed:
      a done ctx may fail the open call and Recv with any error, but need not; with a
      receiver waiting and ctx done the select may choose either; a caller may leave
      whenever it waits.  No put and no close is ever blocked. */
  lemma EnabledIff<M, V>(cfg: Config<M, V>, s: State<V>, a: Action)
    requires Inv(cfg, s)
    ensures Apply(cfg, s, a).Some? <==>
      match a
      case Cancel(why) => s.ctx.None? && why in {CtxCanceled, CtxDeadline}
      case Open => s.prod.POpen?
      case OpenFail(_) => s.prod.POpen? && s.ctx.Some?
      case Recv => s.prod.PRecv?
      case RecvFail(_) => s.prod.PRecv? && s.ctx.Some?
      case Send => s.prod.PSelect? && s.cons.CRange?
      case SelectDone => s.prod.PSelect? && s.ctx.Some?
      case PutErr => s.prod.PPutErr?
      case CloseErrs => s.prod.PCloseErrs?
      case CloseEvents => s.prod.PCloseEvents?
      case WriteReady => s.cons.CReady?
      case CallFrame => s.cons.CFrame?
      case WriteLine => s.cons.CLine?
      case RangeEnd => s.cons.CRange? && s.prod.PDone?
      case TakeErr => s.cons.CErrs?
      case Finish => s.cons.CSwitch?
      case Quit => s.cons.CRange?
  {
  }

  /** Deadlock freedom, as an exact condition: in a reachable state nothing can move
      precisely when both sides finished, or the caller stopped receiving and either
      the producer finished too or it is parked in its select with a live ctx. */
  lemma StuckExactlyWhen<M, V>(cfg: Config<M, V>, s: State<V>)
    requires Inv(cfg, s)
    ensures !Moves(cfg, s) <==>
      || (s.prod.PDone? && (s.cons.CDone? || s.cons.CGone?))
      || (s.prod.PSelect? && s.cons.CGone? && s.ctx.None?)
  {
    var a := match s.prod
      case POpen => Open
      case PRecv => Recv
      case PSelect(_) => if s.ctx.Some? then SelectDone else Send
      case PPutErr(_) => PutErr
      case PCloseErrs => CloseErrs
      case _ => CloseEvents;
    var b := match s.cons
      case CReady => WriteReady
      case CRange => RangeEnd
      case CFrame(_) => CallFrame
      case CLine(_) => WriteLine
      case CErrs => TakeErr
      case _ => Finish;
    assert Apply(cfg, s, a).Some? ==> Moves(cfg, s);
    assert Apply(cfg, s, b).Some? ==> Moves(cfg, s);
  }

  lemma OnlyQuitLeaves<M, V>(cfg: Config<M, V>, s: State<V>, a: Action)
    requires Apply(cfg, s, a).Some? && !a.Quit? && !s.cons.CGone?
    ensures !Apply(cfg, s, a).value.cons.CGone?
  {
  }

  lemma PumpMoves<M, V>(cfg: Config<M, V>, s: State<V>)
    requires Inv(cfg, s) && !s.cons.CGone? && !s.cons.CDone?
    ensures Moves(cfg, s)
  {
    StuckExactlyWhen(cfg, s);
  }

  lemma RunCons<M, V>(cfg: Config<M, V>, s: State<V>, a: Action, acts: seq<Action>)
    requires Apply(cfg, s, a).Some?
    ensures Run(cfg, s, [a] + acts) == Run(cfg, Apply(cfg, s, a).value, acts)
  {
    assert ([a] + acts)[1..] == acts;
  }

  /** A pump never deadlocks: from any reachable state it can be run to completion
      with no further cancellation, and then both goroutines are finished. */
  lemma {:induction false} PumpCompletes<M, V>(cfg: Config<M, V>, s: State<V>) returns (acts: seq<Action>)
    requires Inv(cfg, s) && !s.cons.CGone?
    ensures Run(cfg, s, acts).Some?
    ensures Run(cfg, s, acts).value.cons.CDone? && Run(cfg, s, acts).value.prod.PDone?
    ensures forall a :: a in acts ==> !a.Cancel? && !a.Quit?
    decreases Fuel(cfg, s)
  {
    if s.cons.CDone? {
      acts := [];
    } else {
      PumpMoves(cfg, s);
      var a: Action :| !a.Cancel? && !a.Quit? && Apply(cfg, s, a).Some?;
      StepKeepsInv(cfg, s, a);
      StepBurnsFuel(cfg, s, a);
      OnlyQuitLeaves(cfg, s, a);
      var rest := PumpCompletes(cfg, Apply(cfg, s, a).value);
      RunCons(cfg, s, a, rest);
      acts := [a] + rest;
    }
  }

  /** The one-slot buffer is enough: `errs <- err` and `<-errs` never block. */
  lemma ErrsNeverBlocks<M, V>(cfg: Config<M, V>, acts: seq<Action>)
    requires Run(cfg, Init(), acts).Some?
    ensures var s := Run(cfg, Init(), acts).value;
      && (s.prod.PPutErr? ==> Apply(cfg, s, PutErr).Some?)
      && (s.cons.CErrs? ==> Apply(cfg, s, TakeErr).Some?)
  {
    RunKeepsInv(cfg, Init(), acts);
  }
}
