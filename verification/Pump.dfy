/** The pump as the loop it is (cmd/reckon/stream.go), for a channel whose contents
    are known, and its agreement with the interleaved machine. */
module Pump {
  import opened Options
  import opened Errors
  import opened Bridge

  /** An io.Writer that takes whole NDJSON lines. */
  class LineWriter<F> {
    var lines: seq<F>

    constructor ()
      ensures lines == []
    {
      lines := [];
    }

    method Line(f: F)
      modifies this
      ensures lines == old(lines) + [f]
    {
      lines := lines + [f];
    }
  }

  /** `events` is what the range loop receives, `err` what <-errs yields afterwards,
      `ctxDone` whether ctx is done when the final switch is evaluated. */
  method RunPump<V>(w: LineWriter<Frame<V>>, events: seq<V>, err: Option<GoError>, ctxDone: bool)
    returns (result: Option<CliError>)
    modifies w
    ensures w.lines == old(w.lines) + PumpOutput(events, err, ctxDone)
    ensures result.Some? <==>
      err.Some? && err != Some(CtxCanceled) && !(err.value.Status? && err.value.code == 1) && !ctxDone
    ensures result.Some? ==> ReportedAs(err.value, result.value) && result == Some(FromGRPC(err.value))
  {
    w.Line(Ready);
    for i := 0 to |events|
      invariant w.lines == old(w.lines) + [Ready] + Values(events[..i])
    {
      ValuesSnoc(events[..i], events[i]);
      assert events[..i + 1] == events[..i] + [events[i]];
      w.Line(Value(events[i]));
    }
    assert events[..|events|] == events;
    if err.None? {
      w.Line(EndEof);
      return None;
    } else if IsCanceled(err.value) || ctxDone {
      w.Line(EndClientEof);
      return None;
    } else {
      var ce := FromGRPC(err.value);
      MappedByTheTable(err.value, err.value);
      w.Line(ErrorFrame(ce.code, ce.msg));
      return Some(ce);
    }
  }

  /** Refinement: every completed interleaving writes what the sequential pump writes
      for the delivered values, the one error put in errs (if any), and ctx as it
      stood at the switch. */
  lemma MachineRefinesPump<M, V>(cfg: Config<M, V>, acts: seq<Action>)
    requires Run(cfg, Init(), acts).Some? && Run(cfg, Init(), acts).value.cons.CDone?
    ensures var s := Run(cfg, Init(), acts).value;
      && s.delivered <= Sent(cfg)
      && s.put == (if s.cons.err.Some? then [s.cons.err.value] else [])
      && (s.cons.ctxDone ==> s.ctx.Some?)
      && s.out == PumpOutput(s.delivered, s.cons.err, s.cons.ctxDone)
      && s.cons.result == Terminal<V>(s.cons.err, s.cons.ctxDone).1
  {
    RunKeepsInv(cfg, Init(), acts);
  }
}
