/** The DCB pseudo-stream under any number of interleaved clients.

    Server contract (genproto/gatewayv1/reckon_dcb_grpc.pb.go): the log is append-only
    with strictly increasing seqs; a read returns the lowest matching events in
    ascending order, possibly fewer than match, with the highest returned seq; a
    conditional append is evaluated and applied in one step. */
module DcbLog {
  import opened Options
  import opened Filters

  /** `author` is the client that wrote the event; the server never looks at it. */
  datatype Entry = Entry(no: nat, event: Event, author: nat)

  type Log = seq<Entry>

  const SAW_NOTHING: int := -1

  predicate Ascending(log: Log) {
    forall i, j :: 0 <= i < j < |log| ==> log[i].no < log[j].no
  }

  /** The events a filter describes, by the caller's reading of it. */
  function Select(f: Filter, log: Log): Log
    requires NoNil(f)
  {
    if log == [] then []
    else
      var last := log[|log| - 1];
      Select(f, log[..|log| - 1]) + if Matches(f, last.event) then [last] else []
  }

  /** The events the server finds for the message it receives. */
  function ServerSelect(w: Wire, log: Log): Log {
    if log == [] then []
    else
      var last := log[|log| - 1];
      ServerSelect(w, log[..|log| - 1]) + if WireMatches(w, last.event) then [last] else []
  }

  /** max_seq of a read: the highest seq among the returned events, or -1. */
  function MaxSeq(events: Log): int {
    if events == [] then SAW_NOTHING else events[|events| - 1].no
  }

  datatype Reply = Committed(lastSeq: nat) | Conflict(maxSeq: nat)

  predicate Stale(w: Wire, cutoff: int, log: Log) {
    exists e <- log :: WireMatches(w, e.event) && e.no > cutoff
  }

  /** AppendIfNoTagMatches; `batch` carries the seqs the server would assign. */
  function AppendIf(log: Log, w: Wire, cutoff: int, batch: Log): (Log, Reply) {
    if Stale(w, cutoff, log) then
      var top := MaxSeq(ServerSelect(w, log));
      (log, Conflict(if top < 0 then 0 else top))
    else
      var log' := log + batch;
      (log', Committed(if log' == [] then 0 else log'[|log'| - 1].no))
  }

  function Stamp(author: nat, batch: seq<Event>, nos: seq<nat>): (es: Log)
    requires |batch| == |nos|
    ensures |es| == |batch|
    ensures forall i :: 0 <= i < |batch| ==> es[i] == Entry(nos[i], batch[i], author)
  {
    seq(|batch|, i requires 0 <= i < |batch| => Entry(nos[i], batch[i], author))
  }

  // ------------------------------------------------------------ facts about logs

  lemma {:induction false} ServerSelectsByMeaning(f: Filter, log: Log)
    requires NoNil(f)
    ensures Compiled(f).Some? && ServerSelect(Compiled(f).value, log) == Select(f, log)
  {
    CompilesIffNoNil(f);
    if log == [] {
    } else {
      ServerSelectsByMeaning(f, log[..|log| - 1]);
      CompilePreservesMeaning(f, log[|log| - 1].event);
    }
  }

  lemma {:induction false} SelectAppend(f: Filter, a: Log, b: Log)
    requires NoNil(f)
    ensures Select(f, a + b) == Select(f, a) + Select(f, b)
  {
    if b == [] {
      assert a + b == a;
    } else {
      var n := |b| - 1;
      SelectAppend(f, a, b[..n]);
      assert (a + b)[..|a| + n] == a + b[..n];
    }
  }

  lemma {:induction false} SelectMembers(f: Filter, log: Log, e: Entry)
    requires NoNil(f)
    ensures e in Select(f, log) <==> e in log && Matches(f, e.event)
  {
    if log == [] {
    } else {
      var init, last := log[..|log| - 1], log[|log| - 1];
      SelectMembers(f, init, e);
      assert log == init + [last];
      assert e in log <==> e in init || e == last;
    }
  }

  lemma {:induction false} SelectAscends(f: Filter, log: Log)
    requires NoNil(f) && Ascending(log)
    ensures Ascending(Select(f, log))
  {
    if log == [] {
    } else {
      var init, last := log[..|log| - 1], log[|log| - 1];
      SelectAscends(f, init);
      var s := Select(f, init);
      forall i | 0 <= i < |s|
        ensures s[i].no < last.no
      {
        SelectMembers(f, init, s[i]);
      }
    }
  }

  lemma SelectIsExact(f: Filter, log: Log)
    requires NoNil(f)
    ensures forall e :: e in Select(f, log) <==> e in log && Matches(f, e.event)
    ensures Ascending(log) ==> Ascending(Select(f, log))
  {
    forall e
      ensures e in Select(f, log) <==> e in log && Matches(f, e.event)
    {
      SelectMembers(f, log, e);
    }
    if Ascending(log) {
      SelectAscends(f, log);
    }
  }

  lemma LastIsHighest(log: Log, e: Entry)
    requires Ascending(log) && e in log
    ensures e.no <= log[|log| - 1].no
  {
    var i :| 0 <= i < |log| && log[i] == e;
  }

  /** Reading a filter's context and appending under its max_seq: the append is
      accepted exactly when what was read is everything that matches now.  `seen` is
      any ascending prefix of the matching events, so this covers capped reads. */
  lemma FreshExactlyWhenComplete(f: Filter, log: Log, seen: Log)
    requires NoNil(f) && Ascending(log) && seen <= Select(f, log)
    ensures Compiled(f).Some?
    ensures !Stale(Compiled(f).value, MaxSeq(seen), log) <==> seen == Select(f, log)
  {
    CompilesIffNoNil(f);
    SelectAscends(f, log);
    var all := Select(f, log);
    if |seen| < |all| {
      var next := all[|seen|];
      SelectMembers(f, log, next);
      CompilePreservesMeaning(f, next.event);
      assert next.no > MaxSeq(seen);
    } else {
      NothingAboveLastMatch(f, log);
    }
  }

  lemma NothingAboveLastMatch(f: Filter, log: Log)
    requires NoNil(f) && Ascending(log) && Compiled(f).Some?
    ensures !Stale(Compiled(f).value, MaxSeq(Select(f, log)), log)
  {
    SelectAscends(f, log);
    forall e | e in log && WireMatches(Compiled(f).value, e.event)
      ensures e.no <= MaxSeq(Select(f, log))
    {
      CompilePreservesMeaning(f, e.event);
      SelectMembers(f, log, e);
      LastIsHighest(Select(f, log), e);
    }
  }

  /** A conflict names a seq strictly above the cutoff: that of the newest match. */
  lemma ConflictAboveCutoff(f: Filter, log: Log, cutoff: int, batch: Log)
    requires NoNil(f) && Ascending(log) && Compiled(f).Some?
    requires Stale(Compiled(f).value, cutoff, log)
    ensures Select(f, log) != []
    ensures AppendIf(log, Compiled(f).value, cutoff, batch) == (log, Conflict(Select(f, log)[|Select(f, log)| - 1].no))
    ensures Select(f, log)[|Select(f, log)| - 1].no > cutoff
  {
    ServerSelectsByMeaning(f, log);
    SelectAscends(f, log);
    var e :| e in log && WireMatches(Compiled(f).value, e.event) && e.no > cutoff;
    CompilePreservesMeaning(f, e.event);
    SelectMembers(f, log, e);
    LastIsHighest(Select(f, log), e);
  }

  // ------------------------------------------------------------------ the machine

  /** A client's decision context. `at` (the log's length when it was read) and
      `whole` (whether the read was not capped) record history. */
  datatype Context = Context(filter: Filter, events: Log, cutoff: int, at: nat, whole: bool)

  datatype State = State(log: Log, ctxs: map<nat, Context>)

  type Decision = Log -> seq<Event>

  datatype Action =
    | Read(c: nat, filter: Filter, n: nat)              // the server returned n events
    | Append(c: nat, decide: Decision, nos: seq<nat>)   // decide on the context, append under it
    | Other(c: nat, filter: Filter, cutoff: int, batch: seq<Event>, nos: seq<nat>)  // any other append

  /** The append request of an action: wire filter, cutoff and stamped batch; None
      for a read, and when the client has no context or the filter cannot be sent. */
  datatype Request = Request(filter: Filter, cutoff: int, batch: Log)

  function RequestOf(s: State, a: Action): Option<Request> {
    match a
    case Read(_, _, _) => None
    case Append(c, decide, nos) =>
      if c in s.ctxs && |decide(s.ctxs[c].events)| == |nos| then
        var ctx := s.ctxs[c];
        Some(Request(ctx.filter, ctx.cutoff, Stamp(c, decide(ctx.events), nos)))
      else None
    case Other(c, f, cutoff, batch, nos) =>
      if |batch| == |nos| then Some(Request(f, cutoff, Stamp(c, batch, nos))) else None
  }

  function Submit(log: Log, r: Request): (Log, Reply)
    requires Compiled(r.filter).Some?
  {
    AppendIf(log, Compiled(r.filter).value, r.cutoff, r.batch)
  }

  const EMPTY: State := State([], map[])

  /** One step. A client keeps its context until it reads again, whatever it appends. */
  function Apply(s: State, a: Action): Option<State> {
    if a.Read? then
      var w := Compiled(a.filter);
      if w.None? || a.n > |ServerSelect(w.value, s.log)| then None
      else
        var found := ServerSelect(w.value, s.log);
        var events := found[..a.n];
        Some(s.(ctxs := s.ctxs[a.c := Context(a.filter, events, MaxSeq(events), |s.log|, a.n == |found|)]))
    else
      var r := RequestOf(s, a);
      if r.None? || Compiled(r.value.filter).None? then None
      else
        var log' := Submit(s.log, r.value).0;
        if !Ascending(log') then None
        else Some(s.(log := log'))
  }

  function Run(s: State, acts: seq<Action>): Option<State>
    decreases |acts|
  {
    if acts == [] then Some(s)
    else
      var next := Apply(s, acts[0]);
      if next.None? then None else Run(next.value, acts[1..])
  }

  /** An enabled append that the server accepts. */
  predicate Commits(s: State, a: Action) {
    && Apply(s, a).Some?
    && !a.Read?
    && Submit(s.log, RequestOf(s, a).value).1.Committed?
  }

  ghost predicate ContextOk(log: Log, ctx: Context) {
    && NoNil(ctx.filter)
    && ctx.at <= |log|
    && ctx.events <= Select(ctx.filter, log[..ctx.at])
    && ctx.cutoff == MaxSeq(ctx.events)
    && (ctx.whole <==> ctx.events == Select(ctx.filter, log[..ctx.at]))
  }

  ghost predicate Inv(s: State) {
    && Ascending(s.log)
    && forall c :: c in s.ctxs ==> ContextOk(s.log, s.ctxs[c])
  }

  lemma SelectSplit(f: Filter, log: Log, at: nat)
    requires NoNil(f) && at <= |log|
    ensures Select(f, log) == Select(f, log[..at]) + Select(f, log[at..])
  {
    SelectAppend(f, log[..at], log[at..]);
    assert log[..at] + log[at..] == log;
  }

  lemma ContextSurvives(log: Log, batch: Log, ctx: Context)
    requires ContextOk(log, ctx)
    ensures ContextOk(log + batch, ctx)
  {
    assert (log + batch)[..ctx.at] == log[..ctx.at];
  }

  lemma ReadMakesContext(log: Log, f: Filter, n: nat)
    requires Compiled(f).Some? && n <= |ServerSelect(Compiled(f).value, log)|
    ensures var found := ServerSelect(Compiled(f).value, log);
      ContextOk(log, Context(f, found[..n], MaxSeq(found[..n]), |log|, n == |found|))
  {
    CompilesIffNoNil(f);
    ServerSelectsByMeaning(f, log);
    assert log[..|log|] == log;
  }

  lemma StepKeepsInv(s: State, a: Action)
    requires Inv(s) && Apply(s, a).Some?
    ensures Inv(Apply(s, a).value)
  {
    if a.Read? {
      ReadMakesContext(s.log, a.filter, a.n);
    } else {
      var t, r := Apply(s, a).value, RequestOf(s, a).value;
      assert t.log == s.log || t.log == s.log + r.batch;
      forall c | c in t.ctxs
        ensures ContextOk(t.log, t.ctxs[c])
      {
        ContextSurvives(s.log, r.batch, s.ctxs[c]);
      }
    }
  }

  /** When a read is possible and what it does: any filter without a nil, and any number
      of the lowest matches; it changes the reader's context and nothing else. */
  lemma ReadStep(s: State, c: nat, f: Filter, n: nat)
    requires Inv(s)
    ensures Apply(s, Read(c, f, n)).Some? <==> NoNil(f) && n <= |Select(f, s.log)|
    ensures Apply(s, Read(c, f, n)).Some? ==>
      var t := Apply(s, Read(c, f, n)).value;
      && t.log == s.log && t.ctxs.Keys == s.ctxs.Keys + {c}
      && (forall c' <- s.ctxs :: c' != c ==> t.ctxs[c'] == s.ctxs[c'])
      && t.ctxs[c].filter == f && t.ctxs[c].events == Select(f, s.log)[..n]
  {
    CompilesIffNoNil(f);
    if NoNil(f) {
      ServerSelectsByMeaning(f, s.log);
    }
  }

  /** When an append under a context is possible, whatever seqs above the log it is given,
      and what it does: its batch is added exactly when the context is all that matches
      now, and no context changes. */
  lemma AppendStep(s: State, c: nat, decide: Decision, nos: seq<nat>)
    requires Inv(s) && c in s.ctxs && |decide(s.ctxs[c].events)| == |nos|
    ensures var exact := s.ctxs[c].events == Select(s.ctxs[c].filter, s.log);
      var batch := Stamp(c, decide(s.ctxs[c].events), nos);
      && (Apply(s, Append(c, decide, nos)).Some? <==> (exact ==> Ascending(s.log + batch)))
      && (Apply(s, Append(c, decide, nos)).Some? ==>
            Apply(s, Append(c, decide, nos)) == Some(s.(log := if exact then s.log + batch else s.log)))
  {
    var ctx := s.ctxs[c];
    SelectSplit(ctx.filter, s.log, ctx.at);
    FreshExactlyWhenComplete(ctx.filter, s.log, ctx.events);
  }

  /** The same for any other append: its batch is added exactly when nothing above the
      cutoff it brings matches its filter. */
  lemma OtherStep(s: State, c: nat, f: Filter, cutoff: int, batch: seq<Event>, nos: seq<nat>)
    requires Inv(s) && |batch| == |nos| && NoNil(f)
    ensures var accepted := forall e <- s.log :: Matches(f, e.event) ==> e.no <= cutoff;
      var stamped := Stamp(c, batch, nos);
      && (Apply(s, Other(c, f, cutoff, batch, nos)).Some? <==> (accepted ==> Ascending(s.log + stamped)))
      && (Apply(s, Other(c, f, cutoff, batch, nos)).Some? ==>
            Apply(s, Other(c, f, cutoff, batch, nos)) == Some(s.(log := if accepted then s.log + stamped else s.log)))
  {
    CompilesIffNoNil(f);
    forall e | e in s.log
      ensures WireMatches(Compiled(f).value, e.event) <==> Matches(f, e.event)
    {
      CompilePreservesMeaning(f, e.event);
    }
  }

  lemma {:induction false} RunKeepsInv(s: State, acts: seq<Action>)
    requires Inv(s) && Run(s, acts).Some?
    ensures Inv(Run(s, acts).value)
    decreases |acts|
  {
    if acts == [] {
    } else {
      StepKeepsInv(s, acts[0]);
      RunKeepsInv(Apply(s, acts[0]).value, acts[1..]);
    }
  }

  /** Every state reachable from the empty log satisfies the invariant. */
  lemma ReachableInv(acts: seq<Action>)
    requires Run(EMPTY, acts).Some?
    ensures Inv(Run(EMPTY, acts).value)
  {
    RunKeepsInv(EMPTY, acts);
  }

  // ------------------------------------------------------------------- theorems

  /** The heart of the decision loop, in every reachable state: an append under a
      read context commits if and only if that context is, at this moment, exactly
      the matching events of the log. */
  lemma CommitIffContextExact(s: State, c: nat, decide: Decision, nos: seq<nat>)
    requires Inv(s) && Apply(s, Append(c, decide, nos)).Some?
    ensures Commits(s, Append(c, decide, nos)) <==> s.ctxs[c].events == Select(s.ctxs[c].filter, s.log)
  {
    var ctx := s.ctxs[c];
    SelectSplit(ctx.filter, s.log, ctx.at);
    FreshExactlyWhenComplete(ctx.filter, s.log, ctx.events);
  }

  /** A context cut short by the batch size never commits. */
  lemma CappedContextNeverCommits(s: State, c: nat, decide: Decision, nos: seq<nat>)
    requires Inv(s) && Apply(s, Append(c, decide, nos)).Some? && !s.ctxs[c].whole
    ensures !Commits(s, Append(c, decide, nos))
  {
    CommitIffContextExact(s, c, decide, nos);
    SelectSplit(s.ctxs[c].filter, s.log, s.ctxs[c].at);
  }

  /** A conflict after an uncapped read: a matching event was committed after that
      read, the reported seq, above the cutoff, is such an event's, and it is another
      client's unless this client itself wrote a match since it read. */
  lemma ConflictMeansForeignMatch(s: State, c: nat, decide: Decision, nos: seq<nat>)
    requires Inv(s) && Apply(s, Append(c, decide, nos)).Some?
    requires s.ctxs[c].whole && !Commits(s, Append(c, decide, nos))
    ensures var reply := Submit(s.log, RequestOf(s, Append(c, decide, nos)).value).1;
      && reply.maxSeq > s.ctxs[c].cutoff
      && exists e :: && e in s.log[s.ctxs[c].at..] && e.no == reply.maxSeq && Matches(s.ctxs[c].filter, e.event)
                     && (OwnMatchSince(s, c) || e.author != c)
  {
    var ctx := s.ctxs[c];
    var since := s.log[ctx.at..];
    CommitIffContextExact(s, c, decide, nos);
    SelectSplit(ctx.filter, s.log, ctx.at);
    SelectIsExact(ctx.filter, since);
    ConflictAboveCutoff(ctx.filter, s.log, ctx.cutoff, RequestOf(s, Append(c, decide, nos)).value.batch);
    var e := Select(ctx.filter, since)[|Select(ctx.filter, since)| - 1];
    assert e in since;
  }

  /** Since it read its context, client c has itself written an event that matches it. */
  predicate OwnMatchSince(s: State, c: nat)
    requires c in s.ctxs && s.ctxs[c].at <= |s.log| && NoNil(s.ctxs[c].filter)
  {
    exists e <- s.log[s.ctxs[c].at..] :: e.author == c && Matches(s.ctxs[c].filter, e.event)
  }

  /** A transaction of the serial execution: read everything that matches, decide and
      write, with nothing in between; or an unconditional write. */
  datatype Txn =
    | Atomic(c: nat, filter: Filter, decide: Decision, nos: seq<nat>)
    | Write(batch: Log)

  predicate TxnOk(log: Log, t: Txn) {
    t.Atomic? ==> NoNil(t.filter) && |t.decide(Select(t.filter, log))| == |t.nos|
  }

  function SerialRun(log: Log, txns: seq<Txn>): Option<Log>
    decreases |txns|
  {
    if txns == [] then Some(log)
    else if !TxnOk(log, txns[0]) then None
    else
      var t := txns[0];
      var batch := if t.Write? then t.batch else Stamp(t.c, t.decide(Select(t.filter, log)), t.nos);
      SerialRun(log + batch, txns[1..])
  }

  /** The committed appends of a run, in commit order. */
  function Serialized(s: State, acts: seq<Action>): seq<Txn>
    requires Run(s, acts).Some?
    decreases |acts|
  {
    if acts == [] then []
    else
      var rest := Serialized(Apply(s, acts[0]).value, acts[1..]);
      if !Commits(s, acts[0]) then rest
      else
        var a := acts[0];
        var t := if a.Append? then Atomic(a.c, s.ctxs[a.c].filter, a.decide, a.nos)
                 else Write(RequestOf(s, a).value.batch);
        [t] + rest
  }

  lemma StepSerializes(s: State, a: Action)
    requires Inv(s) && Apply(s, a).Some?
    ensures !Commits(s, a) ==> Apply(s, a).value.log == s.log
    ensures Commits(s, a) ==> Apply(s, a).value.log == s.log + RequestOf(s, a).value.batch
    ensures Commits(s, a) && a.Append? ==> s.ctxs[a.c].events == Select(s.ctxs[a.c].filter, s.log)
  {
    if a.Append? {
      CommitIffContextExact(s, a.c, a.decide, a.nos);
    }
  }

  /** Serializability: in every interleaving of any number of clients, capped reads
      included, the log is the one left by running the committed decisions one after
      the other, each reading, deciding and appending atomically. */
  lemma {:induction false} EveryRunIsSerializable(s: State, acts: seq<Action>)
    requires Inv(s) && Run(s, acts).Some?
    ensures SerialRun(s.log, Serialized(s, acts)) == Some(Run(s, acts).value.log)
    decreases |acts|
  {
    if acts == [] {
    } else {
      var a := acts[0];
      var t := Apply(s, a).value;
      StepSerializes(s, a);
      StepKeepsInv(s, a);
      EveryRunIsSerializable(t, acts[1..]);
      if Commits(s, a) {
        assert Serialized(s, acts)[1..] == Serialized(t, acts[1..]);
      }
    }
  }

  /** An append that must be the first match of f: under f with cutoff -1, writing an
      event that f matches. */
  predicate Claims(s: State, a: Action, f: Filter)
    requires NoNil(f)
  {
    var r := RequestOf(s, a);
    r.Some? && r.value.filter == f && r.value.cutoff == SAW_NOTHING && HasMatch(f, r.value.batch)
  }

  predicate HasMatch(f: Filter, log: Log)
    requires NoNil(f)
  {
    exists e <- log :: Matches(f, e.event)
  }

  function CommittedClaims(s: State, acts: seq<Action>, f: Filter): nat
    requires NoNil(f) && Run(s, acts).Some?
    decreases |acts|
  {
    if acts == [] then 0
    else
      (if Commits(s, acts[0]) && Claims(s, acts[0], f) then 1 else 0)
      + CommittedClaims(Apply(s, acts[0]).value, acts[1..], f)
  }

  /** Uniqueness: in every run at most one claim of a filter commits, and none once any
      event matches it, whatever every other client does. */
  lemma {:induction false} AtMostOneClaimCommits(s: State, acts: seq<Action>, f: Filter)
    requires NoNil(f) && Run(s, acts).Some?
    ensures CommittedClaims(s, acts, f) <= if HasMatch(f, s.log) then 0 else 1
    decreases |acts|
  {
    if acts == [] {
    } else {
      var a := acts[0];
      var s' := Apply(s, a).value;
      AtMostOneClaimCommits(s', acts[1..], f);
      assert HasMatch(f, s.log) ==> HasMatch(f, s'.log);
      if Commits(s, a) && Claims(s, a, f) {
        ClaimNeedsNoMatch(s, a, f);
      }
    }
  }

  lemma ClaimNeedsNoMatch(s: State, a: Action, f: Filter)
    requires NoNil(f) && Commits(s, a) && Claims(s, a, f)
    ensures !HasMatch(f, s.log) && HasMatch(f, Apply(s, a).value.log)
  {
    var r := RequestOf(s, a).value;
    if HasMatch(f, s.log) {
      var e :| e in s.log && Matches(f, e.event);
      CompilePreservesMeaning(f, e.event);
    }
    var e :| e in r.batch && Matches(f, e.event);
    assert e in s.log + r.batch;
  }
}
