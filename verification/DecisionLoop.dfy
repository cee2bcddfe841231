/** The canonical decision loop (package documentation of dcb/dcb.go) run against a
    server object while other clients write, and the two documented shortcuts that
    skip the re-read: LastSeq as the next cutoff, Conflict.MaxSeq as the retry cutoff. */
module DecisionLoop {
  import opened Options
  import opened Errors
  import opened Filters
  import opened DcbLog

  /** An event another client commits, `gap` seqs further on than necessary. */
  datatype Foreign = Foreign(author: nat, event: Event, gap: nat)

  /** A transport failure of the append: the caller sees only `err`, but the server may
      have evaluated the request before the reply was lost. */
  datatype Failure = Failure(err: GoError, applied: bool)

  /** What happens around one iteration of the loop. `shown` is how many matching
      events the read returns at most; a failed read leaves the zero ReadResult. */
  datatype Round = Round(
    before: seq<Foreign>,
    readFails: bool,
    shown: nat,
    between: seq<Foreign>,
    appendFails: Option<Failure>)

  predicate ExtendedByOthers(base: Log, grown: Log, me: nat) {
    base <= grown && forall i :: |base| <= i < |grown| ==> grown[i].author != me
  }

  lemma OthersThenOthers(start: Log, mid: Log, end: Log, me: nat)
    requires ExtendedByOthers(start, mid, me) && ExtendedByOthers(mid, end, me)
    ensures ExtendedByOthers(start, end, me)
  {
  }

  class Server {
    var log: Log

    predicate Valid()
      reads this
    {
      Ascending(log)
    }

    constructor ()
      ensures Valid() && log == []
    {
      log := [];
    }

    method Assign(author: nat, event: Event, gap: nat)
      requires Valid()
      modifies this
      ensures Valid()
      ensures |log| == |old(log)| + 1 && log[..|old(log)|] == old(log)
      ensures log[|old(log)|].event == event && log[|old(log)|].author == author
      ensures log[|old(log)|].no == if old(log) == [] then gap else old(log)[|old(log)| - 1].no + 1 + gap
    {
      var no := if log == [] then gap else log[|log| - 1].no + 1 + gap;
      log := log + [Entry(no, event, author)];
    }

    /** Other clients' commits, in the order they reach the server. */
    method Interfere(me: nat, others: seq<Foreign>)
      requires Valid() && forall o <- others :: o.author != me
      modifies this
      ensures Valid() && ExtendedByOthers(old(log), log, me) && |log| == |old(log)| + |others|
    {
      for i := 0 to |others|
        invariant Valid() && ExtendedByOthers(old(log), log, me) && |log| == |old(log)| + i
      {
        Assign(others[i].author, others[i].event, others[i].gap);
      }
    }

    method ReadDcbContext(w: Wire, shown: nat) returns (events: Log, maxSeq: int)
      ensures events <= ServerSelect(w, log) && |events| <= shown
      ensures |ServerSelect(w, log)| <= shown ==> events == ServerSelect(w, log)
      ensures |ServerSelect(w, log)| > shown ==> |events| == shown
      ensures maxSeq == MaxSeq(events)
    {
      var found := ServerSelect(w, log);
      events := if |found| <= shown then found else found[..shown];
      maxSeq := MaxSeq(events);
    }

    method Write(me: nat, batch: seq<Event>)
      requires Valid()
      modifies this
      ensures Valid() && WroteBatch(old(log), log, me, batch)
    {
      for i := 0 to |batch|
        invariant Valid() && WroteBatch(old(log), log, me, batch[..i])
      {
        ghost var before := log;
        Assign(me, batch[i], 0);
        WroteOneMore(old(log), before, log, me, batch, i);
      }
      assert batch[..|batch|] == batch;
    }

    method AppendIfNoTagMatches(w: Wire, cutoff: int, me: nat, batch: seq<Event>) returns (reply: Reply)
      requires Valid()
      modifies this
      ensures Valid()
      ensures old(log) <= log && (log, reply) == AppendIf(old(log), w, cutoff, log[|old(log)|..])
      ensures reply.Committed? ==> WroteBatch(old(log), log, me, batch)
      ensures reply.Committed? && log != [] ==> reply.lastSeq == log[|log| - 1].no
      ensures reply.Conflict? ==> log == old(log)
    {
      if Stale(w, cutoff, log) {
        assert log[|log|..] == [];
        var top := MaxSeq(ServerSelect(w, log));
        return Conflict(if top < 0 then 0 else top);
      }
      ghost var pre := log;
      Write(me, batch);
      CommitsAs(pre, log, w, cutoff);
      return Committed(if log == [] then 0 else log[|log| - 1].no);
    }
  }

  lemma CommitsAs(pre: Log, log: Log, w: Wire, cutoff: int)
    requires pre <= log && !Stale(w, cutoff, pre)
    ensures (log, Committed(if log == [] then 0 else log[|log| - 1].no)) == AppendIf(pre, w, cutoff, log[|pre|..])
  {
    assert pre + log[|pre|..] == log;
  }

  predicate WroteBatch(base: Log, grown: Log, me: nat, batch: seq<Event>) {
    && |grown| == |base| + |batch|
    && base <= grown
    && forall j :: |base| <= j < |grown| ==> grown[j].event == batch[j - |base|] && grown[j].author == me
  }

  lemma WroteOneMore(base: Log, before: Log, after: Log, me: nat, batch: seq<Event>, i: nat)
    requires i < |batch| && WroteBatch(base, before, me, batch[..i])
    requires |after| == |before| + 1 && after[..|before|] == before
    requires after[|before|].event == batch[i] && after[|before|].author == me
    ensures WroteBatch(base, after, me, batch[..i + 1])
  {
    assert forall k :: 0 <= k < |before| ==> after[k] == after[..|before|][k] == before[k];
    assert base <= after;
  }

  datatype Outcome =
    | Done(lastSeq: nat)
    | Failed(err: GoError)   // the append returned an error
    | Exhausted              // every try in the budget conflicted
    | Panicked               // the filter has a nil inside and cannot be compiled

  /** What Read and Append return for a nil filter, before any request is sent. */
  const NIL_FILTER: GoError := Plain("dcb: nil filter")

  /** The append of a decision made on `seen` is accepted at this log: `seen` is all
      that matches -- unless the read had failed and missed a match of seq 0. */
  predicate Accepted(f: Filter, log: Log, seen: Log, readFailed: bool)
    requires NoNil(f)
  {
    seen == Select(f, log) || (readFailed && MissedSeqZero(f, log, seen))
  }

  /** The decision was made on an empty context while the only match had seq 0. */
  predicate MissedSeqZero(f: Filter, log: Log, seen: Log)
    requires NoNil(f)
  {
    seen == [] && |Select(f, log)| == 1 && Select(f, log)[0].no == 0
  }

  /** A commit at log length `at` wrote the decision on `seen`, which was accepted. */
  predicate CommittedOn(f: Filter, me: nat, decide: Decision, before: Log, after: Log, at: nat, seen: Log,
                        readFailed: bool)
  {
    && NoNil(f)
    && at <= |after|
    && ExtendedByOthers(before, after[..at], me)
    && WroteBatch(after[..at], after, me, decide(seen))
    && Accepted(f, after[..at], seen, readFailed)
  }

  /** What a read of log handed to the loop. */
  predicate Saw(f: Filter, log: Log, r: Round, seen: Log)
    requires NoNil(f)
  {
    if r.readFails then seen == []
    else seen <= Select(f, log) && (|Select(f, log)| <= r.shown ==> seen == Select(f, log))
  }

  /** The read of r succeeds and returns all of this many matches. */
  predicate Complete(r: Round, matches: nat) {
    !r.readFails && matches <= r.shown
  }

  /** One iteration: read, decide, append.  `seen` is the context the decision was made
      on, `at` the log's length when the append reached the server; None is a conflict. */
  method Try(srv: Server, me: nat, f: Filter, decide: Decision, r: Round)
    returns (outcome: Option<Outcome>, seen: Log, at: nat)
    requires srv.Valid()
    requires (forall o <- r.before :: o.author != me) && (forall o <- r.between :: o.author != me)
    modifies srv
    ensures srv.Valid()
    ensures at <= |srv.log| && ExtendedByOthers(old(srv.log), srv.log[..at], me)
    ensures outcome != Some(Exhausted)
    ensures outcome == Some(Panicked) <==> !f.Nil? && !NoNil(f)
    ensures f.Nil? ==> outcome == Some(Failed(Plain("dcb: nil filter")))
    ensures !NoNil(f) ==> at == |srv.log|
    ensures NoNil(f) ==> TryEnded(f, me, decide, r, old(srv.log), srv.log, outcome, seen, at)
  {
    if f.Nil? {
      srv.Interfere(me, r.before + r.between);
      seen, at := [], |srv.log|;
      assert srv.log[..at] == srv.log;
      return Some(Failed(NIL_FILTER)), seen, at;
    }
    var w := ToProto(f);
    CompilesIffNoNil(f);
    if w.None? {
      srv.Interfere(me, r.before);
      seen, at := [], |srv.log|;
      assert srv.log[..at] == srv.log;
      return Some(Panicked), seen, at;
    }
    outcome, seen, at := TryCompiled(srv, me, f, w.value, decide, r);
  }

  /** The last event of the log is one that `me` wrote at or after position `at`, and its
      seq is `lastSeq`. */
  predicate LastIs(log: Log, at: nat, me: nat, lastSeq: nat) {
    |log| > at && log[|log| - 1].author == me && log[|log| - 1].no == lastSeq
  }

  /** How an iteration ends when the filter can be compiled, whatever happens around it.
      Unless the call failed, the append committed exactly when `seen` was complete, or
      a failed read had missed seq 0.  A failed call wrote nothing unless the server had
      evaluated it, and then exactly what it writes otherwise. */
  ghost predicate TryEnded(f: Filter, me: nat, decide: Decision, r: Round, before: Log, after: Log,
                           outcome: Option<Outcome>, seen: Log, at: nat)
    requires NoNil(f) && at <= |after|
  {
    var accepted := Accepted(f, after[..at], seen, r.readFails);
    // what it saw, and when the append arrived
    && at == |before| + |r.before| + |r.between|
    && Saw(f, after[..at - |r.between|], r, seen)
    // which outcome
    && (match r.appendFails
        case Some(failure) => outcome == Some(Failed(failure.err))
        case None => if accepted then outcome.Some? && outcome.value.Done? else outcome.None?)
    // what is reported
    && (outcome.Some? && outcome.value.Done? && |decide(seen)| > 0 ==>
          LastIs(after, at, me, outcome.value.lastSeq))
    // what was written
    && (if accepted && (r.appendFails.Some? ==> r.appendFails.value.applied)
        then CommittedOn(f, me, decide, before, after, at, seen, r.readFails)
        else at == |after|)
    // a conflict after a read of everything means a new match since the read
    && var had := |Select(f, after[..at - |r.between|])|;
       outcome.None? && Complete(r, had) ==> |Select(f, after[..at])| > had
  }

  /** One Read call, whose error the loop drops: a failed one leaves the zero result. */
  method Read(srv: Server, f: Filter, w: Wire, r: Round) returns (seen: Log, maxSeq: int)
    requires NoNil(f) && Compiled(f) == Some(w)
    ensures Saw(f, srv.log, r, seen)
    ensures maxSeq == if r.readFails then 0 else MaxSeq(seen)
  {
    seen, maxSeq := [], 0;
    ServerSelectsByMeaning(f, srv.log);
    if !r.readFails {
      seen, maxSeq := srv.ReadDcbContext(w, r.shown);
    }
  }

  /** One Append call: the request reaches the server unless the call fails before it;
      None is a conflict. */
  method Append(srv: Server, me: nat, w: Wire, cutoff: int, batch: seq<Event>, fails: Option<Failure>)
    returns (outcome: Option<Outcome>)
    requires srv.Valid()
    modifies srv
    ensures srv.Valid()
    ensures match fails
      case Some(failure) => outcome == Some(Failed(failure.err))
      case None => if Stale(w, cutoff, old(srv.log)) then outcome.None? else outcome.Some? && outcome.value.Done?
    ensures outcome.Some? && outcome.value.Done? && srv.log != [] ==>
      outcome.value.lastSeq == srv.log[|srv.log| - 1].no
    ensures if !Stale(w, cutoff, old(srv.log)) && (fails.Some? ==> fails.value.applied)
      then WroteBatch(old(srv.log), srv.log, me, batch) else srv.log == old(srv.log)
  {
    if fails.Some? && !fails.value.applied {
      return Some(Failed(fails.value.err));
    }
    var reply := srv.AppendIfNoTagMatches(w, cutoff, me, batch);
    if fails.Some? {
      outcome := Some(Failed(fails.value.err));
    } else if reply.Committed? {
      outcome := Some(Done(reply.lastSeq));
    } else {
      outcome := None;
    }
  }

  /** The iteration with a filter that compiled to w. */
  method TryCompiled(srv: Server, me: nat, f: Filter, w: Wire, decide: Decision, r: Round)
    returns (outcome: Option<Outcome>, seen: Log, at: nat)
    requires srv.Valid() && NoNil(f) && Compiled(f) == Some(w)
    requires (forall o <- r.before :: o.author != me) && (forall o <- r.between :: o.author != me)
    modifies srv
    ensures srv.Valid()
    ensures at <= |srv.log| && ExtendedByOthers(old(srv.log), srv.log[..at], me)
    ensures TryEnded(f, me, decide, r, old(srv.log), srv.log, outcome, seen, at)
  {
    ghost var start := srv.log;
    srv.Interfere(me, r.before);
    ghost var readAt := srv.log;
    var maxSeq;
    seen, maxSeq := Read(srv, f, w, r);
    srv.Interfere(me, r.between);
    at := |srv.log|;
    ghost var pre := srv.log;
    RoundFacts(f, readAt, pre, r, seen, maxSeq);
    outcome := Append(srv, me, w, maxSeq, decide(seen), r.appendFails);
    TryEnds(f, me, decide, r, start, readAt, pre, srv.log, outcome, seen);
  }

  /** A try seen from the log it leaves: `readAt`, `pre` and `after` are the log when the
      read, the append and the reply happened. */
  lemma TryEnds(f: Filter, me: nat, decide: Decision, r: Round, before: Log, readAt: Log, pre: Log, after: Log,
                outcome: Option<Outcome>, seen: Log)
    requires NoNil(f) && ExtendedByOthers(before, readAt, me) && ExtendedByOthers(readAt, pre, me)
    requires |readAt| == |before| + |r.before| && |pre| == |readAt| + |r.between|
    requires Saw(f, readAt, r, seen)
    requires match r.appendFails
      case Some(failure) => outcome == Some(Failed(failure.err))
      case None => if Accepted(f, pre, seen, r.readFails) then outcome.Some? && outcome.value.Done? else outcome.None?
    requires outcome.Some? && outcome.value.Done? && after != [] ==> outcome.value.lastSeq == after[|after| - 1].no
    requires if Accepted(f, pre, seen, r.readFails) && (r.appendFails.Some? ==> r.appendFails.value.applied)
      then WroteBatch(pre, after, me, decide(seen)) else after == pre
    requires outcome.None? && Complete(r, |Select(f, readAt)|) ==> |Select(f, pre)| > |Select(f, readAt)|
    ensures |pre| <= |after| && ExtendedByOthers(before, after[..|pre|], me)
    ensures TryEnded(f, me, decide, r, before, after, outcome, seen, |pre|)
  {
    assert after[..|pre|] == pre && after[..|readAt|] == readAt;
    OthersThenOthers(before, readAt, pre, me);
  }

  /** The documented loop: try, and on a conflict re-read and try again.  `last` is the
      iteration that ended it, `at` the log's length when its last append arrived. */
  method Decide(srv: Server, me: nat, f: Filter, decide: Decision, rounds: seq<Round>)
    returns (outcome: Outcome, seen: Log, at: nat, last: nat)
    requires srv.Valid()
    requires forall r <- rounds :: (forall o <- r.before :: o.author != me) && (forall o <- r.between :: o.author != me)
    modifies srv
    ensures srv.Valid()
    ensures at <= |srv.log| && ExtendedByOthers(old(srv.log), srv.log[..at], me)
    ensures last <= |rounds|
    ensures outcome.Exhausted? <==> last == |rounds|
    ensures rounds != [] ==>
      && (outcome.Panicked? <==> !f.Nil? && !NoNil(f))
      && (f.Nil? ==> outcome == Failed(Plain("dcb: nil filter")))
    // a failed append ends the loop
    ensures NoNil(f) && last < |rounds| ==>
      if rounds[last].appendFails.Some? then outcome == Failed(rounds[last].appendFails.value.err) else outcome.Done?
    // a commit wrote the decision on the context of its own iteration
    ensures outcome.Done? ==>
      CommittedOn(f, me, decide, old(srv.log), srv.log, at, seen, rounds[last].readFails)
    // and reported the seq of the last event it wrote
    ensures outcome.Done? && |decide(seen)| > 0 ==> LastIs(srv.log, at, me, outcome.lastSeq)
    // after an error the batch is in the log exactly when the server got that far and accepted
    ensures outcome.Failed? ==>
      if NoNil(f) && rounds[last].appendFails.value.applied && Accepted(f, srv.log[..at], seen, rounds[last].readFails)
      then CommittedOn(f, me, decide, old(srv.log), srv.log, at, seen, rounds[last].readFails)
      else at == |srv.log|
    // otherwise this client wrote nothing
    ensures outcome.Exhausted? || outcome.Panicked? ==> at == |srv.log|
    // however it ended, each iteration before was lost to the others
    ensures NoNil(f) ==> LostToOthers(f, old(srv.log), srv.log, rounds, last, at)
  {
    seen, at, last := [], |srv.log|, 0;
    ghost var start := srv.log;
    for i := 0 to |rounds|
      invariant srv.Valid() && at == |srv.log| && ExtendedByOthers(start, srv.log, me)
      invariant i > 0 ==> NoNil(f)
      invariant NoNil(f) ==>
        |srv.log| == BeginsAt(|start|, rounds, i) && AllConflicted(f, srv.log, |start|, rounds, i)
    {
      ghost var before := srv.log;
      var result;
      result, seen, at := Try(srv, me, f, decide, rounds[i]);
      OthersThenOthers(start, before, srv.log[..at], me);
      if result.Some? {
        if NoNil(f) {
          LoopBound(f, start, before, srv.log, rounds, i, at);
        }
        return result.value, seen, at, i;
      }
      assert srv.log[..at] == srv.log;
      OneMoreConflict(f, me, decide, before, srv.log, |start|, rounds, i, seen);
    }
    assert srv.log[..at] == srv.log;
    if NoNil(f) {
      LoopBound(f, start, srv.log, srv.log, rounds, |rounds|, at);
    }
    outcome, last := Exhausted, |rounds|;
  }

  // ------------------------------------------------------ what conflicts cost

  /** How many of the first n events match. */
  function Matching(f: Filter, log: Log, n: nat): nat
    requires NoNil(f)
  {
    |Select(f, if n <= |log| then log[..n] else log)|
  }

  /** The log's length when iteration i begins, and when it reads, while nothing but
      the events of the rounds is written. */
  function BeginsAt(base: nat, rounds: seq<Round>, i: nat): nat
    requires i <= |rounds|
    decreases i, 0
  {
    if i == 0 then base else ReadsAt(base, rounds, i - 1) + |rounds[i - 1].between|
  }

  function ReadsAt(base: nat, rounds: seq<Round>, i: nat): nat
    requires i < |rounds|
    decreases i, 1
  {
    BeginsAt(base, rounds, i) + |rounds[i].before|
  }

  /** Iteration i read everything that matched at that moment. */
  predicate ReadAll(f: Filter, log: Log, base: nat, rounds: seq<Round>, i: nat)
    requires NoNil(f) && i < |rounds|
  {
    Complete(rounds[i], Matching(f, log, ReadsAt(base, rounds, i)))
  }

  /** How many of the first n iterations read everything that matched. */
  function ReadsOfAll(f: Filter, log: Log, base: nat, rounds: seq<Round>, n: nat): (k: nat)
    requires NoNil(f) && n <= |rounds|
    ensures k <= n && ((forall i :: 0 <= i < n ==> ReadAll(f, log, base, rounds, i)) ==> k == n)
  {
    if n == 0 then 0
    else ReadsOfAll(f, log, base, rounds, n - 1) + if ReadAll(f, log, base, rounds, n - 1) then 1 else 0
  }

  /** What a conflict in iteration i says: the append did not fail, a match was there if
      the read failed, and a new match came in after the read if that had them all. */
  predicate Conflicted(f: Filter, log: Log, base: nat, rounds: seq<Round>, i: nat)
    requires NoNil(f) && i < |rounds|
  {
    var arrival := Matching(f, log, BeginsAt(base, rounds, i + 1));
    && rounds[i].appendFails.None?
    && (rounds[i].readFails ==> arrival > 0)
    && (ReadAll(f, log, base, rounds, i) ==>
          rounds[i].between != [] && arrival > Matching(f, log, ReadsAt(base, rounds, i)))
  }

  predicate AllConflicted(f: Filter, log: Log, base: nat, rounds: seq<Round>, n: nat)
    requires NoNil(f) && n <= |rounds|
  {
    forall i :: 0 <= i < n ==> Conflicted(f, log, base, rounds, i)
  }

  lemma MatchingGrows(f: Filter, log: Log, m: nat, n: nat)
    requires NoNil(f) && m <= n
    ensures Matching(f, log, m) <= Matching(f, log, n)
  {
    var longer := if n <= |log| then log[..n] else log;
    var shorter := if m <= |log| then log[..m] else log;
    assert shorter <= longer;
    SelectGrows(f, shorter, longer);
  }

  lemma MatchingStays(f: Filter, log: Log, more: Log, n: nat)
    requires NoNil(f) && log <= more && n <= |log|
    ensures Matching(f, more, n) == Matching(f, log, n)
  {
    assert more[..n] == log[..n];
  }

  lemma {:induction false} BeginsLater(base: nat, rounds: seq<Round>, i: nat, n: nat)
    requires i <= n <= |rounds|
    ensures base <= BeginsAt(base, rounds, i) <= BeginsAt(base, rounds, n)
  {
    if n == 0 {
    } else if i == n {
      BeginsLater(base, rounds, i - 1, n - 1);
    } else {
      BeginsLater(base, rounds, i, n - 1);
    }
  }

  lemma ConflictStays(f: Filter, log: Log, more: Log, base: nat, rounds: seq<Round>, i: nat)
    requires NoNil(f) && log <= more && i < |rounds| && BeginsAt(base, rounds, i + 1) <= |log|
    requires Conflicted(f, log, base, rounds, i)
    ensures Conflicted(f, more, base, rounds, i)
  {
    MatchingStays(f, log, more, BeginsAt(base, rounds, i + 1));
    MatchingStays(f, log, more, ReadsAt(base, rounds, i));
  }

  lemma ConflictsStay(f: Filter, log: Log, more: Log, base: nat, rounds: seq<Round>, n: nat)
    requires NoNil(f) && log <= more && n <= |rounds| && BeginsAt(base, rounds, n) <= |log|
    requires AllConflicted(f, log, base, rounds, n)
    ensures AllConflicted(f, more, base, rounds, n)
  {
    forall i | 0 <= i < n
      ensures Conflicted(f, more, base, rounds, i)
    {
      BeginsLater(base, rounds, i + 1, n);
      ConflictStays(f, log, more, base, rounds, i);
    }
  }

  /** Every read of all that matched, and yet lost, was lost to a match of its own. */
  lemma {:induction false} ConflictsAreCounted(f: Filter, log: Log, base: nat, rounds: seq<Round>, n: nat)
    requires NoNil(f) && n <= |rounds| && AllConflicted(f, log, base, rounds, n)
    ensures Matching(f, log, BeginsAt(base, rounds, n))
         >= Matching(f, log, base) + ReadsOfAll(f, log, base, rounds, n)
  {
    if n == 0 {
    } else {
      ConflictsAreCounted(f, log, base, rounds, n - 1);
      assert Conflicted(f, log, base, rounds, n - 1);
      MatchingGrows(f, log, BeginsAt(base, rounds, n - 1), ReadsAt(base, rounds, n - 1));
      MatchingGrows(f, log, ReadsAt(base, rounds, n - 1), BeginsAt(base, rounds, n));
    }
  }

  /** A read that succeeds with room for the matches at any later moment has them all. */
  lemma RoomIsEnough(f: Filter, log: Log, base: nat, rounds: seq<Round>, n: nat, at: nat)
    requires NoNil(f) && n <= |rounds| && BeginsAt(base, rounds, n) <= at
    requires forall i :: 0 <= i < n ==> Complete(rounds[i], Matching(f, log, at))
    ensures ReadsOfAll(f, log, base, rounds, n) == n
  {
    forall i | 0 <= i < n
      ensures ReadAll(f, log, base, rounds, i)
    {
      BeginsLater(base, rounds, i + 1, n);
      MatchingGrows(f, log, ReadsAt(base, rounds, i), at);
    }
  }

  /** What the loop's conflicts cost, for the log it leaves: an iteration that had read
      everything lost to a match that came in after its read, so the matches grew by as
      many as there are such iterations. */
  predicate LostToOthers(f: Filter, start: Log, log: Log, rounds: seq<Round>, last: nat, at: nat)
    requires NoNil(f) && last <= |rounds| && at <= |log|
  {
    var base, matches := |start|, |Select(f, log[..at])|;
    && at == BeginsAt(base, rounds, if last < |rounds| then last + 1 else last)
    && AllConflicted(f, log, base, rounds, last)
    && matches >= |Select(f, start)| + ReadsOfAll(f, log, base, rounds, last)
    && ((forall i :: 0 <= i < last ==> Complete(rounds[i], matches)) ==> matches >= |Select(f, start)| + last)
  }

  lemma LoopBound(f: Filter, start: Log, before: Log, log: Log, rounds: seq<Round>, n: nat, at: nat)
    requires NoNil(f) && start <= before <= log && at <= |log|
    requires n <= |rounds| && at == BeginsAt(|start|, rounds, if n < |rounds| then n + 1 else n)
    requires |before| == BeginsAt(|start|, rounds, n) && AllConflicted(f, before, |start|, rounds, n)
    ensures LostToOthers(f, start, log, rounds, n, at)
  {
    assert log[..|start|] == start;
    ConflictsStay(f, before, log, |start|, rounds, n);
    ConflictsAreCounted(f, log, |start|, rounds, n);
    MatchingGrows(f, log, BeginsAt(|start|, rounds, n), at);
    if forall i :: 0 <= i < n ==> Complete(rounds[i], |Select(f, log[..at])|) {
      RoomIsEnough(f, log, |start|, rounds, n, at);
    }
  }

  /** One more iteration, from what its end says. */
  lemma OneMoreConflict(f: Filter, me: nat, decide: Decision, before: Log, log: Log, base: nat, rounds: seq<Round>,
                        i: nat, seen: Log)
    requires NoNil(f) && i < |rounds| && |before| == BeginsAt(base, rounds, i) && before <= log
    requires AllConflicted(f, before, base, rounds, i)
    requires TryEnded(f, me, decide, rounds[i], before, log, None, seen, |log|)
    ensures AllConflicted(f, log, base, rounds, i + 1) && |log| == BeginsAt(base, rounds, i + 1)
  {
    assert log[..|log|] == log;
    assert Conflicted(f, log, base, rounds, i);
    ConflictsStay(f, before, log, base, rounds, i);
  }

  lemma RoundFacts(f: Filter, readAt: Log, pre: Log, r: Round, seen: Log, maxSeq: int)
    requires NoNil(f) && Ascending(pre) && readAt <= pre
    requires Saw(f, readAt, r, seen) && maxSeq == if r.readFails then 0 else MaxSeq(seen)
    ensures Compiled(f).Some?
    ensures !Stale(Compiled(f).value, maxSeq, pre) <==> Accepted(f, pre, seen, r.readFails)
    ensures !Accepted(f, pre, seen, r.readFails) && Complete(r, |Select(f, readAt)|) ==>
      |Select(f, pre)| > |Select(f, readAt)|
  {
    if r.readFails {
      AfterFailedRead(f, pre);
    } else {
      AfterRead(f, readAt, pre, seen);
      if seen == Select(f, readAt) != Select(f, pre) {
        SelectGrows(f, readAt, pre);
        LongerWhenDifferent(seen, Select(f, pre));
      }
    }
  }

  lemma AfterFailedRead(f: Filter, pre: Log)
    requires NoNil(f) && Ascending(pre)
    ensures Compiled(f).Some?
    ensures !Stale(Compiled(f).value, 0, pre) <==> Accepted(f, pre, [], true)
  {
    FailedReadCutoff(f, pre);
  }

  lemma AfterRead(f: Filter, readAt: Log, pre: Log, seen: Log)
    requires NoNil(f) && Ascending(pre) && readAt <= pre && seen <= Select(f, readAt)
    ensures Compiled(f).Some?
    ensures !Stale(Compiled(f).value, MaxSeq(seen), pre) <==> Accepted(f, pre, seen, false)
  {
    SelectGrows(f, readAt, pre);
    FreshExactlyWhenComplete(f, pre, seen);
  }

  lemma LongerWhenDifferent(shorter: Log, longer: Log)
    requires shorter <= longer && shorter != longer
    ensures |shorter| < |longer|
  {
  }

  lemma SelectGrows(f: Filter, log: Log, more: Log)
    requires NoNil(f) && log <= more
    ensures Select(f, log) <= Select(f, more)
    ensures |Select(f, log)| <= |log|
  {
    SelectSplit(f, more, |log|);
    assert more[..|log|] == log;
    SelectIsShort(f, log);
  }

  lemma {:induction false} SelectIsShort(f: Filter, log: Log)
    requires NoNil(f)
    ensures |Select(f, log)| <= |log|
  {
    if log == [] {
    } else {
      SelectIsShort(f, log[..|log| - 1]);
    }
  }

  /** The loop ignores a read error, and the zero ReadResult has MaxSeq 0, not -1.
      Under that cutoff the append is accepted exactly when nothing matches, or when
      the only match has seq 0: then the decision was made on an empty context that
      is not the real one. */
  lemma FailedReadCutoff(f: Filter, log: Log)
    requires NoNil(f) && Ascending(log)
    ensures Compiled(f).Some?
    ensures !Stale(Compiled(f).value, 0, log) <==>
      Select(f, log) == [] || (|Select(f, log)| == 1 && Select(f, log)[0].no == 0)
  {
    CompilesIffNoNil(f);
    SelectIsExact(f, log);
    var w, all := Compiled(f).value, Select(f, log);
    forall e | e in log
      ensures WireMatches(w, e.event) <==> e in all
    {
      CompilePreservesMeaning(f, e.event);
    }
    if all != [] {
      assert all[0] in all && all[|all| - 1] in all;
      assert all[|all| - 1].no > 0 || |all| == 1;
      assert forall e :: e in all ==> e.no <= all[|all| - 1].no;
    }
  }

  /** Such a commit: one match, of seq 0, the decision made on nothing. */
  lemma FailedReadWitness()
    ensures var f, log := MatchAny(["a"]), [Entry(0, Event({"a"}, ""), 1)];
      && Compiled(f).Some? && !Stale(Compiled(f).value, 0, log)
      && MissedSeqZero(f, log, [])
  {
    var f, e := MatchAny(["a"]), Entry(0, Event({"a"}, ""), 1);
    assert "a" in ["a"];
    SelectOne(f, e);
    FailedReadCutoff(f, [e]);
  }

  // ------------------------------------------- appending again without re-reading

  ghost predicate Implies(g: Filter, f: Filter)
    requires NoNil(g) && NoNil(f)
  {
    forall e: Event :: Matches(g, e) ==> Matches(f, e)
  }

  /** A client committed `own` on the context Select(f, log); `others` came after.  Its
      next append, under g with LastSeq as cutoff, if accepted, rests on exactly the
      g-matches when what the client knows -- that context and its own batch -- has
      them all. */
  ghost predicate FollowUpExact(f: Filter, g: Filter, log: Log, own: Log, others: Log)
    requires NoNil(f) && NoNil(g) && own != []
  {
    Compiled(g).Some? && !Stale(Compiled(g).value, own[|own| - 1].no, log + own + others) ==>
      Select(g, log + own + others) == Select(g, Select(f, log) + own)
  }

  /** Using LastSeq as the next cutoff is sound in every history if and only if g
      implies f; overlapping filters are not enough. */
  lemma FollowUpSoundIffImplies(f: Filter, g: Filter)
    requires NoNil(f) && NoNil(g)
    ensures Implies(g, f) <==>
      forall log: Log, own: Log, others: Log ::
        own != [] && Ascending(log + own + others) ==> FollowUpExact(f, g, log, own, others)
  {
    CompilesIffNoNil(g);
    if Implies(g, f) {
      forall log: Log, own: Log, others: Log | own != [] && Ascending(log + own + others)
        ensures FollowUpExact(f, g, log, own, others)
      {
        if !Stale(Compiled(g).value, own[|own| - 1].no, log + own + others) {
          NothingAfterOwn(g, log, own, others);
          FollowUpWithImplied(f, g, log, own, others);
        }
      }
    } else {
      var e: Event :| Matches(g, e) && !Matches(f, e);
      var log, own, none: Log := [Entry(0, e, 0)], [Entry(1, e, 1)], [];
      FollowUpMisses(f, g, log[0], own[0]);
      assert own != [] && Ascending(log + own + none) && !FollowUpExact(f, g, log, own, none);
    }
  }

  lemma NothingAfterOwn(g: Filter, log: Log, own: Log, others: Log)
    requires NoNil(g) && own != [] && Ascending(log + own + others)
    requires Compiled(g).Some? && !Stale(Compiled(g).value, own[|own| - 1].no, log + own + others)
    ensures Select(g, others) == []
  {
    var all, n := log + own + others, |log| + |own|;
    assert all[n - 1] == own[|own| - 1];
    forall i | 0 <= i < |others|
      ensures !Matches(g, others[i].event)
    {
      assert all[n + i] == others[i] && others[i] in all;
      CompilePreservesMeaning(g, others[i].event);
    }
    NoMatchNoSelection(g, others);
  }

  lemma FollowUpWithImplied(f: Filter, g: Filter, log: Log, own: Log, others: Log)
    requires NoNil(f) && NoNil(g) && Implies(g, f)
    requires Select(g, others) == []
    ensures Select(g, log + own + others) == Select(g, Select(f, log) + own)
  {
    SelectAppend(g, log + own, others);
    SelectAppend(g, log, own);
    SelectAppend(g, Select(f, log), own);
    SelectThroughWeaker(f, g, log);
  }

  lemma {:induction false} NoMatchNoSelection(f: Filter, log: Log)
    requires NoNil(f) && forall i :: 0 <= i < |log| ==> !Matches(f, log[i].event)
    ensures Select(f, log) == []
  {
    if log == [] {
    } else {
      NoMatchNoSelection(f, log[..|log| - 1]);
    }
  }

  lemma SelectOne(f: Filter, e: Entry)
    requires NoNil(f)
    ensures Select(f, [e]) == if Matches(f, e.event) then [e] else []
  {
    var none: Log := [];
    assert [e][..0] == none && Select(f, none) == none;
  }

  lemma {:induction false} SelectThroughWeaker(f: Filter, g: Filter, log: Log)
    requires NoNil(f) && NoNil(g) && Implies(g, f)
    ensures Select(g, Select(f, log)) == Select(g, log)
  {
    if log == [] {
    } else {
      var init, last := log[..|log| - 1], log[|log| - 1];
      SelectThroughWeaker(f, g, init);
      SelectAppend(g, Select(f, init), if Matches(f, last.event) then [last] else []);
    }
  }

  /** The documented shortcut as it runs: commit with the loop, and after others may have
      written, append under g with the reported LastSeq as the cutoff.  `end` and `later`
      are the log's length after the commit and when the second append arrived.  It is
      accepted exactly when nothing since the commit matches g; and if g implies f, what
      the client then knows, its context and its own batch, has all the g-matches. */
  method DecideThenFollowUp(srv: Server, me: nat, f: Filter, g: Filter, decide: Decision, rounds: seq<Round>,
                            others: seq<Foreign>, batch: seq<Event>)
    returns (outcome: Outcome, seen: Log, at: nat, end: nat, later: nat, reply: Option<Reply>)
    requires srv.Valid() && NoNil(g)
    requires forall r <- rounds :: (forall o <- r.before :: o.author != me) && (forall o <- r.between :: o.author != me)
    requires forall o <- others :: o.author != me
    modifies srv
    ensures srv.Valid()
    ensures outcome.Done? && |decide(seen)| > 0 ==>
      && NoNil(f) && reply.Some?
      && at <= end <= later <= |srv.log|
      && WroteBatch(srv.log[..at], srv.log[..end], me, decide(seen))
      && (reply.value.Committed? <==> Select(g, srv.log[end..later]) == [])
      && (reply.value.Committed? && Implies(g, f) && seen == Select(f, srv.log[..at]) ==>
            Select(g, srv.log[..later]) == Select(g, seen + srv.log[at..end]))
  {
    var last;
    outcome, seen, at, last := Decide(srv, me, f, decide, rounds);
    end, later, reply := |srv.log|, |srv.log|, None;
    if outcome.Done? && |decide(seen)| > 0 {
      ghost var committed := srv.log;
      srv.Interfere(me, others);
      later := |srv.log|;
      ghost var arrived := srv.log;
      var w := ToProto(g);
      CompilesIffNoNil(g);
      var r := srv.AppendIfNoTagMatches(w.value, outcome.lastSeq, me, batch);
      reply := Some(r);
      FollowUpFacts(f, g, committed, arrived, srv.log, at, me, outcome.lastSeq, seen, decide(seen));
    }
  }

  lemma FollowUpFacts(f: Filter, g: Filter, committed: Log, arrived: Log, log: Log, at: nat, me: nat, lastSeq: nat,
                      seen: Log, batch: seq<Event>)
    requires NoNil(f) && NoNil(g) && at <= |committed| && committed <= arrived <= log && Ascending(arrived)
    requires LastIs(committed, at, me, lastSeq) && WroteBatch(committed[..at], committed, me, batch)
    ensures Compiled(g).Some?
    ensures log[..at] == committed[..at] && log[..|committed|] == committed && log[..|arrived|] == arrived
    ensures !Stale(Compiled(g).value, lastSeq, arrived) <==> Select(g, log[|committed|..|arrived|]) == []
    ensures !Stale(Compiled(g).value, lastSeq, arrived) && Implies(g, f) && seen == Select(f, log[..at]) ==>
      Select(g, log[..|arrived|]) == Select(g, seen + log[at..|committed|])
  {
    var own, others := log[at..|committed|], log[|committed|..|arrived|];
    assert log[..at] == committed[..at] && log[..|committed|] == committed && log[..|arrived|] == arrived;
    assert committed[..at] + own == committed && committed + others == arrived;
    assert own[|own| - 1] == committed[|committed| - 1];
    CompilesIffNoNil(g);
    if !Stale(Compiled(g).value, lastSeq, arrived) {
      NothingAfterOwn(g, committed[..at], own, others);
      if Implies(g, f) {
        FollowUpWithImplied(f, g, committed[..at], own, others);
      }
    } else {
      StaleMeansLater(g, committed, others, lastSeq);
    }
  }

  lemma StaleMeansLater(g: Filter, committed: Log, others: Log, lastSeq: nat)
    requires NoNil(g) && Compiled(g).Some? && committed != [] && lastSeq == committed[|committed| - 1].no
    requires Ascending(committed + others) && Stale(Compiled(g).value, lastSeq, committed + others)
    ensures Select(g, others) != []
  {
    var all := committed + others;
    var e :| e in all && WireMatches(Compiled(g).value, e.event) && e.no > lastSeq;
    var i :| 0 <= i < |all| && all[i] == e;
    assert all[|committed| - 1] == committed[|committed| - 1];
    assert i >= |committed|;
    assert e == others[i - |committed|];
    CompilePreservesMeaning(g, e.event);
    SelectMembers(g, others, e);
  }

  /** The history that defeats a g not implying f: an event matching only g is already
      there, unread, when the client commits under f. */
  lemma FollowUpMisses(f: Filter, g: Filter, unread: Entry, own: Entry)
    requires NoNil(f) && NoNil(g) && Matches(g, unread.event) && !Matches(f, unread.event) && Matches(g, own.event)
    requires unread.no < own.no
    ensures !FollowUpExact(f, g, [unread], [own], [])
  {
    var none: Log := [];
    var all := [unread] + [own] + none;
    assert all == [unread] + [own];
    CompilesIffNoNil(g);
    NothingAbove(Compiled(g).value, own.no, all);
    SelectAppend(g, [unread], [own]);
    assert Select(g, all) == [unread, own] by {
      SelectOne(g, unread);
      SelectOne(g, own);
    }
    assert Select(g, Select(f, [unread]) + [own]) == [own] by {
      SelectOne(f, unread);
      SelectOne(g, own);
      assert none + [own] == [own];
    }
  }

  /** Overlapping filters are not enough: any of "a" and any of "a", "b". */
  lemma FollowUpWitness()
    ensures var unread, own := Entry(0, Event({"b"}, ""), 0), Entry(1, Event({"a", "b"}, ""), 1);
      !FollowUpExact(MatchAny(["a"]), MatchAny(["a", "b"]), [unread], [own], [])
  {
    assert ["a", "b"][0] == "a" && ["a", "b"][1] == "b";
    FollowUpMisses(MatchAny(["a"]), MatchAny(["a", "b"]), Entry(0, Event({"b"}, ""), 0),
                   Entry(1, Event({"a", "b"}, ""), 1));
  }

  lemma NothingAbove(w: Wire, cutoff: int, log: Log)
    requires forall i :: 0 <= i < |log| ==> log[i].no <= cutoff
    ensures !Stale(w, cutoff, log)
  {
  }

  lemma AscendingPrefix(log: Log, more: Log)
    requires Ascending(more) && log <= more
    ensures Ascending(log)
  {
  }

  /** A context refused once is short of a match for good: the log only grows. */
  lemma RefusedStaysIncomplete(f: Filter, seen: Log, atConflict: Log, atRetry: Log)
    requires NoNil(f) && Ascending(atConflict) && atConflict <= atRetry
    requires seen <= Select(f, atConflict)
    requires Compiled(f).Some? && Stale(Compiled(f).value, MaxSeq(seen), atConflict)
    ensures seen != Select(f, atRetry)
  {
    FreshExactlyWhenComplete(f, atConflict, seen);
    SelectGrows(f, atConflict, atRetry);
  }

  lemma RetryAccepted(f: Filter, atConflict: Log, atRetry: Log)
    requires NoNil(f) && Ascending(atRetry) && atConflict <= atRetry
    ensures Compiled(f).Some?
    ensures !Stale(Compiled(f).value, MaxSeq(Select(f, atConflict)), atRetry) <==>
      Select(f, atConflict) == Select(f, atRetry)
  {
    SelectGrows(f, atConflict, atRetry);
    FreshExactlyWhenComplete(f, atRetry, Select(f, atConflict));
  }

  /** Retrying with Conflict.MaxSeq as the cutoff, without reading again: the retry is
      accepted exactly when nothing more matched since the conflict, but the context
      the client holds is never the matching events, whether or not it is accepted. */
  lemma BlindRetryIsNeverExact(f: Filter, seen: Log, atConflict: Log, atRetry: Log, batch: Log)
    requires NoNil(f) && Ascending(atRetry) && atConflict <= atRetry
    requires seen <= Select(f, atConflict)
    requires Compiled(f).Some? && Stale(Compiled(f).value, MaxSeq(seen), atConflict)
    ensures var reply := AppendIf(atConflict, Compiled(f).value, MaxSeq(seen), batch).1;
      && reply.Conflict?
      && (!Stale(Compiled(f).value, reply.maxSeq, atRetry) <==> Select(f, atConflict) == Select(f, atRetry))
    ensures seen != Select(f, atRetry)
  {
    AscendingPrefix(atConflict, atRetry);
    ConflictAboveCutoff(f, atConflict, MaxSeq(seen), batch);
    RetryAccepted(f, atConflict, atRetry);
    RefusedStaysIncomplete(f, seen, atConflict, atRetry);
  }

  /** An accepted blind retry: the context is empty, one event matches, and the append
      under the conflict's MaxSeq is let through. */
  lemma BlindRetryWitness()
    ensures var f, log := MatchAny(["a"]), [Entry(0, Event({"a"}, ""), 1)];
      && Compiled(f).Some?
      && AppendIf(log, Compiled(f).value, SAW_NOTHING, []).1 == Conflict(0)
      && !Stale(Compiled(f).value, 0, log)
      && Select(f, log) != []
  {
    var f, e := MatchAny(["a"]), Entry(0, Event({"a"}, ""), 1);
    var none: Log := [];
    assert "a" in ["a"];
    SelectOne(f, e);
    FreshExactlyWhenComplete(f, [e], none);
    ConflictAboveCutoff(f, [e], SAW_NOTHING, none);
    BlindRetryIsNeverExact(f, none, [e], [e], none);
  }
}
