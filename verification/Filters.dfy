/** The DCB filter algebra and its wire form (dcb/dcb.go). */
module Filters {
  import opened Options

  datatype Event = Event(tags: set<string>, eventType: string)

  /** A TagFilter interface value; Nil is the Go nil interface. */
  datatype Filter =
    | Nil
    | MatchAny(tags: seq<string>)
    | MatchAll(tags: seq<string>)
    | EventType(eventType: string)
    | And(subs: seq<Filter>)
    | Or(subs: seq<Filter>)

  /** pb.TagFilter, one constructor for each oneof variant. */
  datatype Wire =
    | WireMatchAny(tags: seq<string>)
    | WireMatchAll(tags: seq<string>)
    | WireEventType(eventType: string)
    | Conjunction(filters: seq<Wire>)
    | Disjunction(filters: seq<Wire>)

  /** No nil interface at any depth. */
  predicate NoNil(f: Filter) {
    match f
    case Nil => false
    case And(subs) => forall s <- subs :: NoNil(s)
    case Or(subs) => forall s <- subs :: NoNil(s)
    case _ => true
  }

  /** What the constructors' documentation says a filter matches. */
  predicate Matches(f: Filter, e: Event)
    requires NoNil(f)
  {
    match f
    case MatchAny(tags) => exists t <- tags :: t in e.tags
    case MatchAll(tags) => forall t <- tags :: t in e.tags
    case EventType(eventType) => eventType == e.eventType
    case And(subs) => forall s <- subs :: Matches(s, e)
    case Or(subs) => exists s <- subs :: Matches(s, e)
  }

  /** How the server reads the wire message. */
  predicate WireMatches(w: Wire, e: Event) {
    match w
    case WireMatchAny(tags) => exists t <- tags :: t in e.tags
    case WireMatchAll(tags) => forall t <- tags :: t in e.tags
    case WireEventType(eventType) => eventType == e.eventType
    case Conjunction(filters) => forall w' <- filters :: WireMatches(w', e)
    case Disjunction(filters) => exists w' <- filters :: WireMatches(w', e)
  }

  // ---------------------------------------------------------- compiling a filter

  /** The message toProto builds, or None where it dereferences a nil interface. */
  function Compiled(f: Filter): Option<Wire>
    decreases f, 1
  {
    match f
    case Nil => None
    case MatchAny(tags) => Some(WireMatchAny(tags))
    case MatchAll(tags) => Some(WireMatchAll(tags))
    case EventType(eventType) => Some(WireEventType(eventType))
    case And(subs) =>
      var ws := CompiledAll(subs);
      if ws.Some? then Some(Conjunction(ws.value)) else None
    case Or(subs) =>
      var ws := CompiledAll(subs);
      if ws.Some? then Some(Disjunction(ws.value)) else None
  }

  function CompiledAll(subs: seq<Filter>): Option<seq<Wire>>
    decreases subs, 0
  {
    if subs == [] then Some([])
    else
      var w, ws := Compiled(subs[0]), CompiledAll(subs[1..]);
      if w.Some? && ws.Some? then Some([w.value] + ws.value) else None
  }

  /** toProto and subsToFilterList as they run: a call for each node, a loop over the
      sub-filters; `None` is the nil-dereference panic. */
  method ToProto(f: Filter) returns (w: Option<Wire>)
    ensures w == Compiled(f)
    decreases f, 1
  {
    match f
    case Nil => w := None;
    case MatchAny(tags) => w := Some(WireMatchAny(tags));
    case MatchAll(tags) => w := Some(WireMatchAll(tags));
    case EventType(eventType) => w := Some(WireEventType(eventType));
    case And(subs) =>
      var ws := SubsToFilterList(subs);
      w := if ws.Some? then Some(Conjunction(ws.value)) else None;
    case Or(subs) =>
      var ws := SubsToFilterList(subs);
      w := if ws.Some? then Some(Disjunction(ws.value)) else None;
  }

  method SubsToFilterList(subs: seq<Filter>) returns (ws: Option<seq<Wire>>)
    ensures ws == CompiledAll(subs)
    decreases subs, 0
  {
    var out: seq<Wire> := [];
    for i := 0 to |subs|
      invariant CompiledAll(subs[..i]) == Some(out)
    {
      var w := ToProto(subs[i]);
      CompiledAllAppend(subs[..i], subs[i..]);
      assert subs[..i] + subs[i..] == subs;
      if w.None? {
        return None;
      }
      CompiledAllAppend(subs[..i], [subs[i]]);
      CompiledOne(subs[i]);
      assert subs[..i] + [subs[i]] == subs[..i + 1];
      out := out + [w.value];
    }
    assert subs[..|subs|] == subs;
    return Some(out);
  }

  lemma CompiledOne(f: Filter)
    ensures CompiledAll([f]) == if Compiled(f).Some? then Some([Compiled(f).value]) else None
  {
    var one := [f];
    assert one[1..] == [] && one[0] == f;
    if Compiled(f).Some? {
      var none: seq<Wire> := [];
      assert [Compiled(f).value] + none == [Compiled(f).value];
      assert CompiledAll(one) == Some([Compiled(f).value] + none);
    }
  }

  lemma {:induction false} CompiledAllAppend(a: seq<Filter>, b: seq<Filter>)
    ensures CompiledAll(a + b) ==
      if CompiledAll(a).Some? && CompiledAll(b).Some? then Some(CompiledAll(a).value + CompiledAll(b).value) else None
  {
    if a == [] {
      assert a + b == b;
      if CompiledAll(b).Some? {
        assert [] + CompiledAll(b).value == CompiledAll(b).value;
      }
    } else {
      CompiledAllAppend(a[1..], b);
      assert (a + b)[1..] == a[1..] + b;
      if CompiledAll(a).Some? && CompiledAll(b).Some? {
        var head, as', bs := [Compiled(a[0]).value], CompiledAll(a[1..]).value, CompiledAll(b).value;
        assert head + (as' + bs) == (head + as') + bs;
      }
    }
  }

  lemma {:induction false} CompiledAllIsPointwise(subs: seq<Filter>)
    ensures CompiledAll(subs).Some? <==> forall s <- subs :: Compiled(s).Some?
    ensures CompiledAll(subs).Some? ==>
      |CompiledAll(subs).value| == |subs| &&
      forall i :: 0 <= i < |subs| ==> Some(CompiledAll(subs).value[i]) == Compiled(subs[i])
  {
    if subs == [] {
    } else {
      CompiledAllIsPointwise(subs[1..]);
      assert subs == [subs[0]] + subs[1..];
      assert (forall s <- subs :: Compiled(s).Some?) <==>
        Compiled(subs[0]).Some? && forall s <- subs[1..] :: Compiled(s).Some?;
      if CompiledAll(subs).Some? {
        forall i | 0 <= i < |subs|
          ensures Some(CompiledAll(subs).value[i]) == Compiled(subs[i])
        {
          if i > 0 {
            assert subs[i] == subs[1..][i - 1];
          }
        }
      }
    }
  }

  /** Compilation succeeds exactly for filters without a nil at any depth. */
  lemma {:induction false} CompilesIffNoNil(f: Filter)
    ensures Compiled(f).Some? <==> NoNil(f)
  {
    if !f.And? && !f.Or? {
    } else {
      CompiledAllIsPointwise(f.subs);
      forall s <- f.subs
        ensures Compiled(s).Some? <==> NoNil(s)
      {
        CompilesIffNoNil(s);
      }
    }
  }

  /** Compilation preserves meaning at every depth: the server selects exactly the
      events the caller's filter describes. */
  lemma {:induction false} CompilePreservesMeaning(f: Filter, e: Event)
    requires NoNil(f)
    ensures Compiled(f).Some? && (WireMatches(Compiled(f).value, e) <==> Matches(f, e))
  {
    CompilesIffNoNil(f);
    if !f.And? && !f.Or? {
    } else {
      CompiledAllIsPointwise(f.subs);
      var ws := Compiled(f).value.filters;
      forall i | 0 <= i < |ws|
        ensures WireMatches(ws[i], e) <==> Matches(f.subs[i], e)
      {
        CompilePreservesMeaning(f.subs[i], e);
      }
    }
  }

  /** The inverse of compilation: a reader of the wire form. */
  function Decoded(w: Wire): (f: Filter)
    ensures NoNil(f)
  {
    match w
    case WireMatchAny(tags) => MatchAny(tags)
    case WireMatchAll(tags) => MatchAll(tags)
    case WireEventType(eventType) => EventType(eventType)
    case Conjunction(ws) => And(seq(|ws|, i requires 0 <= i < |ws| => Decoded(ws[i])))
    case Disjunction(ws) => Or(seq(|ws|, i requires 0 <= i < |ws| => Decoded(ws[i])))
  }

  lemma {:induction false} DecodeInvertsCompile(f: Filter)
    requires NoNil(f)
    ensures Compiled(f).Some? && Decoded(Compiled(f).value) == f
  {
    CompilesIffNoNil(f);
    if !f.And? && !f.Or? {
    } else {
      CompiledAllIsPointwise(f.subs);
      var ws := Compiled(f).value.filters;
      forall i | 0 <= i < |ws|
        ensures Decoded(ws[i]) == f.subs[i]
      {
        DecodeInvertsCompile(f.subs[i]);
      }
    }
  }

  lemma {:induction false} CompileInvertsDecode(w: Wire)
    ensures Compiled(Decoded(w)) == Some(w)
  {
    if !w.Conjunction? && !w.Disjunction? {
    } else {
      var subs := Decoded(w).subs;
      forall i | 0 <= i < |subs|
        ensures Compiled(subs[i]) == Some(w.filters[i])
      {
        CompileInvertsDecode(w.filters[i]);
      }
      CompiledAllIsPointwise(subs);
      assert CompiledAll(subs).value == w.filters;
    }
  }

  /** The algebra has no negation: more tags never turn a match into a non-match. */
  lemma {:induction false} MoreTagsKeepMatching(f: Filter, e: Event, extra: set<string>)
    requires NoNil(f) && Matches(f, e)
    ensures Matches(f, Event(e.tags + extra, e.eventType))
  {
    var e' := Event(e.tags + extra, e.eventType);
    match f
    case And(subs) =>
      forall s <- subs
        ensures Matches(s, e')
      {
        MoreTagsKeepMatching(s, e, extra);
      }
    case Or(subs) =>
      var s :| s in subs && Matches(s, e);
      MoreTagsKeepMatching(s, e, extra);
    case _ =>
  }
}
