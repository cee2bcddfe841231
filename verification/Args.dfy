/** Flags mixed with positionals (cmd/reckon/main.go, flagsThenArgs) on top of the
    standard flag package's one-token rule, and the repeated key=value flag
    (cmd/reckon/input.go, kvFlag). */
module Args {
  import opened Options

  datatype FlagError =
    | BadSyntax(token: string)
    | Undefined(name: string)
    | Help
    | NeedsArgument(name: string)
    | BadValue(name: string, value: string)

  datatype Result<+T> = Ok(value: T) | Err(error: FlagError)

  /** The declared flags (true: a bool flag) and what storing a value does; `store` is
      None when the value is refused. */
  datatype Flags<!S> = Flags(formal: map<string, bool>, store: (S, string, string) -> Option<S>)

  /** One look at the front of the arguments: stop there, or one flag taken. */
  datatype Look<S> = Stop(rest: seq<string>) | Took(values: S, rest: seq<string>) | Refused(error: FlagError)

  function FindEq(name: string, i: nat): (k: nat)
    requires i <= |name|
    ensures i <= k <= |name| && (k < |name| ==> name[k] == '=')
    ensures forall j :: i <= j < k ==> name[j] != '='
    decreases |name| - i
  {
    if i == |name| || name[i] == '=' then i else FindEq(name, i + 1)
  }

  function Store<S>(fl: Flags<S>, values: S, name: string, value: string, rest: seq<string>): Look<S> {
    var v := fl.store(values, name, value);
    if v.None? then Refused(BadValue(name, value)) else Took(v.value, rest)
  }

  function ParseOne<S>(fl: Flags<S>, values: S, args: seq<string>): (l: Look<S>)
    ensures l.Stop? ==> |l.rest| <= |args|
    ensures l.Took? ==> |l.rest| < |args|
  {
    if args == [] || |args[0]| < 2 || args[0][0] != '-' then Stop(args)
    else if args[0] == "--" then Stop(args[1..])
    else
      var body := args[0][(if args[0][1] == '-' then 2 else 1)..];
      if body[0] == '-' || body[0] == '=' then Refused(BadSyntax(args[0]))
      else
        var eq := FindEq(body, 1);
        var name := body[..eq];
        if name !in fl.formal then Refused(if name == "help" || name == "h" then Help else Undefined(name))
        else if eq < |body| then Store(fl, values, name, body[eq + 1..], args[1..])
        else if fl.formal[name] then Store(fl, values, name, "true", args[1..])
        else if |args| > 1 then Store(fl, values, name, args[1], args[2..])
        else Refused(NeedsArgument(name))
  }

  /** FlagSet.Parse: the values set so far, and the unparsed arguments or an error. */
  function Parse<S>(fl: Flags<S>, values: S, args: seq<string>): (r: (S, Result<seq<string>>))
    ensures r.1.Ok? ==> |r.1.value| <= |args|
    decreases |args|
  {
    match ParseOne(fl, values, args)
    case Stop(rest) => (values, Ok(rest))
    case Took(values', rest) => Parse(fl, values', rest)
    case Refused(error) => (values, Err(error))
  }

  class FlagSet<!S> {
    const fl: Flags<S>
    var values: S
    var args: seq<string>

    constructor (fl: Flags<S>, values: S)
      ensures this.fl == fl && this.values == values
    {
      this.fl := fl;
      this.values := values;
      this.args := [];
    }

    method ParseArgs(arguments: seq<string>) returns (error: Option<FlagError>)
      modifies this
      ensures values == Parse(fl, old(values), arguments).0
      ensures error == match Parse(fl, old(values), arguments).1 case Ok(_) => None case Err(e) => Some(e)
      ensures error.None? ==> args == Parse(fl, old(values), arguments).1.value
    {
      args := arguments;
      while true
        invariant Parse(fl, values, args) == Parse(fl, old(values), arguments)
        decreases |args|
      {
        match ParseOne(fl, values, args)
        case Stop(rest) =>
          args := rest;
          return None;
        case Took(values', rest) =>
          values, args := values', rest;
        case Refused(e) =>
          return Some(e);
      }
    }
  }

  /** What the loop computes: final flag values, and the positionals or an error. */
  function Interspersed<S>(fl: Flags<S>, values: S, args: seq<string>): (S, Result<seq<string>>)
    decreases |args|
  {
    var (values', rest) := Parse(fl, values, args);
    if rest.Err? || rest.value == [] then (values', rest)
    else Prepend(rest.value[0], Interspersed(fl, values', rest.value[1..]))
  }

  function Prepend<S>(p: string, r: (S, Result<seq<string>>)): (S, Result<seq<string>>) {
    if r.1.Err? then r else (r.0, Ok([p] + r.1.value))
  }

  function PrependAll<S>(ps: seq<string>, r: (S, Result<seq<string>>)): (S, Result<seq<string>>) {
    if r.1.Err? then r else (r.0, Ok(ps + r.1.value))
  }

  method FlagsThenArgs<S>(fs: FlagSet<S>, arguments: seq<string>) returns (r: Result<seq<string>>)
    modifies fs
    ensures (fs.values, r) == Interspersed(fs.fl, old(fs.values), arguments)
  {
    var args := arguments;
    var pos: seq<string> := [];
    ghost var whole := Interspersed(fs.fl, fs.values, args).1;
    assert whole.Ok? ==> pos + whole.value == whole.value;
    while true
      invariant Interspersed(fs.fl, old(fs.values), arguments)
             == PrependAll(pos, Interspersed(fs.fl, fs.values, args))
      decreases |args|
    {
      ghost var before := Interspersed(fs.fl, fs.values, args);
      var e := fs.ParseArgs(args);
      if e.Some? {
        return Err(e.value);
      }
      if |fs.args| == 0 {
        assert pos + [] == pos;
        return Ok(pos);
      }
      ghost var after := Interspersed(fs.fl, fs.values, fs.args[1..]);
      assert before == Prepend(fs.args[0], after);
      if after.1.Ok? {
        assert pos + ([fs.args[0]] + after.1.value) == (pos + [fs.args[0]]) + after.1.value;
      }
      pos := pos + [fs.args[0]];
      args := fs.args[1..];
    }
  }

  // ---------------------------------------------------------------- command lines

  datatype Form = Joined | Separate | Bare

  /** A positional, or a flag group as a user types it. */
  datatype Item =
    | Pos(p: string)
    | Flag(dashes: string, name: string, value: string, form: Form)

  predicate WellFormed<S>(fl: Flags<S>, item: Item) {
    match item
    case Pos(p) => Plain(p)
    case Flag(dashes, name, value, form) =>
      && (dashes == "-" || dashes == "--")
      && name != "" && name[0] != '-' && '=' !in name
      && name in fl.formal
      && (form.Separate? ==> !fl.formal[name])
      && (form.Bare? ==> fl.formal[name] && value == "true")
  }

  function ItemTokens(item: Item): (ts: seq<string>)
    ensures ts != []
  {
    match item
    case Pos(p) => [p]
    case Flag(dashes, name, value, form) =>
      match form
      case Joined => [dashes + name + "=" + value]
      case Separate => [dashes + name, value]
      case Bare => [dashes + name]
  }

  function Tokens(items: seq<Item>): seq<string> {
    if items == [] then [] else ItemTokens(items[0]) + Tokens(items[1..])
  }

  function Positionals(items: seq<Item>): seq<string> {
    if items == [] then []
    else (if items[0].Pos? then [items[0].p] else []) + Positionals(items[1..])
  }

  function Assignments(items: seq<Item>): seq<(string, string)> {
    if items == [] then []
    else (if items[0].Flag? then [(items[0].name, items[0].value)] else []) + Assignments(items[1..])
  }

  /** The assignments one after the other; stops at the first refused value. */
  function SetAll<S>(fl: Flags<S>, values: S, asgs: seq<(string, string)>): (S, Option<FlagError>) {
    if asgs == [] then (values, None)
    else
      var v := fl.store(values, asgs[0].0, asgs[0].1);
      if v.None? then (values, Some(BadValue(asgs[0].0, asgs[0].1))) else SetAll(fl, v.value, asgs[1..])
  }

  lemma LookAtFlag<S>(fl: Flags<S>, values: S, item: Item, rest: seq<string>)
    requires item.Flag? && WellFormed(fl, item)
    ensures ParseOne(fl, values, ItemTokens(item) + rest) == Store(fl, values, item.name, item.value, rest)
  {
    var (dashes, name) := (item.dashes, item.name);
    match item.form
    case Joined =>
      var tail := "=" + item.value;
      assert tail[1..] == item.value;
      assert dashes + name + "=" + item.value == dashes + (name + tail);
      LookAtToken(fl, values, dashes, name, tail, rest);
    case Separate =>
      assert dashes + (name + "") == dashes + name;
      assert ItemTokens(item) + rest == [dashes + name] + ([item.value] + rest);
      assert ([item.value] + rest)[1..] == rest;
      LookAtToken(fl, values, dashes, name, "", [item.value] + rest);
    case Bare =>
      assert dashes + (name + "") == dashes + name;
      LookAtToken(fl, values, dashes, name, "", rest);
  }

  /** The parser's answer to a token with a name: a value behind an equals sign, true for a
      bool flag, or the next argument. */
  lemma LookAtToken<S>(fl: Flags<S>, values: S, dashes: string, name: string, tail: string, more: seq<string>)
    requires FlagToken(dashes, name, tail)
    ensures ParseOne(fl, values, [dashes + (name + tail)] + more) ==
      if name !in fl.formal then Refused(if name == "help" || name == "h" then Help else Undefined(name))
      else if tail != "" then Store(fl, values, name, tail[1..], more)
      else if fl.formal[name] then Store(fl, values, name, "true", more)
      else if more != [] then Store(fl, values, name, more[0], more[1..])
      else Refused(NeedsArgument(name))
  {
    var args := [dashes + (name + tail)] + more;
    BodyOfToken(dashes, name, tail);
    assert args[0] == dashes + (name + tail) && args[1..] == more;
    assert more != [] ==> args[1] == more[0] && args[2..] == more[1..];
  }

  /** What flag parsing sees in a token with a name. */
  lemma BodyOfToken(dashes: string, name: string, tail: string)
    requires FlagToken(dashes, name, tail)
    ensures var (token, body) := (dashes + (name + tail), name + tail);
      && |token| >= 2 && token[0] == '-' && token != "--" && body != ""
      && token[(if token[1] == '-' then 2 else 1)..] == body
      && body[0] != '-' && body[0] != '='
      && FindEq(body, 1) == |name| && body[..|name|] == name
      && (tail != "" ==> |name| < |body| && body[|name| + 1..] == tail[1..])
  {
    var token, body := dashes + (name + tail), name + tail;
    assert token[|dashes|..] == body && body[0] == name[0];
    assert token[1] == if dashes == "--" then '-' else name[0];
    assert forall j :: 0 <= j < |name| ==> body[j] == name[j];
    assert tail != "" ==> body[|name|] == '=';
  }

  /** Well-formed flag groups and positionals, in any interleaving, set the flags in their
      order and list the positionals in theirs, whatever tokens follow them. */
  lemma {:induction false} ItemsThenRest<S>(fl: Flags<S>, values: S, items: seq<Item>, rest: seq<string>)
    requires forall item <- items :: WellFormed(fl, item)
    ensures var (values', e) := SetAll(fl, values, Assignments(items));
      Interspersed(fl, values, Tokens(items) + rest) ==
      if e.Some? then (values', Err(e.value)) else PrependAll(Positionals(items), Interspersed(fl, values', rest))
    decreases |items|
  {
    if items == [] {
      assert [] + rest == rest;
      PrependNone(Interspersed(fl, values, rest));
    } else {
      var item, more := items[0], Tokens(items[1..]) + rest;
      assert item in items;
      assert Tokens(items) + rest == ItemTokens(item) + more;
      if item.Pos? {
        PositionalStep(fl, values, item.p, more);
        assert Assignments(items) == Assignments(items[1..]);
        ItemsThenRest(fl, values, items[1..], rest);
        var values' := SetAll(fl, values, Assignments(items)).0;
        PrependOneMore(item.p, Positionals(items[1..]), Interspersed(fl, values', rest));
      } else {
        FlagStep(fl, values, item, more);
        assert Assignments(items)[1..] == Assignments(items[1..]);
        assert Positionals(items) == Positionals(items[1..]);
        var v := fl.store(values, item.name, item.value);
        if v.Some? {
          ItemsThenRest(fl, v.value, items[1..], rest);
        }
      }
    }
  }

  lemma PrependNone<S>(r: (S, Result<seq<string>>))
    ensures PrependAll([], r) == r
  {
    if r.1.Ok? {
      assert [] + r.1.value == r.1.value;
    }
  }

  lemma PrependOneMore<S>(p: string, ps: seq<string>, r: (S, Result<seq<string>>))
    ensures Prepend(p, PrependAll(ps, r)) == PrependAll([p] + ps, r)
  {
    if r.1.Ok? {
      assert [p] + (ps + r.1.value) == ([p] + ps) + r.1.value;
    }
  }

  /** Interspersing is harmless: for every command line made of well-formed flag groups
      and positionals, in any interleaving, the result is that of setting the flags in
      their order and listing the positionals in theirs. */
  lemma InterspersedMeaning<S>(fl: Flags<S>, values: S, items: seq<Item>)
    requires forall item <- items :: WellFormed(fl, item)
    ensures var (values', e) := SetAll(fl, values, Assignments(items));
      Interspersed(fl, values, Tokens(items)) == (values', if e.None? then Ok(Positionals(items)) else Err(e.value))
  {
    ItemsThenRest(fl, values, items, []);
    var values' := SetAll(fl, values, Assignments(items)).0;
    assert Interspersed(fl, values', []) == (values', Ok([]));
    assert Tokens(items) + [] == Tokens(items);
    assert Positionals(items) + [] == Positionals(items);
  }

  lemma PositionalStep<S>(fl: Flags<S>, values: S, p: string, rest: seq<string>)
    requires Plain(p)
    ensures Interspersed(fl, values, [p] + rest) == Prepend(p, Interspersed(fl, values, rest))
  {
    var args := [p] + rest;
    assert ParseOne(fl, values, args) == Stop(args);
    assert args[1..] == rest;
  }

  lemma FlagStep<S>(fl: Flags<S>, values: S, item: Item, rest: seq<string>)
    requires item.Flag? && WellFormed(fl, item)
    ensures var v := fl.store(values, item.name, item.value);
      Interspersed(fl, values, ItemTokens(item) + rest) ==
      if v.None? then (values, Err(BadValue(item.name, item.value))) else Interspersed(fl, v.value, rest)
  {
    LookAtFlag(fl, values, item, rest);
  }

  /** A token with one or two dashes, a name, and perhaps an equals sign and a value. */
  predicate FlagToken(dashes: string, name: string, tail: string) {
    && (dashes == "-" || dashes == "--")
    && name != "" && name[0] != '-' && '=' !in name
    && (tail == "" || tail[0] == '=')
  }

  lemma RefusalStops<S>(fl: Flags<S>, values: S, args: seq<string>)
    requires ParseOne(fl, values, args).Refused?
    ensures Interspersed(fl, values, args) == (values, Err(ParseOne(fl, values, args).error))
  {
  }

  /** The first unknown flag, or a flag at the very end without the argument it needs,
      ends the parse: the flags before it are set, and the error names it. */
  lemma BadFlagStops<S>(fl: Flags<S>, values: S, items: seq<Item>, dashes: string, name: string, tail: string,
                        more: seq<string>)
    requires forall item <- items :: WellFormed(fl, item)
    requires FlagToken(dashes, name, tail)
    requires name !in fl.formal || (!fl.formal[name] && tail == "" && more == [])
    ensures var (values', e) := SetAll(fl, values, Assignments(items));
      Interspersed(fl, values, Tokens(items) + ([dashes + (name + tail)] + more)) ==
      (values', Err(if e.Some? then e.value
                    else if name in fl.formal then NeedsArgument(name)
                    else if name == "help" || name == "h" then Help
                    else Undefined(name)))
  {
    var values', rest := SetAll(fl, values, Assignments(items)).0, [dashes + (name + tail)] + more;
    ItemsThenRest(fl, values, items, rest);
    LookAtToken(fl, values', dashes, name, tail, more);
    RefusalStops(fl, values', rest);
  }

  predicate Malformed(token: string) {
    && |token| >= 2 && token[0] == '-'
    && (token[1] == '=' || (token[1] == '-' && |token| > 2 && (token[2] == '-' || token[2] == '=')))
  }

  lemma LookAtMalformed<S>(fl: Flags<S>, values: S, token: string, more: seq<string>)
    requires Malformed(token)
    ensures ParseOne(fl, values, [token] + more) == Refused(BadSyntax(token))
  {
    if token[1] == '-' {
      assert |token| > 2 && token != "--";
      assert token[2..][0] == token[2];
    } else {
      assert token[1..][0] == token[1] && token != "--";
    }
  }

  /** So does a token of three dashes, or with an equals sign right after its dashes. */
  lemma MalformedFlagStops<S>(fl: Flags<S>, values: S, items: seq<Item>, token: string, more: seq<string>)
    requires forall item <- items :: WellFormed(fl, item)
    requires Malformed(token)
    ensures var (values', e) := SetAll(fl, values, Assignments(items));
      Interspersed(fl, values, Tokens(items) + ([token] + more)) ==
      (values', Err(if e.Some? then e.value else BadSyntax(token)))
  {
    var values' := SetAll(fl, values, Assignments(items)).0;
    ItemsThenRest(fl, values, items, [token] + more);
    LookAtMalformed(fl, values', token, more);
    RefusalStops(fl, values', [token] + more);
  }

  /** Two command lines with the same flags in the same order and the same positionals
      in the same order are the same command. */
  lemma OrderAcrossKindsIsIrrelevant<S>(fl: Flags<S>, values: S, a: seq<Item>, b: seq<Item>)
    requires (forall item <- a :: WellFormed(fl, item)) && (forall item <- b :: WellFormed(fl, item))
    requires Assignments(a) == Assignments(b) && Positionals(a) == Positionals(b)
    ensures Interspersed(fl, values, Tokens(a)) == Interspersed(fl, values, Tokens(b))
  {
    InterspersedMeaning(fl, values, a);
    InterspersedMeaning(fl, values, b);
  }

  // ---------------------------------------------------------------- the terminator

  /** A token that flag parsing stops at. */
  predicate Plain(token: string) {
    |token| < 2 || token[0] != '-'
  }

  /** What follows "--" becomes a positional, and then flag parsing goes on. */
  lemma TerminatorStep<S>(fl: Flags<S>, values: S, p: string, rest: seq<string>)
    ensures Interspersed(fl, values, ["--"] + ([p] + rest)) == Prepend(p, Interspersed(fl, values, rest))
  {
    var args := ["--"] + ([p] + rest);
    assert args[1..] == [p] + rest && args[1..][1..] == rest;
  }

  /** A token that is not plain never becomes a positional of its own accord: if there
      is one, the positionals are fewer than the tokens. */
  lemma {:induction false} PositionalsAreFewer<S>(fl: Flags<S>, values: S, args: seq<string>)
    ensures var r := Interspersed(fl, values, args).1;
      r.Ok? ==> |r.value| <= |args| && ((exists t <- args :: !Plain(t)) ==> |r.value| < |args|)
    decreases |args|
  {
    if args == [] {
    } else if Plain(args[0]) {
      PositionalsAreFewer(fl, values, args[1..]);
      PositionalStep(fl, values, args[0], args[1..]);
      assert [args[0]] + args[1..] == args;
    } else {
      match ParseOne(fl, values, args)
      case Stop(rest) =>
        if rest != [] {
          PositionalsAreFewer(fl, values, rest[1..]);
        }
      case Took(values', rest) =>
        PositionalsAreFewer(fl, values', rest);
        assert Interspersed(fl, values, args) == Interspersed(fl, values', rest);
      case Refused(_) =>
    }
  }

  lemma {:induction false} PlainTokensAreThePositionals<S>(fl: Flags<S>, values: S, args: seq<string>)
    requires forall t <- args :: Plain(t)
    ensures Interspersed(fl, values, args) == (values, Ok(args))
    decreases |args|
  {
    if args == [] {
    } else {
      PlainTokensAreThePositionals(fl, values, args[1..]);
      PositionalStep(fl, values, args[0], args[1..]);
      assert [args[0]] + args[1..] == args;
    }
  }

  lemma TerminatorInFront<S>(fl: Flags<S>, values: S, ps: seq<string>)
    ensures Interspersed(fl, values, ["--"] + ps) == (values, Ok(ps)) <==> forall i :: 1 <= i < |ps| ==> Plain(ps[i])
  {
    if ps == [] {
      assert (["--"] + ps)[1..] == [];
    } else {
      var rest := ps[1..];
      assert [ps[0]] + rest == ps;
      TerminatorStep(fl, values, ps[0], rest);
      if forall i :: 1 <= i < |ps| ==> Plain(ps[i]) {
        PlainTokensAreThePositionals(fl, values, rest);
      } else {
        var i :| 1 <= i < |ps| && !Plain(ps[i]);
        assert rest[i - 1] in rest;
        PositionalsAreFewer(fl, values, rest);
      }
    }
  }

  /** When "--" makes all that follows it positional, whatever flags and positionals come
      before: exactly when everything after the first token that follows is plain anyway. */
  lemma TerminatorHoldsIff<S>(fl: Flags<S>, values: S, items: seq<Item>, ps: seq<string>)
    requires forall item <- items :: WellFormed(fl, item)
    ensures var (values', e) := SetAll(fl, values, Assignments(items));
      var r := Interspersed(fl, values, Tokens(items) + (["--"] + ps));
      if e.Some? then r == (values', Err(e.value))
      else r == (values', Ok(Positionals(items) + ps)) <==> forall i :: 1 <= i < |ps| ==> Plain(ps[i])
  {
    var values' := SetAll(fl, values, Assignments(items)).0;
    var r := Interspersed(fl, values', ["--"] + ps);
    ItemsThenRest(fl, values, items, ["--"] + ps);
    TerminatorInFront(fl, values', ps);
    if r.1.Ok? {
      SamePrefix(Positionals(items), r.1.value, ps);
    }
  }

  lemma SamePrefix<T>(a: seq<T>, b: seq<T>, c: seq<T>)
    ensures a + b == a + c <==> b == c
  {
    if a + b == a + c {
      assert b == (a + b)[|a|..] && c == (a + c)[|a|..];
    }
  }

  /** A command line where it does not: `-- a -x`, whatever flags are declared. */
  lemma TerminatorWitness<S>(fl: Flags<S>, values: S)
    ensures Interspersed(fl, values, ["--"] + ["a", "-x"]) != (values, Ok(["a", "-x"]))
  {
    TerminatorInFront(fl, values, ["a", "-x"]);
    assert !Plain(["a", "-x"][1]);
  }

  // ------------------------------------------------------------------------ kvFlag

  function KvSet(m: map<string, string>, s: string): Option<map<string, string>> {
    var i := FindEq(s, 0);
    if i == |s| then None else Some(m[s[..i] := s[i + 1..]])
  }

  class KvFlag {
    var m: map<string, string>

    constructor ()
      ensures m == map[]
    {
      m := map[];
    }

    /** strings.Cut at the first '='. */
    method Set(s: string) returns (ok: bool)
      modifies this
      ensures ok <==> '=' in s
      ensures if ok then Some(m) == KvSet(old(m), s) else m == old(m)
    {
      var i := 0;
      while i < |s| && s[i] != '='
        invariant i <= |s| && FindEq(s, 0) == FindEq(s, i)
        invariant forall j :: 0 <= j < i ==> s[j] != '='
      {
        i := i + 1;
      }
      if i == |s| {
        return false;
      }
      m := m[s[..i] := s[i + 1..]];
      return true;
    }
  }

  function KvSetAll(m: map<string, string>, ss: seq<string>): Option<map<string, string>> {
    if ss == [] then Some(m)
    else
      var before := KvSetAll(m, ss[..|ss| - 1]);
      if before.None? then None else KvSet(before.value, ss[|ss| - 1])
  }

  function Lookup(m: map<string, string>, k: string): Option<string> {
    if k in m then Some(m[k]) else None
  }

  /** The value of the last pair with key k. */
  function LastFor(pairs: seq<(string, string)>, k: string): Option<string> {
    if pairs == [] then None
    else if pairs[|pairs| - 1].0 == k then Some(pairs[|pairs| - 1].1)
    else LastFor(pairs[..|pairs| - 1], k)
  }

  /** Repeated --opt key=value: for every key the last value given wins, and a key not
      given keeps what it had. */
  lemma {:induction false} LastValueWins(m: map<string, string>, pairs: seq<(string, string)>, ss: seq<string>,
                                          k: string)
    requires |ss| == |pairs|
    requires forall i :: 0 <= i < |ss| ==> '=' !in pairs[i].0 && ss[i] == pairs[i].0 + "=" + pairs[i].1
    ensures KvSetAll(m, ss).Some?
    ensures Lookup(KvSetAll(m, ss).value, k) == if LastFor(pairs, k).Some? then LastFor(pairs, k) else Lookup(m, k)
  {
    if ss == [] {
    } else {
      var n := |ss| - 1;
      LastValueWins(m, pairs[..n], ss[..n], k);
      KvSetPair(KvSetAll(m, ss[..n]).value, pairs[n].0, pairs[n].1);
    }
  }

  lemma KvSetPair(m: map<string, string>, key: string, value: string)
    requires '=' !in key
    ensures KvSet(m, key + "=" + value) == Some(m[key := value])
  {
    var s := key + "=" + value;
    assert s[|key|] == '=';
    assert forall j :: 0 <= j < |key| ==> s[j] == key[j];
    assert s[..|key|] == key && s[|key| + 1..] == value;
  }
}
