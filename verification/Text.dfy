/** Strings: trimming, splitting at a separator, and splitCSV (cmd/reckon/cmd_streams.go). */
module Text {

  /** unicode.IsSpace. */
  predicate IsSpace(c: char) {
    || '\U{0009}' <= c <= '\U{000D}'
    || c == ' ' || c == '\U{0085}' || c == '\U{00A0}' || c == '\U{1680}'
    || '\U{2000}' <= c <= '\U{200A}'
    || c == '\U{2028}' || c == '\U{2029}' || c == '\U{202F}' || c == '\U{205F}' || c == '\U{3000}'
  }

  /** The code points with Unicode's White_Space property. */
  const WHITE_SPACE: set<int> :=
    {9, 10, 11, 12, 13, 32, 133, 160, 5760, 8192, 8193, 8194, 8195, 8196, 8197, 8198, 8199, 8200, 8201, 8202, 8232,
     8233, 8239, 8287, 12288}

  lemma SpaceIsWhiteSpace(c: char)
    ensures IsSpace(c) <==> c as int in WHITE_SPACE
  {
  }

  predicate AllSpace(s: string) {
    forall c <- s :: IsSpace(c)
  }

  function TrimLeft(s: string): string {
    if s != "" && IsSpace(s[0]) then TrimLeft(s[1..]) else s
  }

  function TrimRight(s: string): string {
    if s != "" && IsSpace(s[|s| - 1]) then TrimRight(s[..|s| - 1]) else s
  }

  /** strings.TrimSpace. */
  function Trim(s: string): string {
    TrimRight(TrimLeft(s))
  }

  predicate Trimmed(s: string) {
    s == "" || (!IsSpace(s[0]) && !IsSpace(s[|s| - 1]))
  }

  /** TrimSpace removes exactly the surrounding white space: the trimmed string is the
      only trimmed core the text can be cut to. */
  lemma TrimIsTheCore(a: string, core: string, b: string)
    requires AllSpace(a) && AllSpace(b) && Trimmed(core)
    ensures Trim(a + core + b) == core
  {
    if core == "" {
      TrimLeftDrops(a + b, "");
      assert a + core + b == (a + b) + "";
    } else {
      TrimLeftDrops(a, core + b);
      assert a + core + b == a + (core + b);
      TrimRightDrops(core, b);
    }
  }

  lemma {:induction false} TrimLeftDrops(a: string, s: string)
    requires AllSpace(a) && (s == "" || !IsSpace(s[0]))
    ensures TrimLeft(a + s) == s
  {
    if a == "" {
      assert a + s == s;
    } else {
      TrimLeftDrops(a[1..], s);
      assert (a + s)[1..] == a[1..] + s;
    }
  }

  lemma {:induction false} TrimRightDrops(s: string, b: string)
    requires AllSpace(b) && (s == "" || !IsSpace(s[|s| - 1]))
    ensures TrimRight(s + b) == s
  {
    if b == "" {
      assert s + b == s;
    } else {
      TrimRightDrops(s, b[..|b| - 1]);
      assert (s + b)[..|s + b| - 1] == s + b[..|b| - 1];
    }
  }

  lemma {:induction false} TrimLeftCuts(s: string) returns (a: string)
    ensures AllSpace(a) && s == a + TrimLeft(s)
    ensures TrimLeft(s) == "" || !IsSpace(TrimLeft(s)[0])
  {
    if s == "" || !IsSpace(s[0]) {
      a := "";
    } else {
      var a' := TrimLeftCuts(s[1..]);
      a := [s[0]] + a';
      assert s == [s[0]] + s[1..];
    }
  }

  lemma {:induction false} TrimRightCuts(s: string) returns (b: string)
    ensures AllSpace(b) && s == TrimRight(s) + b
    ensures TrimRight(s) == "" || !IsSpace(TrimRight(s)[|TrimRight(s)| - 1])
  {
    if s == "" || !IsSpace(s[|s| - 1]) {
      b := "";
    } else {
      var b' := TrimRightCuts(s[..|s| - 1]);
      b := b' + [s[|s| - 1]];
      assert s == s[..|s| - 1] + [s[|s| - 1]];
    }
  }

  /** Every string is its trimmed core between two runs of white space. */
  lemma TrimCuts(s: string) returns (a: string, b: string)
    ensures AllSpace(a) && AllSpace(b) && Trimmed(Trim(s)) && s == a + Trim(s) + b
  {
    a := TrimLeftCuts(s);
    b := TrimRightCuts(TrimLeft(s));
  }

  /** Surrounding white space never changes what is left after trimming. */
  lemma TrimIgnoresPadding(a: string, s: string, b: string)
    requires AllSpace(a) && AllSpace(b)
    ensures Trim(a + s + b) == Trim(s)
  {
    var x, y := TrimCuts(s);
    assert a + s + b == (a + x) + Trim(s) + (y + b);
    TrimIsTheCore(a + x, Trim(s), y + b);
  }

  // --------------------------------------------------------------- split and join

  /** strings.Split(s, sep) for a one-character separator: always at least one piece. */
  function Split(s: string, sep: char): (parts: seq<string>)
    ensures |parts| >= 1
  {
    if s == "" then [""]
    else
      var rest := Split(s[1..], sep);
      if s[0] == sep then [""] + rest else OntoFirst(s[0], rest)
  }

  function OntoFirst(c: char, parts: seq<string>): (r: seq<string>)
    requires parts != []
    ensures |r| == |parts|
  {
    [[c] + parts[0]] + parts[1..]
  }

  lemma OntoFirstAppend(c: char, a: seq<string>, b: seq<string>)
    requires a != []
    ensures OntoFirst(c, a + b) == OntoFirst(c, a) + b
  {
    assert (a + b)[0] == a[0] && (a + b)[1..] == a[1..] + b;
  }

  function Join(parts: seq<string>, sep: char): string {
    if parts == [] then ""
    else if |parts| == 1 then parts[0]
    else parts[0] + [sep] + Join(parts[1..], sep)
  }

  lemma {:induction false} SplitWhole(s: string, sep: char)
    requires sep !in s
    ensures Split(s, sep) == [s]
  {
    if s == "" {
    } else {
      SplitWhole(s[1..], sep);
      assert [s[0]] + s[1..] == s;
    }
  }

  /** Splitting distributes over a separator. */
  lemma {:induction false} SplitAt(x: string, sep: char, y: string)
    ensures Split(x + [sep] + y, sep) == Split(x, sep) + Split(y, sep)
  {
    if x == "" {
      assert x + [sep] + y == [sep] + y;
      assert ([sep] + y)[1..] == y;
    } else {
      SplitAt(x[1..], sep, y);
      assert (x + [sep] + y)[1..] == x[1..] + [sep] + y;
      var a, b := Split(x[1..], sep), Split(y, sep);
      if x[0] == sep {
        assert [""] + (a + b) == ([""] + a) + b;
      } else {
        OntoFirstAppend(x[0], a, b);
      }
    }
  }

  lemma JoinOntoFirst(c: char, parts: seq<string>, sep: char)
    requires parts != []
    ensures Join(OntoFirst(c, parts), sep) == [c] + Join(parts, sep)
  {
    var r := OntoFirst(c, parts);
    assert r[0] == [c] + parts[0] && r[1..] == parts[1..];
    if |parts| > 1 {
      var tail := [sep] + Join(parts[1..], sep);
      assert Join(r, sep) == ([c] + parts[0]) + tail;
      assert Join(parts, sep) == parts[0] + tail;
      assert ([c] + parts[0]) + tail == [c] + (parts[0] + tail);
    }
  }

  lemma JoinAfterEmpty(parts: seq<string>, sep: char)
    requires parts != []
    ensures Join([""] + parts, sep) == [sep] + Join(parts, sep)
  {
    assert ([""] + parts)[1..] == parts;
  }

  lemma {:induction false} JoinInvertsSplit(s: string, sep: char)
    ensures Join(Split(s, sep), sep) == s
  {
    if s == "" {
    } else {
      JoinInvertsSplit(s[1..], sep);
      assert [s[0]] + s[1..] == s;
      if s[0] == sep {
        JoinAfterEmpty(Split(s[1..], sep), sep);
      } else {
        JoinOntoFirst(s[0], Split(s[1..], sep), sep);
      }
    }
  }

  lemma {:induction false} SplitPieces(s: string, sep: char)
    ensures forall p <- Split(s, sep) :: sep !in p
  {
    if s == "" {
    } else {
      SplitPieces(s[1..], sep);
    }
  }

  lemma {:induction false} SplitInvertsJoin(parts: seq<string>, sep: char)
    requires parts != [] && forall p <- parts :: sep !in p
    ensures Split(Join(parts, sep), sep) == parts
  {
    if |parts| == 1 {
      SplitWhole(parts[0], sep);
    } else {
      SplitAt(parts[0], sep, Join(parts[1..], sep));
      SplitWhole(parts[0], sep);
      SplitInvertsJoin(parts[1..], sep);
      assert parts == [parts[0]] + parts[1..];
    }
  }

  /** The pieces are the only separator-free list that joins to the string. */
  lemma SplitIsTheOnlyCut(s: string, sep: char, parts: seq<string>)
    ensures parts == Split(s, sep) <==> parts != [] && (forall p <- parts :: sep !in p) && Join(parts, sep) == s
  {
    JoinInvertsSplit(s, sep);
    SplitPieces(s, sep);
    if parts != [] && (forall p <- parts :: sep !in p) && Join(parts, sep) == s {
      SplitInvertsJoin(parts, sep);
    }
  }

  // -------------------------------------------------------------------- splitCSV

  /** The trimmed pieces that are not empty, in order. */
  function NonBlank(parts: seq<string>): (out: seq<string>) {
    if parts == [] then [] else Piece(parts[0]) + NonBlank(parts[1..])
  }

  function Piece(part: string): seq<string> {
    var p := Trim(part);
    if p != "" then [p] else []
  }

  lemma Associates<T>(a: seq<T>, b: seq<T>, c: seq<T>)
    ensures (a + b) + c == a + (b + c)
  {
  }

  lemma {:induction false} NonBlankAppend(a: seq<string>, b: seq<string>)
    ensures NonBlank(a + b) == NonBlank(a) + NonBlank(b)
  {
    if a == [] {
      assert a + b == b;
    } else {
      NonBlankAppend(a[1..], b);
      assert (a + b)[0] == a[0] && (a + b)[1..] == a[1..] + b;
      Associates(Piece(a[0]), NonBlank(a[1..]), NonBlank(b));
    }
  }

  lemma {:induction false} NonBlankAre(parts: seq<string>)
    ensures forall p :: p in NonBlank(parts) <==> p != "" && exists l <- parts :: Trim(l) == p
  {
    if parts == [] {
    } else {
      NonBlankAre(parts[1..]);
      assert parts == [parts[0]] + parts[1..];
    }
  }

  /** Where two strings meet, the last piece of one runs into the first of the other. */
  function Meet(p: seq<string>, q: seq<string>): seq<string>
    requires p != [] && q != []
  {
    p[..|p| - 1] + [p[|p| - 1] + q[0]] + q[1..]
  }

  lemma {:induction false} SplitMeets(s: string, t: string, sep: char)
    ensures Split(s + t, sep) == Meet(Split(s, sep), Split(t, sep))
  {
    var p, q := Split(s, sep), Split(t, sep);
    if s == "" {
      assert s + t == t && "" + q[0] == q[0];
      assert p[..0] + [q[0]] + q[1..] == q;
    } else {
      SplitMeets(s[1..], t, sep);
      assert (s + t)[0] == s[0] && (s + t)[1..] == s[1..] + t;
      var rest := Split(s[1..], sep);
      if s[0] == sep {
        assert Meet([""] + rest, q) == [""] + Meet(rest, q);
      } else {
        OntoFirstMeets(s[0], rest, q);
      }
    }
  }

  lemma OntoFirstMeets(c: char, p: seq<string>, q: seq<string>)
    requires p != [] && q != []
    ensures Meet(OntoFirst(c, p), q) == OntoFirst(c, Meet(p, q))
  {
    if |p| == 1 {
      assert ([c] + p[0]) + q[0] == [c] + (p[0] + q[0]);
    }
  }

  lemma {:induction false} SpacePieces(s: string, sep: char)
    requires AllSpace(s)
    ensures forall p <- Split(s, sep) :: AllSpace(p)
  {
    if s == "" {
    } else {
      SpacePieces(s[1..], sep);
      var rest := Split(s[1..], sep);
      assert s[0] in s && rest[0] in rest;
      assert AllSpace([s[0]] + rest[0]);
      assert forall p <- rest[1..] :: p in rest;
    }
  }

  lemma {:induction false} NonBlankOfSpaces(parts: seq<string>)
    requires forall p <- parts :: AllSpace(p)
    ensures NonBlank(parts) == []
  {
    if parts == [] {
    } else {
      TrimIsTheCore(parts[0], "", "");
      assert parts[0] + "" + "" == parts[0];
      NonBlankOfSpaces(parts[1..]);
    }
  }

  lemma PieceIgnoresPadding(a: string, s: string, b: string)
    requires AllSpace(a) && AllSpace(b)
    ensures Piece(a + s) == Piece(s) && Piece(s + b) == Piece(s)
  {
    TrimIgnoresPadding(a, s, "");
    TrimIgnoresPadding("", s, b);
    assert a + s + "" == a + s && "" + s + b == s + b;
  }

  lemma NonBlankOfMeet(p: seq<string>, q: seq<string>)
    requires p != [] && q != []
    ensures NonBlank(Meet(p, q)) == NonBlank(p[..|p| - 1]) + (Piece(p[|p| - 1] + q[0]) + NonBlank(q[1..]))
  {
    var middle := [p[|p| - 1] + q[0]] + q[1..];
    assert Meet(p, q) == p[..|p| - 1] + middle;
    NonBlankAppend(p[..|p| - 1], middle);
    assert middle[1..] == q[1..];
  }

  lemma LeadingSpaceIsNothing(a: string, s: string, sep: char)
    requires AllSpace(a)
    ensures NonBlank(Split(a + s, sep)) == NonBlank(Split(s, sep))
  {
    var p, q := Split(a, sep), Split(s, sep);
    SplitMeets(a, s, sep);
    SpacePieces(a, sep);
    NonBlankOfMeet(p, q);
    NonBlankOfSpaces(p[..|p| - 1]);
    PieceIgnoresPadding(p[|p| - 1], q[0], "");
  }

  lemma TrailingSpaceIsNothing(s: string, b: string, sep: char)
    requires AllSpace(b)
    ensures NonBlank(Split(s + b, sep)) == NonBlank(Split(s, sep))
  {
    var p, q := Split(s, sep), Split(b, sep);
    SplitMeets(s, b, sep);
    SpacePieces(b, sep);
    NonBlankOfMeet(p, q);
    NonBlankOfSpaces(q[1..]);
    PieceIgnoresPadding("", p[|p| - 1], q[0]);
    NonBlankAppend(p[..|p| - 1], [p[|p| - 1]]);
    assert p[..|p| - 1] + [p[|p| - 1]] == p;
    assert NonBlank([p[|p| - 1]]) == Piece(p[|p| - 1]) + NonBlank([]);
  }

  /** Trimming a text first does not change its non-blank pieces. */
  lemma NonBlankOfTrim(s: string, sep: char)
    ensures NonBlank(Split(Trim(s), sep)) == NonBlank(Split(s, sep))
  {
    var a, b := TrimCuts(s);
    LeadingSpaceIsNothing(a, Trim(s), sep);
    TrailingSpaceIsNothing(a + Trim(s), b, sep);
  }

  /** A trimmed text begins with its first non-blank piece. */
  lemma FirstNonBlank(s: string, sep: char)
    requires s != "" && Trimmed(s) && IsSpace(sep)
    ensures NonBlank(Split(s, sep)) != []
    ensures var first := NonBlank(Split(s, sep))[0]; first != "" && first[0] == s[0]
  {
    var line := Split(s, sep)[0];
    assert line != "" && line[0] == s[0];
    TrimRightKeepsFirst(line);
  }

  lemma {:induction false} TrimRightKeepsFirst(s: string)
    requires s != "" && !IsSpace(s[0])
    ensures TrimRight(s) != "" && TrimRight(s)[0] == s[0]
  {
    if !IsSpace(s[|s| - 1]) {
    } else {
      TrimRightKeepsFirst(s[..|s| - 1]);
    }
  }

  method SplitCSV(s: string) returns (out: seq<string>)
    ensures out == NonBlank(Split(s, ','))
  {
    var parts := Split(s, ',');
    out := [];
    for i := 0 to |parts|
      invariant out == NonBlank(parts[..i])
    {
      NonBlankAppend(parts[..i], [parts[i]]);
      assert parts[..i] + [parts[i]] == parts[..i + 1];
      var p := Trim(parts[i]);
      if p != "" {
        out := out + [p];
      }
    }
    assert parts[..|parts|] == parts;
  }

  /** A list that a comma-separated argument can carry without loss. */
  predicate CleanList(parts: seq<string>) {
    forall p <- parts :: p != "" && Trimmed(p) && ',' !in p
  }

  lemma {:induction false} NonBlankOfClean(parts: seq<string>)
    requires CleanList(parts)
    ensures NonBlank(parts) == parts
  {
    if parts == [] {
    } else {
      NonBlankOfClean(parts[1..]);
      TrimIsTheCore("", parts[0], "");
      assert "" + parts[0] + "" == parts[0];
    }
  }

  lemma {:induction false} NonBlankIsClean(parts: seq<string>)
    requires forall p <- parts :: ',' !in p
    ensures CleanList(NonBlank(parts))
  {
    if parts == [] {
    } else {
      NonBlankIsClean(parts[1..]);
      var p := Trim(parts[0]);
      var a, b := TrimCuts(parts[0]);
      assert forall c <- p :: c in a + p + b;
      assert CleanList([p]) || p == "";
    }
  }

  /** Joining and splitting undo each other on clean lists, the empty list included. */
  lemma SplitCSVInvertsJoin(parts: seq<string>)
    requires CleanList(parts)
    ensures NonBlank(Split(Join(parts, ','), ',')) == parts
  {
    if parts == [] {
      assert NonBlank([""]) == NonBlank([""][1..]);
    } else {
      SplitInvertsJoin(parts, ',');
      NonBlankOfClean(parts);
    }
  }

  /** Every result of splitCSV is a clean list, so splitting again what was joined
      gives it back, for every argument. */
  lemma SplitCSVIsClean(s: string)
    ensures var out := NonBlank(Split(s, ','));
      CleanList(out) && NonBlank(Split(Join(out, ','), ',')) == out
  {
    SplitPieces(s, ',');
    NonBlankIsClean(Split(s, ','));
    SplitCSVInvertsJoin(NonBlank(Split(s, ',')));
  }
}
