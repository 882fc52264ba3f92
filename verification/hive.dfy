/**
 * The parser of configuration files, `hive_parse_buf`, over the tokens its scanner gives
 * it, and the search for an item by its path.
 */
module Hive {
  import opened Seqs

  datatype Kind = Word | Quoted | Array

  /** A value as it was written. */
  datatype Value = Value(kind: Kind, text: string)

  datatype Node = Node(name: string, value: Value, kids: seq<Node>)

  /** `broken`: the scanner met the end of the file inside an array. */
  datatype Token = Token(kind: Kind, text: string, broken: bool)

  /** What a file gives that another one includes, whether or not it could be read. */
  type Files = string -> seq<Node>

  /** `Null`: a pointer that is not there was followed. */
  datatype Status = Running | Error | Null

  /**
   * The parser between two tokens. `path` leads from the root to the current node; a node on
   * it has been taken out of the children of the one before. `valuing` is state 1, `awaiting`
   * the wait for the name of an included file.
   */
  datatype Machine = Machine(
    status: Status, path: seq<Node>, braces: int,
    valuing: bool, nameTaken: bool, varTaken: bool, varName: string, awaiting: bool)

  const ROOT := Node("root", Value(Word, "tree root"), [])

  const START := Machine(Running, [ROOT], 0, false, false, false, "", false)

  predicate Starts(s: string, c: char) { s != "" && s[0] == c }

  // -- The tree under construction ---------------------------------------------------

  /** The current node with more children. */
  function Grown(path: seq<Node>, ks: seq<Node>): seq<Node>
    requires path != []
  {
    Init(path) + [Last(path).(kids := Last(path).kids + ks)]
  }

  function Descended(path: seq<Node>): seq<Node>
    requires path != [] && Last(path).kids != []
  {
    var n := Last(path);
    Init(path) + [n.(kids := Init(n.kids))] + [Last(n.kids)]
  }

  function Ascended(path: seq<Node>): seq<Node>
    requires |path| >= 2
  {
    Grown(Init(path), [Last(path)])
  }

  function Whole(path: seq<Node>): Node
    requires path != []
    decreases |path|
  {
    if |path| == 1 then path[0] else Whole(Ascended(path))
  }

  // -- One token ---------------------------------------------------------------------

  function Failed(m: Machine): Machine { m.(status := Error) }

  function Added(m: Machine, v: Value): Machine {
    if m.path == [] then m.(status := Null) else m.(path := Grown(m.path, [Node(m.varName, v, [])]))
  }

  function Included(m: Machine, ks: seq<Node>): Machine {
    if m.path == [] then m.(status := Null) else m.(path := Grown(m.path, ks), awaiting := false)
  }

  function Opened(m: Machine): Machine {
    if m.path == [] || Last(m.path).kids == [] then m.(status := Null)
    else m.(path := Descended(m.path), braces := m.braces + 1, varTaken := false, nameTaken := false)
  }

  function Closed(m: Machine): Machine {
    if |m.path| < 2 then m.(status := Null)
    else m.(path := Ascended(m.path), braces := m.braces - 1)
  }

  function NameStep(m: Machine, t: Token): Machine {
    if Starts(t.text, '{') then
      if !m.nameTaken && !m.varTaken then Failed(m)
      else Opened(if m.nameTaken then Added(m, Value(t.kind, "")) else m)
    else if Starts(t.text, '}') then
      if m.braces == 0 || (m.nameTaken && !m.varTaken) then Failed(m) else Closed(m)
    else m.(varName := t.text, nameTaken := true, varTaken := false, valuing := true)
  }

  function ValueStep(m: Machine, t: Token): Machine {
    if Starts(t.text, '{') && t.kind != Array then
      if !m.nameTaken then Failed(m) else Opened(Added(m, Value(t.kind, ""))).(valuing := false)
    else if Starts(t.text, '}') && t.kind != Array then
      if m.braces == 0 || !m.varTaken then Failed(m) else Closed(m).(valuing := false)
    else Added(m, Value(t.kind, t.text)).(nameTaken := false, varTaken := true, valuing := false)
  }

  function Step(m: Machine, t: Token, files: Files): Machine {
    if m.status != Running then m
    else if m.awaiting then Included(m, files(t.text))
    else if t.broken then Failed(m)
    else if t.kind == Array && !m.valuing then Failed(m)
    else if Starts(t.text, '#') && t.kind != Quoted then
      if t.text == "#include" then m.(awaiting := true) else Failed(m)
    else if m.valuing then ValueStep(m, t)
    else NameStep(m, t)
  }

  function Run(m: Machine, ts: seq<Token>, files: Files): Machine {
    if ts == [] then m else Step(Run(m, Init(ts), files), Last(ts), files)
  }

  function Finish(m: Machine, files: Files): Machine {
    if m.status != Running then m
    else
      var m' := if m.awaiting then Included(m, files("")) else m;
      if m'.status == Running && (m'.braces != 0 || m'.nameTaken) then Failed(m') else m'
  }

  function End(ts: seq<Token>, files: Files): Machine {
    Finish(Run(START, ts, files), files)
  }

  // -- What every token keeps --------------------------------------------------------

  /**
   * The brace count is the depth of the current node; a name is pending exactly in state 1;
   * a `{` that needs no name finds a child to open.
   */
  predicate Inv(m: Machine) {
    && m.status != Null
    && m.path != [] && m.braces == |m.path| - 1
    && m.nameTaken == m.valuing && !(m.valuing && m.varTaken)
    && (m.varTaken ==> Last(m.path).kids != [])
  }

  lemma StepKeeps(m: Machine, t: Token, files: Files)
    requires Inv(m)
    ensures Inv(Step(m, t, files))
  {
    if m.status == Running {
      if m.valuing {
        ValueKeeps(m, t);
      } else {
        NameKeeps(m, t);
      }
    }
  }

  lemma NameKeeps(m: Machine, t: Token)
    requires Inv(m) && m.status == Running && !m.valuing
    ensures Inv(NameStep(m, t))
  {
  }

  lemma ValueKeeps(m: Machine, t: Token)
    requires Inv(m) && m.status == Running && m.valuing
    ensures Inv(ValueStep(m, t))
  {
  }

  lemma {:induction false} RunKeeps(m: Machine, ts: seq<Token>, files: Files)
    requires Inv(m)
    ensures Inv(Run(m, ts, files))
  {
    if ts != [] {
      RunKeeps(m, Init(ts), files);
      StepKeeps(Run(m, Init(ts), files), Last(ts), files);
    }
  }

  /**
   * For every stream of tokens the parser follows no missing parent and no empty list of
   * children, its brace count is the depth of the current node, and it succeeds exactly when
   * it ends back at the root with no name pending.
   */
  lemma ParserIsSafe(ts: seq<Token>, files: Files)
    ensures var m := End(ts, files);
            && m.status != Null && m.path != [] && m.braces == |m.path| - 1
            && (m.status == Running <==>
                  Run(START, ts, files).status == Running && |m.path| == 1 && !m.nameTaken)
  {
    RunKeeps(START, ts, files);
  }

  /** A closing brace where a value is due is always an error. */
  lemma NoCloseForAValue(m: Machine, files: Files)
    requires Inv(m) && m.status == Running && m.valuing && !m.awaiting
    ensures Step(m, CLOSE, files).status == Error
  {
  }

  // -- Printing, and reading what was printed ----------------------------------------

  const OPEN := Token(Word, "{", false)
  const CLOSE := Token(Word, "}", false)

  predicate GoodName(s: string) { !Starts(s, '{') && !Starts(s, '}') }

  predicate GoodValue(v: Value) {
    && (v.kind != Array ==> !Starts(v.text, '{') && !Starts(v.text, '}'))
    && (v.kind != Quoted ==> !Starts(v.text, '#'))
  }

  predicate Printable(n: Node)
    decreases n, 1
  {
    GoodName(n.name) && GoodValue(n.value) && AllPrintable(n.kids)
  }

  predicate AllPrintable(ns: seq<Node>)
    decreases ns, 0
  {
    forall i :: 0 <= i < |ns| ==> Printable(ns[i])
  }

  /** A node that was written without a value is written so again. */
  function Print(n: Node): seq<Token>
    decreases n, 1
  {
    if n.value == Value(Word, "") then [Token(Quoted, n.name, false), OPEN] + PrintAll(n.kids) + [CLOSE]
    else if n.kids == [] then [Token(Quoted, n.name, false), Token(n.value.kind, n.value.text, false)]
    else [Token(Quoted, n.name, false), Token(n.value.kind, n.value.text, false), OPEN] + PrintAll(n.kids) + [CLOSE]
  }

  function PrintAll(ns: seq<Node>): seq<Token>
    decreases ns, 0
  {
    if ns == [] then [] else Print(ns[0]) + PrintAll(ns[1..])
  }

  predicate Ready(m: Machine) {
    Inv(m) && m.status == Running && !m.valuing && !m.awaiting
  }

  lemma {:induction false} RunConcat(m: Machine, a: seq<Token>, b: seq<Token>, files: Files)
    ensures Run(m, a + b, files) == Run(Run(m, a, files), b, files)
  {
    if b == [] {
      assert a + b == a;
    } else {
      assert Init(a + b) == a + Init(b);
      RunConcat(m, a, Init(b), files);
    }
  }

  lemma RunOne(m: Machine, t: Token, files: Files)
    ensures Run(m, [t], files) == Step(m, t, files)
  {
    assert Init([t]) == [];
    assert Run(m, [], files) == m;
  }

  lemma GrownTwice(path: seq<Node>, a: seq<Node>, b: seq<Node>)
    requires path != []
    ensures Grown(Grown(path, a), b) == Grown(path, a + b)
  {
    assert Init(Grown(path, a)) == Init(path);
    var k := Last(path).kids;
    assert (k + a) + b == k + (a + b);
  }

  /** A new child, opened, filled and closed, is a child that was complete from the start. */
  lemma FilledChild(path: seq<Node>, name: string, v: Value, ks: seq<Node>)
    requires path != []
    ensures var p := Grown(path, [Node(name, v, [])]);
            && Last(p).kids != []
            && Ascended(Grown(Descended(p), ks)) == Grown(path, [Node(name, v, ks)])
  {
    var p := Grown(path, [Node(name, v, [])]);
    var n := Last(path);
    assert Last(p).kids == n.kids + [Node(name, v, [])];
    assert Init(Last(p).kids) == n.kids;
    var d := Descended(p);
    assert d == Init(path) + [n] + [Node(name, v, [])];
    var g := Grown(d, ks);
    assert [] + ks == ks;
    assert Init(d) == Init(path) + [n];
    assert g == Init(path) + [n] + [Node(name, v, ks)];
    assert Init(g) == Init(path) + [n] && Init(Init(g)) == Init(path);
  }

  lemma AfterName(m: Machine, n: Node, files: Files) returns (m': Machine)
    requires Ready(m) && GoodName(n.name)
    ensures m' == Run(m, [Token(Quoted, n.name, false)], files)
    ensures m' == m.(varName := n.name, nameTaken := true, varTaken := false, valuing := true)
  {
    RunOne(m, Token(Quoted, n.name, false), files);
    m' := Step(m, Token(Quoted, n.name, false), files);
  }

  /** The node has been added, without its children, and is open. */
  predicate Entered(m: Machine, n: Node, m': Machine)
    requires m.path != []
  {
    && Ready(m') && m'.braces == m.braces + 1
    && var p := Grown(m.path, [Node(n.name, n.value, [])]);
       Last(p).kids != [] && m'.path == Descended(p)
  }

  lemma EnterBare(m: Machine, n: Node, files: Files)
    requires Ready(m) && GoodName(n.name) && n.value == Value(Word, "")
    ensures Entered(m, n, Run(m, [Token(Quoted, n.name, false), OPEN], files))
  {
    var m1 := AfterName(m, n, files);
    assert [Token(Quoted, n.name, false), OPEN] == [Token(Quoted, n.name, false)] + [OPEN];
    RunConcat(m, [Token(Quoted, n.name, false)], [OPEN], files);
    RunOne(m1, OPEN, files);
    StepKeeps(m1, OPEN, files);
  }

  lemma AddLeaf(m: Machine, n: Node, files: Files)
    requires Ready(m) && GoodName(n.name) && GoodValue(n.value)
    ensures var m' := Run(m, [Token(Quoted, n.name, false), Token(n.value.kind, n.value.text, false)], files);
            Ready(m') && m'.varTaken && m'.braces == m.braces && m'.path == Grown(m.path, [Node(n.name, n.value, [])])
  {
    var m1 := AfterName(m, n, files);
    var v := Token(n.value.kind, n.value.text, false);
    assert [Token(Quoted, n.name, false), v] == [Token(Quoted, n.name, false)] + [v];
    RunConcat(m, [Token(Quoted, n.name, false)], [v], files);
    RunOne(m1, v, files);
    StepKeeps(m1, v, files);
  }

  lemma EnterValued(m: Machine, n: Node, files: Files)
    requires Ready(m) && GoodName(n.name) && GoodValue(n.value)
    ensures Entered(m, n, Run(m, [Token(Quoted, n.name, false), Token(n.value.kind, n.value.text, false), OPEN], files))
  {
    var h := [Token(Quoted, n.name, false), Token(n.value.kind, n.value.text, false)];
    AddLeaf(m, n, files);
    assert [Token(Quoted, n.name, false), Token(n.value.kind, n.value.text, false), OPEN] == h + [OPEN];
    RunConcat(m, h, [OPEN], files);
    var m1 := Run(m, h, files);
    RunOne(m1, OPEN, files);
    EnterLeaf(m, n, m1, files);
  }

  /** A brace behind a node that was added with its value opens it. */
  lemma EnterLeaf(m: Machine, n: Node, m1: Machine, files: Files)
    requires Ready(m) && Ready(m1) && m1.varTaken && m1.braces == m.braces
    requires m1.path == Grown(m.path, [Node(n.name, n.value, [])])
    ensures Entered(m, n, Step(m1, OPEN, files))
  {
    StepKeeps(m1, OPEN, files);
  }

  /** The current node has these new children; otherwise the parser stands where it stood. */
  predicate Gained(m: Machine, ns: seq<Node>, m': Machine)
    requires m.path != []
  {
    Ready(m') && m'.braces == m.braces && m'.path == Grown(m.path, ns)
  }

  lemma GainedTwice(m: Machine, ns: seq<Node>, m1: Machine, m2: Machine)
    requires m.path != [] && ns != [] && Gained(m, [ns[0]], m1) && Gained(m1, ns[1..], m2)
    ensures Gained(m, ns, m2)
  {
    GrownTwice(m.path, [ns[0]], ns[1..]);
    assert [ns[0]] + ns[1..] == ns;
  }

  /** From the open node over its children to its closing brace. */
  lemma {:induction false} FillAndClose(m: Machine, n: Node, head: seq<Token>, files: Files)
    requires Ready(m) && Entered(m, n, Run(m, head, files)) && AllPrintable(n.kids)
    ensures Gained(m, [n], Run(m, head + PrintAll(n.kids) + [CLOSE], files))
    decreases n, 0
  {
    var m1 := Run(m, head, files);
    RunConcat(m, head, PrintAll(n.kids), files);
    ReadAll(m1, n.kids, files);
    var m2 := Run(m1, PrintAll(n.kids), files);
    RunConcat(m, head + PrintAll(n.kids), [CLOSE], files);
    RunOne(m2, CLOSE, files);
    StepKeeps(m2, CLOSE, files);
    FilledChild(m.path, n.name, n.value, n.kids);
  }

  lemma {:induction false} ReadOne(m: Machine, n: Node, files: Files)
    requires Ready(m) && Printable(n)
    ensures Gained(m, [n], Run(m, Print(n), files))
    decreases n, 1
  {
    if n.value == Value(Word, "") {
      EnterBare(m, n, files);
      FillAndClose(m, n, [Token(Quoted, n.name, false), OPEN], files);
    } else if n.kids == [] {
      AddLeaf(m, n, files);
    } else {
      EnterValued(m, n, files);
      FillAndClose(m, n, [Token(Quoted, n.name, false), Token(n.value.kind, n.value.text, false), OPEN], files);
    }
  }

  lemma {:induction false} ReadAll(m: Machine, ns: seq<Node>, files: Files)
    requires Ready(m) && AllPrintable(ns)
    ensures Gained(m, ns, Run(m, PrintAll(ns), files))
    decreases ns, 0
  {
    if ns == [] {
      assert Last(m.path).kids + [] == Last(m.path).kids;
    } else {
      var m1 := Run(m, Print(ns[0]), files);
      ReadOne(m, ns[0], files);
      RunConcat(m, Print(ns[0]), PrintAll(ns[1..]), files);
      ReadAll(m1, ns[1..], files);
      GainedTwice(m, ns, m1, Run(m1, PrintAll(ns[1..]), files));
    }
  }

  // -- Only such trees are ever built ------------------------------------------------

  predicate PathPrintable(path: seq<Node>) {
    && (forall i :: 0 <= i < |path| ==> AllPrintable(path[i].kids))
    && (forall i :: 0 < i < |path| ==> GoodName(path[i].name) && GoodValue(path[i].value))
  }

  predicate Tidy(m: Machine) {
    Inv(m) && PathPrintable(m.path) && (m.valuing ==> GoodName(m.varName))
  }

  lemma GrownPrintable(path: seq<Node>, ks: seq<Node>)
    requires path != [] && PathPrintable(path) && AllPrintable(ks)
    ensures PathPrintable(Grown(path, ks))
  {
    var g := Grown(path, ks);
    assert AllPrintable(Last(path).kids);
    assert AllPrintable(Last(g).kids);
    forall i | 0 <= i < |g| ensures AllPrintable(g[i].kids) {
      assert i < |path| - 1 ==> g[i] == path[i];
    }
  }

  lemma DescendedPrintable(path: seq<Node>)
    requires path != [] && Last(path).kids != [] && PathPrintable(path)
    ensures PathPrintable(Descended(path))
  {
    var d := Descended(path);
    var ks := Last(path).kids;
    assert AllPrintable(ks) && Printable(Last(ks));
    assert AllPrintable(Init(ks));
    forall i | 0 <= i < |d| ensures AllPrintable(d[i].kids) {
      assert i < |path| - 1 ==> d[i] == path[i];
    }
  }

  lemma AscendedPrintable(path: seq<Node>)
    requires |path| >= 2 && PathPrintable(path)
    ensures PathPrintable(Ascended(path))
  {
    assert Printable(Last(path));
    GrownPrintable(Init(path), [Last(path)]);
  }

  lemma AddedTidy(m: Machine, v: Value)
    requires Tidy(m) && m.valuing && GoodValue(v)
    ensures PathPrintable(Added(m, v).path)
    ensures PathPrintable(Opened(Added(m, v)).path)
  {
    assert Printable(Node(m.varName, v, []));
    GrownPrintable(m.path, [Node(m.varName, v, [])]);
    DescendedPrintable(Grown(m.path, [Node(m.varName, v, [])]));
  }

  lemma ValueTidy(m: Machine, t: Token)
    requires Tidy(m) && m.valuing && !(Starts(t.text, '#') && t.kind != Quoted)
    ensures PathPrintable(ValueStep(m, t).path)
  {
    if Starts(t.text, '{') && t.kind != Array {
      AddedTidy(m, Value(t.kind, ""));
    } else if !Starts(t.text, '}') || t.kind == Array {
      AddedTidy(m, Value(t.kind, t.text));
    }
  }

  lemma NameTidy(m: Machine, t: Token)
    requires Tidy(m) && !m.valuing
    ensures PathPrintable(NameStep(m, t).path)
  {
    if m.varTaken {
      DescendedPrintable(m.path);
    }
    if |m.path| >= 2 {
      AscendedPrintable(m.path);
    }
  }

  lemma StepTidy(m: Machine, t: Token, files: Files)
    requires Tidy(m) && forall f :: AllPrintable(files(f))
    ensures Tidy(Step(m, t, files))
  {
    StepKeeps(m, t, files);
    if m.status == Running && m.awaiting {
      GrownPrintable(m.path, files(t.text));
    } else if m.valuing && !(Starts(t.text, '#') && t.kind != Quoted) {
      ValueTidy(m, t);
    } else if !m.valuing {
      NameTidy(m, t);
    }
  }

  lemma {:induction false} RunTidy(m: Machine, ts: seq<Token>, files: Files)
    requires Tidy(m) && forall f :: AllPrintable(files(f))
    ensures Tidy(Run(m, ts, files))
  {
    if ts != [] {
      RunTidy(m, Init(ts), files);
      StepTidy(Run(m, Init(ts), files), Last(ts), files);
    }
  }

  lemma {:induction false} WholePrintable(path: seq<Node>)
    requires path != [] && PathPrintable(path)
    ensures AllPrintable(Whole(path).kids)
    decreases |path|
  {
    if |path| > 1 {
      AscendedPrintable(path);
      WholePrintable(Ascended(path));
    }
  }

  /** Every tree the parser leaves, even a partial one, can be written down again. */
  lemma ParsedIsPrintable(ts: seq<Token>, files: Files)
    requires forall f :: AllPrintable(files(f))
    ensures End(ts, files).path != [] && AllPrintable(Whole(End(ts, files).path).kids)
  {
    RunTidy(START, ts, files);
    var m := Run(START, ts, files);
    GrownPrintable(m.path, files(""));
    WholePrintable(End(ts, files).path);
  }

  /** Reading what was printed gives the tree back if and only if its texts allow it. */
  lemma RoundTrip(ns: seq<Node>, files: Files)
    requires forall f :: AllPrintable(files(f))
    ensures (End(PrintAll(ns), files).status == Running && End(PrintAll(ns), files).path == [ROOT.(kids := ns)])
            <==> AllPrintable(ns)
  {
    var m := End(PrintAll(ns), files);
    if AllPrintable(ns) {
      ReadAll(START, ns, files);
      assert [] + ns == ns;
    } else if m.path == [ROOT.(kids := ns)] {
      ParsedIsPrintable(PrintAll(ns), files);
      assert false;
    }
  }

  /** The current node with more children for its last child. */
  function Enriched(path: seq<Node>, ks: seq<Node>): seq<Node>
    requires path != [] && Last(path).kids != []
  {
    var n := Last(path);
    Init(path) + [n.(kids := Init(n.kids) + [Last(n.kids).(kids := Last(n.kids).kids + ks)])]
  }

  /**
   * A brace right after a value, or after a group that ended with one, opens the last node
   * there is: a second group adds to the first.
   */
  lemma SecondGroupAdds(m: Machine, ks: seq<Node>, files: Files)
    requires Ready(m) && m.varTaken && AllPrintable(ks)
    ensures var m' := Run(m, [OPEN] + PrintAll(ks) + [CLOSE], files);
            Ready(m') && m'.braces == m.braces && m'.path == Enriched(m.path, ks)
  {
    RunOne(m, OPEN, files);
    var m1 := Run(m, [OPEN], files);
    StepKeeps(m, OPEN, files);
    RunConcat(m, [OPEN], PrintAll(ks), files);
    ReadAll(m1, ks, files);
    var m2 := Run(m1, PrintAll(ks), files);
    RunConcat(m, [OPEN] + PrintAll(ks), [CLOSE], files);
    RunOne(m2, CLOSE, files);
    StepKeeps(m2, CLOSE, files);
    var n := Last(m.path);
    assert m1.path == Init(m.path) + [n.(kids := Init(n.kids))] + [Last(n.kids)];
    assert Init(m1.path) == Init(m.path) + [n.(kids := Init(n.kids))];
    assert Init(m2.path) == Init(m1.path);
    assert Init(Init(m2.path)) == Init(m.path);
  }
}
