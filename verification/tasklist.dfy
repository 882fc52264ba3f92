/** The text of the task list: its syntax, and the scan of `webiface_get_task_list`. */
module TaskList {
  import opened Seqs
  import opened Decimal

  predicate EntryChar(c: char) { IsDigit(c) || c == '@' }

  // -- The expression ^([0-9]+@[0-9]+\n)*([0-9]+@[0-9]+)?$ -----------------------------

  datatype Place = LineStart | InSid | AfterAt | InLid | Bad

  function Next(p: Place, c: char): Place {
    match p
    case LineStart => if IsDigit(c) then InSid else Bad
    case InSid => if IsDigit(c) then InSid else if c == '@' then AfterAt else Bad
    case AfterAt => if IsDigit(c) then InLid else Bad
    case InLid => if IsDigit(c) then InLid else if c == '\n' then LineStart else Bad
    case Bad => Bad
  }

  predicate Accepts(p: Place, t: string)
    decreases |t|
  {
    if t == "" then p == LineStart || p == InLid else Accepts(Next(p, t[0]), t[1..])
  }

  /** `$` also matches in front of a final line break. */
  predicate Matches(t: string) {
    Accepts(LineStart, t) || (t != "" && Last(t) == '\n' && Accepts(LineStart, Init(t)))
  }

  datatype Line = Line(sid: string, lid: string)

  predicate Proper(l: Line) {
    l.sid != "" && l.lid != "" && AllDigits(l.sid) && AllDigits(l.lid)
  }

  function Text(l: Line): string { l.sid + "@" + l.lid }

  function Render(ls: seq<Line>): string {
    if ls == [] then "" else Text(ls[0]) + ("\n" + Render(ls[1..]))
  }

  // -- The scan ----------------------------------------------------------------------

  function DropGap(t: string): (r: string)
    ensures |r| <= |t| && (r == "" || EntryChar(r[0]))
  {
    if t == "" || EntryChar(t[0]) then t else DropGap(t[1..])
  }

  function RunOf(t: string): (r: string)
    ensures |r| <= |t|
  {
    if t == "" || !EntryChar(t[0]) then "" else [t[0]] + RunOf(t[1..])
  }

  /** `sid` is what stood before the last '@', `lid` what follows it. */
  function Cells(run: string): Line {
    if run == "" then Line("", "")
    else
      var c := Cells(Init(run));
      if Last(run) == '@' then Line(c.lid, "") else c.(lid := c.lid + [Last(run)])
  }

  function Entries(t: string): seq<Line>
    decreases |t|
  {
    if t == "" then []
    else
      var u := DropGap(t);
      var run := RunOf(u);
      var c := Cells(run);
      if c.sid == "" || c.lid == "" then [] else [c] + Entries(u[|run|..])
  }

  /** The inner loop that skips what cannot belong to an entry. */
  method SkipGap(body: string, start: nat) returns (i: nat)
    requires start <= |body|
    ensures start <= i <= |body| && body[i..] == DropGap(body[start..])
  {
    i := start;
    while i < |body| && !EntryChar(body[i])
      invariant start <= i <= |body|
      invariant DropGap(body[start..]) == DropGap(body[i..])
    {
      assert body[i..][1..] == body[i + 1..];
      i := i + 1;
    }
  }

  /** The inner loop that collects the cells of one entry. */
  method CollectCells(body: string, start: nat) returns (i: nat, c: Line)
    requires start <= |body|
    ensures start <= i <= |body| && body[start..i] == RunOf(body[start..])
    ensures c == Cells(body[start..i])
  {
    i := start;
    var token, sid := "", "";
    while i < |body| && EntryChar(body[i])
      invariant start <= i <= |body|
      invariant forall j :: start <= j < i ==> EntryChar(body[j])
      invariant Cells(body[start..i]) == Line(sid, token)
    {
      assert Init(body[start..i + 1]) == body[start..i];
      if body[i] == '@' {
        sid, token := token, "";
      } else {
        token := token + [body[i]];
      }
      i := i + 1;
    }
    c := Line(sid, token);
    RunIs(body, start, i);
  }

  lemma {:induction false} RunIs(body: string, start: nat, i: nat)
    requires start <= i <= |body| && (i < |body| ==> !EntryChar(body[i]))
    requires forall j :: start <= j < i ==> EntryChar(body[j])
    ensures RunOf(body[start..]) == body[start..i]
    decreases i - start
  {
    if start < i {
      RunIs(body, start + 1, i);
      assert body[start..][1..] == body[start + 1..];
    }
  }

  /** One turn of the scanning loop: the cells found and the index after them. */
  method ScanEntry(body: string, start: nat) returns (i: nat, c: Line)
    requires start < |body|
    ensures start <= i <= |body|
    ensures var u := DropGap(body[start..]);
            c == Cells(RunOf(u)) && body[i..] == u[|RunOf(u)|..]
    ensures c.lid != "" ==> start < i
  {
    var a := SkipGap(body, start);
    i, c := CollectCells(body, a);
    assert body[a..][i - a..] == body[i..];
  }

  lemma {:induction false} CellsDigits(c: string, d: string)
    requires AllDigits(d)
    ensures Cells(c + d) == Cells(c).(lid := Cells(c).lid + d)
    decreases |d|
  {
    if d == "" {
      assert c + d == c;
    } else {
      assert Init(c + d) == c + Init(d);
      CellsDigits(c, Init(d));
      assert d == Init(d) + [Last(d)];
    }
  }

  lemma CellsOfText(l: Line)
    requires Proper(l)
    ensures Cells(Text(l)) == l
  {
    CellsDigits("", l.sid);
    assert "" + l.sid == l.sid;
    assert Init(l.sid + "@") == l.sid;
    CellsDigits(l.sid + "@", l.lid);
  }

  lemma {:induction false} RunOfEntry(r: string, rest: string)
    requires forall i :: 0 <= i < |r| ==> EntryChar(r[i])
    requires rest == "" || !EntryChar(rest[0])
    ensures RunOf(r + rest) == r
  {
    if r == "" {
      assert r + rest == rest;
    } else {
      assert (r + rest)[1..] == r[1..] + rest;
      RunOfEntry(r[1..], rest);
    }
  }

  lemma TextIsEntry(l: Line)
    requires Proper(l)
    ensures forall i :: 0 <= i < |Text(l)| ==> EntryChar(Text(l)[i])
  {
    forall i | 0 <= i < |Text(l)| ensures EntryChar(Text(l)[i]) {
      if i < |l.sid| {
        assert Text(l)[i] == l.sid[i];
      } else if i > |l.sid| {
        assert Text(l)[i] == l.lid[i - |l.sid| - 1];
      }
    }
  }

  lemma EntriesLine(gap: string, l: Line, rest: string)
    requires Proper(l) && (gap == "" || gap == "\n") && (rest == "" || rest[0] == '\n')
    ensures Entries(gap + (Text(l) + rest)) == [l] + Entries(rest)
  {
    var u := Text(l) + rest;
    var t := gap + u;
    TextIsEntry(l);
    assert u[0] == Text(l)[0];
    assert DropGap(u) == u;
    assert DropGap(t) == u by {
      if gap == "" { assert t == u; } else { assert t[1..] == u; }
    }
    RunOfEntry(Text(l), rest);
    CellsOfText(l);
    assert u[|Text(l)|..] == rest;
  }

  lemma BlankEnd(t: string)
    requires forall i :: 0 <= i < |t| ==> t[i] == '\n'
    ensures Entries(t) == []
  {
    DropBlank(t);
  }

  lemma {:induction false} DropBlank(t: string)
    requires forall i :: 0 <= i < |t| ==> t[i] == '\n'
    ensures DropGap(t) == ""
  {
    if t != "" {
      DropBlank(t[1..]);
    }
  }

  /** The scan finds the lines of a rendered list, wherever its last line break is. */
  lemma {:induction false} ScanOfRendered(gap: string, ls: seq<Line>, end: string)
    requires forall i :: 0 <= i < |ls| ==> Proper(ls[i])
    requires gap == "" || gap == "\n"
    requires forall i :: 0 <= i < |end| ==> end[i] == '\n'
    ensures Entries(gap + Render(ls) + end) == ls
    decreases |ls|
  {
    if ls == [] {
      BlankEnd(gap + Render(ls) + end);
    } else {
      ScanOfRendered("\n", ls[1..], end);
      EntriesLine(gap, ls[0], "\n" + Render(ls[1..]) + end);
      LineInFront(gap, Text(ls[0]), Render(ls[1..]), end);
      assert ls == [ls[0]] + ls[1..];
    }
  }

  lemma LineInFront(gap: string, line: string, more: string, end: string)
    ensures gap + (line + ("\n" + more)) + end == gap + (line + ("\n" + more + end))
  {
  }

  lemma InitConcat(a: string, b: string)
    requires b != ""
    ensures Init(a + b) == a + Init(b)
  {
  }

  lemma InitOfRender(ls: seq<Line>)
    requires ls != []
    ensures |ls| == 1 ==> Init(Render(ls)) == Text(ls[0]) + ""
    ensures |ls| > 1 ==> Init(Render(ls)) == Text(ls[0]) + ("\n" + Init(Render(ls[1..])))
  {
    var r := Render(ls[1..]);
    InitConcat(Text(ls[0]), "\n" + r);
    if |ls| == 1 {
      assert Init("\n" + r) == "";
    } else {
      assert ls[1..] != [];
      InitConcat("\n", r);
    }
  }

  /** Without the line break after the last line. */
  lemma {:induction false} ScanOfTrimmed(gap: string, ls: seq<Line>)
    requires ls != []
    requires forall i :: 0 <= i < |ls| ==> Proper(ls[i])
    requires gap == "" || gap == "\n"
    ensures Entries(gap + Init(Render(ls))) == ls
    decreases |ls|
  {
    InitOfRender(ls);
    if |ls| == 1 {
      LastLine(gap, ls[0]);
      assert ls == [ls[0]];
    } else {
      ScanOfTrimmed("\n", ls[1..]);
      EntriesLine(gap, ls[0], "\n" + Init(Render(ls[1..])));
      assert ls == [ls[0]] + ls[1..];
    }
  }

  lemma LastLine(gap: string, l: Line)
    requires Proper(l) && (gap == "" || gap == "\n")
    ensures Entries(gap + (Text(l) + "")) == [l]
  {
    EntriesLine(gap, l, "");
    assert [l] + [] == [l];
  }

  /** `acc` has been read: whole lines, and what there is of the next one. */
  predicate ReadSoFar(p: Place, done: seq<Line>, sid: string, lid: string, acc: string) {
    && (forall i :: 0 <= i < |done| ==> Proper(done[i]))
    && AllDigits(sid) && AllDigits(lid)
    && (p == InSid || p == AfterAt || p == InLid ==> sid != "")
    && (p == InLid ==> lid != "")
    && acc == Render(done) + Pending(p, sid, lid)
  }

  /** One more character. */
  lemma ReadOne(p: Place, done: seq<Line>, sid: string, lid: string, acc: string, c: char)
    returns (done': seq<Line>, sid': string, lid': string)
    requires ReadSoFar(p, done, sid, lid, acc) && p != Bad && Next(p, c) != Bad
    ensures ReadSoFar(Next(p, c), done', sid', lid', acc + [c])
  {
    done', sid', lid' := done, sid, lid;
    Glue(Render(done), Pending(p, sid, lid), [c]);
    match p
    case LineStart =>
      GlueNothing([c]);
      sid', lid' := [c], "";
    case InSid =>
      if c != '@' {
        sid' := sid + [c];
      }
      lid' := "";
    case AfterAt =>
      Glue(sid, "@", [c]);
      lid' := [c];
    case InLid =>
      if c == '\n' {
        RenderSnoc(done, Line(sid, lid));
        GlueNothing(acc + [c]);
        done', sid', lid' := done + [Line(sid, lid)], "", "";
      } else {
        Glue(sid + "@", lid, [c]);
        lid' := lid + [c];
      }
  }

  lemma ReadToEnd(p: Place, done: seq<Line>, sid: string, lid: string, acc: string) returns (ls: seq<Line>)
    requires ReadSoFar(p, done, sid, lid, acc) && Accepts(p, "")
    ensures forall i :: 0 <= i < |ls| ==> Proper(ls[i])
    ensures acc == Render(ls) || acc + "\n" == Render(ls)
  {
    if p == LineStart {
      ls := done;
    } else {
      ls := done + [Line(sid, lid)];
      RenderSnoc(done, Line(sid, lid));
      Glue(Render(done), Text(Line(sid, lid)), "\n");
    }
    GlueNothing(acc);
  }

  /** Reads an accepted text back into the lines it is made of; `acc` is read already. */
  lemma {:induction false} Reading(p: Place, done: seq<Line>, sid: string, lid: string, acc: string, t: string)
    returns (ls: seq<Line>)
    requires ReadSoFar(p, done, sid, lid, acc) && Accepts(p, t)
    ensures forall i :: 0 <= i < |ls| ==> Proper(ls[i])
    ensures acc + t == Render(ls) || acc + t + "\n" == Render(ls)
    decreases |t|
  {
    if t == "" {
      ls := ReadToEnd(p, done, sid, lid, acc);
      GlueNothing(acc);
    } else {
      BadForever(t);
      BadForever(t[1..]);
      var done', sid', lid' := ReadOne(p, done, sid, lid, acc, t[0]);
      ls := Reading(Next(p, t[0]), done', sid', lid', acc + [t[0]], t[1..]);
      Glue(acc, [t[0]], t[1..]);
      assert [t[0]] + t[1..] == t;
    }
  }

  function Pending(p: Place, sid: string, lid: string): string {
    match p
    case LineStart => ""
    case InSid => sid
    case AfterAt => sid + "@"
    case _ => sid + "@" + lid
  }

  lemma {:induction false} BadForever(t: string)
    ensures !Accepts(Bad, t)
  {
    if t != "" {
      BadForever(t[1..]);
    }
  }

  lemma {:induction false} RenderSnoc(ls: seq<Line>, l: Line)
    ensures Render(ls + [l]) == Render(ls) + (Text(l) + "\n")
  {
    if ls != [] {
      assert (ls + [l])[1..] == ls[1..] + [l];
      RenderSnoc(ls[1..], l);
      Glue("\n", Render(ls[1..]), Text(l) + "\n");
      Glue(Text(ls[0]), "\n" + Render(ls[1..]), Text(l) + "\n");
    } else {
      assert (ls + [l])[1..] == [];
    }
  }

  lemma {:induction false} AcceptsDigits(p: Place, d: string, rest: string)
    requires AllDigits(d) && (p == InSid || p == InLid)
    ensures Accepts(p, d + rest) <==> Accepts(p, rest)
    decreases |d|
  {
    if d == "" {
      assert d + rest == rest;
    } else {
      assert (d + rest)[1..] == d[1..] + rest;
      AcceptsDigits(p, d[1..], rest);
    }
  }

  lemma AcceptsLine(l: Line, rest: string)
    requires Proper(l)
    ensures Accepts(LineStart, Text(l) + rest) <==> Accepts(InLid, rest)
  {
    var t := Text(l) + rest;
    assert t[0] == l.sid[0] && t[1..] == l.sid[1..] + ("@" + l.lid + rest);
    AcceptsDigits(InSid, l.sid[1..], "@" + l.lid + rest);
    assert ("@" + l.lid + rest)[1..] == l.lid + rest;
    assert (l.lid + rest)[0] == l.lid[0] && (l.lid + rest)[1..] == l.lid[1..] + rest;
    AcceptsDigits(InLid, l.lid[1..], rest);
  }

  lemma {:induction false} AcceptsRendered(ls: seq<Line>)
    requires forall i :: 0 <= i < |ls| ==> Proper(ls[i])
    ensures Accepts(LineStart, Render(ls))
    ensures ls != [] ==> Accepts(LineStart, Init(Render(ls)))
  {
    if ls != [] {
      AcceptsRendered(ls[1..]);
      var rest := "\n" + Render(ls[1..]);
      AcceptsLine(ls[0], rest);
      assert Render(ls) == Text(ls[0]) + rest && rest[1..] == Render(ls[1..]);
      if |ls| == 1 {
        assert Init(Render(ls)) == Text(ls[0]) + "";
        AcceptsLine(ls[0], "");
      } else {
        assert ls[1..] != [];
        var rest' := "\n" + Init(Render(ls[1..]));
        assert Init(Render(ls)) == Text(ls[0]) + rest' && rest'[1..] == Init(Render(ls[1..]));
        AcceptsLine(ls[0], rest');
      }
    }
  }

  /**
   * For every text the expression accepts, the scan finds one entry per line, in order:
   * written out again they are the text, up to line breaks at its end.
   */
  lemma ScanReadsEveryLine(t: string)
    requires Matches(t)
    ensures forall l :: l in Entries(t) ==> Proper(l)
    ensures var r := Render(Entries(t)); r == t || r == t + "\n" || r + "\n" == t
  {
    var core := if Accepts(LineStart, t) then t else Init(t);
    assert core == t || t == core + "\n";
    var ls := Reading(LineStart, [], "", "", "", core);
    assert "" + core == core;
    if core == Render(ls) {
      ScanOfEnded(ls);
    } else {
      assert core == Init(Render(ls));
      ScanOfTrimmed("", ls);
      ScanOfEnded(ls);
    }
  }

  lemma ScanOfEnded(ls: seq<Line>)
    requires forall i :: 0 <= i < |ls| ==> Proper(ls[i])
    ensures Entries(Render(ls)) == ls && Entries(Render(ls) + "\n") == ls
  {
    ScanOfRendered("", ls, "");
    GlueNothing(Render(ls));
    ScanOfRendered("", ls, "\n");
  }

  /** Every list of proper lines can be sent, and is read as it was sent. */
  lemma ListRoundTrip(ls: seq<Line>)
    requires forall i :: 0 <= i < |ls| ==> Proper(ls[i])
    ensures Matches(Render(ls)) && Entries(Render(ls)) == ls
  {
    AcceptsRendered(ls);
    ScanOfEnded(ls);
  }
}
