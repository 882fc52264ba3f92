/** How `testing_main_loop` turns what it observes of every test into points and errors. */
module Scoring {
  import opened Seqs
  import opened Decimal

  /** What one pass of the loop observes; `up*` are its three looks at the module's activity. */
  datatype Seen = Seen(
    upAtStart: bool, copied: bool,
    upAfterRun: bool, runFailed: bool, memoryLimit: bool, timeLimit: bool, runtimeError: bool, hasOutput: bool,
    upAfterCheck: bool, checkFailed: bool, checkKilled: bool, checkLimits: bool, code: int)

  datatype Verdict = OK | WA | PE | ML | TL | RE | Crashed | Stopped

  /** One pass of the loop. */
  function Judge(o: Seen): Verdict {
    if !o.upAtStart then Stopped
    else if !o.copied then Crashed
    else if !o.upAfterRun then Stopped
    else if o.runFailed then Crashed
    else if o.memoryLimit then ML
    else if o.timeLimit then TL
    else if o.runtimeError then RE
    else if !o.hasOutput then PE
    else if !o.upAfterCheck then Stopped
    else if o.checkFailed || o.checkKilled || o.checkLimits then Crashed
    else if o.code == 0 then OK
    else if o.code == 1 then WA
    else if o.code == 2 then PE
    else Crashed
  }

  /** The solution ran within its limits and left an output. */
  predicate RanWell(o: Seen) {
    o.copied && !o.runFailed && !o.memoryLimit && !o.timeLimit && !o.runtimeError && o.hasOutput
  }

  predicate CheckedWell(o: Seen) {
    RanWell(o) && !o.checkFailed && !o.checkKilled && !o.checkLimits
  }

  /** The verdicts in the terms of the rules, for a module that is active throughout. */
  lemma VerdictMeans(o: Seen)
    requires o.upAtStart && o.upAfterRun && o.upAfterCheck
    ensures Judge(o) == OK <==> CheckedWell(o) && o.code == 0
    ensures Judge(o) == WA <==> CheckedWell(o) && o.code == 1
    ensures Judge(o) == ML <==> o.copied && !o.runFailed && o.memoryLimit
    ensures Judge(o) == TL <==> o.copied && !o.runFailed && o.timeLimit && !o.memoryLimit
    ensures Judge(o) == RE <==> o.copied && !o.runFailed && o.runtimeError && !o.memoryLimit && !o.timeLimit
    ensures Judge(o) == PE <==>
            RanWell(o.(hasOutput := true)) && (if o.hasOutput then CheckedWell(o) && o.code == 2 else true)
    ensures Judge(o) == Crashed <==>
            !o.copied || o.runFailed || (RanWell(o) && (CheckedWell(o) ==> o.code !in {0, 1, 2}))
    ensures Judge(o) != Stopped
  {
  }

  predicate Regular(v: Verdict) { v != Crashed && v != Stopped }

  predicate AllRegular(vs: seq<Verdict>) {
    forall i :: 0 <= i < |vs| ==> Regular(vs[i])
  }

  function Name(v: Verdict): (s: string)
    requires Regular(v)
    ensures |s| == 2
  {
    match v
    case OK => "OK" case WA => "WA" case PE => "PE" case ML => "ML" case TL => "TL" case RE => "RE"
  }

  /** `push_string` with a blank. */
  function Pushed(buf: string, item: string): string {
    if buf != "" then buf + " " + item else item
  }

  function Listed(vs: seq<Verdict>): string
    requires AllRegular(vs)
  {
    if vs == [] then "" else Pushed(Listed(Init(vs)), Name(Last(vs)))
  }

  // -- What the loop ought to give ---------------------------------------------------

  /** The verdict after which no further test is run. */
  predicate Ends(v: Verdict, acm: bool) { !Regular(v) || (acm && v != OK) }

  function EndAt(vs: seq<Verdict>, acm: bool, from: nat): (k: nat)
    requires from <= |vs|
    ensures from <= k <= |vs|
    ensures forall i :: from <= i < k ==> !Ends(vs[i], acm)
    ensures k < |vs| ==> Ends(vs[k], acm)
    decreases |vs| - from
  {
    if from == |vs| || Ends(vs[from], acm) then from else EndAt(vs, acm, from + 1)
  }

  /** The verdicts the contestant is told. */
  function Reported(vs: seq<Verdict>, acm: bool): (r: seq<Verdict>)
    ensures |r| <= |vs| && r == vs[..|r|] && AllRegular(r)
  {
    var k := EndAt(vs, acm, 0);
    if k < |vs| && Regular(vs[k]) then vs[..k + 1] else vs[..k]
  }

  predicate Ended(vs: seq<Verdict>, acm: bool, v: Verdict) {
    var k := EndAt(vs, acm, 0);
    k < |vs| && vs[k] == v
  }

  function Sum(xs: seq<int>): int {
    if xs == [] then 0 else Sum(Init(xs)) + Last(xs)
  }

  function Scored(weights: seq<int>, vs: seq<Verdict>): int
    requires |vs| <= |weights|
  {
    if vs == [] then 0 else Scored(weights, Init(vs)) + (if Last(vs) == OK then weights[|vs| - 1] else 0)
  }

  const KINDS := 5

  /** The place of an error in the text of the errors. */
  function Rank(v: Verdict): nat {
    match v
    case RE => 0 case ML => 1 case TL => 2 case WA => 3 case PE => 4 case _ => KINDS
  }

  function Kind(n: nat): (v: Verdict)
    requires n < KINDS
    ensures Rank(v) == n
  {
    if n == 0 then RE else if n == 1 then ML else if n == 2 then TL else if n == 3 then WA else PE
  }

  /** Which errors of a rank below `n` occur, by rank. */
  function Occurring(vs: seq<Verdict>, n: nat): (es: seq<Verdict>)
    requires n <= KINDS
    ensures AllRegular(es) && |es| <= n
  {
    if n == 0 then []
    else if Kind(n - 1) in vs then Occurring(vs, n - 1) + [Kind(n - 1)]
    else Occurring(vs, n - 1)
  }

  lemma {:induction false} OccurringMembers(vs: seq<Verdict>, n: nat)
    requires n <= KINDS
    ensures forall e :: e in Occurring(vs, n) <==> e in vs && Rank(e) < n
  {
    if n > 0 {
      OccurringMembers(vs, n - 1);
    }
  }

  /** The names of these errors. */
  function ErrorsBelow(vs: seq<Verdict>, n: nat): string
    requires n <= KINDS
  {
    if n == 0 then ""
    else if Kind(n - 1) in vs then Pushed(ErrorsBelow(vs, n - 1), Name(Kind(n - 1)))
    else ErrorsBelow(vs, n - 1)
  }

  function Errors(vs: seq<Verdict>): string { ErrorsBelow(vs, KINDS) }

  /** The text lists the errors that occur. */
  lemma {:induction false} ErrorsAreListed(vs: seq<Verdict>, n: nat) returns (es: seq<Verdict>)
    requires n <= KINDS
    ensures es == Occurring(vs, n) && AllRegular(es) && ErrorsBelow(vs, n) == Listed(es)
  {
    es := [];
    if n > 0 {
      es := ErrorsAreListed(vs, n - 1);
      var e := Kind(n - 1);
      if e in vs {
        ListedSnoc(es, e);
        es := es + [e];
      }
    }
  }

  lemma ListedSnoc(es: seq<Verdict>, e: Verdict)
    requires AllRegular(es) && Regular(e)
    ensures Listed(es + [e]) == Pushed(Listed(es), Name(e))
  {
    assert Init(es + [e]) == es;
  }

  datatype Outcome = Outcome(points: int, errors: string, tests: string)

  /** `up`: the module is active when the loop is done. */
  function Score(weights: seq<int>, vs: seq<Verdict>, acm: bool, bonus: int, up: bool): Outcome
    requires |weights| == |vs|
  {
    var r := Reported(vs, acm);
    if Ended(vs, acm, Crashed) then Outcome(0, "CR", Listed(r))
    else if !up then Outcome(Scored(weights, r), "", Listed(r))
    else if Errors(r) == "" then Outcome(Scored(weights, r) + bonus, "OK", Listed(r))
    else Outcome(Scored(weights, r), Errors(r), Listed(r))
  }

  function Verdicts(seen: seq<Seen>): (vs: seq<Verdict>)
    ensures |vs| == |seen| && forall i :: 0 <= i < |seen| ==> vs[i] == Judge(seen[i])
  {
    if seen == [] then [] else Verdicts(Init(seen)) + [Judge(Last(seen))]
  }

  /** The error flags of the loop. */
  datatype Flags = Flags(re: bool, ml: bool, tl: bool, wa: bool, pe: bool)

  function Raised(f: Flags, v: Verdict): Flags {
    match v
    case RE => f.(re := true)
    case ML => f.(ml := true)
    case TL => f.(tl := true)
    case WA => f.(wa := true)
    case PE => f.(pe := true)
    case _ => f
  }

  predicate FlagsOf(f: Flags, r: seq<Verdict>) {
    f == Flags(RE in r, ML in r, TL in r, WA in r, PE in r)
  }

  /** What the variables of the loop hold after the tests with the verdicts `r`. */
  predicate Recorded(weights: seq<int>, r: seq<Verdict>, points: int, tests: string, flags: Flags) {
    |r| <= |weights| && AllRegular(r) && points == Scored(weights, r) && tests == Listed(r) && FlagsOf(flags, r)
  }

  /** What the loop leaves: nothing but the list after a crash, and otherwise what the reported verdicts give. */
  predicate Left(weights: seq<int>, vs: seq<Verdict>, acm: bool, points: int, tests: string, flags: Flags,
                 crashed: bool)
  {
    && (crashed <==> Ended(vs, acm, Crashed))
    && if crashed then points == 0 && tests == Listed(Reported(vs, acm))
       else Recorded(weights, Reported(vs, acm), points, tests, flags)
  }

  /** The loop of `testing_main_loop`; `crashed` is `CR`. */
  method RunTests(weights: seq<int>, seen: seq<Seen>, acm: bool)
    returns (points: int, tests: string, flags: Flags, crashed: bool)
    requires |weights| == |seen|
    ensures Left(weights, Verdicts(seen), acm, points, tests, flags, crashed)
  {
    ghost var vs := Verdicts(seen);
    points, tests, flags, crashed := 0, "", Flags(false, false, false, false, false), false;
    var i := 0;
    while i < |seen|
      invariant i <= |vs| && Recorded(weights, vs[..i], points, tests, flags) && !crashed
      invariant EndAt(vs, acm, 0) == EndAt(vs, acm, i)
    {
      var v := Judge(seen[i]);
      if v == Stopped {
        LeftEarly(weights, vs, i, acm, points, tests, flags);
        return;
      }
      if v == Crashed {
        LeftEarly(weights, vs, i, acm, points, tests, flags);
        points, crashed := 0, true;
        return;
      }
      RecordMore(weights, vs, i, points, tests, flags);
      points := if v == OK then points + weights[i] else points;
      tests := Pushed(tests, Name(v));
      flags := Raised(flags, v);
      if acm && v != OK {
        LeftAtFirst(weights, vs, i, points, tests, flags);
        return;
      }
      i := i + 1;
    }
    assert vs[..i] == vs;
  }

  /** `testing_main_loop` */
  method MainLoop(weights: seq<int>, seen: seq<Seen>, acm: bool, bonus: int, up: bool)
    returns (points: int, errors: string, tests: string)
    requires |weights| == |seen|
    ensures Outcome(points, errors, tests) == Score(weights, Verdicts(seen), acm, bonus, up)
  {
    var flags, crashed;
    points, tests, flags, crashed := RunTests(weights, seen, acm);
    if crashed {
      errors := "CR";
      return;
    }
    errors := "";
    if !up {
      return;
    }
    errors := ErrorText(Reported(Verdicts(seen), acm), flags);
    if errors == "" {
      points, errors := points + bonus, "OK";
    }
  }

  lemma RecordMore(weights: seq<int>, vs: seq<Verdict>, i: nat, points: int, tests: string, flags: Flags)
    requires i < |vs| <= |weights| && Regular(vs[i])
    requires Recorded(weights, vs[..i], points, tests, flags)
    ensures Recorded(weights, vs[..i + 1], if vs[i] == OK then points + weights[i] else points,
                     Pushed(tests, Name(vs[i])), Raised(flags, vs[i]))
  {
    assert vs[..i + 1] == vs[..i] + [vs[i]];
    assert Init(vs[..i + 1]) == vs[..i];
  }

  lemma LeftEarly(weights: seq<int>, vs: seq<Verdict>, i: nat, acm: bool, points: int, tests: string, flags: Flags)
    requires i < |vs| && EndAt(vs, acm, 0) == EndAt(vs, acm, i) && !Regular(vs[i])
    requires Recorded(weights, vs[..i], points, tests, flags)
    ensures if vs[i] == Crashed then Left(weights, vs, acm, 0, tests, flags, true)
            else Left(weights, vs, acm, points, tests, flags, false)
  {
    assert Reported(vs, acm) == vs[..i] && Ended(vs, acm, vs[i]);
  }

  lemma LeftAtFirst(weights: seq<int>, vs: seq<Verdict>, i: nat, points: int, tests: string, flags: Flags)
    requires i < |vs| && EndAt(vs, true, 0) == EndAt(vs, true, i) && Regular(vs[i]) && vs[i] != OK
    requires Recorded(weights, vs[..i + 1], points, tests, flags)
    ensures Left(weights, vs, true, points, tests, flags, false)
  {
    assert Reported(vs, true) == vs[..i + 1] && !Ended(vs, true, Crashed);
  }

  method ErrorText(ghost r: seq<Verdict>, f: Flags) returns (errors: string)
    requires FlagsOf(f, r)
    ensures errors == Errors(r)
  {
    errors := if f.re then Pushed("", "RE") else "";
    assert errors == ErrorsBelow(r, 1);
    if f.ml { errors := Pushed(errors, "ML"); }
    assert errors == ErrorsBelow(r, 2);
    if f.tl { errors := Pushed(errors, "TL"); }
    assert errors == ErrorsBelow(r, 3);
    if f.wa { errors := Pushed(errors, "WA"); }
    assert errors == ErrorsBelow(r, 4);
    if f.pe { errors := Pushed(errors, "PE"); }
  }

  // -- What it gives -----------------------------------------------------------------

  lemma {:induction false} ListedLength(vs: seq<Verdict>)
    requires AllRegular(vs)
    ensures |Listed(vs)| == if vs == [] then 0 else 3 * |vs| - 1
  {
    if vs != [] {
      ListedLength(Init(vs));
    }
  }

  const MAX_TESTS := 1024

  /** The list of verdicts, with its final NUL, fits its buffer exactly up to 1024 tests. */
  lemma TestsFit(vs: seq<Verdict>)
    requires AllRegular(vs)
    ensures |Listed(vs)| + 1 <= 3 * MAX_TESTS <==> |vs| <= MAX_TESTS
  {
    ListedLength(vs);
  }

  lemma ErrorsFit(vs: seq<Verdict>)
    ensures |Errors(vs)| <= 14
    ensures Errors(vs) == "" <==> forall e :: e in vs ==> e == OK || !Regular(e)
  {
    var es := ErrorsAreListed(vs, KINDS);
    ListedLength(es);
    OccurringMembers(vs, KINDS);
    if es != [] {
      assert es[0] in es;
    }
  }

  /** Every verdict stands in the list at its own place. */
  lemma {:induction false} ListedAt(vs: seq<Verdict>, i: nat)
    requires AllRegular(vs) && i < |vs|
    ensures 3 * i + 2 <= |Listed(vs)| && Listed(vs)[3 * i..3 * i + 2] == Name(vs[i])
  {
    ListedLength(vs);
    ListedLength(Init(vs));
    if i < |vs| - 1 {
      ListedAt(Init(vs), i);
      assert Listed(vs)[3 * i..3 * i + 2] == Listed(Init(vs))[3 * i..3 * i + 2];
    }
  }

  /** So the contestant reads off it what happened. */
  lemma ListedTellsAll(a: seq<Verdict>, b: seq<Verdict>)
    requires AllRegular(a) && AllRegular(b)
    ensures Listed(a) == Listed(b) <==> a == b
  {
    if Listed(a) == Listed(b) {
      ListedLength(a);
      ListedLength(b);
      forall i | 0 <= i < |a| ensures a[i] == b[i] {
        ListedAt(a, i);
        ListedAt(b, i);
      }
    }
  }

  lemma {:induction false} AllOkScored(weights: seq<int>, vs: seq<Verdict>)
    requires |vs| <= |weights| && forall i :: 0 <= i < |vs| ==> vs[i] == OK
    ensures Scored(weights, vs) == Sum(weights[..|vs|])
  {
    if vs != [] {
      AllOkScored(weights, Init(vs));
      assert Init(weights[..|vs|]) == weights[..|vs| - 1];
    }
  }

  /** Under ACM rules the report is a run of OKs with at most one error after it. */
  lemma AcmReport(vs: seq<Verdict>)
    ensures var r := Reported(vs, true);
            forall i :: 0 <= i < |r| - 1 ==> r[i] == OK
  {
  }

  /** Under the other rules every test is reported unless the testing broke off. */
  lemma FullReport(vs: seq<Verdict>)
    ensures AllRegular(vs) <==> Reported(vs, false) == vs
    ensures |Reported(vs, false)| < |vs| ==> !Regular(vs[|Reported(vs, false)|])
  {
  }

  predicate AllOk(vs: seq<Verdict>) {
    forall i :: 0 <= i < |vs| ==> vs[i] == OK
  }

  lemma ReportedErrors(vs: seq<Verdict>, acm: bool)
    requires !Ended(vs, acm, Stopped) && !Ended(vs, acm, Crashed)
    ensures Errors(Reported(vs, acm)) == "" <==> AllOk(vs)
    ensures AllOk(vs) ==> Reported(vs, acm) == vs
  {
    var r := Reported(vs, acm);
    ErrorsFit(r);
    var k := EndAt(vs, acm, 0);
    if Errors(r) == "" {
      forall i | 0 <= i < |r| ensures r[i] == OK {
        assert r[i] in r;
      }
      assert k == |vs|;
    }
  }

  /**
   * A testing that was not stopped: a crash gives no points and "CR"; all tests passed, and
   * nothing else, gives every weight, the bonus and "OK"; in every other case the points are
   * those of the reported tests that passed and the errors are those reported.
   */
  lemma Fair(weights: seq<int>, vs: seq<Verdict>, acm: bool, bonus: int)
    requires |weights| == |vs| && !Ended(vs, acm, Stopped)
    ensures var s := Score(weights, vs, acm, bonus, true);
            && (s.errors == "CR" <==> Ended(vs, acm, Crashed))
            && (s.errors == "CR" ==> s.points == 0)
            && (s.errors == "OK" <==> AllOk(vs))
            && (s.errors == "OK" ==> s.points == Sum(weights) + bonus)
            && (s.errors != "OK" && s.errors != "CR" ==>
                  s.points == Scored(weights, Reported(vs, acm)) && s.errors == Errors(Reported(vs, acm)))
  {
    var r := Reported(vs, acm);
    if !Ended(vs, acm, Crashed) {
      ReportedErrors(vs, acm);
      if AllOk(vs) {
        AllOkScored(weights, vs);
        assert weights[..|vs|] == weights;
      } else {
        ErrorsAreNoOther(r);
      }
    }
  }

  /** The text of the errors is never mistaken for "OK", "CR" or "CE". */
  lemma ErrorsAreNoOther(r: seq<Verdict>)
    requires Errors(r) != ""
    ensures Errors(r) != "OK" && Errors(r) != "CR" && Errors(r) != "CE"
  {
    var es := ErrorsAreListed(r, KINDS);
    OccurringMembers(r, KINDS);
    ListedAt(es, 0);
    assert es[0] in es;
  }

  // -- Stopping ----------------------------------------------------------------------

  /** The activity at every look of the loop, in the order of the looks. */
  function Looks(seen: seq<Seen>): (ls: seq<bool>)
    ensures |ls| == 3 * |seen|
  {
    if seen == [] then []
    else Looks(Init(seen)) + [Last(seen).upAtStart, Last(seen).upAfterRun, Last(seen).upAfterCheck]
  }

  lemma {:induction false} LooksAt(seen: seq<Seen>, i: nat)
    requires i < |seen|
    ensures var ls := Looks(seen);
            && ls[3 * i] == seen[i].upAtStart && ls[3 * i + 1] == seen[i].upAfterRun
            && ls[3 * i + 2] == seen[i].upAfterCheck
  {
    if i < |seen| - 1 {
      LooksAt(Init(seen), i);
    }
  }

  /** A module that has been stopped is not started again. */
  predicate StaysDown(looks: seq<bool>) {
    forall i, j :: 0 <= i < j < |looks| && looks[j] ==> looks[i]
  }

  /** If it is not, every task the thread finishes has been tested to the end. */
  lemma FinishedIsComplete(seen: seq<Seen>, acm: bool, up: bool, upInThread: bool)
    requires StaysDown(Looks(seen) + [up, upInThread]) && upInThread
    ensures up && !Ended(Verdicts(seen), acm, Stopped)
  {
    var ls := Looks(seen) + [up, upInThread];
    var n := 3 * |seen|;
    assert ls[n + 1] == upInThread && ls[n] == up;
    var k := EndAt(Verdicts(seen), acm, 0);
    if k < |seen| {
      LooksAt(seen, k);
      assert ls[3 * k] && ls[3 * k + 1] && ls[3 * k + 2];
    }
  }

  /**
   * If it is, "OK" and the bonus may be given for a part of the tests: exactly when the loop
   * was stopped after passed tests only.
   */
  lemma OkIsEarned(weights: seq<int>, vs: seq<Verdict>, acm: bool, bonus: int)
    requires |weights| == |vs|
    ensures var s := Score(weights, vs, acm, bonus, true);
            (s.errors == "OK" ==> AllOk(vs)) <==> !(Ended(vs, acm, Stopped) && AllOk(Reported(vs, acm)))
    ensures Ended(vs, acm, Stopped) && AllOk(Reported(vs, acm)) ==>
              Score(weights, vs, acm, bonus, true).points == Sum(weights[..|Reported(vs, acm)|]) + bonus
  {
    if !Ended(vs, acm, Stopped) {
      Fair(weights, vs, acm, bonus);
    } else {
      var r := Reported(vs, acm);
      ErrorsFit(r);
      if AllOk(r) {
        AllOkScored(weights, r);
        assert !AllOk(vs);
      } else {
        var i :| 0 <= i < |r| && r[i] != OK;
        assert r[i] in r;
        ErrorsAreNoOther(r);
      }
    }
  }

  // -- The testing thread ------------------------------------------------------------

  /** What comes before the loop; `rc` is the result of the compilation. */
  datatype Prepared = NoParams | NotSaved | Compiled(rc: int, up: bool)

  /** What `testing_thread` reports; nothing if it was interrupted. */
  function Thread(p: Prepared, weights: seq<int>, seen: seq<Seen>, acm: bool, bonus: int, up: bool,
                  upInThread: bool): Option<Outcome>
    requires |weights| == |seen|
  {
    if !p.Compiled? then Some(Outcome(0, "CR", ""))
    else if !p.up then None
    else if p.rc < 0 then Some(Outcome(0, "CR", ""))
    else if p.rc == 0 then Some(Outcome(0, "CE", ""))
    else if !upInThread then None
    else Some(Score(weights, Verdicts(seen), acm, bonus, up))
  }

  function Message(points: int, errors: string, bonus: int): string {
    if errors != "OK" then "Points: " + Dec(points) + ". Errors: " + errors
    else "Points: " + Dec(points - bonus) + ". Bonus: " + Dec(bonus)
  }

  /** The message of a passed solution splits its points into the tests' and the bonus. */
  lemma PassedMessage(p: Prepared, weights: seq<int>, seen: seq<Seen>, acm: bool, bonus: int, up: bool,
                      upInThread: bool)
    requires |weights| == |seen| && StaysDown(Looks(seen) + [up, upInThread])
    ensures var o := Thread(p, weights, seen, acm, bonus, up, upInThread);
            && (o.Some? && o.value.errors == "OK" <==>
                  p.Compiled? && p.up && p.rc > 0 && upInThread && AllOk(Verdicts(seen)))
            && (o.Some? && o.value.errors == "OK" ==>
                  Message(o.value.points, o.value.errors, bonus) ==
                    "Points: " + Dec(Sum(weights)) + ". Bonus: " + Dec(bonus))
            && (o.Some? && (o.value.errors == "CR" || o.value.errors == "CE") ==> o.value.points == 0)
  {
    if p.Compiled? && p.up && p.rc > 0 && upInThread {
      FinishedIsComplete(seen, acm, up, upInThread);
      Fair(weights, Verdicts(seen), acm, bonus);
      var r := Reported(Verdicts(seen), acm);
      if Errors(r) != "" {
        ErrorsAreNoOther(r);
      }
    }
  }
}
