/** What holds over every run of the judging pipeline. */
module PipelineRuns {
  import opened Seqs
  import opened Tasks
  import opened Pipeline

  /** The state after `events`, from the empty server. */
  ghost function Run(cfg: Config, events: seq<Event>): (s: State)
    ensures Inv(cfg, s)
  {
    if events == [] then START
    else
      var s := Run(cfg, Init(events));
      StepKeeps(cfg, s, Last(events));
      Step(cfg, s, Last(events))
  }

  lemma RunSnoc(cfg: Config, events: seq<Event>, e: Event)
    ensures Run(cfg, events + [e]) == Step(cfg, Run(cfg, events), e)
  {
    assert Init(events + [e]) == events;
  }

  /**
   * Conservation: a task the server took in is at one place only. It waits, is being
   * tested or is accumulated, or it left once: delivered, restored or, at a shutdown, lost.
   */
  lemma Conservation(cfg: Config, events: seq<Event>, id: nat)
    ensures var s := Run(cfg, events);
            Count(s.queue, id) + Count(s.belts, id) + Count(s.accumulator, id)
            + Count(s.delivered, id) + Count(s.restored, id) + Count(s.dropped, id)
            == if id < s.next then 1 else 0
  {
    var s := Run(cfg, events);
    assert Everywhere(s, id) == if id < s.next then 1 else 0;
  }

  predicate NoShutdown(events: seq<Event>) {
    forall i :: 0 <= i < |events| ==> !events[i].Shutdown?
  }

  lemma StepLosesNothing(cfg: Config, s: State, e: Event)
    requires Inv(cfg, s) && !e.Shutdown?
    ensures Step(cfg, s, e).dropped == s.dropped
  {
    if e.BeltsUpdate? {
      UpdateLosesNothing(cfg, s, e.oracle);
    }
  }

  lemma UpdateLosesNothing(cfg: Config, s: State, o: Oracle)
    requires Inv(cfg, s)
    ensures UpdateBelts(cfg, s, o).dropped == s.dropped
  {
    var s1 := s.(changed := false);
    assert forall id: nat :: Everywhere(s1, id) == Everywhere(s, id);
    OverviewKeeps(cfg, s1, o);
    FillLosesNothing(cfg, Overview(cfg, s1, o), o);
  }

  /** Until the server is shut down, no task is lost. */
  lemma {:induction false} NothingIsLost(cfg: Config, events: seq<Event>)
    requires NoShutdown(events)
    ensures Run(cfg, events).dropped == []
  {
    if events != [] {
      NothingIsLost(cfg, Init(events));
      StepLosesNothing(cfg, Run(cfg, Init(events)), Last(events));
    }
  }

  lemma LastGrows(cfg: Config, events: seq<Event>)
    requires events != []
    ensures Grown(Run(cfg, Init(events)), Run(cfg, events))
  {
    StepGrows(cfg, Run(cfg, Init(events)), Last(events));
  }

  /** What has left in `s` has left in `s'`. */
  predicate Grown(s: State, s': State) {
    && s.delivered <= s'.delivered && s.restored <= s'.restored && s.dropped <= s'.dropped
    && s.next <= s'.next
  }

  lemma GrownTwice(a: State, b: State, c: State)
    requires Grown(a, b) && Grown(b, c)
    ensures Grown(a, c)
  {
  }

  /** Histories only grow, so what has left never comes back. */
  lemma {:induction false} LeavingIsFinal(cfg: Config, events: seq<Event>, more: seq<Event>)
    ensures Grown(Run(cfg, events), Run(cfg, events + more))
    decreases |more|
  {
    if more == [] {
      assert events + more == events;
    } else {
      assert Init(events + more) == events + Init(more);
      LeavingIsFinal(cfg, events, Init(more));
      LastGrows(cfg, events + more);
      GrownTwice(Run(cfg, events), Run(cfg, events + Init(more)), Run(cfg, events + more));
    }
  }

  lemma StepGrows(cfg: Config, s: State, e: Event)
    requires AllTaken(cfg.mods, s.belts)
    ensures Grown(s, Step(cfg, s, e))
  {
    match e
    case QueueUpdate(entries) => ReceiveCounts(entries, s.queue, s.belts, s.next, cfg.queueSize, 0);
    case BeltsUpdate(o) =>
      var s2 := Overview(cfg, s.(changed := false), o);
      var s3 := FillBelts(cfg, s2, o);
      assert s.restored <= s2.restored <= s3.restored;
    case _ =>
  }

  /** Keys in queue and belts are distinct and both containers stay within their size. */
  lemma DistinctAndBounded(cfg: Config, events: seq<Event>)
    ensures var s := Run(cfg, events);
            && |s.queue| <= cfg.queueSize && |s.belts| <= cfg.beltsSize
            && var all := s.queue + s.belts;
               forall i, j :: 0 <= i < j < |all| ==> Key(all[i]) != Key(all[j])
  {
    var s := Run(cfg, events);
    var all := s.queue + s.belts;
    forall i, j | 0 <= i < j < |all| ensures Key(all[i]) != Key(all[j]) {
      var k := Key(all[i]);
      CountConcat(s.queue, s.belts, 0, k);
      assert Keyed(s.queue, k) + Keyed(s.belts, k) <= 1;
      if Key(all[j]) == k {
        TwoKeyed(all, i, j);
        assert false;
      }
    }
  }

  lemma {:induction false} TwoKeyed(ts: seq<Task>, i: nat, j: nat)
    requires i < j < |ts| && Key(ts[i]) == Key(ts[j])
    ensures Keyed(ts, Key(ts[i])) >= 2
  {
    if j == |ts| - 1 {
      assert Init(ts)[i] == ts[i];
      assert Known(Init(ts), ts[i].sid, ts[i].lid);
      KnownKeyed(Init(ts), ts[i].sid, ts[i].lid);
    } else {
      assert Init(ts)[i] == ts[i] && Init(ts)[j] == ts[j];
      TwoKeyed(Init(ts), i, j);
    }
  }

  /** A list is received one entry after the other. */
  lemma {:induction false} ReceiveConcat(a: seq<(int, int)>, b: seq<(int, int)>, q: seq<Task>, belts: seq<Task>,
                                         next: nat, size: nat)
    ensures var r := Receive(a, q, belts, next, size);
            Receive(a + b, q, belts, next, size) == Receive(b, r.queue, belts, r.next, size)
    decreases |a|
  {
    if a == [] || |q| >= size {
      assert a == [] ==> a + b == b;
    } else {
      var (sid, lid) := a[0];
      assert (a + b)[1..] == a[1..] + b;
      if Known(q, sid, lid) || Known(belts, sid, lid) {
        ReceiveConcat(a[1..], b, q, belts, next, size);
      } else {
        ReceiveConcat(a[1..], b, q + [Spawn(next, sid, lid)], belts, next + 1, size);
      }
    }
  }

  lemma OneReceived(key: (int, int), q: seq<Task>, belts: seq<Task>, next: nat, size: nat)
    ensures Receive([key], q, belts, next, size)
            == if |q| < size && !Known(q, key.0, key.1) && !Known(belts, key.0, key.1)
               then Intake(q + [Spawn(next, key.0, key.1)], next + 1) else Intake(q, next)
  {
    assert [key][1..] == [];
  }

  /** What has been received of a list when the turn of entry `i` comes. */
  function ReceivedBefore(cfg: Config, s: State, entries: seq<(int, int)>, i: nat): Intake
    requires i <= |entries|
  {
    Receive(entries[..i], s.queue, s.belts, s.next, cfg.queueSize)
  }

  lemma EntryReceived(cfg: Config, s: State, entries: seq<(int, int)>, i: nat)
    requires i < |entries| && AllWaiting(cfg.mods, s.queue) && |s.queue| <= cfg.queueSize
    ensures var r, k := ReceivedBefore(cfg, s, entries, i), entries[i];
            ReceivedBefore(cfg, s, entries, i + 1)
            == if |r.queue| < cfg.queueSize && !Known(r.queue, k.0, k.1) && !Known(s.belts, k.0, k.1)
               then Intake(r.queue + [Spawn(r.next, k.0, k.1)], r.next + 1) else r
    ensures ReceivedBefore(cfg, s, entries, i + 1).queue
            <= Receive(entries, s.queue, s.belts, s.next, cfg.queueSize).queue
  {
    var r := ReceivedBefore(cfg, s, entries, i);
    assert entries[..i + 1] == entries[..i] + [entries[i]];
    ReceiveConcat(entries[..i], [entries[i]], s.queue, s.belts, s.next, cfg.queueSize);
    OneReceived(entries[i], r.queue, s.belts, r.next, cfg.queueSize);
    EarlierStays(cfg, s, entries, i + 1);
  }

  lemma EarlierStays(cfg: Config, s: State, entries: seq<(int, int)>, i: nat)
    requires i <= |entries| && AllWaiting(cfg.mods, s.queue) && |s.queue| <= cfg.queueSize
    ensures ReceivedBefore(cfg, s, entries, i).queue
            <= Receive(entries, s.queue, s.belts, s.next, cfg.queueSize).queue
  {
    var r := ReceivedBefore(cfg, s, entries, i);
    assert entries == entries[..i] + entries[i..];
    ReceiveConcat(entries[..i], entries[i..], s.queue, s.belts, s.next, cfg.queueSize);
    ReceiveSound(cfg.mods, entries[..i], s.queue, s.belts, s.next, cfg.queueSize);
    ReceiveSound(cfg.mods, entries[i..], r.queue, s.belts, r.next, cfg.queueSize);
  }

  /**
   * The key filter looks at queue and belts only: in every run, an entry of any list that
   * names a solution waiting in the accumulator is taken in once more exactly when, as its
   * turn comes, the queue has room and neither queue nor belts hold it.
   */
  lemma AccumulatedKeyIsNotFiltered(cfg: Config, events: seq<Event>, entries: seq<(int, int)>, i: nat, t: Task)
    requires t in Run(cfg, events).accumulator && i < |entries| && entries[i] == Key(t)
    ensures var s := Run(cfg, events);
            var s' := Run(cfg, events + [QueueUpdate(entries)]);
            && t in s'.accumulator
            && if !s.queueActive then s' == s
               else
                 var r, r' := ReceivedBefore(cfg, s, entries, i), ReceivedBefore(cfg, s, entries, i + 1);
                 && r'.queue <= s'.queue
                 && r' == if |r.queue| < cfg.queueSize && !Known(r.queue, t.sid, t.lid) && !Known(s.belts, t.sid, t.lid)
                          then Intake(r.queue + [Spawn(r.next, t.sid, t.lid)], r.next + 1) else r
  {
    RunSnoc(cfg, events, QueueUpdate(entries));
    EntryReceived(cfg, Run(cfg, events), entries, i);
  }

  /** The answers of a module that takes the task and names no other, while no put succeeds. */
  function Offline(): Oracle {
    Oracle(_ => true, _ => Answer(true, false, Running, []), _ => false)
  }

  /**
   * Such a state is reached: a task is taken in, accepted and tested, and the web interface
   * cannot be told. The next list that names the solution again puts it in the queue again.
   */
  lemma AccumulatedRun(cfg: Config, sid: int, lid: int) returns (events: seq<Event>, t: Task)
    requires cfg.queueSize > 0 && cfg.beltsSize > 0 && lid in IdSet(cfg.mods)
    ensures var s := Run(cfg, events);
            && t in s.accumulator && Key(t) == (sid, lid)
            && s.queueActive && s.queue == [] && s.belts == []
    ensures var s' := Run(cfg, events + [QueueUpdate([(sid, lid)])]);
            t in s'.accumulator && s'.queue == [Spawn(1, sid, lid)]
  {
    var o := Offline();
    var u := Spawn(0, sid, lid);
    var before := OneTaskWaits(cfg, sid, lid);
    var accepted := OneTaskAccepted(cfg, before, u, o);
    var s2 := Run(cfg, accepted);
    var v := s2.belts[0];
    var finish := ModuleWrites(0, Finished, false, []);
    var w := v.(status := Finished);
    events := accepted + [finish] + [BeltsUpdate(o)];
    assert Init(events) == accepted + [finish] && Init(accepted + [finish]) == accepted;
    OneTaskFinishes(cfg, s2, v);
    var s3 := Run(cfg, accepted + [finish]);
    OneTaskAccumulates(cfg, s3, w);
    t := w;
    RunSnoc(cfg, events, QueueUpdate([(sid, lid)]));
    OneReceived((sid, lid), [], [], 1, cfg.queueSize);
    assert [] + [Spawn(1, sid, lid)] == [Spawn(1, sid, lid)];
  }

  lemma OneTaskAccepted(cfg: Config, before: seq<Event>, u: Task, o: Oracle) returns (events: seq<Event>)
    requires cfg.beltsSize > 0 && u == Spawn(0, u.sid, u.lid) && u.lid in IdSet(cfg.mods) && o == Offline()
    requires Run(cfg, before) == START.(queueActive := true, beltsActive := true, queue := [u], next := 1)
    ensures Run(cfg, events) == START.(queueActive := true, beltsActive := true, next := 1,
                                       belts := [u.(status := Running, accepted := [u.lid])])
  {
    var s := Run(cfg, before);
    events := before + [BeltsUpdate(o)];
    assert Init(events) == before;
    EmptyOverview(cfg, s, o);
    OneTaskMoves(cfg, s, u, o);
  }

  lemma OneTaskMoves(cfg: Config, s: State, u: Task, o: Oracle)
    requires cfg.beltsSize > 0 && u == Spawn(0, u.sid, u.lid) && u.lid in IdSet(cfg.mods) && o == Offline()
    requires s == START.(queueActive := true, beltsActive := true, queue := [u], next := 1)
    ensures FillBelts(cfg, s, o) == s.(queue := [], belts := [u.(status := Running, accepted := [u.lid])])
  {
    assert [] + [u.lid] == [u.lid];
    assert SendForTesting(cfg.mods, u, o) == Sent(u.(status := Running, accepted := [u.lid]), true);
    OneTaskTaken(cfg, u, o);
    OneTaskFill(cfg, u, o);
    assert [u][..1] == [u] && [u][1..] == [];
  }

  lemma EmptyOverview(cfg: Config, s: State, o: Oracle)
    requires s.belts == []
    ensures Overview(cfg, s, o) == s
  {
    assert Sweep(cfg.mods, [], o) == Swept([], [], [], []);
  }

  lemma OneTaskFill(cfg: Config, u: Task, o: Oracle)
    requires SendForTesting(cfg.mods, u, o).ok
    ensures Fill(cfg.mods, [], [u], o) == Filled([SendForTesting(cfg.mods, u, o).task], [], [], [])
  {
    assert Init([u]) == [];
    assert Fill(cfg.mods, [], [], o) == Filled([], [], [], []);
  }

  lemma OneTaskFinishes(cfg: Config, s: State, v: Task)
    requires Inv(cfg, s) && s.belts == [v] && v.id == 0
    ensures Step(cfg, s, ModuleWrites(0, Finished, false, []))
            == s.(belts := [v.(status := Finished)], changed := true)
  {
    assert Init([v]) == [];
    assert WriteAll(cfg.mods, [], 0, Finished, false, []) == [];
  }

  lemma OneTaskAccumulates(cfg: Config, s: State, w: Task)
    requires Inv(cfg, s) && s.beltsActive && s.changed && s.queue == [] && s.belts == [w] && s.accumulator == []
    requires w.status == Finished && w.chain == [] && w.cur == 0
    ensures var s' := Step(cfg, s, BeltsUpdate(Offline()));
            && s'.accumulator == [w] && s'.belts == [] && s'.queue == []
            && s'.queueActive == s.queueActive && s'.next == s.next
  {
    var o := Offline();
    var s1 := s.(changed := false);
    OneTaskOverviewed(cfg, s1, w, o);
    EmptyFill(cfg, s1.(belts := [], accumulator := [w]), o);
  }

  lemma OneTaskOverviewed(cfg: Config, s: State, w: Task, o: Oracle)
    requires AllTaken(cfg.mods, s.belts) && s.belts == [w] && s.accumulator == [] && o == Offline()
    requires w.status == Finished && w.chain == [] && w.cur == 0
    ensures Overview(cfg, s, o) == s.(belts := [], accumulator := [w])
  {
    assert w in s.belts && [] + [w] == [w];
    OneTaskSwept(cfg.mods, w, o);
  }

  lemma OneTaskSwept(mods: seq<Module>, w: Task, o: Oracle)
    requires TaskOk(mods, w) && Taken(mods, w) && o == Offline()
    requires w.status == Finished && w.chain == [] && w.cur == 0
    ensures Sweep(mods, [w], o) == Swept([], [], [w], [])
  {
    assert Init([w]) == [];
    assert Sweep(mods, [], o) == Swept([], [], [], []);
    assert Review(mods, w, o) == Accumulated(w);
  }

  lemma EmptyFill(cfg: Config, s: State, o: Oracle)
    requires s.queue == []
    ensures FillBelts(cfg, s, o) == s
  {
    assert Fill(cfg.mods, s.belts, [], o) == Filled([], [], [], []);
  }

  // -- Belts filling -----------------------------------------------------------------

  datatype Fate = Accepted | KeptWaiting | Refused

  function FateOf(mods: seq<Module>, t: Task, o: Oracle): Fate {
    var s := SendForTesting(mods, t, o);
    if s.ok then Accepted else if s.task.keep then KeptWaiting else Refused
  }

  /** The tasks of `q` that meet the given fate, as the hand-over leaves them, in order. */
  function Having(mods: seq<Module>, q: seq<Task>, o: Oracle, fate: Fate): seq<Task> {
    if q == [] then []
    else Having(mods, Init(q), o, fate)
         + (if FateOf(mods, Last(q), o) == fate then [SendForTesting(mods, Last(q), o).task] else [])
  }

  lemma {:induction false} FillByFate(mods: seq<Module>, belts: seq<Task>, q: seq<Task>, o: Oracle)
    requires AllWaiting(mods, q) && DistinctKeys(q, belts)
    ensures Fill(mods, belts, q, o)
            == Filled(Having(mods, q, o, Accepted), Having(mods, q, o, KeptWaiting), Having(mods, q, o, Refused), [])
  {
    if q != [] {
      forall k ensures Keyed(Init(q), k) + Keyed(belts, k) <= 1 {
        assert Keyed(q, k) + Keyed(belts, k) <= 1;
      }
      FillByFate(mods, belts, Init(q), o);
      NoDuplicates(mods, belts, q, o);
    }
  }

  /** The walk of `belts_fill` ended after `n` tasks. */
  predicate FilledUpTo(cfg: Config, s: State, s': State, o: Oracle, n: nat) {
    && n <= |s.queue|
    && s'.queue == Reversed(Having(cfg.mods, s.queue[..n], o, KeptWaiting)) + s.queue[n..]
    && s'.belts == s.belts + Having(cfg.mods, s.queue[..n], o, Accepted)
    && s'.restored == s.restored + Having(cfg.mods, s.queue[..n], o, Refused)
    && s'.dropped == s.dropped
    && (n < |s.queue| ==> |s'.belts| == cfg.beltsSize)
    && (forall m :: 0 <= m < n ==> |s.belts + Having(cfg.mods, s.queue[..m], o, Accepted)| < cfg.beltsSize)
  }

  /**
   * `belts_fill` on any reachable state: it visits a prefix of the queue, stopping at the
   * end or as soon as the belts are full; the accepted tasks join the belts in queue
   * order, those kept waiting end up in front of the rest in reverse order, and the
   * others are restored. None is taken for a duplicate.
   */
  lemma BeltsFill(cfg: Config, events: seq<Event>, o: Oracle) returns (n: nat)
    ensures var s := Run(cfg, events);
            var s' := FillBelts(cfg, s, o);
            FilledUpTo(cfg, s, s', o, n)
  {
    var s := Run(cfg, events);
    var s' := FillBelts(cfg, s, o);
    n := Visited(cfg.mods, s.belts, s.queue, cfg.beltsSize, o, 0);
    forall m | 0 <= m <= |s.queue|
      ensures Fill(cfg.mods, s.belts, s.queue[..m], o)
              == Filled(Having(cfg.mods, s.queue[..m], o, Accepted), Having(cfg.mods, s.queue[..m], o, KeptWaiting),
                        Having(cfg.mods, s.queue[..m], o, Refused), [])
    {
      forall k ensures Keyed(s.queue[..m], k) + Keyed(s.belts, k) <= 1 {
        SplitCount(s.queue, m, 0, k);
        assert Keyed(s.queue, k) + Keyed(s.belts, k) <= 1;
      }
      FillByFate(cfg.mods, s.belts, s.queue[..m], o);
    }
    FillNeverOverflows(cfg.mods, s.belts, s.queue, cfg.beltsSize, o);
    assert FilledUpTo(cfg, s, s', o, n);
  }

  // -- Chains ------------------------------------------------------------------------

  function AllTasks(s: State): seq<Task> {
    s.queue + s.belts + s.accumulator + s.delivered + s.restored + s.dropped
  }

  /**
   * The life of every task in every run: no module takes it twice, the first to take it is
   * its own library, the others follow in chain order, and it is handed back only after
   * every module of the chain was offered it.
   */
  lemma LifeOfATask(cfg: Config, events: seq<Event>, t: Task)
    requires t in AllTasks(Run(cfg, events))
    ensures NoDup(t.accepted) && Subseq(t.accepted, [t.lid] + t.chain)
    ensures t.accepted != [] ==> t.accepted[0] == t.lid
    ensures var s := Run(cfg, events);
            t in s.accumulator || t in s.delivered || t in s.dropped ==> t.accepted != [] && t.cur == |t.chain|
  {
    var s := Run(cfg, events);
    assert t in s.queue || t in s.belts || t in s.accumulator || t in s.delivered || t in s.restored || t in s.dropped;
    AcceptedOnce(cfg.mods, t);
  }

  /** The condition on the loaded modules under which `chain_testing.lid` is large enough. */
  predicate ChainsFit(mods: seq<Module>) {
    forall i :: 0 <= i < |mods| ==> |Universe(mods) - {mods[i].id}| <= MAXCHAIN
  }

  ghost predicate NeverOverrun(cfg: Config) {
    forall events, t :: t in AllTasks(Run(cfg, events)) ==> |t.chain| <= MAXCHAIN
  }

  lemma RunTaskOk(cfg: Config, events: seq<Event>, t: Task)
    requires t in AllTasks(Run(cfg, events))
    ensures TaskOk(cfg.mods, t)
  {
    var s := Run(cfg, events);
    assert t in s.queue || t in s.belts || t in s.accumulator || t in s.delivered || t in s.restored || t in s.dropped;
  }

  lemma FittingChain(mods: seq<Module>, t: Task)
    requires TaskOk(mods, t) && ChainsFit(mods)
    ensures |t.chain| <= MAXCHAIN
  {
    if t.chain != [] {
      var i :| 0 <= i < |mods| && mods[i].id == t.lid;
      ChainBound(mods, t);
    }
  }

  /** The chain array is never overrun, in any run, exactly when the modules fit. */
  lemma ChainArrayIsLargeEnough(cfg: Config)
    requires cfg.queueSize > 0 && cfg.beltsSize > 0
    ensures NeverOverrun(cfg) <==> ChainsFit(cfg.mods)
  {
    if ChainsFit(cfg.mods) {
      forall events, t | t in AllTasks(Run(cfg, events)) ensures |t.chain| <= MAXCHAIN {
        RunTaskOk(cfg, events, t);
        FittingChain(cfg.mods, t);
      }
    } else {
      var i :| 0 <= i < |cfg.mods| && |Universe(cfg.mods) - {cfg.mods[i].id}| > MAXCHAIN;
      var events, t := OverrunningRun(cfg, cfg.mods[i].id);
      assert t in AllTasks(Run(cfg, events));
    }
  }

  /** Up to 32 modules always fit, whatever their names and ids. */
  lemma ThirtyTwoModulesFit(mods: seq<Module>)
    requires |mods| <= MAXCHAIN
    ensures ChainsFit(mods)
  {
    forall i | 0 <= i < |mods| ensures |Universe(mods) - {mods[i].id}| <= MAXCHAIN {
      OthersAreFewer(mods, i);
    }
  }

  /** The ids that the names of the modules resolve to, and for module `i` that of no module. */
  function Resolved(mods: seq<Module>, i: nat): (ids: seq<int>)
    ensures |ids| == |mods|
  {
    seq(|mods|, j requires 0 <= j < |mods| => if j == i then NO_MODULE else ModuleId(mods, mods[j].name))
  }

  /** Without the id of one of them, the modules are known by no more ids than there are modules. */
  lemma OthersAreFewer(mods: seq<Module>, i: nat)
    requires i < |mods|
    ensures |Universe(mods) - {mods[i].id}| <= |mods|
  {
    var rest, u := Resolved(mods, i), Universe(mods) - {mods[i].id};
    var j := FirstNamed(mods, mods[i].name);
    forall x | x in u ensures x in rest {
      if x == NO_MODULE {
        assert rest[i] == x;
      } else {
        // if the name of module `i` means another module, that one stands at `j`
        var k :| 0 <= k < |mods| && ModuleId(mods, mods[k].name) == x;
        assert rest[if k == i then j else k] == x;
      }
    }
    Covering(rest, u);
  }

  /** No two modules share a name or an id, and none has the id that stands for no module. */
  predicate Distinct(mods: seq<Module>) {
    && (forall i, j :: 0 <= i < j < |mods| ==> mods[i].name != mods[j].name && mods[i].id != mods[j].id)
    && (forall i :: 0 <= i < |mods| ==> mods[i].id != NO_MODULE)
  }

  /** A module of its own name is known by its own id. */
  lemma OwnId(mods: seq<Module>, k: nat)
    requires Distinct(mods) && k < |mods|
    ensures ModuleId(mods, mods[k].name) == mods[k].id
  {
    var j := FirstNamed(mods, mods[k].name);
  }

  /** Of modules that nothing confuses exactly 32 fit, and no more. */
  lemma DistinctModulesFit(mods: seq<Module>)
    requires Distinct(mods)
    ensures ChainsFit(mods) <==> |mods| <= MAXCHAIN
  {
    if |mods| <= MAXCHAIN {
      ThirtyTwoModulesFit(mods);
    } else {
      OthersAreMany(mods);
    }
  }

  lemma OthersAreMany(mods: seq<Module>)
    requires Distinct(mods) && mods != []
    ensures |Universe(mods) - {mods[0].id}| >= |mods|
  {
    var rest, u := Resolved(mods, 0), Universe(mods) - {mods[0].id};
    forall k | 0 <= k < |mods| ensures rest[k] == (if k == 0 then NO_MODULE else mods[k].id) && rest[k] in u {
      OwnId(mods, k);
    }
    Pigeonhole(rest, u);
  }

  /** Such modules there are, for any number of them: so 33 of them do not fit. */
  lemma ThirtyThreeModules() returns (mods: seq<Module>)
    ensures |mods| == 33 && Distinct(mods) && !ChainsFit(mods)
  {
    mods := seq(33, i requires 0 <= i < 33 => Module(seq(i, _ => 'x'), i));
    assert forall i :: 0 <= i < 33 ==> |mods[i].name| == i;
    DistinctModulesFit(mods);
  }

  lemma {:induction false} FirstNamed(mods: seq<Module>, name: string) returns (j: nat)
    requires exists i :: 0 <= i < |mods| && mods[i].name == name
    ensures j < |mods| && mods[j].name == name && ModuleId(mods, name) == mods[j].id
  {
    if mods[0].name == name {
      j := 0;
    } else {
      var i :| 0 <= i < |mods| && mods[i].name == name;
      assert mods[1..][i - 1].name == name;
      var k := FirstNamed(mods[1..], name);
      j := k + 1;
    }
  }

  function Names(mods: seq<Module>): seq<string> {
    seq(|mods|, i requires 0 <= i < |mods| => mods[i].name)
  }

  /** A name no module has. */
  function FreshName(mods: seq<Module>): (name: string)
    ensures forall i :: 0 <= i < |mods| ==> |mods[i].name| < |name|
  {
    if mods == [] then ""
    else
      var f := FreshName(mods[1..]);
      assert forall i :: 1 <= i < |mods| ==> mods[i] == mods[1..][i - 1];
      if |mods[0].name| < |f| then f else mods[0].name + "x"
  }

  lemma {:induction false} AddNamesCovers(mods: seq<Module>, t: Task, names: seq<string>, i: nat)
    requires i < |names|
    ensures var r := AddNames(mods, t, names);
            ModuleId(mods, names[i]) == r.lid || ModuleId(mods, names[i]) in r.chain
    decreases |names|
  {
    var u := AddToChain(t, ModuleId(mods, names[0]));
    AddNamesKeeps(mods, u, names[1..]);
    if i > 0 {
      AddNamesCovers(mods, u, names[1..], i - 1);
    } else if ModuleId(mods, names[0]) != t.lid {
      var r := AddNames(mods, t, names);
      var k :| 0 <= k < |u.chain| && u.chain[k] == ModuleId(mods, names[0]);
      assert r.chain[k] == u.chain[k];
    }
  }

  lemma AllNamesAdded(mods: seq<Module>, t: Task)
    requires TaskOk(mods, t) && t.lid in IdSet(mods)
    ensures |AddNames(mods, t, Names(mods) + [FreshName(mods)]).chain| >= |Universe(mods) - {t.lid}|
  {
    var names := Names(mods) + [FreshName(mods)];
    var r := AddNames(mods, t, names);
    AddNamesKeeps(mods, t, names);
    forall x | x in Universe(mods) - {t.lid} ensures x in r.chain {
      if k :| 0 <= k < |mods| && ModuleId(mods, mods[k].name) == x {
        assert names[k] == mods[k].name;
        AddNamesCovers(mods, t, names, k);
      } else {
        UnknownName(mods, FreshName(mods));
        AddNamesCovers(mods, t, names, |mods|);
      }
    }
    Covering(r.chain, Universe(mods) - {t.lid});
  }

  lemma OneTaskWaits(cfg: Config, sid: int, lid: int) returns (events: seq<Event>)
    requires cfg.queueSize > 0
    ensures Run(cfg, events)
            == START.(queueActive := true, beltsActive := true, queue := [Spawn(0, sid, lid)], next := 1)
  {
    var e1, e2, e3 := SwitchQueue(true), SwitchBelts(true), QueueUpdate([(sid, lid)]);
    var u := Spawn(0, sid, lid);
    assert Init([e1]) == [] && Init([e1, e2]) == [e1] && Init([e1, e2, e3]) == [e1, e2];
    assert Run(cfg, []) == START;
    assert Run(cfg, [e1]) == START.(queueActive := true);
    assert Run(cfg, [e1, e2]) == START.(queueActive := true, beltsActive := true);
    assert [(sid, lid)][1..] == [] && [] + [u] == [u];
    assert Receive([(sid, lid)], [], [], 0, cfg.queueSize) == Intake([u], 1);
    events := [e1, e2, e3];
  }

  lemma OneTaskTaken(cfg: Config, u: Task, o: Oracle)
    requires cfg.beltsSize > 0 && SendForTesting(cfg.mods, u, o).ok
    ensures Visited(cfg.mods, [], [u], cfg.beltsSize, o, 0) == 1
    ensures Fill(cfg.mods, [], [u], o).taken == [SendForTesting(cfg.mods, u, o).task]
  {
    assert [u][..0] == [] && [u][..1] == [u] && Init([u]) == [];
    assert Fill(cfg.mods, [], [], o) == Filled([], [], [], []);
  }

  /** One accepted task whose module asks for every name it can think of. */
  lemma OverrunningRun(cfg: Config, lid: int) returns (events: seq<Event>, t: Task)
    requires cfg.queueSize > 0 && cfg.beltsSize > 0
    requires lid in IdSet(cfg.mods) && |Universe(cfg.mods) - {lid}| > MAXCHAIN
    ensures t in Run(cfg, events).belts && |t.chain| > MAXCHAIN
  {
    var names := Names(cfg.mods) + [FreshName(cfg.mods)];
    var o := Oracle(_ => true, _ => Answer(true, false, Running, names), _ => true);
    var before := OneTaskWaits(cfg, 0, lid);
    var s, u := Run(cfg, before), Spawn(0, 0, lid);
    events := before + [BeltsUpdate(o)];
    RunSnoc(cfg, before, BeltsUpdate(o));
    EmptyOverview(cfg, s, o);
    t := OneTaskAsks(cfg.mods, u, names, o);
    OneTaskJoins(cfg, s, u, o);
  }

  lemma OneTaskAsks(mods: seq<Module>, u: Task, names: seq<string>, o: Oracle) returns (t: Task)
    requires u == Spawn(0, 0, u.lid) && u.lid in IdSet(mods) && |Universe(mods) - {u.lid}| > MAXCHAIN
    requires names == Names(mods) + [FreshName(mods)]
    requires o == Oracle(_ => true, _ => Answer(true, false, Running, names), _ => true)
    ensures SendForTesting(mods, u, o).ok && t == SendForTesting(mods, u, o).task && |t.chain| > MAXCHAIN
  {
    AllNamesAdded(mods, u.(status := Running));
    assert u.(status := Running, keep := false) == u.(status := Running);
    t := SendForTesting(mods, u, o).task;
  }

  lemma OneTaskJoins(cfg: Config, s: State, u: Task, o: Oracle)
    requires cfg.beltsSize > 0 && s.queue == [u] && s.belts == [] && SendForTesting(cfg.mods, u, o).ok
    ensures FillBelts(cfg, s, o).belts == [SendForTesting(cfg.mods, u, o).task]
  {
    OneTaskTaken(cfg, u, o);
    assert [u][..1] == [u];
  }

  // -- Stopping ----------------------------------------------------------------------

  /**
   * A task that waits or is being tested when the main loop stops has been restored, once,
   * and is never delivered, whatever happens afterwards.
   */
  lemma StopRestores(cfg: Config, events: seq<Event>, more: seq<Event>, id: nat)
    requires var s := Run(cfg, events); Count(s.queue, id) + Count(s.belts, id) > 0
    ensures var s := Run(cfg, (events + [FreeQueueAndBelts]) + more);
            && Count(s.restored, id) == 1
            && Count(s.queue, id) == Count(s.belts, id) == Count(s.accumulator, id) == 0
            && Count(s.delivered, id) == Count(s.dropped, id) == 0
  {
    var s := Run(cfg, events);
    var stopped := events + [FreeQueueAndBelts];
    RunSnoc(cfg, events, FreeQueueAndBelts);
    RestoredCounts(s, id);
    RestoredStays(cfg, stopped, more, id);
  }

  lemma RestoredStays(cfg: Config, events: seq<Event>, more: seq<Event>, id: nat)
    requires Count(Run(cfg, events).restored, id) > 0
    ensures var s := Run(cfg, events + more);
            && Count(s.restored, id) == 1
            && Count(s.queue, id) == Count(s.belts, id) == Count(s.accumulator, id) == 0
            && Count(s.delivered, id) == Count(s.dropped, id) == 0
  {
    LeavingIsFinal(cfg, events, more);
    PrefixCount(Run(cfg, events).restored, Run(cfg, events + more).restored, id);
    Conservation(cfg, events + more, id);
  }

  lemma PrefixCount(a: seq<Task>, b: seq<Task>, id: nat)
    requires a <= b
    ensures Count(a, id) <= Count(b, id)
  {
    assert b == a + b[|a|..];
    CountConcat(a, b[|a|..], id, (0, 0));
  }

  /**
   * After a shutdown every task ever taken in has left once. Lost are those that were
   * accumulated, and no others; what waited or was being tested has been restored.
   */
  lemma ShutdownLosesTheAccumulated(cfg: Config, events: seq<Event>, id: nat)
    requires NoShutdown(events)
    ensures var s := Run(cfg, events);
            var s' := Run(cfg, events + [Shutdown]);
            && Count(s'.delivered, id) + Count(s'.restored, id) + Count(s'.dropped, id)
               == (if id < s.next then 1 else 0)
            && (Count(s'.dropped, id) > 0 <==> Count(s.accumulator, id) > 0)
            && (Count(s.queue, id) + Count(s.belts, id) > 0 ==> Count(s'.restored, id) == 1)
  {
    NothingIsLost(cfg, events);
    Conservation(cfg, events, id);
    ShutdownStep(cfg, events);
    ShutdownSplits(Run(cfg, events), Run(cfg, events + [Shutdown]), id);
  }

  /** Queue and belts have been restored, the accumulated tasks are lost. */
  predicate ShutDown(s: State, s': State) {
    && s'.delivered == s.delivered && s'.restored == s.restored + s.queue + s.belts
    && s'.dropped == s.dropped + s.accumulator
  }

  lemma ShutdownStep(cfg: Config, events: seq<Event>)
    ensures ShutDown(Run(cfg, events), Run(cfg, events + [Shutdown]))
  {
    RunSnoc(cfg, events, Shutdown);
  }

  lemma ShutdownSplits(s: State, s': State, id: nat)
    requires ShutDown(s, s') && s.dropped == [] && Everywhere(s, id) == if id < s.next then 1 else 0
    ensures Count(s'.delivered, id) + Count(s'.restored, id) + Count(s'.dropped, id) == (if id < s.next then 1 else 0)
    ensures Count(s'.dropped, id) > 0 <==> Count(s.accumulator, id) > 0
    ensures Count(s.queue, id) + Count(s.belts, id) > 0 ==> Count(s'.restored, id) == 1
  {
    RestoredCounts(s, id);
  }
}
