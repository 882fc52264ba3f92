/**
 * The judging pipeline as a state machine: queue, belts and accumulator, with a history
 * of what was delivered to the web interface, restored there, or thrown away.
 */
module Pipeline {
  import opened Seqs
  import opened Tasks

  datatype Config = Config(queueSize: nat, beltsSize: nat, mods: seq<Module>)

  datatype State = State(
    queue: seq<Task>, belts: seq<Task>, accumulator: seq<Task>,
    delivered: seq<Task>, restored: seq<Task>, dropped: seq<Task>,
    next: nat, queueActive: bool, beltsActive: bool, changed: bool)

  const START := State([], [], [], [], [], [], 0, false, false, false)

  predicate AllWaiting(mods: seq<Module>, ts: seq<Task>) {
    forall t :: t in ts ==> TaskOk(mods, t) && Waiting(t)
  }

  predicate AllTaken(mods: seq<Module>, ts: seq<Task>) {
    forall t :: t in ts ==> TaskOk(mods, t) && Taken(mods, t)
  }

  /** Every module of the chain has been offered the task. */
  predicate AllTested(mods: seq<Module>, ts: seq<Task>) {
    forall t :: t in ts ==> TaskOk(mods, t) && Taken(mods, t) && t.cur == |t.chain|
  }

  /** The task has not been taken by a module, or its own library took it first. */
  predicate AllSound(mods: seq<Module>, ts: seq<Task>) {
    forall t :: t in ts ==> TaskOk(mods, t) && (Waiting(t) || Taken(mods, t))
  }

  /** `dyna_search` with `wt_task_search_comparator` */
  predicate Known(ts: seq<Task>, sid: int, lid: int) {
    exists i :: 0 <= i < |ts| && ts[i].sid == sid && ts[i].lid == lid
  }

  // -- Receiving tasks ---------------------------------------------------------------

  datatype Intake = Intake(queue: seq<Task>, next: nat)

  /** The loop of `webiface_get_task_list` over the entries of the received list. */
  function Receive(entries: seq<(int, int)>, q: seq<Task>, belts: seq<Task>, next: nat, size: nat): Intake
    decreases |entries|
  {
    if entries == [] || |q| >= size then Intake(q, next)
    else
      var (sid, lid) := entries[0];
      if Known(q, sid, lid) || Known(belts, sid, lid) then
        Receive(entries[1..], q, belts, next, size)
      else
        Receive(entries[1..], q + [Spawn(next, sid, lid)], belts, next + 1, size)
  }

  // -- Overviewing the belts ---------------------------------------------------------

  datatype Verdict = Stays(task: Task) | Delivered(task: Task) | Accumulated(task: Task) | Restored(task: Task)

  function Review(mods: seq<Module>, t: Task, o: Oracle): (v: Verdict)
    requires TaskOk(mods, t) && Taken(mods, t)
    ensures TaskOk(mods, v.task) && Taken(mods, v.task) && SameTask(t, v.task)
    ensures v.Delivered? || v.Accumulated? ==> v.task.cur == |v.task.chain|
  {
    match t.status
    case Finished =>
      var c := RunChain(mods, t, o);
      if !c.needReturn then Stays(c.task)
      else if o.put(c.task) then Delivered(c.task)
      else Accumulated(c.task)
    case Interrupted => Restored(t)
    case _ => Stays(t)
  }

  /**
   * An interrupted task is restored. A finished one leaves exactly when no module of its
   * chain takes it and none asks to wait: delivered if the put succeeds, else accumulated.
   */
  lemma ReviewMeans(mods: seq<Module>, t: Task, o: Oracle)
    requires TaskOk(mods, t) && Taken(mods, t)
    ensures var v := Review(mods, t, o);
            && (v.Restored? <==> t.status == Interrupted)
            && (v.Delivered? || v.Accumulated? ==> t.status == Finished && v.task.accepted == t.accepted)
            && (v.Delivered? ==> o.put(v.task)) && (v.Accumulated? ==> !o.put(v.task))
            && (v.Stays? && t.status == Finished ==>
                  |v.task.accepted| == |t.accepted| + 1 || (v.task.keep && v.task.cur < |v.task.chain|))
  {
    RunChainMeans(mods, t, o);
  }

  datatype Swept = Swept(stay: seq<Task>, delivered: seq<Task>, late: seq<Task>, restored: seq<Task>)

  function Sort(w: Swept, v: Verdict): Swept {
    match v
    case Stays(t) => w.(stay := w.stay + [t])
    case Delivered(t) => w.(delivered := w.delivered + [t])
    case Accumulated(t) => w.(late := w.late + [t])
    case Restored(t) => w.(restored := w.restored + [t])
  }

  /** Where each task of the belts ends up, in belt order. */
  function Sweep(mods: seq<Module>, ts: seq<Task>, o: Oracle): Swept
    requires AllTaken(mods, ts)
  {
    if ts == [] then Swept([], [], [], [])
    else Sort(Sweep(mods, Init(ts), o), Review(mods, Last(ts), o))
  }

  // -- Filling the belts -------------------------------------------------------------

  datatype Filled = Filled(taken: seq<Task>, kept: seq<Task>, restored: seq<Task>, dropped: seq<Task>)

  function Admit(mods: seq<Module>, f: Filled, t: Task, o: Oracle): Filled {
    var s := SendForTesting(mods, t, o);
    if s.ok then f.(taken := f.taken + [s.task])
    else if s.task.keep then f.(kept := f.kept + [s.task])
    else f.(restored := f.restored + [s.task])
  }

  /** What becomes of the tasks `q` when they are taken from the queue one by one. */
  function Fill(mods: seq<Module>, belts: seq<Task>, q: seq<Task>, o: Oracle): Filled {
    if q == [] then Filled([], [], [], [])
    else
      var f := Fill(mods, belts, Init(q), o);
      if Known(belts + f.taken, Last(q).sid, Last(q).lid) then f.(dropped := f.dropped + [Last(q)])
      else Admit(mods, f, Last(q), o)
  }

  /** How far the walk gets: it stops at the end of the queue or when the belts are full. */
  function Visited(mods: seq<Module>, belts: seq<Task>, q: seq<Task>, size: nat, o: Oracle, from: nat): (n: nat)
    requires from <= |q|
    ensures from <= n <= |q|
    ensures n == |q| || |belts| + |Fill(mods, belts, q[..n], o).taken| >= size
    ensures forall k :: from <= k < n ==> |belts| + |Fill(mods, belts, q[..k], o).taken| < size
    decreases |q| - from
  {
    if from == |q| || |belts| + |Fill(mods, belts, q[..from], o).taken| >= size then from
    else Visited(mods, belts, q, size, o, from + 1)
  }

  // -- The steps ---------------------------------------------------------------------

  /** `accumulator_overview_proc`: the tasks for which `wt_put_solution` answers `ok`. */
  function Answered(ts: seq<Task>, put: Task -> bool, ok: bool): seq<Task> {
    if ts == [] then []
    else Answered(Init(ts), put, ok) + (if put(Last(ts)) == ok then [Last(ts)] else [])
  }

  function Overview(cfg: Config, s: State, o: Oracle): State
    requires AllTaken(cfg.mods, s.belts)
  {
    var w := Sweep(cfg.mods, s.belts, o);
    s.(belts := w.stay, accumulator := s.accumulator + w.late,
       delivered := s.delivered + w.delivered, restored := s.restored + w.restored)
  }

  function FillBelts(cfg: Config, s: State, o: Oracle): State {
    var n := Visited(cfg.mods, s.belts, s.queue, cfg.beltsSize, o, 0);
    var f := Fill(cfg.mods, s.belts, s.queue[..n], o);
    s.(queue := Reversed(f.kept) + s.queue[n..], belts := s.belts + f.taken,
       restored := s.restored + f.restored, dropped := s.dropped + f.dropped)
  }

  /** The body of `wt_belts_update` once the belts are active and something may have changed. */
  predicate Quiet(cfg: Config, s: State) {
    !s.changed && (s.queue == [] || |s.belts| >= cfg.beltsSize)
  }

  function UpdateBelts(cfg: Config, s: State, o: Oracle): State
    requires AllTaken(cfg.mods, s.belts)
  {
    if !s.beltsActive || Quiet(cfg, s) then s
    else
      var s1 := s.(changed := false);
      if s.belts != [] || (s.queue != [] && |s.belts| < cfg.beltsSize) then
        FillBelts(cfg, Overview(cfg, s1, o), o)
      else s1
  }

  function UpdateQueue(cfg: Config, s: State, entries: seq<(int, int)>): State {
    if !s.queueActive then s
    else
      var r := Receive(entries, s.queue, s.belts, s.next, cfg.queueSize);
      s.(queue := r.queue, next := r.next)
  }

  /** A testing thread writes to the record of a task on the belts. */
  function Write(mods: seq<Module>, t: Task, id: nat, status: Status, keep: bool, chain: seq<string>): Task {
    if t.id != id then t
    else AddNames(mods, t.(status := status, keep := t.keep || keep), chain)
  }

  function WriteAll(mods: seq<Module>, ts: seq<Task>, id: nat, status: Status, keep: bool,
                    chain: seq<string>): (r: seq<Task>)
    ensures |r| == |ts|
    ensures forall i :: 0 <= i < |ts| ==> r[i] == Write(mods, ts[i], id, status, keep, chain)
  {
    if ts == [] then []
    else WriteAll(mods, Init(ts), id, status, keep, chain) + [Write(mods, Last(ts), id, status, keep, chain)]
  }

  datatype Event =
    | QueueUpdate(entries: seq<(int, int)>)
    | BeltsUpdate(oracle: Oracle)
    | AccumulatorOverview(put: Task -> bool)
    | ModuleWrites(id: nat, status: Status, keep: bool, chain: seq<string>)
    | StatusChanged
    | SwitchQueue(on: bool)
    | SwitchBelts(on: bool)
    | FreeQueueAndBelts
    | Shutdown

  function Step(cfg: Config, s: State, e: Event): State
    requires AllTaken(cfg.mods, s.belts)
  {
    match e
    case QueueUpdate(entries) => UpdateQueue(cfg, s, entries)
    case BeltsUpdate(o) => UpdateBelts(cfg, s, o)
    case AccumulatorOverview(put) =>
      s.(accumulator := Answered(s.accumulator, put, false),
         delivered := s.delivered + Answered(s.accumulator, put, true))
    case ModuleWrites(id, status, keep, chain) =>
      s.(belts := WriteAll(cfg.mods, s.belts, id, status, keep, chain),
         changed := s.changed || status != Running)
    case StatusChanged => s.(changed := true)
    case SwitchQueue(on) => s.(queueActive := on)
    case SwitchBelts(on) => s.(beltsActive := on)
    case FreeQueueAndBelts =>
      s.(queue := [], belts := [], restored := s.restored + s.queue + s.belts)
    // `wt_mainloop_done`: stop, then destroy the accumulator without restoring
    case Shutdown =>
      s.(queue := [], belts := [], accumulator := [],
         restored := s.restored + s.queue + s.belts, dropped := s.dropped + s.accumulator)
  }

  // -- Counting tasks ----------------------------------------------------------------

  /** How often the record `id` occurs. */
  function Count(ts: seq<Task>, id: nat): nat {
    if ts == [] then 0 else Count(Init(ts), id) + (if Last(ts).id == id then 1 else 0)
  }

  /** How many records carry the solution and library ids `k`. */
  function Keyed(ts: seq<Task>, k: (int, int)): nat {
    if ts == [] then 0 else Keyed(Init(ts), k) + (if Key(Last(ts)) == k then 1 else 0)
  }

  /** Occurrences over all the places a task can be in, or have gone to. */
  function Everywhere(s: State, id: nat): nat {
    Count(s.queue, id) + Count(s.belts, id) + Count(s.accumulator, id)
    + Count(s.delivered, id) + Count(s.restored, id) + Count(s.dropped, id)
  }

  function Active(s: State, k: (int, int)): nat {
    Keyed(s.queue, k) + Keyed(s.belts, k)
  }

  ghost predicate EachOnce(s: State) {
    forall id: nat :: Everywhere(s, id) == if id < s.next then 1 else 0
  }

  ghost predicate DistinctKeys(q: seq<Task>, belts: seq<Task>) {
    forall k :: Keyed(q, k) + Keyed(belts, k) <= 1
  }

  predicate Sound(cfg: Config, s: State) {
    && AllWaiting(cfg.mods, s.queue)
    && AllTaken(cfg.mods, s.belts)
    && AllTested(cfg.mods, s.accumulator)
    && AllTested(cfg.mods, s.delivered)
    && AllSound(cfg.mods, s.restored)
  }

  /** What every reachable state satisfies. */
  ghost predicate Inv(cfg: Config, s: State) {
    && Sound(cfg, s)
    && |s.queue| <= cfg.queueSize
    && |s.belts| <= cfg.beltsSize
    && DistinctKeys(s.queue, s.belts)
    && EachOnce(s)
    && AllTested(cfg.mods, s.dropped)
  }

  lemma {:induction false} CountConcat(a: seq<Task>, b: seq<Task>, id: nat, k: (int, int))
    ensures Count(a + b, id) == Count(a, id) + Count(b, id)
    ensures Keyed(a + b, k) == Keyed(a, k) + Keyed(b, k)
    decreases |b|
  {
    if b == [] {
      assert a + b == a;
    } else {
      assert Init(a + b) == a + Init(b);
      CountConcat(a, Init(b), id, k);
    }
  }

  lemma CountSnoc(a: seq<Task>, t: Task, id: nat, k: (int, int))
    ensures Count(a + [t], id) == Count(a, id) + (if t.id == id then 1 else 0)
    ensures Keyed(a + [t], k) == Keyed(a, k) + (if Key(t) == k then 1 else 0)
  {
    assert Init(a + [t]) == a;
  }

  lemma {:induction false} CountReversed(a: seq<Task>, id: nat, k: (int, int))
    ensures Count(Reversed(a), id) == Count(a, id)
    ensures Keyed(Reversed(a), k) == Keyed(a, k)
  {
    if a != [] {
      CountReversed(Init(a), id, k);
      CountConcat([Last(a)], Reversed(Init(a)), id, k);
      CountSnoc([], Last(a), id, k);
      assert [] + [Last(a)] == [Last(a)];
    }
  }

  lemma {:induction false} KnownKeyed(ts: seq<Task>, sid: int, lid: int)
    ensures Known(ts, sid, lid) <==> Keyed(ts, (sid, lid)) > 0
  {
    if ts != [] {
      KnownKeyed(Init(ts), sid, lid);
      assert Last(ts) == ts[|ts| - 1];
      if Known(Init(ts), sid, lid) {
        var i :| 0 <= i < |Init(ts)| && Init(ts)[i].sid == sid && Init(ts)[i].lid == lid;
        assert ts[i].sid == sid;
      }
      if Known(ts, sid, lid) && Key(Last(ts)) != (sid, lid) {
        var i :| 0 <= i < |ts| && ts[i].sid == sid && ts[i].lid == lid;
        assert Init(ts)[i].sid == sid;
      }
    }
  }

  // -- Receiving ---------------------------------------------------------------------

  lemma {:induction false} ReceiveCounts(entries: seq<(int, int)>, q: seq<Task>, belts: seq<Task>, next: nat,
                                         size: nat, id: nat)
    ensures var r := Receive(entries, q, belts, next, size);
            && next <= r.next
            && Count(r.queue, id) == Count(q, id) + (if next <= id < r.next then 1 else 0)
    decreases |entries|
  {
    if entries != [] && |q| < size {
      var (sid, lid) := entries[0];
      if Known(q, sid, lid) || Known(belts, sid, lid) {
        ReceiveCounts(entries[1..], q, belts, next, size, id);
      } else {
        var t := Spawn(next, sid, lid);
        CountSnoc(q, t, id, (0, 0));
        ReceiveCounts(entries[1..], q + [t], belts, next + 1, size, id);
      }
    }
  }

  lemma {:induction false} ReceiveKeyed(entries: seq<(int, int)>, q: seq<Task>, belts: seq<Task>, next: nat,
                                        size: nat, k: (int, int))
    requires Keyed(q, k) + Keyed(belts, k) <= 1
    ensures Keyed(Receive(entries, q, belts, next, size).queue, k) + Keyed(belts, k) <= 1
    decreases |entries|
  {
    if entries != [] && |q| < size {
      var (sid, lid) := entries[0];
      if Known(q, sid, lid) || Known(belts, sid, lid) {
        ReceiveKeyed(entries[1..], q, belts, next, size, k);
      } else {
        KnownKeyed(q, sid, lid);
        KnownKeyed(belts, sid, lid);
        CountSnoc(q, Spawn(next, sid, lid), 0, k);
        ReceiveKeyed(entries[1..], q + [Spawn(next, sid, lid)], belts, next + 1, size, k);
      }
    }
  }

  lemma {:induction false} ReceiveSound(mods: seq<Module>, entries: seq<(int, int)>, q: seq<Task>, belts: seq<Task>,
                                        next: nat, size: nat)
    requires AllWaiting(mods, q) && |q| <= size
    ensures var r := Receive(entries, q, belts, next, size);
            AllWaiting(mods, r.queue) && |r.queue| <= size && q <= r.queue
    decreases |entries|
  {
    if entries != [] && |q| < size {
      var (sid, lid) := entries[0];
      if Known(q, sid, lid) || Known(belts, sid, lid) {
        ReceiveSound(mods, entries[1..], q, belts, next, size);
      } else {
        assert TaskOk(mods, Spawn(next, sid, lid));
        ReceiveSound(mods, entries[1..], q + [Spawn(next, sid, lid)], belts, next + 1, size);
      }
    }
  }

  /** What is received comes from the list, and is appended. */
  lemma {:induction false} ReceiveTakesOnly(entries: seq<(int, int)>, q: seq<Task>, belts: seq<Task>, next: nat,
                                            size: nat)
    ensures var r := Receive(entries, q, belts, next, size);
            q <= r.queue && forall j :: |q| <= j < |r.queue| ==> Key(r.queue[j]) in entries
    decreases |entries|
  {
    if entries != [] && |q| < size {
      var sid, lid := entries[0].0, entries[0].1;
      if Known(q, sid, lid) || Known(belts, sid, lid) {
        ReceiveTakesOnly(entries[1..], q, belts, next, size);
      } else {
        ReceiveTakesOnly(entries[1..], q + [Spawn(next, sid, lid)], belts, next + 1, size);
      }
    }
  }

  /** Unless the queue is full in the end, no entry of the list was passed over. */
  lemma {:induction false} ReceiveTakesAll(entries: seq<(int, int)>, q: seq<Task>, belts: seq<Task>, next: nat,
                                           size: nat, i: nat)
    requires i < |entries|
    ensures var r := Receive(entries, q, belts, next, size);
            |r.queue| >= size || Known(r.queue + belts, entries[i].0, entries[i].1)
    decreases |entries|
  {
    if |q| < size {
      var sid, lid := entries[0].0, entries[0].1;
      var known := Known(q, sid, lid) || Known(belts, sid, lid);
      var q' := if known then q else q + [Spawn(next, sid, lid)];
      var next' := if known then next else next + 1;
      ReceiveTakesOnly(entries[1..], q', belts, next', size);
      if i > 0 {
        ReceiveTakesAll(entries[1..], q', belts, next', size, i - 1);
      } else {
        var r := Receive(entries[1..], q', belts, next', size);
        assert r == Receive(entries, q, belts, next, size);
        if Known(belts, sid, lid) {
          var k :| 0 <= k < |belts| && belts[k].sid == sid && belts[k].lid == lid;
          assert (r.queue + belts)[|r.queue| + k] == belts[k];
        } else {
          assert !known ==> Key(q'[|q|]) == entries[0];
          var k :| 0 <= k < |q'| && q'[k].sid == sid && q'[k].lid == lid;
          assert (r.queue + belts)[k] == q'[k];
        }
      }
    }
  }

  lemma UpdateQueueKeeps(cfg: Config, s: State, entries: seq<(int, int)>)
    requires Inv(cfg, s)
    ensures Inv(cfg, UpdateQueue(cfg, s, entries))
  {
    var s' := UpdateQueue(cfg, s, entries);
    if s.queueActive {
      ReceiveSound(cfg.mods, entries, s.queue, s.belts, s.next, cfg.queueSize);
      forall id: nat ensures Everywhere(s', id) == if id < s'.next then 1 else 0 {
        ReceiveCounts(entries, s.queue, s.belts, s.next, cfg.queueSize, id);
        assert Everywhere(s, id) == if id < s.next then 1 else 0;
      }
      forall k ensures Keyed(s'.queue, k) + Keyed(s'.belts, k) <= 1 {
        ReceiveKeyed(entries, s.queue, s.belts, s.next, cfg.queueSize, k);
      }
    }
  }

  // -- Overviewing -------------------------------------------------------------------

  function SweptCount(w: Swept, id: nat): nat {
    Count(w.stay, id) + Count(w.delivered, id) + Count(w.late, id) + Count(w.restored, id)
  }

  lemma SortCounts(w: Swept, v: Verdict, id: nat, k: (int, int))
    ensures SweptCount(Sort(w, v), id) == SweptCount(w, id) + (if v.task.id == id then 1 else 0)
    ensures Keyed(Sort(w, v).stay, k) <= Keyed(w.stay, k) + (if Key(v.task) == k then 1 else 0)
  {
    match v
    case Stays(t) => CountSnoc(w.stay, t, id, k);
    case Delivered(t) => CountSnoc(w.delivered, t, id, k);
    case Accumulated(t) => CountSnoc(w.late, t, id, k);
    case Restored(t) => CountSnoc(w.restored, t, id, k);
  }

  lemma {:induction false} SweepCounts(mods: seq<Module>, ts: seq<Task>, o: Oracle, id: nat, k: (int, int))
    requires AllTaken(mods, ts)
    ensures var w := Sweep(mods, ts, o);
            SweptCount(w, id) == Count(ts, id) && Keyed(w.stay, k) <= Keyed(ts, k)
  {
    if ts != [] {
      SweepCounts(mods, Init(ts), o, id, k);
      SortCounts(Sweep(mods, Init(ts), o), Review(mods, Last(ts), o), id, k);
    }
  }

  lemma {:induction false} SweepSound(mods: seq<Module>, ts: seq<Task>, o: Oracle)
    requires AllTaken(mods, ts)
    ensures var w := Sweep(mods, ts, o);
            && AllTaken(mods, w.stay) && AllTested(mods, w.delivered)
            && AllTested(mods, w.late) && AllTaken(mods, w.restored)
            && |w.stay| <= |ts|
  {
    if ts != [] {
      SweepSound(mods, Init(ts), o);
      var v := Review(mods, Last(ts), o);
      match v
      case Stays(t) =>
      case Delivered(t) =>
      case Accumulated(t) =>
      case Restored(t) =>
    }
  }

  lemma OverviewCounts(cfg: Config, s: State, o: Oracle, id: nat, k: (int, int))
    requires AllTaken(cfg.mods, s.belts)
    ensures var s' := Overview(cfg, s, o);
            Everywhere(s', id) == Everywhere(s, id) && Active(s', k) <= Active(s, k)
  {
    var w := Sweep(cfg.mods, s.belts, o);
    SweepCounts(cfg.mods, s.belts, o, id, k);
    CountConcat(s.accumulator, w.late, id, k);
    CountConcat(s.delivered, w.delivered, id, k);
    CountConcat(s.restored, w.restored, id, k);
  }

  lemma OverviewSound(cfg: Config, s: State, o: Oracle)
    requires Sound(cfg, s)
    ensures var s' := Overview(cfg, s, o);
            Sound(cfg, s') && |s'.belts| <= |s.belts|
  {
    SweepSound(cfg.mods, s.belts, o);
  }

  lemma OverviewKeeps(cfg: Config, s: State, o: Oracle)
    requires Inv(cfg, s)
    ensures Inv(cfg, Overview(cfg, s, o))
  {
    OverviewSound(cfg, s, o);
    var s' := Overview(cfg, s, o);
    forall id: nat ensures Everywhere(s', id) == if id < s'.next then 1 else 0 {
      OverviewCounts(cfg, s, o, id, (0, 0));
      assert Everywhere(s, id) == if id < s.next then 1 else 0;
    }
    forall k ensures Keyed(s'.queue, k) + Keyed(s'.belts, k) <= 1 {
      OverviewCounts(cfg, s, o, 0, k);
      assert Keyed(s.queue, k) + Keyed(s.belts, k) <= 1;
    }
  }

  // -- Filling -----------------------------------------------------------------------

  function FilledCount(f: Filled, id: nat): nat {
    Count(f.taken, id) + Count(f.kept, id) + Count(f.restored, id) + Count(f.dropped, id)
  }

  lemma AdmitCounts(mods: seq<Module>, f: Filled, t: Task, o: Oracle, id: nat, k: (int, int))
    requires TaskOk(mods, t) && Waiting(t)
    ensures var g := Admit(mods, f, t, o);
            && FilledCount(g, id) == FilledCount(f, id) + (if t.id == id then 1 else 0)
            && Keyed(g.taken, k) + Keyed(g.kept, k)
               <= Keyed(f.taken, k) + Keyed(f.kept, k) + (if Key(t) == k then 1 else 0)
  {
    SendForTestingOk(mods, t, o);
    var s := SendForTesting(mods, t, o);
    CountSnoc(if s.ok then f.taken else if s.task.keep then f.kept else f.restored, s.task, id, k);
  }

  lemma {:induction false} FillSound(mods: seq<Module>, belts: seq<Task>, q: seq<Task>, o: Oracle)
    requires AllWaiting(mods, q)
    ensures var f := Fill(mods, belts, q, o);
            && AllTaken(mods, f.taken) && AllWaiting(mods, f.kept) && AllWaiting(mods, f.restored)
            && |f.kept| <= |q|
  {
    if q != [] {
      FillSound(mods, belts, Init(q), o);
      SendForTestingOk(mods, Last(q), o);
    }
  }

  lemma {:induction false} FillCounts(mods: seq<Module>, belts: seq<Task>, q: seq<Task>, o: Oracle, id: nat,
                                      k: (int, int))
    requires AllWaiting(mods, q)
    ensures var f := Fill(mods, belts, q, o);
            && FilledCount(f, id) == Count(q, id)
            && Keyed(f.taken, k) + Keyed(f.kept, k) <= Keyed(q, k)
  {
    if q != [] {
      FillCounts(mods, belts, Init(q), o, id, k);
      var f, t := Fill(mods, belts, Init(q), o), Last(q);
      if Known(belts + f.taken, t.sid, t.lid) {
        CountSnoc(f.dropped, t, id, k);
      } else {
        AdmitCounts(mods, f, t, o, id, k);
      }
    }
  }

  /** With distinct keys the walk never meets a task that the belts already hold. */
  lemma {:induction false} NoDuplicates(mods: seq<Module>, belts: seq<Task>, q: seq<Task>, o: Oracle)
    requires AllWaiting(mods, q) && DistinctKeys(q, belts)
    ensures Fill(mods, belts, q, o).dropped == []
    ensures q != [] ==> var f := Fill(mods, belts, Init(q), o);
                        !Known(belts + f.taken, Last(q).sid, Last(q).lid)
  {
    if q != [] {
      var t := Last(q);
      forall k ensures Keyed(Init(q), k) + Keyed(belts, k) <= 1 {
        assert Keyed(q, k) + Keyed(belts, k) <= 1;
      }
      NoDuplicates(mods, belts, Init(q), o);
      assert Keyed(q, Key(t)) + Keyed(belts, Key(t)) <= 1;
      LastIsUnknown(mods, belts, q, o);
    }
  }

  lemma LastIsUnknown(mods: seq<Module>, belts: seq<Task>, q: seq<Task>, o: Oracle)
    requires q != [] && AllWaiting(mods, Init(q)) && Keyed(q, Key(Last(q))) + Keyed(belts, Key(Last(q))) <= 1
    ensures !Known(belts + Fill(mods, belts, Init(q), o).taken, Last(q).sid, Last(q).lid)
  {
    var t, f := Last(q), Fill(mods, belts, Init(q), o);
    FillCounts(mods, belts, Init(q), o, 0, Key(t));
    CountConcat(belts, f.taken, 0, Key(t));
    KnownKeyed(belts + f.taken, t.sid, t.lid);
  }

  lemma SplitCount(q: seq<Task>, n: nat, id: nat, k: (int, int))
    requires n <= |q|
    ensures Count(q, id) == Count(q[..n], id) + Count(q[n..], id)
    ensures Keyed(q, k) == Keyed(q[..n], k) + Keyed(q[n..], k)
  {
    assert q == q[..n] + q[n..];
    CountConcat(q[..n], q[n..], id, k);
  }

  lemma FillNeverOverflows(mods: seq<Module>, belts: seq<Task>, q: seq<Task>, size: nat, o: Oracle)
    requires |belts| <= size
    ensures |belts| + |Fill(mods, belts, q[..Visited(mods, belts, q, size, o, 0)], o).taken| <= size
  {
    var n := Visited(mods, belts, q, size, o, 0);
    if n > 0 {
      assert Init(q[..n]) == q[..n - 1];
      assert |belts| + |Fill(mods, belts, q[..n - 1], o).taken| < size;
    } else {
      assert q[..n] == [];
    }
  }

  lemma FillCountsAll(cfg: Config, s: State, o: Oracle, id: nat, k: (int, int))
    requires AllWaiting(cfg.mods, s.queue)
    ensures var s' := FillBelts(cfg, s, o);
            Everywhere(s', id) == Everywhere(s, id) && Active(s', k) <= Active(s, k)
  {
    var n := Visited(cfg.mods, s.belts, s.queue, cfg.beltsSize, o, 0);
    var f := Fill(cfg.mods, s.belts, s.queue[..n], o);
    SplitCount(s.queue, n, id, k);
    FillCounts(cfg.mods, s.belts, s.queue[..n], o, id, k);
    CountReversed(f.kept, id, k);
    CountConcat(Reversed(f.kept), s.queue[n..], id, k);
    CountConcat(s.belts, f.taken, id, k);
    CountConcat(s.restored, f.restored, id, k);
    CountConcat(s.dropped, f.dropped, id, k);
  }

  lemma FillBeltsSound(cfg: Config, s: State, o: Oracle)
    requires Sound(cfg, s) && |s.queue| <= cfg.queueSize
    ensures var s' := FillBelts(cfg, s, o);
            Sound(cfg, s') && |s'.queue| <= cfg.queueSize
  {
    var n := Visited(cfg.mods, s.belts, s.queue, cfg.beltsSize, o, 0);
    FillSound(cfg.mods, s.belts, s.queue[..n], o);
    var f := Fill(cfg.mods, s.belts, s.queue[..n], o);
    forall t | t in Reversed(f.kept) ensures t in f.kept {
      var i :| 0 <= i < |f.kept| && Reversed(f.kept)[i] == t;
      assert f.kept[|f.kept| - 1 - i] == t;
    }
  }

  lemma FillLosesNothing(cfg: Config, s: State, o: Oracle)
    requires AllWaiting(cfg.mods, s.queue) && DistinctKeys(s.queue, s.belts)
    ensures FillBelts(cfg, s, o).dropped == s.dropped
  {
    var n := Visited(cfg.mods, s.belts, s.queue, cfg.beltsSize, o, 0);
    forall k ensures Keyed(s.queue[..n], k) + Keyed(s.belts, k) <= 1 {
      SplitCount(s.queue, n, 0, k);
      assert Keyed(s.queue, k) + Keyed(s.belts, k) <= 1;
    }
    NoDuplicates(cfg.mods, s.belts, s.queue[..n], o);
  }

  lemma FillBeltsKeeps(cfg: Config, s: State, o: Oracle)
    requires Inv(cfg, s)
    ensures Inv(cfg, FillBelts(cfg, s, o))
  {
    var s' := FillBelts(cfg, s, o);
    FillBeltsSound(cfg, s, o);
    FillNeverOverflows(cfg.mods, s.belts, s.queue, cfg.beltsSize, o);
    forall id: nat ensures Everywhere(s', id) == if id < s'.next then 1 else 0 {
      FillCountsAll(cfg, s, o, id, (0, 0));
      assert Everywhere(s, id) == if id < s.next then 1 else 0;
    }
    forall k ensures Keyed(s'.queue, k) + Keyed(s'.belts, k) <= 1 {
      FillCountsAll(cfg, s, o, 0, k);
      assert Keyed(s.queue, k) + Keyed(s.belts, k) <= 1;
    }
    var n := Visited(cfg.mods, s.belts, s.queue, cfg.beltsSize, o, 0);
    forall k ensures Keyed(s.queue[..n], k) + Keyed(s.belts, k) <= 1 {
      SplitCount(s.queue, n, 0, k);
      assert Keyed(s.queue, k) + Keyed(s.belts, k) <= 1;
    }
    NoDuplicates(cfg.mods, s.belts, s.queue[..n], o);
  }

  // -- The other steps ---------------------------------------------------------------

  lemma UpdateBeltsKeeps(cfg: Config, s: State, o: Oracle)
    requires Inv(cfg, s)
    ensures Inv(cfg, UpdateBelts(cfg, s, o))
  {
    var s1 := s.(changed := false);
    assert forall id: nat :: Everywhere(s1, id) == Everywhere(s, id);
    OverviewKeeps(cfg, s1, o);
    FillBeltsKeeps(cfg, Overview(cfg, s1, o), o);
  }

  lemma {:induction false} AnsweredSplits(ts: seq<Task>, put: Task -> bool, id: nat)
    ensures Count(Answered(ts, put, true), id) + Count(Answered(ts, put, false), id) == Count(ts, id)
  {
    if ts != [] {
      var ok := put(Last(ts));
      AnsweredSplits(Init(ts), put, id);
      CountSnoc(Answered(Init(ts), put, ok), Last(ts), id, (0, 0));
      assert Answered(ts, put, !ok) == Answered(Init(ts), put, !ok);
    }
  }

  lemma {:induction false} AnsweredMember(ts: seq<Task>, put: Task -> bool, ok: bool, t: Task)
    ensures t in Answered(ts, put, ok) <==> t in ts && put(t) == ok
  {
    if ts != [] {
      AnsweredMember(Init(ts), put, ok, t);
      assert ts == Init(ts) + [Last(ts)];
    }
  }

  lemma AccumulatorKeeps(cfg: Config, s: State, put: Task -> bool)
    requires Inv(cfg, s)
    ensures Inv(cfg, Step(cfg, s, AccumulatorOverview(put)))
  {
    forall ok, t ensures t in Answered(s.accumulator, put, ok) <==> t in s.accumulator && put(t) == ok {
      AnsweredMember(s.accumulator, put, ok, t);
    }
    var s' := Step(cfg, s, AccumulatorOverview(put));
    forall id: nat ensures Everywhere(s', id) == if id < s'.next then 1 else 0 {
      AccumulatorCounts(cfg, s, put, id);
      assert Everywhere(s, id) == if id < s.next then 1 else 0;
    }
  }

  lemma AccumulatorCounts(cfg: Config, s: State, put: Task -> bool, id: nat)
    requires AllTaken(cfg.mods, s.belts)
    ensures Everywhere(Step(cfg, s, AccumulatorOverview(put)), id) == Everywhere(s, id)
  {
    AnsweredSplits(s.accumulator, put, id);
    CountConcat(s.delivered, Answered(s.accumulator, put, true), id, (0, 0));
  }

  lemma WriteKeeps(mods: seq<Module>, t: Task, id: nat, status: Status, keep: bool, chain: seq<string>)
    requires TaskOk(mods, t) && Taken(mods, t)
    ensures var r := Write(mods, t, id, status, keep, chain);
            TaskOk(mods, r) && Taken(mods, r) && SameTask(t, r)
  {
    var u := t.(status := status, keep := t.keep || keep);
    assert Offered(u) == Offered(t);
    AddNamesOk(mods, u, chain);
    AddNamesKeeps(mods, u, chain);
  }

  lemma {:induction false} WriteAllCounts(mods: seq<Module>, ts: seq<Task>, e: Event, id: nat, k: (int, int))
    requires AllTaken(mods, ts) && e.ModuleWrites?
    ensures var r := WriteAll(mods, ts, e.id, e.status, e.keep, e.chain);
            Count(r, id) == Count(ts, id) && Keyed(r, k) == Keyed(ts, k)
  {
    if ts != [] {
      var r := WriteAll(mods, Init(ts), e.id, e.status, e.keep, e.chain);
      WriteAllCounts(mods, Init(ts), e, id, k);
      WriteKeeps(mods, Last(ts), e.id, e.status, e.keep, e.chain);
      CountSnoc(r, Write(mods, Last(ts), e.id, e.status, e.keep, e.chain), id, k);
    }
  }

  lemma WriteCounts(cfg: Config, s: State, e: Event, id: nat, k: (int, int))
    requires AllTaken(cfg.mods, s.belts) && e.ModuleWrites?
    ensures var s' := Step(cfg, s, e);
            && Everywhere(s', id) == Everywhere(s, id)
            && Keyed(s'.queue, k) == Keyed(s.queue, k) && Keyed(s'.belts, k) == Keyed(s.belts, k)
  {
    WriteAllCounts(cfg.mods, s.belts, e, id, k);
  }

  lemma ModuleWritesKeeps(cfg: Config, s: State, e: Event)
    requires Inv(cfg, s) && e.ModuleWrites?
    ensures Inv(cfg, Step(cfg, s, e))
  {
    var s' := Step(cfg, s, e);
    forall t | t in s'.belts ensures TaskOk(cfg.mods, t) && Taken(cfg.mods, t) {
      var i :| 0 <= i < |s'.belts| && s'.belts[i] == t;
      WriteKeeps(cfg.mods, s.belts[i], e.id, e.status, e.keep, e.chain);
    }
    forall id: nat ensures Everywhere(s', id) == if id < s'.next then 1 else 0 {
      WriteCounts(cfg, s, e, id, (0, 0));
      assert Everywhere(s, id) == if id < s.next then 1 else 0;
    }
    forall k ensures Keyed(s'.queue, k) + Keyed(s'.belts, k) <= 1 {
      WriteCounts(cfg, s, e, 0, k);
      assert Keyed(s.queue, k) + Keyed(s.belts, k) <= 1;
    }
  }

  /** What restoring the queue and the belts, and losing the accumulator, adds up to. */
  lemma RestoredCounts(s: State, id: nat)
    ensures Count(s.restored + s.queue + s.belts, id) == Count(s.restored, id) + Count(s.queue, id) + Count(s.belts, id)
    ensures Count(s.dropped + s.accumulator, id) == Count(s.dropped, id) + Count(s.accumulator, id)
  {
    CountConcat(s.restored, s.queue, id, (0, 0));
    CountConcat(s.restored + s.queue, s.belts, id, (0, 0));
    CountConcat(s.dropped, s.accumulator, id, (0, 0));
  }

  lemma FreeCounts(cfg: Config, s: State, id: nat)
    requires AllTaken(cfg.mods, s.belts)
    ensures Everywhere(Step(cfg, s, FreeQueueAndBelts), id) == Everywhere(s, id)
  {
    RestoredCounts(s, id);
  }

  lemma FreeKeeps(cfg: Config, s: State)
    requires Inv(cfg, s)
    ensures Inv(cfg, Step(cfg, s, FreeQueueAndBelts))
  {
    var s' := Step(cfg, s, FreeQueueAndBelts);
    forall id: nat ensures Everywhere(s', id) == if id < s'.next then 1 else 0 {
      FreeCounts(cfg, s, id);
      assert Everywhere(s, id) == if id < s.next then 1 else 0;
    }
  }

  lemma ShutdownCounts(cfg: Config, s: State, id: nat)
    requires AllTaken(cfg.mods, s.belts)
    ensures Everywhere(Step(cfg, s, Shutdown), id) == Everywhere(s, id)
  {
    RestoredCounts(s, id);
  }

  lemma ShutdownKeeps(cfg: Config, s: State)
    requires Inv(cfg, s)
    ensures Inv(cfg, Step(cfg, s, Shutdown))
  {
    var s' := Step(cfg, s, Shutdown);
    forall id: nat ensures Everywhere(s', id) == if id < s'.next then 1 else 0 {
      ShutdownCounts(cfg, s, id);
      assert Everywhere(s, id) == if id < s.next then 1 else 0;
    }
  }

  /** Every step keeps the invariant, whatever the modules and the web interface answer. */
  lemma StepKeeps(cfg: Config, s: State, e: Event)
    requires Inv(cfg, s)
    ensures Inv(cfg, Step(cfg, s, e))
  {
    match e
    case QueueUpdate(entries) => UpdateQueueKeeps(cfg, s, entries);
    case BeltsUpdate(o) => UpdateBeltsKeeps(cfg, s, o);
    case AccumulatorOverview(put) => AccumulatorKeeps(cfg, s, put);
    case ModuleWrites(id, status, keep, chain) => ModuleWritesKeeps(cfg, s, e);
    case FreeQueueAndBelts => FreeKeeps(cfg, s);
    case Shutdown => ShutdownKeeps(cfg, s);
    case _ =>
      var s' := Step(cfg, s, e);
      assert forall id: nat :: Everywhere(s', id) == Everywhere(s, id);
  }
}
