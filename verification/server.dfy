/**
 * The loops of `queue.c`, `belts.c` and `webiface_get_task_list` over the lists they walk
 * and change. Each method is proved to make the step the state machine of `Pipeline`
 * describes; what the steps keep and where they lead is proved there.
 */
module Servers {
  import opened Seqs
  import opened Decimal
  import opened Tasks
  import opened Pipeline
  import TaskList

  /** `atol` and `atoi` of the cells the scan found. */
  function KeyOf(l: TaskList.Line): (int, int) {
    (Atol(l.sid), Atol(l.lid))
  }

  function KeysOf(ls: seq<TaskList.Line>): seq<(int, int)> {
    if ls == [] then [] else [KeyOf(ls[0])] + KeysOf(ls[1..])
  }

  /** What a response asks the queue to take in; `None` is a failed request. */
  function Offers(response: Option<string>): seq<(int, int)> {
    match response
    case None => []
    case Some(body) => if TaskList.Matches(body) then KeysOf(TaskList.Entries(body)) else []
  }

  lemma NextEntry(text: string, c: TaskList.Line, rest: string)
    requires text != "" && c.sid != "" && c.lid != ""
    requires var u := TaskList.DropGap(text);
             c == TaskList.Cells(TaskList.RunOf(u)) && rest == u[|TaskList.RunOf(u)|..]
    ensures var ks := KeysOf(TaskList.Entries(text));
            ks != [] && ks[0] == KeyOf(c) && ks[1..] == KeysOf(TaskList.Entries(rest))
  {
    var es := TaskList.Entries(rest);
    assert TaskList.Entries(text) == [c] + es;
    assert ([c] + es)[1..] == es;
    assert KeysOf([c] + es) == [KeyOf(c)] + KeysOf(es);
  }

  lemma ReceiveNext(keys: seq<(int, int)>, q: seq<Task>, belts: seq<Task>, next: nat, size: nat)
    requires keys != [] && |q| < size
    ensures Receive(keys, q, belts, next, size)
            == if Known(q, keys[0].0, keys[0].1) || Known(belts, keys[0].0, keys[0].1)
               then Receive(keys[1..], q, belts, next, size)
               else Receive(keys[1..], q + [Spawn(next, keys[0].0, keys[0].1)], belts, next + 1, size)
  {
  }

  // -- Moving a cursor over a list that changes ----------------------------------------

  /** `dyna_delete` of the node at `pos` */
  function Deleted(ts: seq<Task>, pos: nat): seq<Task>
    requires pos < |ts|
  {
    ts[..pos] + ts[pos + 1..]
  }

  lemma AtCursor(front: seq<Task>, rest: seq<Task>, u: Task)
    requires rest != []
    ensures var ts := front + rest;
            && ts[|front|] == rest[0]
            && Deleted(ts, |front|) == front + rest[1..]
            && ts[|front| := u] == (front + [u]) + rest[1..]
            && Deleted(ts[|front| := u], |front|) == front + rest[1..]
  {
  }

  lemma Passed(seen: seq<Task>, rest: seq<Task>)
    requires rest != []
    ensures (seen + [rest[0]]) + rest[1..] == seen + rest
    ensures Init(seen + [rest[0]]) == seen && Last(seen + [rest[0]]) == rest[0]
  {
  }

  lemma Longer(a: seq<Task>, b: seq<Task>, b': seq<Task>)
    requires b <= b'
    ensures (a + b) + b'[|b|..] == a + b'
  {
  }

  lemma Advanced(q: seq<Task>, seen: seq<Task>, rest: seq<Task>)
    requires rest != [] && |seen| <= |q| && q[..|seen|] == seen && q[|seen|..] == rest
    ensures |seen| < |q| && q[..|seen| + 1] == seen + [rest[0]] && q[|seen| + 1..] == rest[1..]
  {
    assert rest[0] == q[|seen|];
  }

  /** The walk of `belts_fill` has reached its end exactly when its guard fails. */
  lemma WhereItStops(cfg: Config, belts: seq<Task>, q: seq<Task>, o: Oracle, k: nat)
    requires k <= Visited(cfg.mods, belts, q, cfg.beltsSize, o, 0)
    ensures k <= |q|
    ensures k < Visited(cfg.mods, belts, q, cfg.beltsSize, o, 0) <==>
            k < |q| && |belts| + |Fill(cfg.mods, belts, q[..k], o).taken| < cfg.beltsSize
  {
  }

  lemma PushReversed(kept: seq<Task>, t: Task, rest: seq<Task>)
    ensures [t] + (Reversed(kept) + rest) == Reversed(kept + [t]) + rest
  {
    assert Init(kept + [t]) == kept;
  }

  class Server {
    const cfg: Config
    var queue: seq<Task>
    var belts: seq<Task>
    var accumulator: seq<Task>
    var spawned: nat
    var queueActive: bool
    var beltsActive: bool
    var changed: bool

    ghost var delivered: seq<Task>
    ghost var restored: seq<Task>
    ghost var dropped: seq<Task>

    ghost function Abs(): State
      reads this
    {
      State(queue, belts, accumulator, delivered, restored, dropped,
            spawned, queueActive, beltsActive, changed)
    }

    ghost predicate Valid()
      reads this
    {
      Inv(cfg, Abs())
    }

    constructor (cfg: Config)
      ensures Valid() && this.cfg == cfg && Abs() == START
    {
      this.cfg := cfg;
      queue, belts, accumulator, spawned := [], [], [], 0;
      queueActive, beltsActive, changed := false, false, false;
      delivered, restored, dropped := [], [], [];
    }

    /** `dyna_search` with `wt_task_search_comparator` from the head of a list. */
    static method Search(ts: seq<Task>, sid: int, lid: int) returns (found: bool)
      ensures found <==> Known(ts, sid, lid)
    {
      var i := 0;
      while i < |ts|
        invariant 0 <= i <= |ts|
        invariant forall j :: 0 <= j < i ==> ts[j].sid != sid || ts[j].lid != lid
      {
        if ts[i].lid == lid && ts[i].sid == sid {
          return true;
        }
        i := i + 1;
      }
      return false;
    }

    // -- queue.c, transport.c --------------------------------------------------------

    /** `webiface_get_task_list` */
    method GetTaskList(response: Option<string>) returns (rc: int)
      modifies this`queue, this`spawned
      ensures rc == if |old(queue)| >= cfg.queueSize then -1 else 0
      ensures Intake(queue, spawned) == Receive(Offers(response), old(queue), belts, old(spawned), cfg.queueSize)
    {
      if |queue| >= cfg.queueSize {
        return -1;
      }
      if response.Some? && TaskList.Matches(response.value) {
        ReadBody(response.value);
      }
      return 0;
    }

    method ReadBody(body: string)
      modifies this`queue, this`spawned
      ensures Intake(queue, spawned)
              == Receive(KeysOf(TaskList.Entries(body)), old(queue), belts, old(spawned), cfg.queueSize)
    {
      var need := cfg.queueSize - |queue|;
      var taken := 0;
      var i := 0;
      assert body[0..] == body;
      ghost var keys := KeysOf(TaskList.Entries(body));
      ghost var goal := Receive(keys, queue, belts, spawned, cfg.queueSize);
      while i < |body|
        invariant 0 <= i <= |body|
        invariant taken == |queue| - |old(queue)|
        invariant keys == KeysOf(TaskList.Entries(body[i..]))
        invariant Receive(keys, queue, belts, spawned, cfg.queueSize) == goal
        decreases |body| - i
      {
        if taken >= need {
          return;
        }
        var j, k := NextKey(body, i);
        if k.None? {
          return;
        }
        var added := TakeNext(k.value, keys);
        if added {
          taken := taken + 1;
        }
        i, keys := j, keys[1..];
      }
      assert body[i..] == "";
    }

    /** The next entry of the list, if the text goes on with one. */
    static method NextKey(body: string, i: nat) returns (j: nat, k: Option<(int, int)>)
      requires i < |body|
      ensures i <= j <= |body|
      ensures var keys := KeysOf(TaskList.Entries(body[i..]));
              if k.None? then keys == []
              else i < j && keys != [] && keys[0] == k.value && keys[1..] == KeysOf(TaskList.Entries(body[j..]))
    {
      var c: TaskList.Line;
      j, c := TaskList.ScanEntry(body, i);
      if c.sid == "" || c.lid == "" {
        return j, None;
      }
      NextEntry(body[i..], c, body[j..]);
      return j, Some(KeyOf(c));
    }

    method TakeNext(key: (int, int), ghost keys: seq<(int, int)>) returns (added: bool)
      requires keys != [] && keys[0] == key && |queue| < cfg.queueSize
      modifies this`queue, this`spawned
      ensures |queue| == |old(queue)| + if added then 1 else 0
      ensures Receive(keys[1..], queue, belts, spawned, cfg.queueSize)
              == Receive(keys, old(queue), belts, old(spawned), cfg.queueSize)
    {
      ReceiveNext(keys, queue, belts, spawned, cfg.queueSize);
      added := TakeIn(key.0, key.1);
    }

    /** Appends a received task unless it is in the queue or on the belts already. */
    method TakeIn(sid: int, lid: int) returns (added: bool)
      modifies this`queue, this`spawned
      ensures added <==> !Known(old(queue), sid, lid) && !Known(belts, sid, lid)
      ensures added ==> queue == old(queue) + [Spawn(old(spawned), sid, lid)] && spawned == old(spawned) + 1
      ensures !added ==> queue == old(queue) && spawned == old(spawned)
    {
      var inQueue := Search(queue, sid, lid);
      if inQueue {
        return false;
      }
      var inBelts := Search(belts, sid, lid);
      if inBelts {
        return false;
      }
      queue := queue + [Spawn(spawned, sid, lid)];
      spawned := spawned + 1;
      return true;
    }

    /** `wt_queue_update` */
    method UpdateQueue(response: Option<string>) returns (rc: int)
      requires Valid()
      modifies this
      ensures Abs() == Step(cfg, old(Abs()), QueueUpdate(Offers(response))) && Valid()
    {
      StepKeeps(cfg, Abs(), QueueUpdate(Offers(response)));
      if !queueActive {
        return 0;
      }
      rc := GetTaskList(response);
    }

    // -- belts.c: overview -----------------------------------------------------------

    /** The inner loop of `belts_overview_status`: offer a task down its chain. */
    method OfferDownChain(t: Task, o: Oracle) returns (r: Task, needReturn: bool)
      requires TaskOk(cfg.mods, t) && Taken(cfg.mods, t)
      ensures Chained(r, needReturn) == RunChain(cfg.mods, t, o)
    {
      r := t;
      needReturn := true;
      var work := true;
      while work && r.cur < |r.chain|
        invariant TaskOk(cfg.mods, r) && Taken(cfg.mods, r)
        invariant needReturn && work
        invariant RunChain(cfg.mods, r, o) == RunChain(cfg.mods, t, o)
        decreases |Universe(cfg.mods)| - r.cur
      {
        ChainBound(cfg.mods, r);
        SendToChainOk(cfg.mods, r, o);
        var s := SendToModule(cfg.mods, NextInChain(r), o);
        if s.ok {
          r, needReturn := s.task, false;
          break;
        } else if s.task.keep {
          r, needReturn, work := s.task.(cur := s.task.cur - 1), false, false;
          break;
        }
        r := s.task;
      }
    }

    /** `return_tested` */
    method ReturnTested(t: Task, o: Oracle)
      modifies this`accumulator, this`delivered
      ensures accumulator == old(accumulator) + (if o.put(t) then [] else [t])
      ensures delivered == old(delivered) + (if o.put(t) then [t] else [])
    {
      if o.put(t) {
        delivered := delivered + [t];
      } else {
        accumulator := accumulator + [t];
      }
    }

    /** `belts_overview_status` */
    method OverviewStatus(o: Oracle)
      requires AllTaken(cfg.mods, belts)
      modifies this`belts, this`accumulator, this`delivered, this`restored
      ensures var w := Sweep(cfg.mods, old(belts), o);
              && belts == w.stay
              && accumulator == old(accumulator) + w.late
              && delivered == old(delivered) + w.delivered
              && restored == old(restored) + w.restored
    {
      ghost var seen, rest := [], belts;
      var pos := 0;
      while pos < |belts|
        invariant AllTaken(cfg.mods, seen) && AllTaken(cfg.mods, rest)
        invariant seen + rest == old(belts)
        invariant var w := Sweep(cfg.mods, seen, o);
                  && pos == |w.stay| && belts == w.stay + rest
                  && accumulator == old(accumulator) + w.late
                  && delivered == old(delivered) + w.delivered
                  && restored == old(restored) + w.restored
        decreases |rest|
      {
        ghost var w := Sweep(cfg.mods, seen, o);
        ghost var w' := Sort(w, Review(cfg.mods, rest[0], o));
        pos := OverviewOne(pos, o, seen, rest);
        Longer(old(accumulator), w.late, w'.late);
        Longer(old(delivered), w.delivered, w'.delivered);
        Longer(old(restored), w.restored, w'.restored);
        Passed(seen, rest);
        seen, rest := seen + [rest[0]], rest[1..];
      }
      assert rest == [] && seen == old(belts);
    }

    /** One turn of the loop of `belts_overview_status`. */
    method OverviewOne(pos: nat, o: Oracle, ghost seen: seq<Task>, ghost rest: seq<Task>) returns (next: nat)
      requires AllTaken(cfg.mods, seen) && AllTaken(cfg.mods, rest) && rest != []
      requires var w := Sweep(cfg.mods, seen, o);
               pos == |w.stay| && belts == w.stay + rest
      modifies this`belts, this`accumulator, this`delivered, this`restored
      ensures var w := Sweep(cfg.mods, seen, o);
              var w' := Sort(w, Review(cfg.mods, rest[0], o));
              && next == |w'.stay| && belts == w'.stay + rest[1..]
              && accumulator == old(accumulator) + w'.late[|w.late|..]
              && delivered == old(delivered) + w'.delivered[|w.delivered|..]
              && restored == old(restored) + w'.restored[|w.restored|..]
    {
      ghost var w := Sweep(cfg.mods, seen, o);
      var t := belts[pos];
      AtCursor(w.stay, rest, t);
      next := pos;
      if t.status == Finished {
        var u, needReturn := OfferDownChain(t, o);
        AtCursor(w.stay, rest, u);
        belts := belts[pos := u];
        if needReturn {
          ReturnTested(u, o);
          belts := Deleted(belts, pos);
        } else {
          next := pos + 1;
        }
      } else if t.status == Interrupted {
        belts := Deleted(belts, pos);
        restored := restored + [t];
      } else {
        assert belts[pos := t] == belts;
        next := pos + 1;
      }
    }

    // -- belts.c: filling ------------------------------------------------------------

    /**
     * `belts_fill`: unlink the task at the cursor, step to what followed it, and hand the
     * task over; a task kept waiting is pushed onto the very list the loop walks.
     */
    method FillFromQueue(o: Oracle)
      modifies this`queue, this`belts, this`restored, this`dropped
      ensures var n := Visited(cfg.mods, old(belts), old(queue), cfg.beltsSize, o, 0);
              var f := Fill(cfg.mods, old(belts), old(queue)[..n], o);
              && queue == Reversed(f.kept) + old(queue)[n..]
              && belts == old(belts) + f.taken
              && restored == old(restored) + f.restored
              && dropped == old(dropped) + f.dropped
    {
      ghost var q0, b0 := queue, belts;
      ghost var seen, rest := [], queue;
      ghost var stop := Visited(cfg.mods, b0, q0, cfg.beltsSize, o, 0);
      var pos := 0;
      assert q0[..0] == [] && q0[0..] == q0;
      while pos < |queue| && |belts| < cfg.beltsSize
        invariant |seen| <= stop && q0[..|seen|] == seen && q0[|seen|..] == rest
        invariant var f := Fill(cfg.mods, b0, seen, o);
                  && pos == |f.kept| && queue == Reversed(f.kept) + rest
                  && belts == b0 + f.taken
                  && restored == old(restored) + f.restored
                  && dropped == old(dropped) + f.dropped
        decreases |rest|
      {
        WhereItStops(cfg, b0, q0, o, |seen|);
        ghost var f, f' := Fill(cfg.mods, b0, seen, o), Fill(cfg.mods, b0, seen + [rest[0]], o);
        pos := FillOne(pos, o, b0, seen, rest);
        Longer(old(restored), f.restored, f'.restored);
        Longer(old(dropped), f.dropped, f'.dropped);
        Advanced(q0, seen, rest);
        seen, rest := seen + [rest[0]], rest[1..];
      }
      WhereItStops(cfg, b0, q0, o, |seen|);
    }

    /** One turn of the loop of `belts_fill`. */
    method FillOne(pos: nat, o: Oracle, ghost b0: seq<Task>, ghost seen: seq<Task>, ghost rest: seq<Task>)
      returns (next: nat)
      requires rest != []
      requires var f := Fill(cfg.mods, b0, seen, o);
               pos == |f.kept| && queue == Reversed(f.kept) + rest && belts == b0 + f.taken
      modifies this`queue, this`belts, this`restored, this`dropped
      ensures var f := Fill(cfg.mods, b0, seen, o);
              var f' := Fill(cfg.mods, b0, seen + [rest[0]], o);
              && next == |f'.kept| && queue == Reversed(f'.kept) + rest[1..]
              && belts == b0 + f'.taken
              && restored == old(restored) + f'.restored[|f.restored|..]
              && dropped == old(dropped) + f'.dropped[|f.dropped|..]
              && f.restored <= f'.restored && f.dropped <= f'.dropped
    {
      ghost var f := Fill(cfg.mods, b0, seen, o);
      Passed(seen, rest);
      var t := queue[pos];
      AtCursor(Reversed(f.kept), rest, t);
      queue := Deleted(queue, pos);
      next := pos;
      var known := Search(belts, t.sid, t.lid);
      if known {
        dropped := dropped + [t];
        return;
      }
      var s := SendForTesting(cfg.mods, t, o);
      if s.ok {
        belts := belts + [s.task];
      } else if !s.task.keep {
        restored := restored + [s.task];
      } else {
        PushReversed(f.kept, s.task, rest[1..]);
        queue := [s.task] + queue;
        next := pos + 1;
      }
    }

    /** `wt_belts_update` */
    method UpdateBelts(o: Oracle)
      requires Valid()
      modifies this
      ensures Abs() == Step(cfg, old(Abs()), BeltsUpdate(o)) && Valid()
    {
      ghost var s := Abs();
      StepKeeps(cfg, s, BeltsUpdate(o));
      UpdateIfChanged(o);
      assert Abs() == Step(cfg, s, BeltsUpdate(o));
    }

    method UpdateIfChanged(o: Oracle)
      requires AllTaken(cfg.mods, belts)
      modifies this
      ensures Abs() == Pipeline.UpdateBelts(cfg, old(Abs()), o)
    {
      if !beltsActive {
        return;
      }
      var queueLength, beltsLength := |queue|, |belts|;
      if !changed && (queueLength == 0 || beltsLength >= cfg.beltsSize) {
        return;
      }
      changed := false;
      if beltsLength != 0 || (queueLength != 0 && beltsLength < cfg.beltsSize) {
        OverviewAndFill(o);
      }
    }

    method OverviewAndFill(o: Oracle)
      requires AllTaken(cfg.mods, belts)
      modifies this
      ensures Abs() == FillBelts(cfg, Overview(cfg, old(Abs()), o), o)
    {
      ghost var s := Abs();
      OverviewStatus(o);
      assert Abs() == Overview(cfg, s, o);
      FillFromQueue(o);
    }

    // -- belts.c: the accumulator ----------------------------------------------------

    /** `accumulator_overview_proc`; the list destroyed when empty is the empty list here. */
    method OverviewAccumulator(put: Task -> bool)
      requires Valid()
      modifies this`accumulator, this`delivered
      ensures Abs() == Step(cfg, old(Abs()), AccumulatorOverview(put)) && Valid()
    {
      StepKeeps(cfg, Abs(), AccumulatorOverview(put));
      ghost var s := Abs();
      ResendAccumulated(put);
      assert Abs() == Step(cfg, s, AccumulatorOverview(put));
    }

    method ResendAccumulated(put: Task -> bool)
      modifies this`accumulator, this`delivered
      ensures accumulator == Answered(old(accumulator), put, false)
      ensures delivered == old(delivered) + Answered(old(accumulator), put, true)
    {
      ghost var seen, rest := [], accumulator;
      var pos := 0;
      while pos < |accumulator|
        invariant seen + rest == old(accumulator)
        invariant pos == |Answered(seen, put, false)|
        invariant accumulator == Answered(seen, put, false) + rest
        invariant delivered == old(delivered) + Answered(seen, put, true)
        decreases |rest|
      {
        var t := accumulator[pos];
        AtCursor(Answered(seen, put, false), rest, t);
        Passed(seen, rest);
        assert Answered(seen, put, false) + [] == Answered(seen, put, false);
        if put(t) {
          delivered := delivered + [t];
          accumulator := Deleted(accumulator, pos);
        } else {
          assert accumulator[pos := t] == accumulator;
          pos := pos + 1;
        }
        seen, rest := seen + [rest[0]], rest[1..];
      }
      assert rest == [] && seen == old(accumulator);
    }

    // -- What other threads and commands do ------------------------------------------

    /** A testing thread writes to the record of a task on the belts. */
    method WriteTask(id: nat, status: Status, keep: bool, chain: seq<string>)
      requires Valid()
      modifies this
      ensures Abs() == Step(cfg, old(Abs()), ModuleWrites(id, status, keep, chain)) && Valid()
    {
      StepKeeps(cfg, Abs(), ModuleWrites(id, status, keep, chain));
      belts := WriteAll(cfg.mods, belts, id, status, keep, chain);
      if status != Running {
        changed := true;
      }
    }

    /** `wt_belts_status_changed` */
    method BeltsStatusChanged()
      requires Valid()
      modifies this
      ensures Abs() == Step(cfg, old(Abs()), StatusChanged) && Valid()
    {
      StepKeeps(cfg, Abs(), StatusChanged);
      changed := true;
    }

    /** `wt_queue_start`, `wt_queue_stop` */
    method SetQueueActive(on: bool)
      requires Valid()
      modifies this
      ensures Abs() == Step(cfg, old(Abs()), SwitchQueue(on)) && Valid()
    {
      StepKeeps(cfg, Abs(), SwitchQueue(on));
      queueActive := on;
    }

    /** `wt_belts_start`, `wt_belts_stop` */
    method SetBeltsActive(on: bool)
      requires Valid()
      modifies this
      ensures Abs() == Step(cfg, old(Abs()), SwitchBelts(on)) && Valid()
    {
      StepKeeps(cfg, Abs(), SwitchBelts(on));
      beltsActive := on;
    }

    /** `wt_queue_free` and `wt_belts_free`: `dyna_delete_all` with the restoring deleter. */
    method FreeAll()
      requires Valid()
      modifies this
      ensures Abs() == Step(cfg, old(Abs()), FreeQueueAndBelts) && Valid()
    {
      StepKeeps(cfg, Abs(), FreeQueueAndBelts);
      FreeQueue();
      FreeBelts();
    }

    /** `wt_mainloop_done`: the accumulator is destroyed with the deleter that does not restore. */
    method ShutDown()
      requires Valid()
      modifies this
      ensures Abs() == Step(cfg, old(Abs()), Shutdown) && Valid()
    {
      StepKeeps(cfg, Abs(), Shutdown);
      FreeQueue();
      FreeBelts();
      dropped := dropped + accumulator;
      accumulator := [];
    }

    /** `wt_queue_free` */
    method FreeQueue()
      modifies this`queue, this`restored
      ensures queue == [] && restored == old(restored) + old(queue)
    {
      ghost var seen := [];
      while queue != []
        invariant seen + queue == old(queue) && restored == old(restored) + seen
        decreases |queue|
      {
        var t := queue[0];
        Passed(seen, queue);
        queue := Deleted(queue, 0);
        restored := restored + [t];
        seen := seen + [t];
      }
    }

    /** `wt_belts_free` */
    method FreeBelts()
      modifies this`belts, this`restored
      ensures belts == [] && restored == old(restored) + old(belts)
    {
      ghost var seen := [];
      while belts != []
        invariant seen + belts == old(belts) && restored == old(restored) + seen
        decreases |belts|
      {
        var t := belts[0];
        Passed(seen, belts);
        belts := Deleted(belts, 0);
        restored := restored + [t];
        seen := seen + [t];
      }
    }
  }
}
