/**
 * A task under judgement: the record of `task.h`, the chain of further modules that
 * `wt_task_chaintest` builds, and the calls that hand a task to a testing module.
 */
module Tasks {
  import opened Seqs

  const MAXCHAIN := 32
  const NO_MODULE := -1

  datatype Module = Module(name: string, id: int)

  datatype Status = Pending | Running | Finished | Interrupted

  /**
   * `id` is the spawn number of the record (its address in the original), `keep` is
   * TF_KEEPINQUEUE, `chain[..]` is `chain_testing.lid[0..last]`, and `accepted` is a
   * history variable: the ids of the modules that took the task, in order.
   */
  datatype Task = Task(
    id: nat, sid: int, lid: int,
    keep: bool, status: Status,
    chain: seq<int>, cur: nat, curLid: int, started: bool,
    accepted: seq<int>)

  function Spawn(id: nat, sid: int, lid: int): Task {
    Task(id, sid, lid, false, Pending, [], 0, 0, false, [])
  }

  function Key(t: Task): (int, int) { (t.sid, t.lid) }

  /** TASK_CURLID */
  function CurLid(t: Task): int {
    if t.started then t.curLid else t.lid
  }

  predicate SameTask(t: Task, u: Task) {
    t.id == u.id && t.sid == u.sid && t.lid == u.lid
  }

  function IdSet(mods: seq<Module>): set<int> {
    set i | 0 <= i < |mods| :: mods[i].id
  }

  /** `wt_module_id`: the first module of that name, or -1. */
  function ModuleId(mods: seq<Module>, name: string): int {
    if mods == [] then NO_MODULE
    else if mods[0].name == name then mods[0].id
    else ModuleId(mods[1..], name)
  }

  /** What a chain may hold: the ids that names stand for, and -1 for an unknown name. */
  function Universe(mods: seq<Module>): set<int> {
    (set i | 0 <= i < |mods| :: ModuleId(mods, mods[i].name)) + {NO_MODULE}
  }

  lemma {:induction false} UnknownName(mods: seq<Module>, name: string)
    requires forall i :: 0 <= i < |mods| ==> mods[i].name != name
    ensures ModuleId(mods, name) == NO_MODULE
  {
    if mods != [] {
      UnknownName(mods[1..], name);
    }
  }

  lemma ModuleIdInUniverse(mods: seq<Module>, name: string)
    ensures ModuleId(mods, name) in Universe(mods)
  {
    if i :| 0 <= i < |mods| && mods[i].name == name {
      assert ModuleId(mods, mods[i].name) in Universe(mods);
    } else {
      UnknownName(mods, name);
    }
  }

  function AddToChain(t: Task, lid: int): Task {
    if lid in t.chain || lid == t.lid then t else t.(chain := t.chain + [lid])
  }

  /** `wt_task_chaintest`: scan the chain so far, append the library unless it is known. */
  method ChainTest(t: Task, lid: int) returns (rc: int, r: Task)
    ensures rc == 0 <==> lid !in [t.lid] + t.chain
    ensures rc == 0 ==> r == t.(chain := t.chain + [lid])
    ensures rc != 0 ==> rc == -1 && r == t
    ensures r == AddToChain(t, lid)
  {
    var found := false;
    var i := 0;
    while i < |t.chain|
      invariant 0 <= i <= |t.chain|
      invariant !found && lid !in t.chain[..i]
    {
      if t.chain[i] == lid {
        found := true;
        break;
      }
      i := i + 1;
    }
    if found || t.lid == lid {
      return -1, t;
    }
    return 0, t.(chain := t.chain + [lid]);
  }

  function AddNames(mods: seq<Module>, t: Task, names: seq<string>): Task
    decreases |names|
  {
    if names == [] then t
    else AddNames(mods, AddToChain(t, ModuleId(mods, names[0])), names[1..])
  }

  /**
   * What a module's StartForTesting does with the task it is given: take it or not,
   * raise TF_KEEPINQUEUE, write the status, and ask for further modules by name.
   */
  datatype Answer = Answer(accept: bool, keep: bool, status: Status, chain: seq<string>)

  /** The world outside the server during one pass over the containers. */
  datatype Oracle = Oracle(getTask: Task -> bool, start: Task -> Answer, put: Task -> bool)

  datatype Sent = Sent(task: Task, ok: bool)

  /** `wt_module_send_for_testing` */
  function SendToModule(mods: seq<Module>, t: Task, o: Oracle): (r: Sent)
    ensures SameTask(t, r.task) && r.task.cur == t.cur
  {
    if CurLid(t) !in IdSet(mods) then Sent(t, false)
    else
      var a := o.start(t);
      AddNamesKeeps(mods, t.(keep := t.keep || a.keep, status := a.status), a.chain);
      var u := AddNames(mods, t.(keep := t.keep || a.keep, status := a.status), a.chain);
      if a.accept then Sent(u.(accepted := u.accepted + [CurLid(t)]), true)
      else Sent(u, false)
  }

  /** `send_for_testing` */
  function SendForTesting(mods: seq<Module>, t: Task, o: Oracle): Sent {
    var u := t.(keep := false);
    if !o.getTask(u) then Sent(u, false) else SendToModule(mods, u, o)
  }

  /** The step `send_to_chain` makes before it calls the module. */
  function NextInChain(t: Task): Task
    requires t.cur < |t.chain|
  {
    t.(curLid := t.chain[t.cur], started := true, cur := t.cur + 1)
  }

  /** The modules a task has been offered to, in the order of the chain. */
  function Offered(t: Task): seq<int>
    requires t.cur <= |t.chain|
  {
    [t.lid] + t.chain[..t.cur]
  }

  /**
   * The invariant of a task record. The chain has no repeats and never names the task's
   * own library; what was accepted follows the chain.
   */
  predicate TaskOk(mods: seq<Module>, t: Task) {
    && NoDup(t.chain) && t.lid !in t.chain && t.cur <= |t.chain|
    && (forall l :: l in t.chain ==> l in Universe(mods))
    && (t.chain != [] ==> t.lid in IdSet(mods))
    && Subseq(t.accepted, Offered(t))
  }

  /** Waiting: no module has taken the task yet. */
  predicate Waiting(t: Task) {
    t.accepted == [] && !t.started && t.cur == 0
  }

  /** In testing: the task's own library took it first. */
  predicate Taken(mods: seq<Module>, t: Task) {
    t.accepted != [] && t.accepted[0] == t.lid && t.lid in IdSet(mods)
  }

  lemma {:induction false} AddNamesKeeps(mods: seq<Module>, t: Task, names: seq<string>)
    ensures var r := AddNames(mods, t, names);
            r == t.(chain := r.chain) && t.chain <= r.chain
    decreases |names|
  {
    if names != [] {
      AddNamesKeeps(mods, AddToChain(t, ModuleId(mods, names[0])), names[1..]);
    }
  }

  lemma AddToChainOk(mods: seq<Module>, t: Task, lid: int)
    requires TaskOk(mods, t) && t.lid in IdSet(mods) && lid in Universe(mods)
    ensures TaskOk(mods, AddToChain(t, lid))
  {
    var r := AddToChain(t, lid);
    assert r.chain[..r.cur] == t.chain[..t.cur];
    assert forall l :: l in r.chain ==> l in t.chain || l == lid;
  }

  lemma {:induction false} AddNamesOk(mods: seq<Module>, t: Task, names: seq<string>)
    requires TaskOk(mods, t) && t.lid in IdSet(mods)
    ensures TaskOk(mods, AddNames(mods, t, names))
    decreases |names|
  {
    if names != [] {
      ModuleIdInUniverse(mods, names[0]);
      AddToChainOk(mods, t, ModuleId(mods, names[0]));
      AddNamesOk(mods, AddToChain(t, ModuleId(mods, names[0])), names[1..]);
    }
  }

  /** The first hand-over of a waiting task. */
  lemma SendForTestingOk(mods: seq<Module>, t: Task, o: Oracle)
    requires TaskOk(mods, t) && Waiting(t)
    ensures var s := SendForTesting(mods, t, o);
            && TaskOk(mods, s.task)
            && (s.ok ==> Taken(mods, s.task))
            && (!s.ok ==> Waiting(s.task))
            && SameTask(t, s.task)
  {
    var u := t.(keep := false);
    if o.getTask(u) && u.lid in IdSet(mods) {
      var a := o.start(u);
      var v := u.(keep := u.keep || a.keep, status := a.status);
      assert TaskOk(mods, v);
      AddNamesOk(mods, v, a.chain);
      AddNamesKeeps(mods, v, a.chain);
      var w := AddNames(mods, v, a.chain);
      if a.accept {
        var x := w.(accepted := w.accepted + [CurLid(u)]);
        assert Offered(x) == [] + [t.lid];
        SubseqSnoc([], [], t.lid);
        assert x.accepted == [] + [t.lid];
      }
    }
  }

  lemma OfferedNext(t: Task)
    requires t.cur < |t.chain|
    ensures Offered(NextInChain(t)) == Offered(t) + [t.chain[t.cur]]
  {
    assert t.chain[..t.cur + 1] == t.chain[..t.cur] + [t.chain[t.cur]];
  }

  lemma NextOk(mods: seq<Module>, t: Task)
    requires TaskOk(mods, t) && t.cur < |t.chain|
    ensures TaskOk(mods, NextInChain(t))
    ensures Subseq(t.accepted + [t.chain[t.cur]], Offered(NextInChain(t)))
  {
    OfferedNext(t);
    SubseqSnoc(t.accepted, Offered(t), t.chain[t.cur]);
  }

  /** A task `w` is as sound as `t` for the part of the chain they share. */
  lemma PrefixOk(mods: seq<Module>, t: Task, w: Task)
    requires TaskOk(mods, w) && t.cur <= |t.chain| && t.chain <= w.chain
    requires w.lid == t.lid && w.cur == t.cur && Subseq(t.accepted, Offered(t))
    ensures TaskOk(mods, w.(accepted := t.accepted))
  {
    assert w.chain[..t.cur] == t.chain[..t.cur];
  }

  /**
   * Offering a task to the next module of its chain: the record stays sound both with the
   * cursor past that module and, when the module refused, with the cursor put back.
   */
  lemma SendToChainOk(mods: seq<Module>, t: Task, o: Oracle)
    requires TaskOk(mods, t) && Taken(mods, t) && t.cur < |t.chain|
    ensures var s := SendToModule(mods, NextInChain(t), o);
            && TaskOk(mods, s.task) && Taken(mods, s.task)
            && s.task.cur == t.cur + 1
            && (!s.ok ==> TaskOk(mods, s.task.(cur := t.cur)))
            && SameTask(t, s.task)
  {
    var u := NextInChain(t);
    NextOk(mods, t);
    if u.curLid in IdSet(mods) {
      var a := o.start(u);
      var v := u.(keep := u.keep || a.keep, status := a.status);
      assert TaskOk(mods, v);
      AddNamesOk(mods, v, a.chain);
      AddNamesKeeps(mods, v, a.chain);
      var w := AddNames(mods, v, a.chain);
      if a.accept {
        PrefixOk(mods, u.(accepted := t.accepted + [u.curLid]), w);
      } else {
        BackOk(mods, t, w);
      }
    }
  }

  lemma BackOk(mods: seq<Module>, t: Task, w: Task)
    requires TaskOk(mods, w) && TaskOk(mods, t) && t.chain <= w.chain
    requires w.lid == t.lid && w.accepted == t.accepted
    ensures TaskOk(mods, w.(cur := t.cur))
  {
    assert w.chain[..t.cur] == t.chain[..t.cur];
  }

  /** Pigeonhole: a chain without repeats is bounded by the names that can be resolved. */
  lemma ChainBound(mods: seq<Module>, t: Task)
    requires TaskOk(mods, t)
    ensures |t.chain| <= |Universe(mods) - {t.lid}| <= |Universe(mods)|
  {
    var u := Universe(mods);
    assert forall l :: l in t.chain ==> l in u && l != t.lid;
    Pigeonhole(t.chain, u - {t.lid});
    assert t.lid in u ==> |u - {t.lid}| == |u| - 1;
    assert t.lid !in u ==> u - {t.lid} == u;
  }

  /** What one turn of the loop over the chain keeps. */
  lemma ChainStepOk(mods: seq<Module>, t: Task, o: Oracle)
    requires TaskOk(mods, t) && Taken(mods, t) && t.cur < |t.chain|
    ensures var s := SendToModule(mods, NextInChain(t), o);
            && TaskOk(mods, s.task) && Taken(mods, s.task) && SameTask(t, s.task)
            && (!s.ok ==> TaskOk(mods, s.task.(cur := t.cur)))
            && s.task.cur == t.cur + 1 <= |Universe(mods)| && t.chain <= s.task.chain
            && s.task.accepted == if s.ok then t.accepted + [t.chain[t.cur]] else t.accepted
  {
    ChainBound(mods, t);
    SendToChainOk(mods, t, o);
    AcceptedGrows(mods, NextInChain(t), o);
  }

  datatype Chained = Chained(task: Task, needReturn: bool)

  /** The inner loop of `belts_overview_status` over the chain of a finished task. */
  function RunChain(mods: seq<Module>, t: Task, o: Oracle): (r: Chained)
    requires TaskOk(mods, t) && Taken(mods, t)
    ensures TaskOk(mods, r.task) && Taken(mods, r.task) && SameTask(t, r.task)
    ensures r.needReturn ==> r.task.cur == |r.task.chain|
    ensures t.accepted <= r.task.accepted && |r.task.accepted| <= |t.accepted| + 1
    decreases |Universe(mods)| - t.cur
  {
    if t.cur >= |t.chain| then Chained(t, true)
    else
      ChainStepOk(mods, t, o);
      var s := SendToModule(mods, NextInChain(t), o);
      if s.ok then Chained(s.task, false)
      else if s.task.keep then Chained(s.task.(cur := s.task.cur - 1), false)
      else RunChain(mods, s.task, o)
  }

  lemma AcceptedGrows(mods: seq<Module>, t: Task, o: Oracle)
    ensures var s := SendToModule(mods, t, o);
            && s.task.accepted == (if s.ok then t.accepted + [CurLid(t)] else t.accepted)
            && t.chain <= s.task.chain
  {
    if CurLid(t) in IdSet(mods) {
      var a := o.start(t);
      AddNamesKeeps(mods, t.(keep := t.keep || a.keep, status := a.status), a.chain);
    }
  }

  /** No module took the task; or the last one offered did; or it is to wait for that one. */
  predicate ChainEnded(t: Task, r: Chained)
    requires r.task.cur <= |r.task.chain|
  {
    if r.needReturn then r.task.accepted == t.accepted
    else || (r.task.cur > 0 && r.task.accepted == t.accepted + [r.task.chain[r.task.cur - 1]])
         || (r.task.accepted == t.accepted && r.task.keep && r.task.cur < |r.task.chain|)
  }

  /** The loop ends with the chain, with a module that takes the task, or with one that asks it to wait. */
  lemma {:induction false} RunChainMeans(mods: seq<Module>, t: Task, o: Oracle)
    requires TaskOk(mods, t) && Taken(mods, t)
    ensures ChainEnded(t, RunChain(mods, t, o))
    decreases |Universe(mods)| - t.cur
  {
    if t.cur < |t.chain| {
      ChainStepOk(mods, t, o);
      var s := SendToModule(mods, NextInChain(t), o);
      if s.ok {
        assert s.task.chain[t.cur] == t.chain[t.cur];
      } else if !s.task.keep {
        RunChainMeans(mods, s.task, o);
      }
    }
  }

  /** No module takes a task twice. */
  lemma AcceptedOnce(mods: seq<Module>, t: Task)
    requires TaskOk(mods, t)
    ensures NoDup(t.accepted)
    ensures Subseq(t.accepted, [t.lid] + t.chain)
  {
    assert NoDup(Offered(t));
    SubseqNoDup(t.accepted, Offered(t));
    SubseqPrefix(t.accepted, t.lid, t.chain, t.cur);
  }

  lemma OneFurther(x: int, c: seq<int>, n: nat)
    requires n < |c|
    ensures ([x] + c[..n]) + [c[n]] == [x] + c[..n + 1]
  {
  }

  lemma {:induction false} SubseqPrefix(a: seq<int>, x: int, c: seq<int>, n: nat)
    requires n <= |c| && Subseq(a, [x] + c[..n])
    ensures Subseq(a, [x] + c)
    decreases |c| - n
  {
    if n < |c| {
      SubseqSnoc(a, [x] + c[..n], c[n]);
      OneFurther(x, c, n);
      SubseqPrefix(a, x, c, n + 1);
    } else {
      assert c[..n] == c;
    }
  }
}
