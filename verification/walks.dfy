/**
 * The two walks of `belts.c` over the doubly linked lists themselves: they delete the node
 * they stand on, and `belts_fill` also pushes onto the list it walks.
 */
module Walks {
  import opened Seqs
  import opened Tasks
  import opened Pipeline
  import opened BubbleSort
  import opened Dynastruc
  import Servers

  /** The tasks of a list, in order. */
  function Data(cells: seq<Cell<Task>>): (ts: seq<Task>)
    ensures |ts| == |cells| && forall i :: 0 <= i < |cells| ==> ts[i] == cells[i].data
  {
    seq(|cells|, i requires 0 <= i < |cells| => cells[i].data)
  }

  /** All nodes of the queue and the belts carry tag 0. */
  predicate Untagged(cells: seq<Cell<Task>>) {
    forall i :: 0 <= i < |cells| ==> cells[i].tag == 0
  }

  /** A list of tasks, and what it holds. */
  ghost predicate Holds(l: Dyna<Task>, ts: seq<Task>)
    reads l, l.items
  {
    l.Valid() && Untagged(l.cells) && Data(l.cells) == ts
  }

  ghost predicate Apart(a: Dyna<Task>, b: Dyna<Task>)
    reads a, b
  {
    a != b && forall x :: x in a.items ==> x !in b.items
  }

  lemma DataDeleted(cells: seq<Cell<Task>>, k: nat)
    requires k < |cells|
    ensures Data(cells[..k] + cells[k + 1..]) == Servers.Deleted(Data(cells), k)
    ensures Untagged(cells) ==> Untagged(cells[..k] + cells[k + 1..])
  {
  }

  lemma DataEnds(c: Cell<Task>, cells: seq<Cell<Task>>)
    ensures Data([c] + cells) == [c.data] + Data(cells) && Data(cells + [c]) == Data(cells) + [c.data]
    ensures Untagged(cells) && c.tag == 0 ==> Untagged([c] + cells) && Untagged(cells + [c])
  {
  }

  /** `dyna_delete` of the node at the cursor; what followed it is read from the node afterwards. */
  method Unlink(l: Dyna<Task>, cur: Item<Task>, ghost pos: nat, ghost ts: seq<Task>, ghost other: Dyna<Task>,
                ghost us: seq<Task>)
    returns (t: Task, next: Item?<Task>)
    requires Holds(l, ts) && pos < |l.items| && l.items[pos] == cur && Apart(l, other) && Holds(other, us)
    modifies l, l.items
    ensures pos < |ts| && t == ts[pos] && Holds(l, Servers.Deleted(ts, pos))
    ensures l.items == old(l.items)[..pos] + old(l.items)[pos + 1..]
    ensures next == NodeAt(l, pos)
    ensures forall i :: 0 <= i < |l.items| ==> l.items[i] in old(l.items)
    ensures Apart(l, other) && Holds(other, us) && other.items == old(other.items)
  {
    assert ItemAt(l.items, l.cells, pos);
    DataDeleted(l.cells, pos);
    t := cur.data;
    l.Delete(cur, pos);
    next := cur.next;
    forall i | 0 <= i < |other.items| ensures ItemAt(other.items, other.cells, i) {
      assert old(ItemAt(other.items, other.cells, i));
      assert other.items[i] in old(other.items);
    }
  }

  /** The node at a position, or null behind the last one. */
  ghost function NodeAt(l: Dyna<Task>, pos: nat): Item?<Task>
    reads l
  {
    if pos < |l.items| then l.items[pos] else null
  }

  /** `wt_task_in_belts` */
  method InList(l: Dyna<Task>, t: Task, ghost ts: seq<Task>) returns (found: bool)
    requires Holds(l, ts)
    modifies l`find
    ensures Holds(l, ts) && found == Known(ts, t.sid, t.lid)
  {
    var hit := (u: Task) => u.sid == t.sid && u.lid == t.lid;
    l.SearchReset();
    var r := l.Search(0, hit);
    found := r != null;
    ghost var k := NextMatch(l.cells, 0, 0, hit);
    if k < |ts| {
      assert ts[k] == l.cells[k].data;
    }
  }

  /** `dyna_append` */
  method AppendTask(l: Dyna<Task>, t: Task, ghost ts: seq<Task>, ghost other: Dyna<Task>, ghost us: seq<Task>)
    requires Holds(l, ts) && Apart(l, other) && Holds(other, us)
    modifies l, l.items
    ensures Holds(l, ts + [t]) && Apart(l, other) && Holds(other, us) && other.items == old(other.items)
    ensures forall i :: 0 <= i < |l.items| ==> l.items[i] in old(l.items) || fresh(l.items[i])
  {
    ghost var all := l.items;
    DataEnds(Cell(t, 0), l.cells);
    l.AddToBack(t, 0);
    assert l.items == all + [l.items[|all|]];
    forall i | 0 <= i < |other.items| ensures ItemAt(other.items, other.cells, i) {
      assert old(ItemAt(other.items, other.cells, i));
      assert other.items[i] in old(other.items);
    }
  }

  /** `dyna_push`: every node moves one position on. */
  method PushTask(l: Dyna<Task>, t: Task, ghost ts: seq<Task>, ghost other: Dyna<Task>, ghost us: seq<Task>)
    requires Holds(l, ts) && Apart(l, other) && Holds(other, us)
    modifies l, l.items
    ensures Holds(l, [t] + ts) && Apart(l, other) && Holds(other, us) && other.items == old(other.items)
    ensures forall i :: 0 <= i < |l.items| ==> l.items[i] in old(l.items) || fresh(l.items[i])
    ensures |l.items| == |old(l.items)| + 1 && l.items[1..] == old(l.items)
  {
    ghost var all := l.items;
    DataEnds(Cell(t, 0), l.cells);
    l.Push(t, 0);
    assert l.items == [l.items[0]] + all;
    forall i | 0 <= i < |other.items| ensures ItemAt(other.items, other.cells, i) {
      assert old(ItemAt(other.items, other.cells, i));
      assert other.items[i] in old(other.items);
    }
  }

  // -- belts_fill --------------------------------------------------------------------

  /** Where the walk of `belts_fill` stands: the lists, and the node that comes next. */
  ghost predicate FillAt(mods: seq<Module>, queue: Dyna<Task>, belts: Dyna<Task>, cur: Item?<Task>, o: Oracle,
                         b0: seq<Task>, seen: seq<Task>, rest: seq<Task>, restored: seq<Task>, dropped: seq<Task>)
    reads queue, queue.items, belts, belts.items
  {
    var f := Fill(mods, b0, seen, o);
    && Apart(queue, belts)
    && Holds(queue, Reversed(f.kept) + rest) && Holds(belts, b0 + f.taken)
    && cur == NodeAt(queue, |f.kept|) && restored == f.restored && dropped == f.dropped
  }

  /** What becomes of one task. */
  function Moved(mods: seq<Module>, f: Filled, known: bool, t: Task, o: Oracle): Filled {
    if known then f.(dropped := f.dropped + [t]) else Admit(mods, f, t, o)
  }

  /** A task kept waiting is pushed; the node the walk stands at is one position further on. */
  method HandBack(queue: Dyna<Task>, belts: Dyna<Task>, t: Task,
                  ghost kept: seq<Task>, ghost rest: seq<Task>, ghost us: seq<Task>)
    requires Apart(queue, belts) && |kept| <= |queue.items|
    requires Holds(queue, Reversed(kept) + rest) && Holds(belts, us)
    modifies queue, queue.items
    ensures Apart(queue, belts) && belts.items == old(belts.items)
    ensures forall i :: 0 <= i < |queue.items| ==> queue.items[i] in old(queue.items) || fresh(queue.items[i])
    ensures Holds(queue, Reversed(kept + [t]) + rest) && Holds(belts, us)
    ensures NodeAt(queue, |kept + [t]|) == old(NodeAt(queue, |kept|))
  {
    ghost var was := queue.items;
    Servers.PushReversed(kept, t, rest);
    PushTask(queue, t, Reversed(kept) + rest, belts, us);
    assert |kept| < |was| ==> queue.items[1..][|kept|] == was[|kept|];
  }

  /** An accepted task is appended to the belts. */
  method HandOn(queue: Dyna<Task>, belts: Dyna<Task>, t: Task,
                ghost b0: seq<Task>, ghost taken: seq<Task>, ghost ts: seq<Task>)
    requires Apart(queue, belts) && Holds(queue, ts) && Holds(belts, b0 + taken)
    modifies belts, belts.items
    ensures Apart(queue, belts) && queue.items == old(queue.items)
    ensures forall i :: 0 <= i < |belts.items| ==> belts.items[i] in old(belts.items) || fresh(belts.items[i])
    ensures Holds(queue, ts) && Holds(belts, b0 + (taken + [t]))
  {
    AppendTask(belts, t, b0 + taken, queue, ts);
    assert (b0 + taken) + [t] == b0 + (taken + [t]);
  }

  /** The task that was unlinked goes to the belts, back to the head of the queue, or out. */
  method HandOver(mods: seq<Module>, queue: Dyna<Task>, belts: Dyna<Task>, t: Task, o: Oracle,
                  restored0: seq<Task>, dropped0: seq<Task>,
                  ghost f: Filled, ghost b0: seq<Task>, ghost rest: seq<Task>)
    returns (restored: seq<Task>, dropped: seq<Task>)
    requires Apart(queue, belts) && |f.kept| <= |queue.items|
    requires Holds(queue, Reversed(f.kept) + rest) && Holds(belts, b0 + f.taken)
    requires restored0 == f.restored && dropped0 == f.dropped
    modifies queue, queue.items, belts, belts.items
    ensures Apart(queue, belts)
    ensures forall i :: 0 <= i < |queue.items| ==> queue.items[i] in old(queue.items) || fresh(queue.items[i])
    ensures forall i :: 0 <= i < |belts.items| ==> belts.items[i] in old(belts.items) || fresh(belts.items[i])
    ensures var f' := Moved(mods, f, Known(b0 + f.taken, t.sid, t.lid), t, o);
            && Holds(queue, Reversed(f'.kept) + rest) && Holds(belts, b0 + f'.taken)
            && NodeAt(queue, |f'.kept|) == old(NodeAt(queue, |f.kept|))
            && f'.restored == restored && f'.dropped == dropped
  {
    restored, dropped := restored0, dropped0;
    var known := InList(belts, t, b0 + f.taken);
    if known {
      dropped := dropped + [t];
      return;
    }
    var s := SendForTesting(mods, t, o);
    if s.ok {
      HandOn(queue, belts, s.task, b0, f.taken, Reversed(f.kept) + rest);
    } else if !s.task.keep {
      restored := restored + [s.task];
    } else {
      HandBack(queue, belts, s.task, f.kept, rest, b0 + f.taken);
    }
  }

  /** One turn of the loop of `belts_fill`: unlink the node, step to what followed it, hand the task over. */
  method FillTurn(mods: seq<Module>, queue: Dyna<Task>, belts: Dyna<Task>, cur: Item<Task>, o: Oracle,
                  restored0: seq<Task>, dropped0: seq<Task>,
                  ghost b0: seq<Task>, ghost seen: seq<Task>, ghost rest: seq<Task>)
    returns (next: Item?<Task>, restored: seq<Task>, dropped: seq<Task>)
    requires rest != [] && FillAt(mods, queue, belts, cur, o, b0, seen, rest, restored0, dropped0)
    modifies queue, queue.items, belts, belts.items
    ensures FillAt(mods, queue, belts, next, o, b0, seen + [rest[0]], rest[1..], restored, dropped)
    ensures forall i :: 0 <= i < |queue.items| ==> queue.items[i] in old(queue.items) || fresh(queue.items[i])
    ensures forall i :: 0 <= i < |belts.items| ==> belts.items[i] in old(belts.items) || fresh(belts.items[i])
  {
    ghost var f := Fill(mods, b0, seen, o);
    ghost var us := b0 + f.taken;
    FillOneMore(mods, b0, seen, rest, o);
    Servers.AtCursor(Reversed(f.kept), rest, rest[0]);
    var t: Task;
    t, next := Unlink(queue, cur, |f.kept|, Reversed(f.kept) + rest, belts, us);
    restored, dropped := HandOver(mods, queue, belts, t, o, restored0, dropped0, f, b0, rest[1..]);
  }

  lemma FillOneMore(mods: seq<Module>, b0: seq<Task>, seen: seq<Task>, rest: seq<Task>, o: Oracle)
    requires rest != []
    ensures var f, t := Fill(mods, b0, seen, o), rest[0];
            Fill(mods, b0, seen + [t], o) == Moved(mods, f, Known(b0 + f.taken, t.sid, t.lid), t, o)
  {
    Servers.Passed(seen, rest);
  }

  /** The part of the queue the walk has behind it, and whether it goes on. */
  ghost predicate Underway(cfg: Config, o: Oracle, q0: seq<Task>, b0: seq<Task>, seen: seq<Task>, rest: seq<Task>) {
    |seen| <= Visited(cfg.mods, b0, q0, cfg.beltsSize, o, 0) && q0[..|seen|] == seen && q0[|seen|..] == rest
  }

  ghost predicate Filling(cfg: Config, queue: Dyna<Task>, belts: Dyna<Task>, cur: Item?<Task>, o: Oracle,
                          q0: seq<Task>, b0: seq<Task>, seen: seq<Task>, rest: seq<Task>, restored: seq<Task>,
                          dropped: seq<Task>)
    reads queue, queue.items, belts, belts.items
  {
    FillAt(cfg.mods, queue, belts, cur, o, b0, seen, rest, restored, dropped) && Underway(cfg, o, q0, b0, seen, rest)
  }

  /** The lists and histories after a fill of the tasks the walk visits. */
  ghost predicate FilledAsFar(cfg: Config, queue: Dyna<Task>, belts: Dyna<Task>, o: Oracle, q0: seq<Task>,
                              b0: seq<Task>,
                              restored: seq<Task>, dropped: seq<Task>)
    reads queue, queue.items, belts, belts.items
  {
    var n := Visited(cfg.mods, b0, q0, cfg.beltsSize, o, 0);
    var f := Fill(cfg.mods, b0, q0[..n], o);
    && Holds(queue, Reversed(f.kept) + q0[n..]) && Holds(belts, b0 + f.taken)
    && restored == f.restored && dropped == f.dropped
  }

  /** One more turn, if the guard of the loop holds. */
  method FillNext(cfg: Config, queue: Dyna<Task>, belts: Dyna<Task>, cur: Item?<Task>, o: Oracle,
                  restored0: seq<Task>, dropped0: seq<Task>,
                  ghost q0: seq<Task>, ghost b0: seq<Task>, ghost seen0: seq<Task>, ghost rest0: seq<Task>)
    returns (next: Item?<Task>, restored: seq<Task>, dropped: seq<Task>, ghost seen: seq<Task>, ghost rest: seq<Task>)
    requires cur != null && belts.count < cfg.beltsSize
    requires Filling(cfg, queue, belts, cur, o, q0, b0, seen0, rest0, restored0, dropped0)
    modifies queue, queue.items, belts, belts.items
    ensures Filling(cfg, queue, belts, next, o, q0, b0, seen, rest, restored, dropped) && |rest| < |rest0|
    ensures forall i :: 0 <= i < |queue.items| ==> queue.items[i] in old(queue.items) || fresh(queue.items[i])
    ensures forall i :: 0 <= i < |belts.items| ==> belts.items[i] in old(belts.items) || fresh(belts.items[i])
  {
    StillFilling(cfg, queue, belts, cur, o, q0, b0, seen0, rest0, restored0, dropped0);
    next, restored, dropped := FillTurn(cfg.mods, queue, belts, cur, o, restored0, dropped0, b0, seen0, rest0);
    Servers.Advanced(q0, seen0, rest0);
    seen, rest := seen0 + [rest0[0]], rest0[1..];
  }

  /**
   * `belts_fill` on the linked queue and the linked belts: it terminates although it pushes
   * onto the list it walks, and leaves in both what a fill of the visited tasks gives.
   */
  method FillLinks(cfg: Config, queue: Dyna<Task>, belts: Dyna<Task>, o: Oracle, ghost q0: seq<Task>,
                   ghost b0: seq<Task>)
    returns (restored: seq<Task>, dropped: seq<Task>)
    requires Apart(queue, belts) && Holds(queue, q0) && Holds(belts, b0)
    modifies queue, queue.items, belts, belts.items
    ensures Apart(queue, belts)
    ensures FilledAsFar(cfg, queue, belts, o, q0, b0, restored, dropped)
  {
    FillStart(cfg, queue, belts, o, q0, b0);
    restored, dropped := FillRest(cfg, queue, belts, queue.head, o, [], [], q0, b0, [], q0);
  }

  /** The loop of `belts_fill` from the node `cur` on, as a tail call. */
  method FillRest(cfg: Config, queue: Dyna<Task>, belts: Dyna<Task>, cur: Item?<Task>, o: Oracle,
                  restored0: seq<Task>, dropped0: seq<Task>,
                  ghost q0: seq<Task>, ghost b0: seq<Task>, ghost seen: seq<Task>, ghost rest: seq<Task>)
    returns (restored: seq<Task>, dropped: seq<Task>)
    requires Filling(cfg, queue, belts, cur, o, q0, b0, seen, rest, restored0, dropped0)
    modifies queue, queue.items, belts, belts.items
    ensures Apart(queue, belts)
    ensures FilledAsFar(cfg, queue, belts, o, q0, b0, restored, dropped)
    decreases |rest|
  {
    if cur == null || belts.count >= cfg.beltsSize {
      FillEnd(cfg, queue, belts, cur, o, q0, b0, seen, rest, restored0, dropped0);
      return restored0, dropped0;
    }
    var next;
    ghost var seen', rest';
    next, restored, dropped, seen', rest' :=
      FillNext(cfg, queue, belts, cur, o, restored0, dropped0, q0, b0, seen, rest);
    restored, dropped := FillRest(cfg, queue, belts, next, o, restored, dropped, q0, b0, seen', rest');
  }

  lemma FillStart(cfg: Config, queue: Dyna<Task>, belts: Dyna<Task>, o: Oracle, q0: seq<Task>, b0: seq<Task>)
    requires Apart(queue, belts) && Holds(queue, q0) && Holds(belts, b0)
    ensures Filling(cfg, queue, belts, queue.head, o, q0, b0, [], q0, [], [])
  {
    assert q0[..0] == [] && q0[0..] == q0 && b0 + [] == b0;
  }

  lemma FillEnd(cfg: Config, queue: Dyna<Task>, belts: Dyna<Task>, cur: Item?<Task>, o: Oracle,
                q0: seq<Task>, b0: seq<Task>, seen: seq<Task>, rest: seq<Task>, restored: seq<Task>, dropped: seq<Task>)
    requires Filling(cfg, queue, belts, cur, o, q0, b0, seen, rest, restored, dropped)
    requires !(cur != null && belts.count < cfg.beltsSize)
    ensures FilledAsFar(cfg, queue, belts, o, q0, b0, restored, dropped)
  {
    StillFilling(cfg, queue, belts, cur, o, q0, b0, seen, rest, restored, dropped);
  }

  lemma StillFilling(cfg: Config, queue: Dyna<Task>, belts: Dyna<Task>, cur: Item?<Task>, o: Oracle,
                     q0: seq<Task>, b0: seq<Task>, seen: seq<Task>, rest: seq<Task>, restored: seq<Task>,
                     dropped: seq<Task>)
    requires Filling(cfg, queue, belts, cur, o, q0, b0, seen, rest, restored, dropped)
    ensures cur != null && belts.count < cfg.beltsSize <==>
            |seen| < Visited(cfg.mods, b0, q0, cfg.beltsSize, o, 0)
    ensures cur != null <==> rest != []
  {
    Servers.WhereItStops(cfg, b0, q0, o, |seen|);
  }

  // -- belts_overview_status ---------------------------------------------------------

  /** Where the overview stands: the belts, and the node that comes next. */
  ghost predicate SweepAt(mods: seq<Module>, belts: Dyna<Task>, cur: Item?<Task>, o: Oracle,
                          seen: seq<Task>, rest: seq<Task>, out: Swept)
    reads belts, belts.items
  {
    && AllTaken(mods, seen) && AllTaken(mods, rest)
    && var w := Sweep(mods, seen, o);
       && Holds(belts, w.stay + rest) && cur == NodeAt(belts, |w.stay|)
       && out == w.(stay := [])
  }

  /** What a testing module or the chain made of the record of a task. */
  method Rewrite(l: Dyna<Task>, cur: Item<Task>, t: Task, ghost pos: nat, ghost ts: seq<Task>)
    requires Holds(l, ts) && pos < |l.items| && l.items[pos] == cur
    modifies l`cells, cur`data
    ensures pos < |ts| && Holds(l, ts[pos := t])
  {
    ghost var was := l.cells;
    cur.data := t;
    l.cells := l.cells[pos := Cell(t, 0)];
    forall i | 0 <= i < |l.items| ensures ItemAt(l.items, l.cells, i) {
      assert old(ItemAt(l.items, l.cells, i));
    }
  }

  /** `dyna_delete` of a node whose successor was read before. */
  method Remove(l: Dyna<Task>, cur: Item<Task>, ghost pos: nat, ghost ts: seq<Task>)
    requires Holds(l, ts) && pos < |l.items| && l.items[pos] == cur
    modifies l, l.items
    ensures pos < |ts| && Holds(l, Servers.Deleted(ts, pos))
    ensures l.items == old(l.items)[..pos] + old(l.items)[pos + 1..]
  {
    DataDeleted(l.cells, pos);
    l.Delete(cur, pos);
  }

  lemma SweepOneMore(mods: seq<Module>, seen: seq<Task>, rest: seq<Task>, o: Oracle)
    requires rest != [] && AllTaken(mods, seen) && AllTaken(mods, rest)
    ensures AllTaken(mods, seen + [rest[0]]) && AllTaken(mods, rest[1..])
    ensures Sweep(mods, seen + [rest[0]], o) == Sort(Sweep(mods, seen, o), Review(mods, rest[0], o))
  {
    Servers.Passed(seen, rest);
  }

  /** The task of the node, and the node that follows. */
  method StepOn(belts: Dyna<Task>, cur: Item<Task>, ghost stay: seq<Task>, ghost rest: seq<Task>)
    returns (t: Task, next: Item?<Task>)
    requires rest != [] && Holds(belts, stay + rest) && cur == NodeAt(belts, |stay|)
    ensures t == rest[0] && next == NodeAt(belts, |stay| + 1)
  {
    assert ItemAt(belts.items, belts.cells, |stay|);
    t, next := cur.data, cur.next;
    assert t == (stay + rest)[|stay|];
  }

  /** The task stays with its record rewritten, or its node is deleted; `next` is what follows. */
  method KeepOrRemove(belts: Dyna<Task>, cur: Item<Task>, v: Verdict, next: Item?<Task>, ghost stay: seq<Task>,
                      ghost rest: seq<Task>)
    requires rest != [] && Holds(belts, stay + rest)
    requires cur == NodeAt(belts, |stay|) && next == NodeAt(belts, |stay| + 1)
    modifies belts, belts.items
    ensures Holds(belts, (if v.Stays? then stay + [v.task] else stay) + rest[1..])
    ensures next == NodeAt(belts, if v.Stays? then |stay| + 1 else |stay|)
    ensures forall i :: 0 <= i < |belts.items| ==> belts.items[i] in old(belts.items)
  {
    Servers.AtCursor(stay, rest, v.task);
    if v.Stays? {
      Rewrite(belts, cur, v.task, |stay|, stay + rest);
    } else {
      ghost var was := belts.items;
      Remove(belts, cur, |stay|, stay + rest);
      assert |stay| < |belts.items| ==> belts.items[|stay|] == was[|stay| + 1];
    }
  }

  /** One turn of the loop of `belts_overview_status`: step on, then delete the node if its task leaves. */
  method OverviewTurn(mods: seq<Module>, belts: Dyna<Task>, cur: Item<Task>, o: Oracle, out0: Swept,
                      ghost seen: seq<Task>, ghost rest: seq<Task>)
    returns (next: Item?<Task>, out: Swept)
    requires rest != [] && SweepAt(mods, belts, cur, o, seen, rest, out0)
    modifies belts, belts.items
    ensures SweepAt(mods, belts, next, o, seen + [rest[0]], rest[1..], out)
    ensures forall i :: 0 <= i < |belts.items| ==> belts.items[i] in old(belts.items)
  {
    ghost var stay := Sweep(mods, seen, o).stay;
    SweepOneMore(mods, seen, rest, o);
    var t;
    t, next := StepOn(belts, cur, stay, rest);
    var v := Review(mods, t, o);
    out := Sort(out0, v).(stay := []);
    KeepOrRemove(belts, cur, v, next, stay, rest);
  }

  /** `belts_overview_status` on the linked belts: they keep what a sweep keeps. */
  method OverviewLinks(mods: seq<Module>, belts: Dyna<Task>, o: Oracle, ghost b0: seq<Task>) returns (out: Swept)
    requires Holds(belts, b0) && AllTaken(mods, b0)
    modifies belts, belts.items
    ensures AllTaken(mods, b0) && Holds(belts, Sweep(mods, b0, o).stay) && out == Sweep(mods, b0, o).(stay := [])
  {
    ghost var seen, rest := [], b0;
    out := Swept([], [], [], []);
    assert [] + b0 == b0;
    var cur := belts.head;
    while cur != null
      invariant SweepAt(mods, belts, cur, o, seen, rest, out) && seen + rest == b0
      invariant forall i :: 0 <= i < |belts.items| ==> belts.items[i] in old(belts.items)
      decreases |rest|
    {
      assert rest != [];
      cur, out := OverviewTurn(mods, belts, cur, o, out, seen, rest);
      Servers.Passed(seen, rest);
      seen, rest := seen + [rest[0]], rest[1..];
    }
    assert rest == [] && seen == b0;
    assert Sweep(mods, b0, o).stay + [] == Sweep(mods, b0, o).stay;
  }
}
