/**
 * The doubly linked list of `dynastruc.c`. Its links, its ends and its count are kept a
 * faithful image of one sequence of items.
 */
module Dynastruc {
  import opened Seqs
  import opened BubbleSort

  class Item<T> {
    var data: T
    var tag: int
    var next: Item?<T>
    var prev: Item?<T>

    constructor (data: T, tag: int)
      ensures this.data == data && this.tag == tag && next == null && prev == null
    {
      this.data, this.tag := data, tag;
      next, prev := null, null;
    }
  }

  /** Position of the first cell from `from` on that `dyna_search` looks for, or the length. */
  function NextMatch<T>(s: seq<Cell<T>>, from: nat, tag: int, hit: T -> bool): (k: nat)
    requires from <= |s|
    ensures from <= k <= |s|
    ensures forall i :: from <= i < k ==> !(s[i].tag == tag && hit(s[i].data))
    ensures k < |s| ==> s[k].tag == tag && hit(s[k].data)
    decreases |s| - from
  {
    if from == |s| || (s[from].tag == tag && hit(s[from].data)) then from
    else NextMatch(s, from + 1, tag, hit)
  }

  /** Item `i` is linked to its neighbours and carries cell `i`. */
  ghost predicate ItemAt<T>(items: seq<Item<T>>, cells: seq<Cell<T>>, i: nat)
    requires i < |items| && i < |cells|
    reads items[i]
  {
    && items[i].next == (if i + 1 < |items| then items[i + 1] else null)
    && items[i].prev == (if i > 0 then items[i - 1] else null)
    && items[i].data == cells[i].data && items[i].tag == cells[i].tag
  }

  /** Neighbours point at each other, the ends point nowhere, no item occurs twice. */
  ghost predicate Chain<T>(items: seq<Item<T>>, cells: seq<Cell<T>>)
    reads items
  {
    && |items| == |cells|
    && (forall i, j :: 0 <= i < j < |items| ==> items[i] != items[j])
    && (forall i :: 0 <= i < |items| ==> ItemAt(items, cells, i))
  }

  /** Item `i`, when the item `k` has been left out between its neighbours. */
  ghost predicate BypassedAt<T>(items: seq<Item<T>>, cells: seq<Cell<T>>, k: nat, i: nat)
    requires i < |items| && i < |cells|
    reads items[i]
  {
    var after, before := if i + 1 == k then k + 1 else i + 1, if i == k + 1 then i - 2 else i - 1;
    && items[i].next == (if after < |items| then items[after] else null)
    && items[i].prev == (if before >= 0 then items[before] else null)
    && items[i].data == cells[i].data && items[i].tag == cells[i].tag
  }

  /** What is left is a chain of its own. */
  lemma Bypassed<T>(items: seq<Item<T>>, cells: seq<Cell<T>>, k: nat)
    requires k < |items| == |cells| && forall i, j :: 0 <= i < j < |items| ==> items[i] != items[j]
    requires forall i :: 0 <= i < |items| && i != k ==> BypassedAt(items, cells, k, i)
    ensures Chain(items[..k] + items[k + 1..], cells[..k] + cells[k + 1..])
  {
    var rest, left := items[..k] + items[k + 1..], cells[..k] + cells[k + 1..];
    forall i | 0 <= i < |rest| ensures ItemAt(rest, left, i) {
      assert BypassedAt(items, cells, k, if i < k then i else i + 1);
    }
  }

  function FirstOf<T>(items: seq<Item<T>>): Item?<T> { if items == [] then null else items[0] }

  function LastOf<T>(items: seq<Item<T>>): Item?<T> { if items == [] then null else Last(items) }

  /** The ends of what is left. */
  lemma EndsLeft<T>(items: seq<Item<T>>, cells: seq<Cell<T>>, k: nat, head: Item?<T>, tail: Item?<T>)
    requires Chain(items, cells) && k < |items|
    requires head == items[0] || (k == 0 && head == items[k].next)
    requires tail == Last(items) || (k == |items| - 1 && tail == items[k].prev)
    ensures (if items[k] == head then items[k].next else head) == FirstOf(items[..k] + items[k + 1..])
    ensures (if items[k] == tail then items[k].prev else tail) == LastOf(items[..k] + items[k + 1..])
  {
    assert ItemAt(items, cells, k);
  }

  /** A new item in front of a chain. */
  lemma Prepended<T>(p: Item<T>, items: seq<Item<T>>, cells: seq<Cell<T>>)
    requires |items| == |cells| && (forall i, j :: 0 <= i < j < |items| ==> items[i] != items[j]) && p !in items
    requires p.prev == null && p.next == FirstOf(items)
    requires items != [] ==>
               && items[0].prev == p && items[0].next == (if |items| > 1 then items[1] else null)
               && items[0].data == cells[0].data && items[0].tag == cells[0].tag
    requires forall i :: 0 < i < |items| ==> ItemAt(items, cells, i)
    ensures Chain([p] + items, [Cell(p.data, p.tag)] + cells)
  {
    var all, now := [p] + items, [Cell(p.data, p.tag)] + cells;
    forall i | 0 <= i < |all| ensures ItemAt(all, now, i) {
      assert i > 1 ==> ItemAt(items, cells, i - 1);
    }
  }

  /** A new item behind a chain. */
  lemma Appended<T>(p: Item<T>, items: seq<Item<T>>, cells: seq<Cell<T>>)
    requires |items| == |cells| && (forall i, j :: 0 <= i < j < |items| ==> items[i] != items[j]) && p !in items
    requires p.next == null && p.prev == LastOf(items)
    requires items != [] ==>
               var n := |items| - 1;
               && items[n].next == p && items[n].prev == (if n > 0 then items[n - 1] else null)
               && items[n].data == cells[n].data && items[n].tag == cells[n].tag
    requires forall i :: 0 <= i < |items| - 1 ==> ItemAt(items, cells, i)
    ensures Chain(items + [p], cells + [Cell(p.data, p.tag)])
  {
    var all, now := items + [p], cells + [Cell(p.data, p.tag)];
    forall i | 0 <= i < |all| ensures ItemAt(all, now, i) {
      assert i < |items| - 1 ==> ItemAt(items, cells, i);
    }
  }

  /** Links an item in front of the first one. */
  method PutFront<T>(p: Item<T>, head: Item?<T>, ghost items: seq<Item<T>>, ghost cells: seq<Cell<T>>)
    requires Chain(items, cells) && p !in items && head == FirstOf(items)
    modifies p, items
    ensures Chain([p] + items, [Cell(p.data, p.tag)] + cells) && p.data == old(p.data) && p.tag == old(p.tag)
  {
    assert items != [] ==> ItemAt(items, cells, 0);
    p.prev := null;
    p.next := head;
    if head != null {
      head.prev := p;
    }
    forall i | 0 < i < |items| ensures ItemAt(items, cells, i) {
      assert old(ItemAt(items, cells, i));
    }
    Prepended(p, items, cells);
  }

  /** Links an item behind the last one. */
  method PutBack<T>(p: Item<T>, tail: Item?<T>, ghost items: seq<Item<T>>, ghost cells: seq<Cell<T>>)
    requires Chain(items, cells) && p !in items && tail == LastOf(items)
    modifies p, items
    ensures Chain(items + [p], cells + [Cell(p.data, p.tag)]) && p.data == old(p.data) && p.tag == old(p.tag)
  {
    assert items != [] ==> ItemAt(items, cells, |items| - 1);
    p.prev := tail;
    p.next := null;
    if tail != null {
      tail.next := p;
    }
    forall i | 0 <= i < |items| - 1 ensures ItemAt(items, cells, i) {
      assert old(ItemAt(items, cells, i));
    }
    Appended(p, items, cells);
  }

  /** The neighbours of an item point at each other; the item keeps its own links. */
  method Bypass<T>(item: Item<T>, ghost items: seq<Item<T>>, ghost cells: seq<Cell<T>>, ghost k: nat)
    requires Chain(items, cells) && k < |items| && items[k] == item
    modifies items
    ensures item.next == old(item.next) && item.prev == old(item.prev) && item.data == old(item.data)
    ensures forall i :: 0 <= i < |items| && i != k ==> BypassedAt(items, cells, k, i)
  {
    assert ItemAt(items, cells, k);
    if item.next != null {
      item.next.prev := item.prev;
    }
    if item.prev != null {
      item.prev.next := item.next;
    }
    forall i | 0 <= i < |items| && i != k ensures BypassedAt(items, cells, k, i) {
      assert old(ItemAt(items, cells, i));
    }
  }

  class Dyna<T> {
    var head: Item?<T>
    var tail: Item?<T>
    var find: Item?<T>
    var count: int

    ghost var items: seq<Item<T>>
    ghost var cells: seq<Cell<T>>

    ghost predicate Linked()
      reads this, items
    {
      count == |items| && Chain(items, cells)
    }

    ghost predicate Valid()
      reads this, items
    {
      && Linked()
      && head == FirstOf(items) && tail == LastOf(items)
    }

    /** `dyna_create` */
    constructor ()
      ensures Valid() && cells == [] && items == [] && find == null
    {
      head, tail, find := null, null, null;
      count := 0;
      items, cells := [], [];
    }

    /** `dyna_push`, `dyna_add_to_front` */
    method Push(data: T, tag: int)
      requires Valid()
      modifies this, items
      ensures Valid() && |items| > 0 && fresh(items[0]) && items[1..] == old(items)
      ensures cells == [Cell(data, tag)] + old(cells)
      ensures find == old(find)
    {
      var p := new Item(data, tag);
      PutFront(p, head, items, cells);
      head := p;
      if tail == null {
        tail := head;
      }
      count := count + 1;
      items, cells := [p] + items, [Cell(data, tag)] + cells;
    }

    /** `dyna_add_to_back`, `dyna_append` */
    method AddToBack(data: T, tag: int)
      requires Valid()
      modifies this, items
      ensures Valid() && |items| > 0 && fresh(items[|items| - 1]) && items[..|items| - 1] == old(items)
      ensures cells == old(cells) + [Cell(data, tag)]
      ensures find == old(find)
    {
      var p := new Item(data, tag);
      PutBack(p, tail, items, cells);
      if tail != null {
        tail := p;
      } else {
        tail, head := p, p;
      }
      count := count + 1;
      assert (items + [p])[..|items|] == items;
      items, cells := items + [p], cells + [Cell(data, tag)];
    }

    /**
     * `dyna_delete`. The callers that pop from an end have moved `head` or `tail` past the
     * item already; deleting any item of a valid list is the case in which they have not.
     * The unlinked item keeps its own links, so its neighbour can still be read from it.
     */
    method Delete(item: Item<T>, ghost k: nat)
      requires Linked() && k < |items| && items[k] == item
      requires head == items[0] || (k == 0 && head == item.next)
      requires tail == items[|items| - 1] || (k == |items| - 1 && tail == item.prev)
      modifies this, items
      ensures Valid()
      ensures items == old(items)[..k] + old(items)[k + 1..]
      ensures cells == old(cells)[..k] + old(cells)[k + 1..]
      ensures item.next == old(item.next) && item.data == old(item.data)
      ensures find == old(find)
    {
      ghost var all, was := items, cells;
      EndsLeft(all, was, k, head, tail);
      Bypass(item, all, was, k);
      if item == head {
        head := item.next;
      }
      if tail == item {
        tail := item.prev;
      }
      count := count - 1;
      Bypassed(all, was, k);
      items, cells := all[..k] + all[k + 1..], was[..k] + was[k + 1..];
    }

    /** `dyna_pop`, `dyna_del_from_front`: the head moves on before its item is unlinked. */
    method Pop() returns (rc: int, cell: Option<Cell<T>>)
      requires Valid()
      modifies this, items
      ensures Valid() && (rc == 0 <==> old(cells) != [])
      ensures rc != 0 ==> rc == -1 && cell == None && cells == []
      ensures rc == 0 ==> cells == old(cells)[1..] && cell == Some(old(cells)[0])
      ensures rc == 0 ==> items == old(items)[1..]
    {
      if count == 0 {
        return -1, None;
      }
      assert ItemAt(items, cells, 0);
      cell := Some(Cell(head.data, head.tag));
      var p := head;
      head := head.next;
      Delete(p, 0);
      if head == null {
        tail := null;
      }
      rc := 0;
    }

    /** `dyna_del_from_back` */
    method DelFromBack() returns (rc: int, cell: Option<Cell<T>>)
      requires Valid()
      modifies this, items
      ensures Valid() && (rc == 0 <==> old(cells) != [])
      ensures rc != 0 ==> rc == -1 && cell == None && cells == []
      ensures rc == 0 ==> var n := |old(cells)| - 1;
                          cells == old(cells)[..n] && cell == Some(old(cells)[n])
                          && items == old(items)[..n]
    {
      if count == 0 {
        return -1, None;
      }
      assert ItemAt(items, cells, |items| - 1);
      cell := Some(Cell(tail.data, tail.tag));
      var p := tail;
      tail := tail.prev;
      Delete(p, |items| - 1);
      if tail == null {
        head := null;
      }
      rc := 0;
    }

    /** `dyna_delete_all`: steps to the next item before each deletion. */
    method DeleteAll()
      requires Valid()
      modifies this, items
      ensures Valid() && items == [] && cells == []
    {
      ghost var all := items;
      var cur := head;
      while cur != null
        invariant Valid() && cur == head
        invariant forall i :: 0 <= i < |items| ==> items[i] in all
        decreases |items|
      {
        var p := cur;
        ghost var now := items;
        assert ItemAt(items, cells, 0);
        cur := cur.next;
        Delete(p, 0);
        assert items == now[1..];
      }
    }

    /** `dyna_search_reset` */
    method SearchReset()
      modifies this`find
      ensures find == null
    {
      find := null;
    }

    /** Where the next search starts. */
    ghost function Cursor(): (k: nat)
      requires find == null || find in items
      reads this
      ensures k <= |items| && (find == null ==> k == 0)
      ensures find != null ==> k > 0 && items[k - 1] == find
    {
      if find == null then 0
      else
        var i :| 0 <= i < |items| && items[i] == find;
        i + 1
    }

    /**
     * `dyna_search`: the search goes on behind the last find. The caller must not have
     * deleted that item since.
     */
    method Search(tag: int, hit: T -> bool) returns (r: Item?<T>)
      requires Valid() && (find == null || find in items)
      modifies this`find
      ensures Valid()
      ensures var k := NextMatch(cells, old(Cursor()), tag, hit);
              r == (if k < |items| then items[k] else null)
      ensures find == r
    {
      ghost var i := Cursor();
      if find == null {
        find := head;
      } else {
        assert ItemAt(items, cells, i - 1);
        find := find.next;
      }
      r := SearchOn(tag, hit, i);
    }

    /** The loop of `dyna_search`, from item `i`. */
    method SearchOn(tag: int, hit: T -> bool, ghost i: nat) returns (r: Item?<T>)
      requires Valid() && i <= |items| && find == if i < |items| then items[i] else null
      modifies this`find
      ensures Valid() && find == r
      ensures var k := NextMatch(cells, i, tag, hit);
              r == if k < |items| then items[k] else null
    {
      ghost var n: nat, all, cs := i, items, cells;
      while find != null
        invariant i <= n <= |all| && Chain(all, cs)
        invariant find == if n < |all| then all[n] else null
        invariant NextMatch(cs, n, tag, hit) == NextMatch(cs, i, tag, hit)
        decreases |all| - n
      {
        assert ItemAt(all, cs, n);
        if find.tag == tag && hit(find.data) {
          return find;
        }
        find := find.next;
        n := n + 1;
      }
      return null;
    }

    /** `swap` in `dyna_sort`: the items stay linked as they are and trade what they carry. */
    method SwapData(a: Item<T>, b: Item<T>, ghost j: nat)
      requires Valid() && j + 1 < |items| && items[j] == a && items[j + 1] == b
      modifies this`cells, a`data, a`tag, b`data, b`tag
      ensures Valid()
      ensures cells == old(cells)[j := old(cells)[j + 1]][j + 1 := old(cells)[j]]
    {
      ghost var was := cells;
      assert ItemAt(items, was, j) && ItemAt(items, was, j + 1);
      var tag := a.tag;
      a.tag := b.tag;
      b.tag := tag;
      var data := a.data;
      a.data := b.data;
      b.data := data;
      cells := was[j := was[j + 1]][j + 1 := was[j]];
      forall i | 0 <= i < |items| ensures ItemAt(items, cells, i) {
        assert old(ItemAt(items, was, i));
      }
    }

    /** The inner loop of `dyna_sort`. */
    method SortPass(cmp: (T, T) -> int)
      requires Valid() && items != []
      modifies this`cells, items
      ensures Valid() && cells == PassTo(old(cells), |items| - 1, cmp)
    {
      var cur: Item?<T> := head;
      var j := 0;
      while j < count - 1
        invariant 0 <= j < |items| && Valid()
        invariant cur == items[j]
        invariant cells == PassTo(old(cells), j, cmp)
      {
        assert ItemAt(items, cells, j) && ItemAt(items, cells, j + 1);
        var next := cur.next;
        if cmp(cur.data, next.data) > 0 {
          assert items[j] in items && items[j + 1] in items;
          SwapData(cur, next, j);
        }
        assert ItemAt(items, cells, j);
        cur := cur.next;
        j := j + 1;
      }
    }

    /** `dyna_sort` */
    method Sort(cmp: (T, T) -> int)
      requires Valid()
      modifies this`cells, items
      ensures Valid() && cells == BubbleSorted(old(cells), cmp)
    {
      var i := 0;
      while i < count
        invariant 0 <= i <= |items| && Valid()
        invariant cells == Passes(old(cells), i, cmp)
      {
        SortPass(cmp);
        i := i + 1;
      }
    }
  }

  // -- Searching again and again -------------------------------------------------------

  /** The finds of repeated searches, up to the first that finds nothing. */
  function Finds<T>(s: seq<Cell<T>>, from: nat, tag: int, hit: T -> bool): seq<nat>
    requires from <= |s|
    decreases |s| - from
  {
    var k := NextMatch(s, from, tag, hit);
    if k == |s| then [] else [k] + Finds(s, k + 1, tag, hit)
  }

  /**
   * After a reset, searching until NULL lists the matching positions exactly: each of
   * them, nothing else, in increasing order.
   */
  lemma {:induction false} FindsAreTheMatches<T>(s: seq<Cell<T>>, from: nat, tag: int, hit: T -> bool)
    requires from <= |s|
    ensures var f := Finds(s, from, tag, hit);
            && (forall i, j :: 0 <= i < j < |f| ==> f[i] < f[j])
            && (forall k :: k in f <==> from <= k < |s| && s[k].tag == tag && hit(s[k].data))
    decreases |s| - from
  {
    var k := NextMatch(s, from, tag, hit);
    if k < |s| {
      FindsAreTheMatches(s, k + 1, tag, hit);
      var g := Finds(s, k + 1, tag, hit);
      var f := Finds(s, from, tag, hit);
      assert f == [k] + g;
      forall j | 0 < j < |f| ensures f[j] > k {
        assert f[j] == g[j - 1] && g[j - 1] in g;
      }
      forall m ensures m in f <==> from <= m < |s| && s[m].tag == tag && hit(s[m].data) {
        assert m in f <==> m == k || m in g;
      }
    }
  }
}
