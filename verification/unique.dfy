/** The pool of unique numbers of `unique.c`, a stack of free ids in an array. */
module Unique {
  import opened Seqs

  const MAX_UNIQUE: nat := 65536

  /** `unsigned short` */
  type Uid = x: int | 0 <= x < MAX_UNIQUE

  datatype Ids = Ids(stack: seq<Uid>, top: int)

  predicate Fits(p: Ids) {
    |p.stack| == MAX_UNIQUE && 0 <= p.top <= MAX_UNIQUE
  }

  function Full(): (p: Ids)
    ensures Fits(p) && p.top == 0 && forall i :: 0 <= i < MAX_UNIQUE ==> p.stack[i] == i
  {
    Ids(seq(MAX_UNIQUE, i requires 0 <= i < MAX_UNIQUE => i), 0)
  }

  /** What `unique_alloc_uid` returns and what it leaves. */
  function NextId(p: Ids): int
    requires Fits(p)
  {
    if p.top >= MAX_UNIQUE then -1 else p.stack[p.top]
  }

  function Taken(p: Ids): Ids {
    if p.top >= MAX_UNIQUE then p else p.(top := p.top + 1)
  }

  /** `unique_release_uid`: the id overwrites the slot below the top, whatever that held. */
  function Released(p: Ids, uid: Uid): Ids
    requires Fits(p)
  {
    if p.top <= 0 then p else Ids(p.stack[p.top - 1 := uid], p.top - 1)
  }

  ghost predicate Free(p: Ids, x: int)
    requires Fits(p)
  {
    exists i :: p.top <= i < MAX_UNIQUE && p.stack[i] == x
  }

  /** The ids held and the ids from the top on are all ids, each once. */
  ghost predicate Partition(p: Ids, held: set<Uid>) {
    && Fits(p) && p.top == |held|
    && (forall i, j :: p.top <= i < j < MAX_UNIQUE ==> p.stack[i] != p.stack[j])
    && (forall x: Uid :: x in held <==> !Free(p, x))
  }

  lemma FullPartition()
    ensures Partition(Full(), {})
  {
    forall x: Uid ensures Free(Full(), x) {
      assert Full().stack[x] == x;
    }
  }

  /** An allocated id is one nobody holds; the pool is exhausted only when all are held. */
  lemma AllocPartition(p: Ids, held: set<Uid>)
    requires Partition(p, held)
    ensures NextId(p) == -1 <==> |held| == MAX_UNIQUE
    ensures NextId(p) == -1 ==> Taken(p) == p
    ensures NextId(p) != -1 ==> NextId(p) !in held && Partition(Taken(p), held + {NextId(p)})
  {
    if NextId(p) != -1 {
      var q, uid: Uid := Taken(p), NextId(p);
      assert Free(p, uid);
      forall x: Uid ensures x in held + {uid} <==> !Free(q, x) {
        if x != uid && Free(p, x) {
          var i :| p.top <= i < MAX_UNIQUE && p.stack[i] == x;
          assert q.stack[i] == x;
        }
      }
    }
  }

  /** A release keeps the partition if and only if the id was held. */
  lemma ReleasePartition(p: Ids, held: set<Uid>, uid: Uid)
    requires Partition(p, held) && held != {}
    ensures Partition(Released(p, uid), held - {uid}) <==> uid in held
  {
    var q := Released(p, uid);
    if uid in held {
      assert !Free(p, uid);
      forall x: Uid ensures x in held - {uid} <==> !Free(q, x) {
        if x == uid {
          assert q.stack[q.top] == x;
        } else if Free(p, x) {
          var i :| p.top <= i < MAX_UNIQUE && p.stack[i] == x;
          assert q.stack[i] == x;
        }
      }
    } else {
      assert held - {uid} == held;
    }
  }

  /** A free id that is released again is the next to be handed out, twice. */
  lemma ForeignReleaseShares(p: Ids, held: set<Uid>)
    requires Partition(p, held) && 0 < p.top < MAX_UNIQUE
    ensures var uid := p.stack[p.top];
            var q := Released(p, uid);
            uid !in held && NextId(q) == uid && NextId(Taken(q)) == uid
  {
    assert Free(p, p.stack[p.top]);
  }

  // -- Runs --------------------------------------------------------------------------

  datatype Op = Take | Give(uid: Uid)

  /** Who holds what is not recorded by the pool; it is what the callers know. */
  datatype Run = Run(ids: Ids, held: set<Uid>)

  function Step(r: Run, op: Op): (r': Run)
    requires Fits(r.ids)
    ensures Fits(r'.ids)
  {
    if op.Give? then Run(Released(r.ids, op.uid), r.held - {op.uid})
    else if NextId(r.ids) == -1 then r
    else Run(Taken(r.ids), r.held + {NextId(r.ids)})
  }

  function After(ops: seq<Op>): (r: Run)
    ensures Fits(r.ids)
  {
    if ops == [] then Run(Full(), {}) else Step(After(Init(ops)), Last(ops))
  }

  /** Every release is of an id that is held at that moment. */
  predicate Legal(ops: seq<Op>) {
    ops == [] || (Legal(Init(ops)) && (Last(ops).Give? ==> Last(ops).uid in After(Init(ops)).held))
  }

  /** In every legal run held ids and free ids partition all ids, so no two holders share one. */
  lemma {:induction false} RunPartition(ops: seq<Op>)
    requires Legal(ops)
    ensures Partition(After(ops).ids, After(ops).held)
  {
    if ops == [] {
      FullPartition();
    } else {
      RunPartition(Init(ops));
      var r := After(Init(ops));
      match Last(ops)
      case Take => AllocPartition(r.ids, r.held);
      case Give(uid) => ReleasePartition(r.ids, r.held, uid);
    }
  }

  class Pool {
    const stack: array<Uid>
    var top: int

    ghost function Abs(): Ids
      reads this, stack
    {
      Ids(stack[..], top)
    }

    /** `unique_pool_create` */
    constructor ()
      ensures Abs() == Full() && fresh(stack)
    {
      stack := new Uid[MAX_UNIQUE];
      top := 0;
      new;
      var i := 0;
      while i < MAX_UNIQUE
        invariant 0 <= i <= MAX_UNIQUE && top == 0
        invariant forall j :: 0 <= j < i ==> stack[j] == j
      {
        stack[i] := i;
        i := i + 1;
      }
      assert stack[..] == Full().stack;
    }

    method AllocUid() returns (uid: int)
      requires Fits(Abs())
      modifies this`top
      ensures Abs() == Taken(old(Abs())) && uid == NextId(old(Abs()))
    {
      if top >= MAX_UNIQUE {
        return -1;
      }
      uid := stack[top];
      top := top + 1;
    }

    method ReleaseUid(uid: Uid)
      requires Fits(Abs())
      modifies this`top, stack
      ensures Abs() == Released(old(Abs()), uid)
    {
      if top <= 0 {
        return;
      }
      top := top - 1;
      stack[top] := uid;
    }
  }
}
