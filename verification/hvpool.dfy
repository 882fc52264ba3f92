/**
 * The pool of process statistics of `hv_pool.c`: a list of arrays of fixed size, filled at
 * the tail and dropped from the head once all their records are out of date.
 */
module HvPool {
  import opened Seqs

  datatype Record = Record(pid: nat, stats: int, timestamp: int)

  function Flatten(chunks: seq<seq<Record>>): seq<Record> {
    if chunks == [] then [] else Flatten(Init(chunks)) + Last(chunks)
  }

  lemma FrontAndBack(chunks: seq<seq<Record>>)
    requires |chunks| > 1
    ensures Init(chunks)[1..] == Init(chunks[1..]) && Last(chunks[1..]) == Last(chunks) && Init(chunks)[0] == chunks[0]
  {
  }

  lemma {:induction false} FlattenFront(chunks: seq<seq<Record>>)
    requires chunks != []
    ensures Flatten(chunks) == chunks[0] + Flatten(chunks[1..])
  {
    if |chunks| == 1 {
      assert Init(chunks) == [] && chunks[1..] == [];
      assert Flatten(chunks) == [] + chunks[0];
      assert chunks[0] + [] == chunks[0];
    } else {
      FlattenFront(Init(chunks));
      FrontAndBack(chunks);
      Glue(chunks[0], Flatten(Init(chunks[1..])), Last(chunks));
    }
  }

  predicate Expired(r: Record, now: int, lifetime: int) {
    r.timestamp <= now - lifetime
  }

  /** The record a lookup finds: the first of that process. */
  function FirstOf(s: seq<Record>, pid: nat): Option<Record> {
    if s == [] then None else if s[0].pid == pid then Some(s[0]) else FirstOf(s[1..], pid)
  }

  lemma {:induction false} FirstOfConcat(a: seq<Record>, b: seq<Record>, pid: nat)
    ensures FirstOf(a + b, pid) == if FirstOf(a, pid).Some? then FirstOf(a, pid) else FirstOf(b, pid)
  {
    if a == [] {
      assert a + b == b;
    } else {
      assert (a + b)[1..] == a[1..] + b;
      FirstOfConcat(a[1..], b, pid);
    }
  }

  /** All arrays but the last are full, and none is empty. */
  predicate Shape(chunks: seq<seq<Record>>, size: nat) {
    && (forall i :: 0 <= i < |chunks| ==> 0 < |chunks[i]| <= size)
    && (forall i :: 0 <= i < |chunks| - 1 ==> |chunks[i]| == size)
  }

  /** The clock did not run backwards between the records of the log. */
  predicate Ordered(log: seq<Record>) {
    forall i, j :: 0 <= i < j < |log| ==> log[i].timestamp <= log[j].timestamp
  }

  predicate AllExpired(s: seq<Record>, now: int, lifetime: int) {
    forall i :: 0 <= i < |s| ==> Expired(s[i], now, lifetime)
  }

  /** The head array is dropped: it is full and all its records are out of date. */
  predicate Outdated(arr: seq<Record>, size: nat, now: int, lifetime: int) {
    |arr| >= size && AllExpired(arr, now, lifetime)
  }

  /** What `pool_overview` keeps of the arrays, and the records it drops. */
  function Kept(chunks: seq<seq<Record>>, size: nat, now: int, lifetime: int): seq<seq<Record>> {
    if chunks == [] || !Outdated(chunks[0], size, now, lifetime) then chunks
    else Kept(chunks[1..], size, now, lifetime)
  }

  function Dropped(chunks: seq<seq<Record>>, size: nat, now: int, lifetime: int): seq<Record> {
    if chunks == [] || !Outdated(chunks[0], size, now, lifetime) then []
    else chunks[0] + Dropped(chunks[1..], size, now, lifetime)
  }

  lemma {:induction false} KeptShape(chunks: seq<seq<Record>>, size: nat, now: int, lifetime: int)
    requires Shape(chunks, size)
    ensures Shape(Kept(chunks, size, now, lifetime), size)
  {
    if chunks != [] && Outdated(chunks[0], size, now, lifetime) {
      KeptShape(chunks[1..], size, now, lifetime);
    }
  }

  /** An overview takes a prefix away, and takes away expired records only. */
  lemma {:induction false} OverviewDrops(chunks: seq<seq<Record>>, size: nat, now: int, lifetime: int)
    ensures Flatten(chunks) == Dropped(chunks, size, now, lifetime) + Flatten(Kept(chunks, size, now, lifetime))
    ensures AllExpired(Dropped(chunks, size, now, lifetime), now, lifetime)
  {
    if chunks != [] && Outdated(chunks[0], size, now, lifetime) {
      OverviewDrops(chunks[1..], size, now, lifetime);
      FlattenFront(chunks);
    }
  }

  function CountExpired(s: seq<Record>, now: int, lifetime: int): nat {
    if s == [] then 0
    else CountExpired(Init(s), now, lifetime) + (if Expired(Last(s), now, lifetime) then 1 else 0)
  }

  /** In a record sequence ordered by time the expired ones stand in front. */
  lemma {:induction false} ExpiredInFront(s: seq<Record>, i: nat, now: int, lifetime: int)
    requires Ordered(s) && i < |s| && !Expired(s[i], now, lifetime)
    ensures CountExpired(s, now, lifetime) <= i
  {
    if i < |s| - 1 {
      assert Init(s)[i] == s[i] && s[i].timestamp <= Last(s).timestamp;
      ExpiredInFront(Init(s), i, now, lifetime);
    } else {
      CountBound(Init(s), now, lifetime);
    }
  }

  lemma {:induction false} CountBound(s: seq<Record>, now: int, lifetime: int)
    ensures CountExpired(s, now, lifetime) <= |s|
  {
    if s != [] {
      CountBound(Init(s), now, lifetime);
    }
  }

  /** With a clock that does not run backwards, fewer expired records stay than one array holds. */
  lemma {:induction false} FewExpiredStay(chunks: seq<seq<Record>>, size: nat, now: int, lifetime: int)
    requires Shape(chunks, size) && size > 0 && Ordered(Flatten(chunks))
    ensures CountExpired(Flatten(Kept(chunks, size, now, lifetime)), now, lifetime) < size
  {
    if chunks == [] {
    } else if |chunks[0]| < size {
      assert |chunks| == 1;
      assert Init(chunks) == [] && Flatten(chunks) == [] + chunks[0];
      CountBound(Flatten(chunks), now, lifetime);
    } else if !AllExpired(chunks[0], now, lifetime) {
      FlattenFront(chunks);
      var i :| 0 <= i < |chunks[0]| && !Expired(chunks[0][i], now, lifetime);
      assert Flatten(chunks)[i] == chunks[0][i];
      ExpiredInFront(Flatten(chunks), i, now, lifetime);
    } else {
      FlattenFront(chunks);
      var rest := Flatten(chunks[1..]);
      assert forall i :: 0 <= i < |rest| ==> rest[i] == Flatten(chunks)[|chunks[0]| + i];
      FewExpiredStay(chunks[1..], size, now, lifetime);
    }
  }

  // -- The pool as a state machine -----------------------------------------------------

  /** One put: the process, and the two clock readings it makes. */
  datatype Event = Put(pid: nat, stats: int, now: int, stamp: int)

  /** `log` is every record ever put, `gone` how many of them were dropped. */
  datatype State = State(log: seq<Record>, gone: nat, chunks: seq<seq<Record>>)

  function RecordOf(e: Event): Record { Record(e.pid, e.stats, e.stamp) }

  /** A record joins the last array, or a new array when that is full. */
  function Appended(chunks: seq<seq<Record>>, item: Record, size: nat): seq<seq<Record>> {
    if chunks != [] && |Last(chunks)| < size then Init(chunks) + [Last(chunks) + [item]] else chunks + [[item]]
  }

  function Overviewed(s: State, now: int, size: nat, lifetime: int): State {
    s.(gone := s.gone + |Dropped(s.chunks, size, now, lifetime)|, chunks := Kept(s.chunks, size, now, lifetime))
  }

  /** `run_hvpool_put` */
  function Step(s: State, e: Event, size: nat, lifetime: int): State {
    var o := Overviewed(s, e.now, size, lifetime);
    o.(log := o.log + [RecordOf(e)], chunks := Appended(o.chunks, RecordOf(e), size))
  }

  /** The pool is what is left of the log, in full arrays and a last one. */
  predicate Inv(s: State, size: nat) {
    && Shape(s.chunks, size)
    && s.gone <= |s.log| && Flatten(s.chunks) == s.log[s.gone..]
  }

  lemma AppendedKeeps(chunks: seq<seq<Record>>, item: Record, size: nat)
    requires Shape(chunks, size) && size > 0
    ensures Shape(Appended(chunks, item, size), size)
    ensures Flatten(Appended(chunks, item, size)) == Flatten(chunks) + [item]
  {
    var r := Appended(chunks, item, size);
    if chunks != [] && |Last(chunks)| < size {
      assert Init(r) == Init(chunks) && Last(r) == Last(chunks) + [item];
    } else {
      assert Init(r) == chunks && Last(r) == [item];
    }
  }

  lemma SuffixSplits(log: seq<Record>, gone: nat, d: seq<Record>, k: seq<Record>)
    requires gone <= |log| && log[gone..] == d + k
    ensures gone + |d| <= |log| && log[gone + |d|..] == k
    ensures forall i :: gone <= i < gone + |d| ==> log[i] == d[i - gone]
  {
    assert log[gone + |d|..] == log[gone..][|d|..];
    forall i | gone <= i < gone + |d| ensures log[i] == d[i - gone] {
      assert log[i] == log[gone..][i - gone];
    }
  }

  lemma OverviewKeeps(s: State, now: int, size: nat, lifetime: int)
    requires Inv(s, size)
    ensures var o := Overviewed(s, now, size, lifetime);
            && Inv(o, size)
            && forall i :: s.gone <= i < o.gone ==> Expired(s.log[i], now, lifetime)
  {
    KeptShape(s.chunks, size, now, lifetime);
    OverviewDrops(s.chunks, size, now, lifetime);
    SuffixSplits(s.log, s.gone, Dropped(s.chunks, size, now, lifetime), Flatten(Kept(s.chunks, size, now, lifetime)));
  }

  lemma StepKeeps(s: State, e: Event, size: nat, lifetime: int)
    requires Inv(s, size) && size > 0
    ensures Inv(Step(s, e, size, lifetime), size)
  {
    OverviewKeeps(s, e.now, size, lifetime);
    var o := Overviewed(s, e.now, size, lifetime);
    AppendedKeeps(o.chunks, RecordOf(e), size);
    assert (o.log + [RecordOf(e)])[o.gone..] == o.log[o.gone..] + [RecordOf(e)];
  }

  // -- Whole runs --------------------------------------------------------------------

  function Run(events: seq<Event>, size: nat, lifetime: int): State {
    if events == [] then State([], 0, []) else Step(Run(Init(events), size, lifetime), Last(events), size, lifetime)
  }

  /** The clock readings come in the order in which they were made. */
  predicate Forward(events: seq<Event>) {
    && (forall i :: 0 <= i < |events| ==> events[i].now <= events[i].stamp)
    && (forall i, j :: 0 <= i < j < |events| ==> events[i].stamp <= events[j].now)
  }

  lemma {:induction false} RunKeeps(events: seq<Event>, size: nat, lifetime: int)
    requires size > 0
    ensures Inv(Run(events, size, lifetime), size)
  {
    if events != [] {
      RunKeeps(Init(events), size, lifetime);
      StepKeeps(Run(Init(events), size, lifetime), Last(events), size, lifetime);
    }
  }

  /** The log is what was put, in order. */
  lemma {:induction false} LogOf(events: seq<Event>, size: nat, lifetime: int)
    ensures var log := Run(events, size, lifetime).log;
            |log| == |events| && forall i :: 0 <= i < |events| ==> log[i] == RecordOf(events[i])
  {
    if events != [] {
      LogOf(Init(events), size, lifetime);
      var log := Run(Init(events), size, lifetime).log;
      assert Run(events, size, lifetime).log == log + [RecordOf(Last(events))];
    }
  }

  lemma GoneAfter(events: seq<Event>, size: nat, lifetime: int)
    requires size > 0 && events != []
    ensures var s := Run(Init(events), size, lifetime);
            var gone := Run(events, size, lifetime).gone;
            gone <= |s.log| && forall i :: s.gone <= i < gone ==> Expired(s.log[i], Last(events).now, lifetime)
  {
    RunKeeps(Init(events), size, lifetime);
    OverviewKeeps(Run(Init(events), size, lifetime), Last(events).now, size, lifetime);
  }

  /** A record younger than the lifetime has not been dropped. */
  lemma {:induction false} YoungStay(events: seq<Event>, size: nat, lifetime: int, i: nat)
    requires size > 0 && Forward(events) && i < |events|
    requires events[i].stamp > Last(events).now - lifetime
    ensures Run(events, size, lifetime).gone <= i
  {
    var before, e := Init(events), Last(events);
    GoneAfter(events, size, lifetime);
    LogOf(before, size, lifetime);
    if i < |before| {
      var l := Last(before);
      assert l == events[|events| - 2] && l.now <= l.stamp <= e.now;
      assert before[i] == events[i];
      YoungStay(before, size, lifetime, i);
    }
  }

  lemma LogIsOrdered(events: seq<Event>, size: nat, lifetime: int)
    requires size > 0 && Forward(events)
    ensures Ordered(Run(events, size, lifetime).log)
  {
    LogOf(events, size, lifetime);
    var log := Run(events, size, lifetime).log;
    forall i, j | 0 <= i < j < |log| ensures log[i].timestamp <= log[j].timestamp {
      assert events[i].stamp <= events[j].now <= events[j].stamp;
    }
  }

  lemma SuffixOrdered(log: seq<Record>, from: nat)
    requires Ordered(log) && from <= |log|
    ensures Ordered(log[from..])
  {
    forall i, j | 0 <= i < j < |log[from..]| ensures log[from..][i].timestamp <= log[from..][j].timestamp {
      assert log[from..][i] == log[from + i] && log[from..][j] == log[from + j];
    }
  }

  lemma OverviewLeavesFew(s: State, now: int, size: nat, lifetime: int)
    requires Inv(s, size) && size > 0 && Ordered(s.log)
    ensures var o := Overviewed(s, now, size, lifetime);
            o.gone <= |o.log| && CountExpired(o.log[o.gone..], now, lifetime) < size
  {
    OverviewKeeps(s, now, size, lifetime);
    SuffixOrdered(s.log, s.gone);
    FewExpiredStay(s.chunks, size, now, lifetime);
  }

  /**
   * In every run with a clock that does not run backwards: the pool is a suffix of the log
   * in full arrays and a last one, no record younger than the lifetime is missing from it,
   * and an overview at any later time leaves fewer expired records than one array holds.
   */
  lemma PoolKeepsTheYoung(events: seq<Event>, size: nat, lifetime: int, now: int)
    requires size > 0 && Forward(events)
    ensures var s := Run(events, size, lifetime);
            && Inv(s, size) && |s.log| == |events|
            && (forall i :: 0 <= i < |events| && events[i].stamp > Last(events).now - lifetime ==> s.gone <= i)
            && var o := Overviewed(s, now, size, lifetime);
               o.gone <= |o.log| && CountExpired(o.log[o.gone..], now, lifetime) < size
  {
    RunKeeps(events, size, lifetime);
    LogOf(events, size, lifetime);
    forall i | 0 <= i < |events| && events[i].stamp > Last(events).now - lifetime
      ensures Run(events, size, lifetime).gone <= i
    {
      YoungStay(events, size, lifetime, i);
    }
    LogIsOrdered(events, size, lifetime);
    OverviewLeavesFew(Run(events, size, lifetime), now, size, lifetime);
  }

  /** A lookup finds the oldest record of the process that has not been dropped. */
  lemma {:induction false} FirstIsOldest(s: seq<Record>, pid: nat)
    ensures FirstOf(s, pid).None? <==> forall i :: 0 <= i < |s| ==> s[i].pid != pid
    ensures FirstOf(s, pid).Some? ==>
              exists i :: 0 <= i < |s| && s[i] == FirstOf(s, pid).value && s[i].pid == pid
                          && forall j :: 0 <= j < i ==> s[j].pid != pid
  {
    if s != [] && s[0].pid != pid {
      FirstIsOldest(s[1..], pid);
      assert forall i :: 1 <= i < |s| ==> s[i] == s[1..][i - 1];
      if FirstOf(s, pid).Some? {
        var i :| 0 <= i < |s[1..]| && s[1..][i] == FirstOf(s[1..], pid).value && s[1..][i].pid == pid
                 && forall j :: 0 <= j < i ==> s[1..][j].pid != pid;
        assert s[i + 1] == FirstOf(s, pid).value;
      }
    }
  }

  // -- The pool as the code keeps it ---------------------------------------------------

  class Pool {
    const size: nat
    const lifetime: int
    var chunks: seq<seq<Record>>
    ghost var log: seq<Record>
    ghost var gone: nat

    ghost function Abs(): State
      reads this
    {
      State(log, gone, chunks)
    }

    ghost predicate Valid()
      reads this
    {
      size > 0 && Inv(Abs(), size)
    }

    /** `run_hvpool_init`; the configuration resets a size that is not positive. */
    constructor (size: nat, lifetime: int)
      requires size > 0
      ensures Valid() && Abs() == State([], 0, [])
      ensures this.size == size && this.lifetime == lifetime
    {
      this.size, this.lifetime := size, lifetime;
      chunks, log, gone := [], [], 0;
    }

    /** `pool_overview` */
    method Overview(now: int)
      modifies this`chunks, this`gone
      ensures Abs() == Overviewed(old(Abs()), now, size, lifetime)
    {
      ghost var was, left := chunks, [];
      while chunks != []
        invariant gone == old(gone)
        invariant Kept(was, size, now, lifetime) == Kept(chunks, size, now, lifetime)
        invariant Dropped(was, size, now, lifetime) == left + Dropped(chunks, size, now, lifetime)
        decreases |chunks|
      {
        var arr := chunks[0];
        if |arr| < size {
          break;
        }
        var young := FindYoung(arr, now);
        if young {
          break;
        }
        assert Outdated(arr, size, now, lifetime);
        assert left + (arr + Dropped(chunks[1..], size, now, lifetime))
               == (left + arr) + Dropped(chunks[1..], size, now, lifetime);
        left := left + arr;
        chunks := chunks[1..];
      }
      assert chunks == [] || !Outdated(chunks[0], size, now, lifetime);
      assert Dropped(was, size, now, lifetime) == left + [];
      assert Kept(was, size, now, lifetime) == chunks;
      assert |left + []| == |left|;
      gone := gone + |left|;
    }

    /** The inner loop of `pool_overview` over the time stamps of one array. */
    method FindYoung(arr: seq<Record>, now: int) returns (young: bool)
      ensures young <==> !AllExpired(arr, now, lifetime)
    {
      var i := 0;
      while i < |arr|
        invariant 0 <= i <= |arr|
        invariant forall j :: 0 <= j < i ==> Expired(arr[j], now, lifetime)
      {
        if arr[i].timestamp > now - lifetime {
          return true;
        }
        i := i + 1;
      }
      return false;
    }

    /** `run_hvpool_put`; the clock is read once by the overview and once for the record. */
    method Insert(pid: nat, stats: int, now: int, stamp: int)
      requires Valid()
      modifies this
      ensures Abs() == Step(old(Abs()), Put(pid, stats, now, stamp), size, lifetime) && Valid()
    {
      StepKeeps(Abs(), Put(pid, stats, now, stamp), size, lifetime);
      Overview(now);
      var item := Record(pid, stats, stamp);
      if chunks != [] && |Last(chunks)| < size {
        chunks := Init(chunks) + [Last(chunks) + [item]];
      } else {
        chunks := chunks + [[item]];
      }
      log := log + [item];
    }

    /** `run_hvpool_stats_by_pid_iter` */
    method Lookup(pid: nat) returns (r: Option<Record>)
      requires Valid()
      ensures r == FirstOf(log[gone..], pid)
    {
      var i := 0;
      assert chunks[0..] == chunks;
      while i < |chunks|
        invariant 0 <= i <= |chunks|
        invariant FirstOf(Flatten(chunks), pid) == FirstOf(Flatten(chunks[i..]), pid)
      {
        FlattenFront(chunks[i..]);
        assert chunks[i..][1..] == chunks[i + 1..];
        FirstOfConcat(chunks[i], Flatten(chunks[i + 1..]), pid);
        var found := LookupIn(chunks[i], pid);
        if found.Some? {
          return found;
        }
        i := i + 1;
      }
      return None;
    }

    method LookupIn(arr: seq<Record>, pid: nat) returns (r: Option<Record>)
      ensures r == FirstOf(arr, pid)
    {
      var i := 0;
      assert arr[0..] == arr;
      while i < |arr|
        invariant 0 <= i <= |arr| && FirstOf(arr, pid) == FirstOf(arr[i..], pid)
      {
        if arr[i].pid == pid {
          return Some(arr[i]);
        }
        assert arr[i..][1..] == arr[i + 1..];
        i := i + 1;
      }
      return None;
    }
  }
}
