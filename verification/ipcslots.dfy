/** The table of client slots of `librun/ipc.c`. */
module IpcSlots {
  import opened Seqs

  /** `sock` is negative in a free slot. Times are microseconds. */
  datatype Slot = Slot(sock: int, unique: int, timestamp: int)

  const FREE := Slot(-1, -1, 0)

  predicate Live(c: Slot) { c.sock >= 0 }

  /** CHECK_TIME_DELTA; a time stamp in the future counts as no time at all. */
  predicate TimedOut(c: Slot, now: int, timeout: nat) {
    now - c.timestamp > timeout
  }

  function CountLive(cs: seq<Slot>): nat {
    if cs == [] then 0 else CountLive(Init(cs)) + (if Live(Last(cs)) then 1 else 0)
  }

  /** `closed` is the history of the sockets the server closed itself. */
  datatype Table = Table(slots: seq<Slot>, registered: int, closed: seq<int>)

  /** `disconnect_client` */
  function Disconnected(t: Table, i: nat): Table
    requires i < |t.slots|
  {
    var c := t.slots[i];
    if !Live(c) then t
    else Table(t.slots[i := Slot(-1, -1, c.timestamp)], t.registered - 1, t.closed + [c.sock])
  }

  /** The first slot that is free or whose client has timed out, or the number of slots. */
  function FirstUsable(cs: seq<Slot>, now: int, timeout: nat, from: nat): (i: nat)
    requires from <= |cs|
    ensures from <= i <= |cs|
    ensures i < |cs| ==> !Live(cs[i]) || TimedOut(cs[i], now, timeout)
    ensures forall j :: from <= j < i ==> Live(cs[j]) && !TimedOut(cs[j], now, timeout)
    decreases |cs| - from
  {
    if from == |cs| || !Live(cs[from]) || TimedOut(cs[from], now, timeout) then from
    else FirstUsable(cs, now, timeout, from + 1)
  }

  datatype Registered = Registered(table: Table, rc: int)

  /** `register_client`; the clock is read at the start and again for the new client. */
  function Register(t: Table, sock: int, now: int, stamp: int, timeout: nat): Registered {
    if t.registered >= |t.slots| then Registered(t, -1)
    else
      var i := FirstUsable(t.slots, now, timeout, 0);
      if i == |t.slots| then Registered(t, -1)
      else
        var d := Disconnected(t, i);
        Registered(d.(slots := d.slots[i := Slot(sock, -1, stamp)], registered := d.registered + 1), i)
  }

  predicate Counted(t: Table) {
    t.registered == CountLive(t.slots)
  }

  lemma {:induction false} CountUpdate(cs: seq<Slot>, i: nat, c: Slot)
    requires i < |cs|
    ensures CountLive(cs[i := c]) == CountLive(cs) - (if Live(cs[i]) then 1 else 0) + (if Live(c) then 1 else 0)
  {
    if i == |cs| - 1 {
      assert Init(cs[i := c]) == Init(cs);
    } else {
      assert Init(cs[i := c]) == Init(cs)[i := c] && Last(cs[i := c]) == Last(cs);
      CountUpdate(Init(cs), i, c);
    }
  }

  lemma {:induction false} AllLiveCount(cs: seq<Slot>)
    requires forall i :: 0 <= i < |cs| ==> Live(cs[i])
    ensures CountLive(cs) == |cs|
  {
    if cs != [] {
      AllLiveCount(Init(cs));
    }
  }

  lemma DisconnectCounts(t: Table, i: nat)
    requires Counted(t) && i < |t.slots|
    ensures Counted(Disconnected(t, i)) && !Live(Disconnected(t, i).slots[i])
  {
    CountUpdate(t.slots, i, Slot(-1, -1, t.slots[i].timestamp));
  }

  /**
   * Below the cap a registration never fails: it takes the first slot that is free or timed
   * out, leaves every other slot alone, and closes no socket but one of a timed-out client.
   * At the cap it is refused, even if every client has timed out.
   */
  lemma RegisterSucceeds(t: Table, sock: int, now: int, stamp: int, timeout: nat)
    requires Counted(t) && sock >= 0
    ensures var r := Register(t, sock, now, stamp, timeout);
            && Counted(r.table)
            && (t.registered >= |t.slots| ==> r.rc == -1 && r.table == t)
            && (t.registered < |t.slots| ==>
                  && 0 <= r.rc < |t.slots|
                  && r.table.slots == t.slots[r.rc := Slot(sock, -1, stamp)]
                  && (forall j :: 0 <= j < r.rc ==> Live(t.slots[j]) && !TimedOut(t.slots[j], now, timeout))
                  && r.table.closed == t.closed + (if Live(t.slots[r.rc]) then [t.slots[r.rc].sock] else [])
                  && (Live(t.slots[r.rc]) ==> TimedOut(t.slots[r.rc], now, timeout)))
  {
    if t.registered < |t.slots| {
      var i := FirstUsable(t.slots, now, timeout, 0);
      if i == |t.slots| {
        AllLiveCount(t.slots);
        assert false;
      }
      DisconnectCounts(t, i);
      var d := Disconnected(t, i);
      CountUpdate(d.slots, i, Slot(sock, -1, stamp));
      assert d.slots[i := Slot(sock, -1, stamp)] == t.slots[i := Slot(sock, -1, stamp)];
      assert t.closed + [] == t.closed;
    }
  }

  // -- Runs --------------------------------------------------------------------------

  datatype Event =
    | Accept(sock: nat, now: int, stamp: int)
    | Lost(slot: nat)
    | Command(slot: nat, now: int, unique: int)

  function Step(t: Table, e: Event, timeout: nat): Table {
    match e
    case Accept(sock, now, stamp) => Register(t, sock, now, stamp, timeout).table
    case Lost(i) => if i < |t.slots| then Disconnected(t, i) else t
    case Command(i, now, unique) =>
      if i < |t.slots| && Live(t.slots[i]) then
        t.(slots := t.slots[i := t.slots[i].(timestamp := now, unique := unique)])
      else t
  }

  function Run(size: nat, timeout: nat, events: seq<Event>): Table {
    if events == [] then Table(seq(size, _ => FREE), 0, [])
    else Step(Run(size, timeout, Init(events)), Last(events), timeout)
  }

  lemma {:induction false} FreshCount(size: nat)
    ensures CountLive(seq(size, _ => FREE)) == 0
  {
    if size > 0 {
      assert Init(seq(size, _ => FREE)) == seq(size - 1, _ => FREE);
      FreshCount(size - 1);
    }
  }

  /** In every reachable state the counter is the number of slots with a live socket. */
  lemma {:induction false} CounterCountsTheLive(size: nat, timeout: nat, events: seq<Event>)
    ensures var t := Run(size, timeout, events);
            Counted(t) && |t.slots| == size && 0 <= t.registered <= size
  {
    if events == [] {
      FreshCount(size);
    } else {
      CounterCountsTheLive(size, timeout, Init(events));
      var t := Run(size, timeout, Init(events));
      match Last(events)
      case Accept(sock, now, stamp) => RegisterSucceeds(t, sock, now, stamp, timeout);
      case Lost(i) =>
        if i < |t.slots| {
          DisconnectCounts(t, i);
        }
      case Command(i, now, unique) =>
        if i < |t.slots| && Live(t.slots[i]) {
          CountUpdate(t.slots, i, t.slots[i].(timestamp := now, unique := unique));
        }
    }
    CountBound(Run(size, timeout, events).slots);
  }

  lemma {:induction false} CountBound(cs: seq<Slot>)
    ensures CountLive(cs) <= |cs|
  {
    if cs != [] {
      CountBound(Init(cs));
    }
  }

  class Clients {
    const slots: array<Slot>
    var registered: int
    ghost var closed: seq<int>

    ghost function Abs(): Table
      reads this, slots
    {
      Table(slots[..], registered, closed)
    }

    /** `init_clients` */
    constructor (size: nat)
      ensures Abs() == Run(size, 0, []) && fresh(slots)
    {
      slots := new Slot[size](_ => FREE);
      registered, closed := 0, [];
      new;
      assert slots[..] == seq(size, _ => FREE);
    }

    /** `disconnect_client` */
    method Disconnect(i: nat)
      requires i < slots.Length
      modifies this, slots
      ensures Abs() == Disconnected(old(Abs()), i)
    {
      var c := slots[i];
      if c.sock < 0 {
        return;
      }
      closed := closed + [c.sock];
      slots[i] := Slot(-1, -1, c.timestamp);
      registered := registered - 1;
    }

    /** `register_client` */
    method RegisterClient(sock: int, now: int, stamp: int, timeout: nat) returns (rc: int)
      modifies this, slots
      ensures Registered(Abs(), rc) == Register(old(Abs()), sock, now, stamp, timeout)
    {
      if registered >= slots.Length {
        return -1;
      }
      var i := 0;
      while i < slots.Length
        invariant 0 <= i <= slots.Length && Abs() == old(Abs())
        invariant FirstUsable(slots[..], now, timeout, 0) == FirstUsable(slots[..], now, timeout, i)
      {
        if slots[i].sock >= 0 && now - slots[i].timestamp > timeout {
          Disconnect(i);
        }
        if slots[i].sock < 0 {
          ghost var d := Abs();
          assert d == Disconnected(old(Abs()), i);
          slots[i] := Slot(sock, -1, stamp);
          registered := registered + 1;
          return i;
        }
        i := i + 1;
      }
      return -1;
    }

    /** `done_clients` */
    method Done()
      requires Counted(Abs())
      modifies this, slots
      ensures registered == 0 && forall i :: 0 <= i < slots.Length ==> !Live(slots[i])
    {
      var i := 0;
      while i < slots.Length
        invariant 0 <= i <= slots.Length && Counted(Abs())
        invariant forall j :: 0 <= j < i ==> !Live(slots[j])
      {
        DisconnectCounts(Abs(), i);
        ghost var was := slots[..];
        Disconnect(i);
        assert forall j :: 0 <= j < slots.Length && j != i ==> slots[j] == was[j];
        i := i + 1;
      }
      NoneLive(slots[..]);
    }
  }

  lemma {:induction false} NoneLive(cs: seq<Slot>)
    requires forall i :: 0 <= i < |cs| ==> !Live(cs[i])
    ensures CountLive(cs) == 0
  {
    if cs != [] {
      NoneLive(Init(cs));
    }
  }
}
