/** The loops of `stat.c` over its client slots and tables. */
module StatServers {
  import opened Packing
  import opened Flexval
  import opened Stat
  import Assarr

  /** `build_stat_changes`: a traversal of the server's table, in any order. */
  method BuildChanges(vars: map<string, Flex>, cache: map<string, Flex>) returns (diff: map<string, Flex>)
    ensures diff == Diff(vars, cache)
  {
    diff := map[];
    var keys := vars.Keys;
    while keys != {}
      invariant keys <= vars.Keys
      invariant forall k :: k in diff <==> k in vars && k !in keys && Changed(vars, cache, k)
      invariant forall k :: k in diff ==> diff[k] == vars[k]
      decreases keys
    {
      var k :| k in keys;
      if k !in cache || Differs(vars[k], cache[k]) {
        diff := diff[k := vars[k]];
      }
      keys := keys - {k};
    }
    assert diff == Diff(vars, cache);
  }

  /** The cache when all but the keys left have been copied. */
  function CachedBut(cache: map<string, Flex>, diff: map<string, Flex>, keys: set<string>): map<string, Flex> {
    map k | k in cache.Keys + (diff.Keys - keys) ::
      if k in diff && k !in keys then Copy(diff[k], GetVar(cache, k)) else cache[k]
  }

  lemma OneMoreCached(cache: map<string, Flex>, diff: map<string, Flex>, keys: set<string>, k: string)
    requires keys <= diff.Keys && k in keys
    ensures var r := CachedBut(cache, diff, keys);
            CachedBut(cache, diff, keys - {k}) == r[k := Copy(diff[k], if k in r then r[k] else FRESH)]
  {
  }

  /** `update_client_stat_cache` */
  method UpdateCache(cache: map<string, Flex>, diff: map<string, Flex>) returns (r: map<string, Flex>)
    ensures r == Cached(cache, diff)
  {
    r := cache;
    var keys := diff.Keys;
    while keys != {}
      invariant keys <= diff.Keys && r == CachedBut(cache, diff, keys)
      decreases keys
    {
      var k :| k in keys;
      var cval := if k in r then r[k] else FRESH;
      OneMoreCached(cache, diff, keys, k);
      r := r[k := Copy(diff[k], cval)];
      keys := keys - {k};
    }
    assert r == Cached(cache, diff);
  }

  lemma WireSnoc(es: seq<Entry<Flex>>, e: Entry<Flex>)
    ensures PackAll(Wire(es + [e])) == PackAll(Wire(es)) + Packed(Entry(e.key, Serialize(e.value)))
  {
    assert Wire(es + [e]) == Wire(es) + [Entry(e.key, Serialize(e.value))];
    Assarr.PackAllSnoc(Wire(es), Entry(e.key, Serialize(e.value)));
  }

  /** `es` is a traversal of the table `m` as far as it has come: all but the keys left. */
  ghost predicate ListsBut(m: map<string, Flex>, keys: set<string>, es: seq<Entry<Flex>>) {
    && keys <= m.Keys && DistinctEntries(es)
    && (forall i :: 0 <= i < |es| ==> es[i].key in m && m[es[i].key] == es[i].value && es[i].key !in keys)
    && (forall k :: k in m && k !in keys ==> exists i :: 0 <= i < |es| && es[i].key == k)
  }

  lemma OneMoreListed(m: map<string, Flex>, keys: set<string>, es: seq<Entry<Flex>>, k: string)
    requires ListsBut(m, keys, es) && k in keys
    ensures ListsBut(m, keys - {k}, es + [Entry(k, m[k])])
  {
    var es' := es + [Entry(k, m[k])];
    forall j | j in m && j !in keys - {k} ensures exists i :: 0 <= i < |es'| && es'[i].key == j {
      if j == k {
        assert es'[|es|].key == j;
      } else {
        var i :| 0 <= i < |es| && es[i].key == j;
        assert es'[i].key == j;
      }
    }
  }

  /** `dump_arr_to_buf` */
  method DumpTable(m: map<string, Flex>) returns (buf: string)
    ensures IsDump(buf, m)
  {
    buf := "";
    var keys := m.Keys;
    ghost var es: seq<Entry<Flex>> := [];
    while keys != {}
      invariant ListsBut(m, keys, es) && buf == PackAll(Wire(es))
      decreases keys
    {
      var k :| k in keys;
      OneMoreListed(m, keys, es, k);
      WireSnoc(es, Entry(k, m[k]));
      buf := buf + Packed(Entry(k, Serialize(m[k])));
      es := es + [Entry(k, m[k])];
      keys := keys - {k};
    }
    assert Lists(m, es);
  }

  /** `send_stat_changes`: nothing to a client of little access, nothing when nothing changed. */
  method SendChanges(c: Client, diff: map<string, Flex>) returns (r: Client)
    ensures r == c.(sent := r.sent, withheld := c.withheld || (diff != map[] && c.access < 7))
    ensures if diff == map[] || c.access < 7 then r.sent == c.sent
            else exists text :: IsDump(text, diff) && r.sent == c.sent + [Message(text)]
  {
    if c.access < 7 {
      return c.(withheld := c.withheld || diff != map[]);
    }
    var text := DumpTable(diff);
    EmptyDump(text, diff);
    if text == "" {
      return c;
    }
    return c.(sent := c.sent + [Message(text)]);
  }

  class StatServer {
    var vars: map<string, Flex>
    const clients: array<Client>

    ghost function Abs(): State
      reads this, clients
    {
      State(vars, clients[..])
    }

    constructor (slots: nat)
      ensures Abs() == State(map[], seq(slots, _ => VACANT)) && fresh(clients)
    {
      vars := map[];
      clients := new Client[slots](_ => VACANT);
      new;
      assert clients[..] == seq(slots, _ => VACANT);
    }

    /** `review_clients` */
    method ReviewClients()
      modifies clients
      ensures clients[..] == ReviewAll(old(clients[..]))
    {
      var i := 0;
      while i < clients.Length
        invariant 0 <= i <= clients.Length
        invariant forall j :: 0 <= j < i ==> clients[j] == Review(old(clients[j]))
        invariant forall j :: i <= j < clients.Length ==> clients[j] == old(clients[j])
      {
        var c := clients[i];
        if c.ipcUid != c.uid {
          clients[i] := c.(cache := map[], registered := false, ipcUid := c.uid);
        }
        i := i + 1;
      }
      assert clients[..] == ReviewAll(old(clients[..]));
    }

    /** The body of the loop of `stat_changed_callback`. */
    method RefreshOne(c: Client, ghost was: Client) returns (r: Client)
      requires c == Review(was)
      ensures Refreshed(was, vars, r)
    {
      if !c.registered {
        return c;
      }
      var diff := BuildChanges(vars, c.cache);
      var sent := SendChanges(c, diff);
      var cache := UpdateCache(c.cache, diff);
      r := sent.(cache := cache);
    }

    /** `stat_changed_callback` */
    method StatChanged()
      modifies clients
      ensures AllRefreshed(old(clients[..]), vars, clients[..])
    {
      ghost var was := clients[..];
      ReviewClients();
      ghost var reviewed := clients[..];
      var i := 0;
      while i < clients.Length
        invariant 0 <= i <= clients.Length
        invariant forall j :: 0 <= j < i ==> Refreshed(was[j], vars, clients[j])
        invariant forall j :: i <= j < clients.Length ==> clients[j] == reviewed[j]
      {
        var r := RefreshOne(clients[i], was[i]);
        clients[i] := r;
        i := i + 1;
      }
    }

    /** `wt_stat_set_int` */
    method SetInt(name: string, number: int)
      modifies this`vars, clients
      ensures Stat.Step(old(Abs()), SetVarInt(name, number), Abs())
    {
      vars := vars[name := Flexval.SetInt(GetVar(vars, name), number)];
      StatChanged();
    }

    /** `wt_stat_set_string` */
    method SetString(name: string, text: string)
      modifies this`vars, clients
      ensures Stat.Step(old(Abs()), SetVarString(name, text), Abs())
    {
      vars := vars[name := Flexval.SetString(GetVar(vars, name), text)];
      StatChanged();
    }

    /** `ipc_stat` with `register` and `unregister`. */
    method SetRegistered(slot: nat, on: bool)
      requires slot < clients.Length
      modifies clients
      ensures Stat.Step(old(Abs()), if on then Register(slot) else Unregister(slot), Abs())
    {
      ReviewClients();
      if clients[slot].access >= 7 {
        clients[slot] := clients[slot].(registered := on);
      }
    }
  }
}
