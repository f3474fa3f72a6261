/**
  The resolver object: its address map, its watch and the states it pushes to the client
  connection. Every method is proved against the replay functions of `EtcdReplay`.
 */
module Resolvers {
  import opened Wrappers
  import opened EtcdReplay

  /** A pushed state lists the map's values, each as often as it occurs, in no particular order. */
  ghost predicate IsBagOf<A(!new)>(bag: multiset<A>, m: map<string, A>) {
    forall a :: bag[a] == |KeysOf(m, m.Keys, a)|
  }

  ghost function KeysOf<A>(m: map<string, A>, keys: set<string>, a: A): set<string>
    requires keys <= m.Keys
  {
    set k | k in keys && m[k] == a
  }

  predicate Effective<A>(decode: Decoder<A>, e: Op) {
    e.Put? ==> decode(e.value).Some?
  }

  /** The map after some events of the service's own keys. */
  function Watched<A>(decode: Decoder<A>, prefix: string, m: map<string, A>, events: seq<Op>): map<string, A> {
    if events == [] then m
    else Apply(decode, prefix, Watched(decode, prefix, m, events[..|events| - 1]), events[|events| - 1])
  }

  /** The maps pushed meanwhile: each effective event notifies twice. */
  function PushedMaps<A>(decode: Decoder<A>, prefix: string, m: map<string, A>, events: seq<Op>): seq<map<string, A>> {
    if events == [] then []
    else
      var after := Watched(decode, prefix, m, events);
      PushedMaps(decode, prefix, m, events[..|events| - 1]) +
      if Effective(decode, events[|events| - 1]) then [after, after] else []
  }

  /** The events of which the resolver takes notice: deletes, and puts of a value that decodes. */
  function Noticed<A>(decode: Decoder<A>, events: seq<Op>): set<int> {
    set i | 0 <= i < |events| && (events[i].Delete? || decode(events[i].value).Some?)
  }

  lemma NoticedNext<A>(decode: Decoder<A>, events: seq<Op>, n: nat)
    requires n < |events|
    ensures Noticed(decode, events[..n + 1]) ==
            Noticed(decode, events[..n]) + if events[n].Delete? || decode(events[n].value).Some? then {n} else {}
    ensures |Noticed(decode, events[..n + 1])| ==
            |Noticed(decode, events[..n])| + if events[n].Delete? || decode(events[n].value).Some? then 1 else 0
  {
    assert n !in Noticed(decode, events[..n]);
  }

  /** The pushes of event i come after two for each noticed event before it, and show the map after it. */
  ghost predicate PushedTwice<A>(
      decode: Decoder<A>, prefix: string, m: map<string, A>, events: seq<Op>, maps: seq<map<string, A>>, i: nat)
    requires i < |events|
  {
    var k := 2 * |Noticed(decode, events[..i])|;
    k + 1 < |maps| && maps[k] == maps[k + 1] == Watched(decode, prefix, m, events[..i + 1])
  }

  /** Each event that is noticed pushes the map after it twice, in order; there are no other pushes. */
  lemma {:induction false} PushesExact<A>(
      decode: Decoder<A>, prefix: string, m: map<string, A>, events: seq<Op>)
    ensures |PushedMaps(decode, prefix, m, events)| == 2 * |Noticed(decode, events)|
    ensures forall i :: i in Noticed(decode, events) ==>
              PushedTwice(decode, prefix, m, events, PushedMaps(decode, prefix, m, events), i)
  {
    hide Watched, PushedTwice;
    if events == [] {
    } else {
      var n := |events| - 1;
      PushesExact(decode, prefix, m, events[..n]);
      NoticedNext(decode, events, n);
      assert events[..n + 1] == events;
      hide Noticed;
      var more := PushedLast(decode, prefix, m, events);
      forall i | i in Noticed(decode, events[..n])
        ensures PushedTwice(decode, prefix, m, events, PushedMaps(decode, prefix, m, events), i)
      {
        assert i < n by {
          NoticedWithin(decode, events[..n]);
        }
        PushedBefore(decode, prefix, m, events, PushedMaps(decode, prefix, m, events[..n]), more, i);
      }
    }
  }

  lemma NoticedWithin<A>(decode: Decoder<A>, events: seq<Op>)
    ensures forall i :: i in Noticed(decode, events) ==> 0 <= i < |events|
  {
  }

  /** The pushes of the last event. */
  lemma PushedLast<A>(decode: Decoder<A>, prefix: string, m: map<string, A>, events: seq<Op>)
    returns (more: seq<map<string, A>>)
    requires events != []
    requires var front := events[..|events| - 1];
             |PushedMaps(decode, prefix, m, front)| == 2 * |Noticed(decode, front)|
    ensures var e := events[|events| - 1];
            && PushedMaps(decode, prefix, m, events) == PushedMaps(decode, prefix, m, events[..|events| - 1]) + more
            && |more| == (if e.Delete? || decode(e.value).Some? then 2 else 0)
            && (e.Delete? || decode(e.value).Some? ==>
                  PushedTwice(decode, prefix, m, events, PushedMaps(decode, prefix, m, events), |events| - 1))
  {
    hide Watched, Noticed;
    var after := Watched(decode, prefix, m, events);
    more := if Effective(decode, events[|events| - 1]) then [after, after] else [];
    assert events[..|events| - 1 + 1] == events;
  }

  lemma PushedBefore<A>(
      decode: Decoder<A>, prefix: string, m: map<string, A>, events: seq<Op>,
      front: seq<map<string, A>>, more: seq<map<string, A>>, i: nat)
    requires i < |events| - 1 && PushedTwice(decode, prefix, m, events[..|events| - 1], front, i)
    ensures PushedTwice(decode, prefix, m, events, front + more, i)
  {
    hide Watched;
    assert events[..|events| - 1][..i] == events[..i] && events[..|events| - 1][..i + 1] == events[..i + 1];
  }

  /** Events of which none is noticed leave the map as it was. */
  lemma {:induction false} UnnoticedKeepMap<A>(decode: Decoder<A>, prefix: string, m: map<string, A>, events: seq<Op>)
    requires Noticed(decode, events) == {}
    ensures Watched(decode, prefix, m, events) == m
  {
    if events == [] {
    } else {
      var n := |events| - 1;
      NoticedNext(decode, events, n);
      assert events[..n + 1] == events;
      UnnoticedKeepMap(decode, prefix, m, events[..n]);
    }
  }

  /** What the resolver keeps of an etcd reply. */
  function Decoded<A>(decode: Decoder<A>, kvs: seq<(string, string)>): map<string, A> {
    if kvs == [] then map[] else
      var (key, value) := kvs[|kvs| - 1];
      var before := Decoded(decode, kvs[..|kvs| - 1]);
      if decode(value).Some? then before[key := decode(value).value] else before
  }

  /** An etcd reply lists the keys with the prefix, each once. */
  ghost predicate Lists(kvs: seq<(string, string)>, prefix: string, keys: map<string, string>) {
    && (forall i, j :: 0 <= i < j < |kvs| ==> kvs[i].0 != kvs[j].0)
    && (forall i :: 0 <= i < |kvs| ==> kvs[i].0 in keys && keys[kvs[i].0] == kvs[i].1 && HasPrefix(kvs[i].0, prefix))
    && (forall k :: k in keys && HasPrefix(k, prefix) ==> exists i :: 0 <= i < |kvs| && kvs[i].0 == k)
  }

  /** Row i of the reply is the one that gives key k its address. */
  predicate IsRowOf<A(==)>(decode: Decoder<A>, kvs: seq<(string, string)>, i: int, k: string, addr: A) {
    0 <= i < |kvs| && kvs[i].0 == k && decode(kvs[i].1) == Some(addr)
  }

  lemma {:induction false} DecodedHasRow<A>(decode: Decoder<A>, kvs: seq<(string, string)>, k: string) returns (i: nat)
    requires k in Decoded(decode, kvs)
    ensures IsRowOf(decode, kvs, i, k, Decoded(decode, kvs)[k])
  {
    var (key, value) := kvs[|kvs| - 1];
    if k == key && decode(value).Some? {
      i := |kvs| - 1;
    } else {
      i := DecodedHasRow(decode, kvs[..|kvs| - 1], k);
    }
  }

  lemma {:induction false} RowIsDecoded<A>(decode: Decoder<A>, kvs: seq<(string, string)>, i: nat)
    requires forall i, j :: 0 <= i < j < |kvs| ==> kvs[i].0 != kvs[j].0
    requires i < |kvs| && decode(kvs[i].1).Some?
    ensures kvs[i].0 in Decoded(decode, kvs) && Decoded(decode, kvs)[kvs[i].0] == decode(kvs[i].1).value
  {
    if i == |kvs| - 1 {
    } else {
      RowIsDecoded(decode, kvs[..|kvs| - 1], i);
    }
  }

  /** What the resolver keeps of a complete reply is a direct reading of the service's addresses. */
  lemma DecodedIsAddresses<A>(decode: Decoder<A>, prefix: string, kvs: seq<(string, string)>, keys: map<string, string>)
    requires Lists(kvs, prefix, keys)
    ensures Decoded(decode, kvs) == Addresses(decode, prefix, keys)
  {
    var a, b := Decoded(decode, kvs), Addresses(decode, prefix, keys);
    forall k ensures SameAt(a, b, k) {
      if k in b {
        assert k in keys && HasPrefix(k, prefix);
        var i :| 0 <= i < |kvs| && kvs[i].0 == k;
        RowIsDecoded(decode, kvs, i);
      } else if k in a {
        var i := DecodedHasRow(decode, kvs, k);
      }
    }
    SameEverywhere(a, b);
  }

  class MyResolver<A(==, !new)> {
    const decode: Decoder<A>
    const registerKey: string

    var key2Addr: map<string, A>
    var watching: bool
    /** The states given to the client connection, oldest first. */
    var pushed: seq<multiset<A>>
    /** The address map at each push. */
    ghost var pushedMaps: seq<map<string, A>>

    /** Every state pushed showed the map of that time. */
    ghost predicate Logged()
      reads this
    {
      |pushed| == |pushedMaps| && forall i :: 0 <= i < |pushed| ==> IsBagOf(pushed[i], pushedMaps[i])
    }

    /** And the client connection knows the present map: it is empty before the first push. */
    ghost predicate Valid()
      reads this
    {
      Logged() && if pushed == [] then key2Addr == map[] else IsBagOf(pushed[|pushed| - 1], key2Addr)
    }

    constructor (decode: Decoder<A>, registerKey: string)
      ensures Valid() && key2Addr == map[] && !watching && pushed == []
      ensures this.decode == decode && this.registerKey == registerKey
    {
      this.decode, this.registerKey := decode, registerKey;
      key2Addr, watching, pushed, pushedMaps := map[], false, [], [];
    }

    method Notify()
      requires Logged()
      modifies `pushed, `pushedMaps
      ensures Valid() && pushedMaps == old(pushedMaps) + [key2Addr] && old(pushed) <= pushed
    {
      var addrList: seq<A> := [];
      var keys := key2Addr.Keys;
      while keys != {}
        invariant keys <= key2Addr.Keys && pushed == old(pushed) && pushedMaps == old(pushedMaps)
        invariant forall a :: multiset(addrList)[a] == |KeysOf(key2Addr, key2Addr.Keys - keys, a)|
        decreases keys
      {
        var k :| k in keys;
        OneMoreKey(key2Addr, key2Addr.Keys - keys, k);
        addrList := addrList + [key2Addr[k]];
        assert key2Addr.Keys - (keys - {k}) == (key2Addr.Keys - keys) + {k};
        keys := keys - {k};
      }
      assert key2Addr.Keys - {} == key2Addr.Keys;
      pushed := pushed + [multiset(addrList)];
      pushedMaps := pushedMaps + [key2Addr];
    }

    method SetAddrs(addrs: map<string, A>)
      requires Valid()
      modifies `key2Addr, `pushed, `pushedMaps
      ensures Valid() && key2Addr == addrs && pushedMaps == old(pushedMaps) + [addrs] && old(pushed) <= pushed
    {
      key2Addr := map[];
      var keys := addrs.Keys;
      while keys != {}
        invariant pushed == old(pushed) && pushedMaps == old(pushedMaps)
        invariant keys <= addrs.Keys && key2Addr.Keys == addrs.Keys - keys
        invariant forall k :: k in key2Addr ==> key2Addr[k] == addrs[k]
        decreases keys
      {
        var k :| k in keys;
        key2Addr := key2Addr[k := addrs[k]];
        keys := keys - {k};
      }
      assert key2Addr == addrs;
      Notify();
    }

    method AddAddr(key: string, address: A)
      requires Valid()
      modifies `key2Addr, `pushed, `pushedMaps
      ensures Valid() && key2Addr == old(key2Addr)[key := address] && pushedMaps == old(pushedMaps) + [key2Addr]
      ensures old(pushed) <= pushed
    {
      key2Addr := key2Addr[key := address];
      Notify();
    }

    method RemoveAddr(key: string)
      requires Valid()
      modifies `key2Addr, `pushed, `pushedMaps
      ensures Valid() && key2Addr == old(key2Addr) - {key} && pushedMaps == old(pushedMaps) + [key2Addr]
      ensures old(pushed) <= pushed
    {
      key2Addr := key2Addr - {key};
      Notify();
    }

    /** One response of the watch channel: events of keys under the register key, in revision order. */
    method Watch(events: seq<Op>)
      requires Valid()
      requires forall e :: e in events ==> HasPrefix(e.key, registerKey + "/")
      modifies `key2Addr, `pushed, `pushedMaps
      ensures Valid() && key2Addr == Watched(decode, registerKey + "/", old(key2Addr), events)
      ensures pushedMaps == old(pushedMaps) + PushedMaps(decode, registerKey + "/", old(key2Addr), events)
      ensures |pushed| == |old(pushed)| + 2 * |Noticed(decode, events)| && old(pushed) <= pushed
      ensures Noticed(decode, events) == {} ==> key2Addr == old(key2Addr)
    {
      for i := 0 to |events|
        invariant Valid() && key2Addr == Watched(decode, registerKey + "/", old(key2Addr), events[..i])
        invariant old(pushed) <= pushed
        invariant pushedMaps == old(pushedMaps) + PushedMaps(decode, registerKey + "/", old(key2Addr), events[..i])
      {
        var e := events[i];
        assert events[..i + 1][..i] == events[..i] && e in events;
        match e {
          case Put(key, value) =>
            var addr := decode(value);
            if addr.Some? {
              AddAddr(key, addr.value);
              Notify();
            }
          case Delete(key) =>
            RemoveAddr(key);
            Notify();
        }
      }
      assert events[..|events|] == events;
      PushesExact(decode, registerKey + "/", old(key2Addr), events);
      if Noticed(decode, events) == {} {
        UnnoticedKeepMap(decode, registerKey + "/", old(key2Addr), events);
      }
    }

    /** The snapshot: a failed request leaves the map, and the old watch is gone either way. */
    method DoResolveNow(reply: Option<seq<(string, string)>>)
      requires Valid()
      modifies this
      ensures Valid() && watching == reply.Some?
      ensures reply.None? ==> key2Addr == old(key2Addr) && pushed == old(pushed) && pushedMaps == old(pushedMaps)
      ensures reply.Some? ==> key2Addr == Decoded(decode, reply.value) && pushedMaps == old(pushedMaps) + [key2Addr]
      ensures old(pushed) <= pushed
    {
      watching := false;
      if reply.None? {
        return;
      }
      var m: map<string, A> := map[];
      for i := 0 to |reply.value|
        invariant m == Decoded(decode, reply.value[..i])
      {
        assert reply.value[..i + 1][..i] == reply.value[..i];
        var addr := decode(reply.value[i].1);
        if addr.Some? {
          m := m[reply.value[i].0 := addr.value];
        }
      }
      assert reply.value[..|reply.value|] == reply.value;
      SetAddrs(m);
      watching := true;
    }
  }

  lemma OneMoreKey<A(!new)>(m: map<string, A>, keys: set<string>, k: string)
    requires keys <= m.Keys && k in m && k !in keys
    ensures forall a :: |KeysOf(m, keys + {k}, a)| == |KeysOf(m, keys, a)| + if m[k] == a then 1 else 0
  {
    forall a ensures |KeysOf(m, keys + {k}, a)| == |KeysOf(m, keys, a)| + if m[k] == a then 1 else 0 {
      if m[k] == a {
        assert KeysOf(m, keys + {k}, a) == KeysOf(m, keys, a) + {k};
      } else {
        assert KeysOf(m, keys + {k}, a) == KeysOf(m, keys, a);
      }
    }
  }

  /** The service's own events among the writes from revision r to n, as the watch delivers them. */
  function EventsBetween(prefix: string, history: seq<Op>, r: nat, n: nat): seq<Op>
    requires r <= n <= |history|
  {
    if r == n then [] else
      EventsBetween(prefix, history, r, n - 1) +
      if HasPrefix(history[n - 1].key, prefix) then [history[n - 1]] else []
  }

  /**
    A resolver that takes a snapshot at revision r and then watches the service's events up
    to revision n holds the replay of the history.
   */
  lemma {:induction false} WatchIsReplay<A>(decode: Decoder<A>, prefix: string, history: seq<Op>, r: nat, n: nat)
    requires r <= n <= |history|
    ensures Watched(decode, prefix, Addresses(decode, prefix, KeysAt(history, r)), EventsBetween(prefix, history, r, n))
            == Replay(decode, prefix, history, r, n)
  {
    hide Addresses, KeysAt, Apply;
    if r == n {
    } else {
      WatchIsReplay(decode, prefix, history, r, n - 1);
      WatchOneMore(decode, prefix, Addresses(decode, prefix, KeysAt(history, r)), history, r, n);
    }
  }

  /**
    End to end: the reply for revision r, then the watch up to revision n, leave exactly the
    service's addresses at revision n if and only if nothing is outdated in between.
   */
  lemma {:induction false} SnapshotThenWatch<A>(
      decode: Decoder<A>, prefix: string, kvs: seq<(string, string)>, history: seq<Op>, r: nat, n: nat)
    requires r <= n <= |history| && Lists(kvs, prefix, KeysAt(history, r))
    ensures (Watched(decode, prefix, Decoded(decode, kvs), EventsBetween(prefix, history, r, n)) ==
             Addresses(decode, prefix, KeysAt(history, n))) <==> NothingOutdated(decode, prefix, history, r, n)
  {
    hide Watched, Decoded, EventsBetween, Addresses, KeysAt, Lists, NothingOutdated;
    DecodedIsAddresses(decode, prefix, kvs, KeysAt(history, r));
    WatchIsReplay(decode, prefix, history, r, n);
    ReplayWindowExact(decode, prefix, history, r, n);
  }

  /** The watch delivers write n - 1 if it concerns the service, and misses nothing if it does not. */
  lemma WatchOneMore<A>(decode: Decoder<A>, prefix: string, m: map<string, A>, history: seq<Op>, r: nat, n: nat)
    requires r < n <= |history|
    ensures Watched(decode, prefix, m, EventsBetween(prefix, history, r, n)) ==
            Apply(decode, prefix, Watched(decode, prefix, m, EventsBetween(prefix, history, r, n - 1)), history[n - 1])
  {
    hide Watched, Apply;
    var before, e := EventsBetween(prefix, history, r, n - 1), history[n - 1];
    if HasPrefix(e.key, prefix) {
      WatchedOneMore(decode, prefix, m, before, e);
    } else {
      assert EventsBetween(prefix, history, r, n) == before;
      ForeignWrite(decode, prefix, Watched(decode, prefix, m, before), e);
    }
  }

  lemma WatchedOneMore<A>(decode: Decoder<A>, prefix: string, m: map<string, A>, events: seq<Op>, e: Op)
    ensures Watched(decode, prefix, m, events + [e]) == Apply(decode, prefix, Watched(decode, prefix, m, events), e)
  {
    hide Apply;
    assert (events + [e])[..|events|] == events;
  }

  lemma ForeignWrite<A>(decode: Decoder<A>, prefix: string, m: map<string, A>, e: Op)
    requires !HasPrefix(e.key, prefix)
    ensures Apply(decode, prefix, m, e) == m
  {
  }
}
