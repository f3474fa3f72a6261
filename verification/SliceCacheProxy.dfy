/** The page cache as an object beside a Redis server, proved against the functions of `SliceCaches`. */
module SliceCacheProxies {
  import opened Wrappers
  import opened Deletes
  import opened SortedSets
  import opened PageCache
  import opened SliceCaches

  /** The Redis commands of the page cache. Each is one atomic step, whether or not its reply arrives. */
  class SortedSetServer {
    var zsets: map<string, ZSet>
    var expiring: set<string>

    function State(): Store
      reads this
    {
      Store(zsets, expiring)
    }

    constructor ()
      ensures State() == Store(map[], {})
    {
      zsets, expiring := map[], {};
    }

    method RangeByScore(o: RangeOrder, key: string, min: Bound, max: Bound, offset: int, count: int, net: Network)
      returns (res: seq<Z>, err: bool)
      ensures err == !net.Fine?
      ensures !err ==> res == SortedSets.RangeByScore(o, At(State(), key), min, max, offset, count)
    {
      if !net.Fine? {
        return [], true;
      }
      res, err := SortedSets.RangeByScore(o, At(State(), key), min, max, offset, count), false;
    }

    method KeyExists(key: string, net: Network) returns (count: int, err: bool)
      ensures err == !net.Fine?
      ensures !err ==> count == if key in zsets then 1 else 0
    {
      count, err := if key in zsets then 1 else 0, !net.Fine?;
    }

    method ZAdd(key: string, rows: seq<Z>, net: Network) returns (err: bool)
      modifies this
      ensures State() == if net.RequestLost? then old(State()) else Added(old(State()), key, rows)
      ensures err == (!net.Fine? || rows == [])
    {
      if rows != [] && !net.RequestLost? {
        zsets := zsets[key := SortedSets.ZAdd(At(State(), key), rows)];
      }
      err := !net.Fine? || rows == [];
    }

    method Expire(key: string, ttl: int, net: Network) returns (success: bool, err: bool)
      modifies this
      ensures State() == if net.RequestLost? then old(State()) else Timed(old(State()), key, ttl)
      ensures err == !net.Fine? && success == (net.Fine? && key in old(zsets))
    {
      success, err := net.Fine? && key in zsets, !net.Fine?;
      if key in zsets && !net.RequestLost? {
        if ttl <= 0 {
          Del(key);
        } else {
          expiring := expiring + {key};
        }
      }
    }

    method Del(key: string)
      modifies this
      ensures State() == Dropped(old(State()), key)
    {
      zsets := zsets - {key};
      expiring := expiring - {key};
    }
  }

  /** Exactly the keys whose delete was executed are gone, with their time to live; no other key is touched. */
  lemma {:induction false} DroppedExactly(s: Store, keys: seq<string>, executed: nat -> bool, n: nat, key: string)
    requires n <= |keys|
    ensures var s' := AllDropped(Dropped, s, keys, executed, n);
            && (key in s'.zsets <==> key in s.zsets && !IsDropped(keys, executed, n, key))
            && (key in s'.expiring <==> key in s.expiring && !IsDropped(keys, executed, n, key))
            && At(s', key) == if IsDropped(keys, executed, n, key) then map[] else At(s, key)
  {
    if n == 0 {
    } else {
      DroppedExactly(s, keys, executed, n - 1, key);
      DroppedNext(keys, executed, n - 1, key);
    }
  }

  class SliceCacheProxy<I, A, T> {
    const assembleKey: I -> string
    const encode: Encoder<A>
    const decode: Decoder<T>
    var expireTime: int
    var scoreOrder: RangeOrder
    var cacheCapacity: int

    constructor (assembleKey: I -> string, encode: Encoder<A>, decode: Decoder<T>)
      ensures this.assembleKey == assembleKey && this.encode == encode && this.decode == decode
      ensures scoreOrder == HighToLow && cacheCapacity == 1000 && expireTime == 3600
    {
      this.assembleKey, this.encode, this.decode := assembleKey, encode, decode;
      scoreOrder, cacheCapacity, expireTime := HighToLow, 1000, 3600;
    }

    method GetFinalZMember() returns (final: Z)
      ensures final == FinalZMember(scoreOrder)
    {
      if scoreOrder.HighToLow? {
        final := Z(NegInf, "");
      } else {
        final := Z(PosInf, "");
      }
    }

    /** The bounds of the range command. */
    method Bounds(info: RangeInfo) returns (min: Bound, max: Bound)
      ensures min == MinBound(scoreOrder, info) && max == MaxBound(scoreOrder, info)
    {
      var start;
      if info.fromBeginning {
        start := if scoreOrder.HighToLow? then PosInf else NegInf;
      } else {
        start := info.startScore;
      }
      if scoreOrder.HighToLow? {
        max := Bound(start, !info.includeStartScore);
        min := Bound(NegInf, false);
      } else {
        min := Bound(start, !info.includeStartScore);
        max := Bound(PosInf, false);
      }
    }

    /** Writes the members of a page as one JSON array, in their order. */
    method JoinMembers(res: seq<Z>) returns (buffer: string)
      requires res != []
      ensures buffer == ArrayText(Members(res)) && IsArrayOf(buffer, Members(res))
    {
      ghost var texts := Members(res);
      buffer := "[";
      for i := 0 to |res| - 1
        invariant buffer + Separated(texts[i..]) == "[" + Separated(texts)
      {
        assert texts[i..][1..] == texts[i + 1..];
        buffer := buffer + res[i].member + ",";
      }
      assert texts[|res| - 1..] == [res[|res| - 1].member];
      buffer := buffer + res[|res| - 1].member + "]";
      ArrayTextExact(buffer, texts);
    }

    /** `reload` tells whether a reload was started in the background. */
    method Get(redis: SortedSetServer, id: I, q: RangeInfo, source: Source<A>, net: Network)
      returns (outcome: Outcome<T>, reload: bool)
      ensures outcome == GetOutcome(scoreOrder, encode, decode, At(redis.State(), assembleKey(id)), source, q, net)
      ensures reload <==> net.Fine? && LookUp(scoreOrder, At(redis.State(), assembleKey(id)), q).None?
    {
      hide SortedSets.RangeByScore, ArrayText;
      var info := q;
      if info.limit < 1 {
        info := info.(limit := 1);
      }
      var min, max := Bounds(info);
      var res, err := redis.RangeByScore(scoreOrder, assembleKey(id), min, max, info.offset, info.limit, net);
      if err {
        outcome := GetFromSource(info, source);
        return outcome, false;
      }
      assert res == Reply(scoreOrder, At(redis.State(), assembleKey(id)), q);
      var hasFinal := false;
      var final := GetFinalZMember();
      if |res| > 0 && res[|res| - 1] == final {
        res := res[..|res| - 1];
        hasFinal := true;
      }
      if |res| == info.limit || hasFinal {
        if |res| == 0 {
          return Untouched, false;
        }
        var buffer := JoinMembers(res);
        match decode(buffer) {
          case Some(value) => return Delivered(value), false;
          case None => return DecodeError, false;
        }
      }
      outcome := GetFromSource(info, source);
      reload := true;
    }

    method GetFromSource(info: RangeInfo, source: Source<A>) returns (outcome: Outcome<T>)
      ensures outcome == FromSource(encode, decode, source(info))
    {
      var rows := source(info);
      if rows.None? {
        return SourceError;
      }
      var members: seq<A> := [];
      for i := 0 to |rows.value|
        invariant |members| == i && forall k :: 0 <= k < i ==> members[k] == rows.value[k].value
      {
        members := members + [rows.value[i].value];
      }
      if |members| == 0 {
        return Untouched;
      }
      var jsonStr := MarshalList(members);
      assert members == seq(|rows.value|, i requires 0 <= i < |rows.value| => rows.value[i].value);
      if jsonStr.None? {
        return DecodeError;
      }
      assert Members(EncodeRows(encode, rows.value)) ==
             seq(|members|, i requires 0 <= i < |members| => Text(encode, members[i]));
      match decode(jsonStr.value) {
        case Some(value) => return Delivered(value);
        case None => return DecodeError;
      }
    }

    /** The library's encoding of a list: an array text, if every element encodes. */
    method MarshalList(members: seq<A>) returns (text: Option<string>)
      requires members != []
      ensures text.Some? <==> forall i :: 0 <= i < |members| ==> encode(members[i]).Some?
      ensures text.Some? ==>
                var texts := seq(|members|, i requires 0 <= i < |members| => Text(encode, members[i]));
                text.value == ArrayText(texts) && IsArrayOf(text.value, texts)
    {
      var texts: seq<string> := [];
      for i := 0 to |members|
        invariant |texts| == i
        invariant forall k :: 0 <= k < i ==> encode(members[k]).Some? && texts[k] == Text(encode, members[k])
      {
        var next := encode(members[i]);
        if next.None? {
          return None;
        }
        texts := texts + [next.value];
      }
      assert texts == seq(|members|, i requires 0 <= i < |members| => Text(encode, members[i]));
      text := Some(ArrayText(texts));
      ArrayTextExact(text.value, texts);
    }

    method ReloadRedisIfNotExists(redis: SortedSetServer, id: I, source: Source<A>, cmds: Commands)
      modifies redis
      ensures redis.State() ==
              ReloadedIfMissing(scoreOrder, old(redis.State()), assembleKey(id), Fetched(encode, source, cacheCapacity),
                                cacheCapacity, expireTime, cmds)
      ensures !cmds.check.Fine? || assembleKey(id) in old(redis.zsets) || source(ReloadQuery(cacheCapacity)).None? ==>
                redis.State() == old(redis.State())
    {
      var existCount, err := redis.KeyExists(assembleKey(id), cmds.check);
      if err {
        return;
      }
      if existCount != 1 {
        ReloadRedis(redis, id, source, cmds);
      }
    }

    method ReloadRedis(redis: SortedSetServer, id: I, source: Source<A>, cmds: Commands)
      modifies redis
      ensures redis.State() ==
              Reloaded(scoreOrder, old(redis.State()), assembleKey(id), Fetched(encode, source, cacheCapacity),
                       cacheCapacity, expireTime, cmds)
      ensures source(ReloadQuery(cacheCapacity)).None? ==> redis.State() == old(redis.State())
    {
      var rows := source(RangeInfo(Fin(0.0), true, false, 0, cacheCapacity));
      if rows.None? {
        return;
      }
      var zmembers: seq<Z> := [];
      for i := 0 to |rows.value|
        invariant |zmembers| == i
        invariant forall k :: 0 <= k < i ==> zmembers[k] == Z(rows.value[k].score, Text(encode, rows.value[k].value))
      {
        zmembers := zmembers + [Z(rows.value[i].score, Text(encode, rows.value[i].value))];
      }
      assert zmembers == EncodeRows(encode, rows.value);
      if |zmembers| < cacheCapacity {
        var final := GetFinalZMember();
        zmembers := zmembers + [final];
      }
      var key := assembleKey(id);
      var _ := redis.ZAdd(key, zmembers, cmds.zadd);
      var _, _ := redis.Expire(key, expireTime, cmds.expire);
    }

    /** One pipeline of deletes, any of which may not be executed. */
    method DelKeys(redis: SortedSetServer, ids: seq<I>, executed: nat -> bool)
      modifies redis
      ensures redis.State() == AllDropped(Dropped, old(redis.State()), KeysOf(assembleKey, ids), executed, |ids|)
    {
      for i := 0 to |ids|
        invariant redis.State() == AllDropped(Dropped, old(redis.State()), KeysOf(assembleKey, ids), executed, i)
      {
        if executed(i) {
          redis.Del(assembleKey(ids[i]));
        }
      }
    }
  }
}
