/** The object cache as an object beside a Redis server, proved against the functions of `ObjectCaches`. */
module ObjectCacheProxies {
  import opened Wrappers
  import opened Deletes
  import opened ObjectCaches

  /** The Redis commands of the object cache. Each is one atomic step, whether or not its reply arrives. */
  class StringServer {
    var values: map<string, string>
    var expiring: set<string>

    function State(): Store
      reads this
    {
      Store(values, expiring)
    }

    constructor ()
      ensures State() == Store(map[], {})
    {
      values, expiring := map[], {};
    }

    /** `isNil` is the client library's answer for a key that is not there. */
    method GetValue(key: string, net: Network) returns (result: string, isNil: bool, err: bool)
      ensures err == !net.Fine?
      ensures !err ==> (isNil <==> At(State(), key).None?) && (!isNil ==> At(State(), key) == Some(result))
    {
      result, isNil, err := "", key !in values, !net.Fine?;
      if !isNil && !err {
        result := values[key];
      }
    }

    method Set(key: string, value: string, ttl: int, net: Network)
      modifies this
      ensures State() == if net.RequestLost? then old(State()) else Saved(old(State()), key, value, ttl)
    {
      if !net.RequestLost? {
        values := values[key := value];
        expiring := if ttl > 0 then expiring + {key} else expiring - {key};
      }
    }

    method Del(key: string)
      modifies this
      ensures State() == Dropped(old(State()), key)
    {
      values := values - {key};
      expiring := expiring - {key};
    }
  }

  class ObjectCacheProxy<I(==), A, T> {
    const assembleKey: I -> string
    const encode: Encoder<A>
    const decode: Decoder<T>
    var expireTime: int
    /** The saves started in the background that have not reached Redis yet. */
    var pending: multiset<Save<I>>

    constructor (assembleKey: I -> string, encode: Encoder<A>, decode: Decoder<T>)
      ensures this.assembleKey == assembleKey && this.encode == encode && this.decode == decode
      ensures expireTime == 600 && pending == multiset{}
    {
      this.assembleKey, this.encode, this.decode := assembleKey, encode, decode;
      expireTime, pending := 600, multiset{};
    }

    /** This proxy and its server, as a state of a run. */
    function State(redis: StringServer): World<I>
      reads this, redis
    {
      World(redis.State(), pending)
    }

    /** The settings of this proxy over a source that holds these rows. */
    function SettingOver(row: I -> Row<A>): Setting<I, A>
      reads this
    {
      Setting(assembleKey, encode, expireTime, row)
    }

    /** `row` is what the source holds, `sourceUp` whether it answers. Nothing but `pending` changes. */
    method Get(redis: StringServer, id: I, row: I -> Row<A>, net: Network, sourceUp: bool)
      returns (found: bool, err: bool, target: Target<T>)
      modifies `pending
      ensures Answer(found, err, target) ==
              GetAnswer(encode, decode, At(redis.State(), assembleKey(id)),
                        AskedRow(SettingOver(row), id, sourceUp), net)
      ensures State(redis) == Next(SettingOver(row), old(State(redis)), Action.Get(id, net, sourceUp))
      ensures var cached := At(redis.State(), assembleKey(id));
              if net.Fine? && cached.Some? then AnswersText(decode, cached.value, Answer(found, err, target))
              else if sourceUp then AnswersRow(encode, decode, row(id), Answer(found, err, target))
              else !found && err && target.Untouched? && pending == old(pending)
    {
      AnswerExact(encode, decode, At(redis.State(), assembleKey(id)), AskedRow(SettingOver(row), id, sourceUp), net);
      var redisResult, isNil, failed := redis.GetValue(assembleKey(id), net);
      if !failed && !isNil {
        if redisResult == NOT_EXISTS_STRING {
          return false, false, Untouched;
        }
        match decode(redisResult) {
          case Some(v) => return true, false, Written(v);
          case None => return true, true, Spoilt;
        }
      }
      match if sourceUp then row(id) else Failed {
        case Failed =>
          return false, true, Untouched;
        case Missing =>
          pending := pending + multiset{Save(id, NOT_EXISTS_STRING)};
          return false, false, Untouched;
        case Object(value) =>
          var bytes := encode(value);
          if bytes.None? {
            return false, true, Untouched;
          }
          pending := pending + multiset{Save(id, bytes.value)};
          match decode(bytes.value) {
            case Some(v) => return true, false, Written(v);
            case None => return false, true, Spoilt;
          }
      }
    }

    /** A background save gets its turn. */
    method SaveToRedis(redis: StringServer, save: Save<I>, net: Network, ghost row: I -> Row<A>)
      requires save in pending
      modifies `pending, redis
      ensures State(redis) == Next(SettingOver(row), old(State(redis)), Land(save, net))
    {
      redis.Set(assembleKey(save.id), save.text, expireTime, net);
      pending := pending - multiset{save};
    }

    /** One pipeline of deletes, any of which may not be executed. */
    method DelKeys(redis: StringServer, ids: seq<I>, executed: nat -> bool)
      modifies redis
      ensures redis.State() == AllDropped(Dropped, old(redis.State()), KeysOf(assembleKey, ids), executed, |ids|)
    {
      for i := 0 to |ids|
        invariant redis.State() == AllDropped(Dropped, old(redis.State()), KeysOf(assembleKey, ids), executed, i)
      {
        if executed(i) {
          redis.Del(assembleKey(ids[i]));
        }
      }
    }
  }

  /** Exactly the keys whose delete was executed are gone, with their time to live; no other key is touched. */
  lemma {:induction false} DroppedExactly(s: Store, keys: seq<string>, executed: nat -> bool, n: nat, key: string)
    requires n <= |keys|
    ensures var s' := AllDropped(Dropped, s, keys, executed, n);
            && At(s', key) == (if IsDropped(keys, executed, n, key) then None else At(s, key))
            && (key in s'.expiring <==> key in s.expiring && !IsDropped(keys, executed, n, key))
  {
    if n == 0 {
    } else {
      DroppedExactly(s, keys, executed, n - 1, key);
      DroppedNext(keys, executed, n - 1, key);
    }
  }
}
