/**
  An etcd key space as a log of writes, and the resolver's view of it: the snapshot of one
  revision, then the watch events that follow, against a direct reading of a later revision.
 */
module EtcdReplay {
  import opened Wrappers

  datatype Op = Put(key: string, value: string) | Delete(key: string)

  predicate HasPrefix(key: string, prefix: string) {
    prefix <= key
  }

  /** The key space at revision n: after the first n writes. */
  function KeysAt(history: seq<Op>, n: nat): map<string, string>
    requires n <= |history|
  {
    if n == 0 then map[] else
      var before := KeysAt(history, n - 1);
      match history[n - 1]
      case Put(key, value) => before[key := value]
      case Delete(key) => before - {key}
  }

  /** The addresses of a service, read directly: every key with the prefix whose value decodes. */
  function Addresses<A>(decode: Decoder<A>, prefix: string, kvs: map<string, string>): map<string, A> {
    map k | k in kvs && HasPrefix(k, prefix) && decode(kvs[k]).Some? :: decode(kvs[k]).value
  }

  /** What one watch event does to the address map. Writes outside the prefix are not delivered. */
  function Apply<A>(decode: Decoder<A>, prefix: string, addrs: map<string, A>, op: Op): map<string, A> {
    if !HasPrefix(op.key, prefix) then addrs else
      match op
      case Put(key, value) => if decode(value).Some? then addrs[key := decode(value).value] else addrs
      case Delete(key) => addrs - {key}
  }

  /** The address map after a snapshot at revision r and the events up to revision n. */
  function Replay<A>(decode: Decoder<A>, prefix: string, history: seq<Op>, r: nat, n: nat): map<string, A>
    requires r <= n <= |history|
  {
    if r == n then Addresses(decode, prefix, KeysAt(history, r))
    else Apply(decode, prefix, Replay(decode, prefix, history, r, n - 1), history[n - 1])
  }

  // ----------------------------------------------------------- faithfulness

  predicate SameAt<A(==)>(a: map<string, A>, b: map<string, A>, key: string) {
    (key in a <==> key in b) && (key in a ==> a[key] == b[key])
  }

  /** Write i replaces a decodable value of a service key by one that does not decode. */
  predicate Corrupts<A>(decode: Decoder<A>, prefix: string, history: seq<Op>, i: nat)
    requires i < |history|
  {
    && history[i].Put? && HasPrefix(history[i].key, prefix) && decode(history[i].value).None?
    && history[i].key in KeysAt(history, i) && decode(KeysAt(history, i)[history[i].key]).Some?
  }

  /** Replaying is right for every key that no replayed write corrupted. */
  lemma {:induction false} ReplayKey<A>(
      decode: Decoder<A>, prefix: string, history: seq<Op>, r: nat, n: nat, key: string)
    requires r <= n <= |history|
    requires forall i :: r <= i < n && history[i].key == key ==> !Corrupts(decode, prefix, history, i)
    ensures SameAt(Replay(decode, prefix, history, r, n), Addresses(decode, prefix, KeysAt(history, n)), key)
  {
    if r == n {
    } else {
      ReplayKey(decode, prefix, history, r, n - 1, key);
    }
  }

  ghost predicate ReplaysFaithfully<A>(decode: Decoder<A>, prefix: string, history: seq<Op>, r: nat, n: nat)
    requires r <= n <= |history|
  {
    Replay(decode, prefix, history, r, n) == Addresses(decode, prefix, KeysAt(history, n))
  }

  ghost predicate NothingCorrupted<A>(decode: Decoder<A>, prefix: string, history: seq<Op>) {
    forall i :: 0 <= i < |history| ==> !Corrupts(decode, prefix, history, i)
  }

  lemma ReplayAll<A>(decode: Decoder<A>, prefix: string, history: seq<Op>, r: nat, n: nat)
    requires r <= n <= |history| && NothingCorrupted(decode, prefix, history)
    ensures ReplaysFaithfully(decode, prefix, history, r, n)
  {
    var a, b := Replay(decode, prefix, history, r, n), Addresses(decode, prefix, KeysAt(history, n));
    forall key ensures SameAt(a, b, key) {
      ReplayKey(decode, prefix, history, r, n, key);
    }
    SameEverywhere(a, b);
  }

  lemma SameEverywhere<A>(a: map<string, A>, b: map<string, A>)
    requires forall key :: SameAt(a, b, key)
    ensures a == b
  {
    assert forall key :: key in a ==> SameAt(a, b, key);
    assert forall key :: key in b ==> SameAt(a, b, key);
  }

  /** A corrupting write leaves the old address in the map of whoever watched it happen. */
  lemma CorruptionIsMissed<A>(decode: Decoder<A>, prefix: string, history: seq<Op>, i: nat)
    requires i < |history| && Corrupts(decode, prefix, history, i)
    ensures !ReplaysFaithfully(decode, prefix, history, i, i + 1)
  {
    var key := history[i].key;
    var after := KeysAt(history, i + 1);
    assert after[key] == history[i].value;
    assert key !in Addresses(decode, prefix, after);
    assert key in Replay(decode, prefix, history, i, i + 1);
  }

  /**
    Snapshot plus watch equals a direct reading, for every snapshot revision and every later
    one, exactly when no write of the history puts an undecodable value over a decodable one.
   */
  lemma ReplayExact<A>(decode: Decoder<A>, prefix: string, history: seq<Op>)
    ensures (forall r: nat, n: nat :: r <= n <= |history| ==> ReplaysFaithfully(decode, prefix, history, r, n))
            <==> NothingCorrupted(decode, prefix, history)
  {
    if NothingCorrupted(decode, prefix, history) {
      forall r: nat, n: nat | r <= n <= |history| ensures ReplaysFaithfully(decode, prefix, history, r, n) {
        ReplayAll(decode, prefix, history, r, n);
      }
    } else {
      var i: nat :| i < |history| && Corrupts(decode, prefix, history, i);
      CorruptionIsMissed(decode, prefix, history, i);
      assert i <= i + 1 <= |history|;
    }
  }

  // ------------------------------------------------- one snapshot, one window

  /**
    Whoever watched from revision r to n has an address for the key: going back over its writes
    that do not decode, the first other thing is a value that decodes, written or in the snapshot.
   */
  predicate Held<A>(decode: Decoder<A>, prefix: string, history: seq<Op>, r: nat, n: nat, key: string)
    requires r <= n <= |history|
  {
    if r == n then
      HasPrefix(key, prefix) && key in KeysAt(history, r) && decode(KeysAt(history, r)[key]).Some?
    else if history[n - 1].key != key then Held(decode, prefix, history, r, n - 1, key)
    else match history[n - 1]
      case Delete(_) => false
      case Put(_, value) =>
        HasPrefix(key, prefix) && (decode(value).Some? || Held(decode, prefix, history, r, n - 1, key))
  }

  /**
    The key's last write from revision r to n is a value that does not decode, and an address was
    held when it came.
   */
  predicate Outdated<A>(decode: Decoder<A>, prefix: string, history: seq<Op>, r: nat, n: nat, key: string)
    requires r <= n <= |history|
  {
    r < n &&
    if history[n - 1].key != key then Outdated(decode, prefix, history, r, n - 1, key)
    else history[n - 1].Put? && decode(history[n - 1].value).None? && Held(decode, prefix, history, r, n - 1, key)
  }

  ghost predicate NothingOutdated<A>(decode: Decoder<A>, prefix: string, history: seq<Op>, r: nat, n: nat)
    requires r <= n <= |history|
  {
    forall key :: !Outdated(decode, prefix, history, r, n, key)
  }

  lemma {:induction false} HeldHasPrefix<A>(
      decode: Decoder<A>, prefix: string, history: seq<Op>, r: nat, n: nat, key: string)
    requires r <= n <= |history| && Held(decode, prefix, history, r, n, key)
    ensures HasPrefix(key, prefix)
  {
    if r == n {
    } else if history[n - 1].key != key {
      HeldHasPrefix(decode, prefix, history, r, n - 1, key);
    }
  }

  /** The replay has an address for exactly the keys that are held. */
  lemma {:induction false} HeldExactly<A>(
      decode: Decoder<A>, prefix: string, history: seq<Op>, r: nat, n: nat, key: string)
    requires r <= n <= |history|
    ensures key in Replay(decode, prefix, history, r, n) <==> Held(decode, prefix, history, r, n, key)
  {
    if r == n {
    } else {
      HeldExactly(decode, prefix, history, r, n - 1, key);
      if Held(decode, prefix, history, r, n - 1, key) {
        HeldHasPrefix(decode, prefix, history, r, n - 1, key);
      }
    }
  }

  /** Replaying from r to n is right for exactly the keys that are not outdated. */
  lemma {:induction false} ReplayKeyExact<A>(
      decode: Decoder<A>, prefix: string, history: seq<Op>, r: nat, n: nat, key: string)
    requires r <= n <= |history|
    ensures SameAt(Replay(decode, prefix, history, r, n), Addresses(decode, prefix, KeysAt(history, n)), key) <==>
            !Outdated(decode, prefix, history, r, n, key)
  {
    if r == n {
    } else if history[n - 1].key != key {
      ReplayKeyExact(decode, prefix, history, r, n - 1, key);
    } else {
      HeldExactly(decode, prefix, history, r, n - 1, key);
      if Held(decode, prefix, history, r, n - 1, key) {
        HeldHasPrefix(decode, prefix, history, r, n - 1, key);
      }
    }
  }

  /**
    One snapshot and its watch are right exactly when nothing is outdated; what happened before,
    or is repaired, does not matter.
   */
  lemma {:induction false} ReplayWindowExact<A>(decode: Decoder<A>, prefix: string, history: seq<Op>, r: nat, n: nat)
    requires r <= n <= |history|
    ensures ReplaysFaithfully(decode, prefix, history, r, n) <==> NothingOutdated(decode, prefix, history, r, n)
  {
    hide Replay, Addresses, Outdated, KeysAt;
    var a, b := Replay(decode, prefix, history, r, n), Addresses(decode, prefix, KeysAt(history, n));
    forall key ensures SameAt(a, b, key) <==> !Outdated(decode, prefix, history, r, n, key) {
      ReplayKeyExact(decode, prefix, history, r, n, key);
    }
    if forall key :: SameAt(a, b, key) {
      SameEverywhere(a, b);
    }
  }

  // ------------------------------------------------------------- whole runs

  /**
    A resolver beside a growing history: `from` is the revision of its last snapshot, `seen` the
    revision its address map has reached.
   */
  datatype World<A> = World(history: seq<Op>, addrs: map<string, A>, from: nat, seen: nat, watching: bool)

  /** `Resolve(r)` may be served by a lagging member: r is any revision so far. */
  datatype Action = Write(op: Op) | Resolve(r: nat) | ResolveFails | Deliver | Stop

  function Next<A>(decode: Decoder<A>, prefix: string, w: World<A>, a: Action): World<A>
    requires w.seen <= |w.history|
  {
    match a
    case Write(op) => w.(history := w.history + [op])
    case Resolve(r) =>
      if r <= |w.history| then World(w.history, Addresses(decode, prefix, KeysAt(w.history, r)), r, r, true) else w
    case ResolveFails => w.(watching := false)
    case Deliver =>
      if w.watching && w.seen < |w.history|
      then w.(addrs := Apply(decode, prefix, w.addrs, w.history[w.seen]), seen := w.seen + 1)
      else w
    case Stop => w.(watching := false)
  }

  function After<A>(decode: Decoder<A>, prefix: string, run: seq<Action>): (w: World<A>)
    ensures w.from <= w.seen <= |w.history|
  {
    if run == [] then World([], map[], 0, 0, false)
    else Next(decode, prefix, After(decode, prefix, run[..|run| - 1]), run[|run| - 1])
  }

  lemma {:induction false} EarlierRevisionsStay(history: seq<Op>, op: Op, n: nat)
    requires n <= |history|
    ensures KeysAt(history + [op], n) == KeysAt(history, n)
  {
    if n == 0 {
    } else {
      EarlierRevisionsStay(history, op, n - 1);
    }
  }

  lemma {:induction false} EarlierReplayStays<A>(
      decode: Decoder<A>, prefix: string, history: seq<Op>, op: Op, r: nat, n: nat)
    requires r <= n <= |history|
    ensures Replay(decode, prefix, history + [op], r, n) == Replay(decode, prefix, history, r, n)
  {
    if r < n {
      EarlierReplayStays(decode, prefix, history, op, r, n - 1);
    } else {
      EarlierRevisionsStay(history, op, r);
    }
  }

  /** In every run the map is the replay from the last snapshot. */
  lemma {:induction false} RunIsReplay<A>(decode: Decoder<A>, prefix: string, run: seq<Action>)
    ensures var w := After(decode, prefix, run); w.addrs == Replay(decode, prefix, w.history, w.from, w.seen)
  {
    hide Apply, Addresses, KeysAt;
    if run == [] {
      EmptyReplay(decode, prefix);
    } else {
      var v, a := After(decode, prefix, run[..|run| - 1]), run[|run| - 1];
      RunIsReplay(decode, prefix, run[..|run| - 1]);
      if a.Write? {
        EarlierReplayStays(decode, prefix, v.history, a.op, v.from, v.seen);
      }
    }
  }

  lemma EmptyReplay<A>(decode: Decoder<A>, prefix: string)
    ensures Replay(decode, prefix, [], 0, 0) == map[]
  {
  }

  /**
    Over every run of writes, deliveries, stops and any number of successful or failed
    re-resolves, the map holds exactly the service's addresses at the revision it has reached
    if and only if nothing in it is outdated since the last snapshot.
   */
  lemma {:induction false} RunsFollowHistory<A>(decode: Decoder<A>, prefix: string, run: seq<Action>)
    ensures var w := After(decode, prefix, run);
            w.addrs == Addresses(decode, prefix, KeysAt(w.history, w.seen)) <==>
            NothingOutdated(decode, prefix, w.history, w.from, w.seen)
  {
    hide After, Replay, Addresses, KeysAt, NothingOutdated;
    var w := After(decode, prefix, run);
    RunIsReplay(decode, prefix, run);
    ReplayWindowExact(decode, prefix, w.history, w.from, w.seen);
  }

  /** A fresh snapshot shows the addresses of its revision, whatever was written before. */
  lemma {:induction false} SnapshotHeals<A>(decode: Decoder<A>, prefix: string, run: seq<Action>)
    requires After(decode, prefix, run).from == After(decode, prefix, run).seen
    ensures var w := After(decode, prefix, run); w.addrs == Addresses(decode, prefix, KeysAt(w.history, w.seen))
  {
    hide After;
    RunIsReplay(decode, prefix, run);
  }

  /** A watcher that has received everything shows the service's current addresses, under the same condition. */
  lemma {:induction false} CaughtUpIsCurrent<A>(decode: Decoder<A>, prefix: string, run: seq<Action>)
    requires var w := After(decode, prefix, run); w.seen == |w.history|
    ensures var w := After(decode, prefix, run);
            w.addrs == Addresses(decode, prefix, KeysAt(w.history, |w.history|)) <==>
            NothingOutdated(decode, prefix, w.history, w.from, |w.history|)
  {
    hide After, Addresses, KeysAt, NothingOutdated;
    RunsFollowHistory(decode, prefix, run);
  }

  /** The writes of a run, in order. */
  function Writes(run: seq<Action>): seq<Op> {
    if run == [] then [] else
      Writes(run[..|run| - 1]) + if run[|run| - 1].Write? then [run[|run| - 1].op] else []
  }

  /** The history is the writes of the run; nothing the resolver does changes it. */
  lemma {:induction false} HistoryIsWrites<A>(decode: Decoder<A>, prefix: string, run: seq<Action>)
    ensures After(decode, prefix, run).history == Writes(run)
  {
    if run == [] {
    } else {
      HistoryIsWrites(decode, prefix, run[..|run| - 1]);
    }
  }

  /**
    In every run a re-resolve shows the addresses of its revision and watches from there; one that
    fails keeps the map and watches nothing.
   */
  lemma {:induction false} ResolveExact<A>(decode: Decoder<A>, prefix: string, run: seq<Action>, r: nat)
    requires r <= |After(decode, prefix, run).history|
    ensures var w, w' := After(decode, prefix, run), After(decode, prefix, run + [Resolve(r)]);
            w'.addrs == Addresses(decode, prefix, KeysAt(w.history, r)) && w'.from == w'.seen == r && w'.watching
    ensures var w, w' := After(decode, prefix, run), After(decode, prefix, run + [ResolveFails]);
            w'.addrs == w.addrs && w'.seen == w.seen && !w'.watching
  {
    hide Addresses, KeysAt, Apply;
    assert (run + [Resolve(r)])[..|run|] == run && (run + [ResolveFails])[..|run|] == run;
  }

  function Deliveries(n: nat): seq<Action> {
    if n == 0 then [] else Deliveries(n - 1) + [Deliver]
  }

  /** After every run a watcher reaches any later revision by delivering the writes in between, one by one. */
  lemma {:induction false} CatchesUp<A>(decode: Decoder<A>, prefix: string, run: seq<Action>, n: nat)
    requires var w := After(decode, prefix, run); w.watching && w.seen + n <= |w.history|
    ensures var w, w' := After(decode, prefix, run), After(decode, prefix, run + Deliveries(n));
            w'.seen == w.seen + n && w'.from == w.from && w'.history == w.history && w'.watching
  {
    hide Apply, Addresses, KeysAt, Next;
    if n == 0 {
      assert run + [] == run;
    } else {
      CatchesUp(decode, prefix, run, n - 1);
      DeliveredNext(decode, prefix, run + Deliveries(n - 1));
      assert run + Deliveries(n) == run + Deliveries(n - 1) + [Deliver];
    }
  }

  lemma DeliveredNext<A>(decode: Decoder<A>, prefix: string, run: seq<Action>)
    requires var w := After(decode, prefix, run); w.watching && w.seen < |w.history|
    ensures var w, w' := After(decode, prefix, run), After(decode, prefix, run + [Deliver]);
            w'.seen == w.seen + 1 && w'.from == w.from && w'.history == w.history && w'.watching
  {
    hide Apply, Addresses, KeysAt;
    assert (run + [Deliver])[..|run|] == run;
  }
}
