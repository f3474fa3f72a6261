/**
  The cache-aside protocol as a transition system: source mutations, publication, the
  invalidation pipeline, asynchronous deletes, source reads and the asynchronous writes that
  follow them, Redis errors and expiry, in any interleaving.

  Every source row has a version, the number of its mutations so far. What a key holds is
  recorded as the versions written to it since it was last removed: an object key keeps the
  last SET, a list key accumulates every ZADD.
 */
module Coherence {
  import opened StaleKeys

  /** Mutation number m of source row id, as it travels to the cache. */
  datatype Event = Event(id: string, m: nat)

  /** A source read whose result has not reached Redis yet. */
  datatype Load = Load(id: string, tag: nat)

  /** A version written to a key, and the later mutations whose delete had already run by then. */
  datatype Write = Write(tag: nat, overtaken: set<nat>)

  datatype Kind = ObjectKeys | ListKeys

  /**
    `flying` are the events whose delete has been handed to a `delKeys` goroutine and has
    neither run nor failed yet. `deleted` and `failed` are histories; an event also fails if its
    publisher panics at an earlier listener, so that this cache never hears of it.
   */
  datatype World = World(
    versions: map<string, nat>,
    unpublished: set<Event>,
    pipe: Pipeline<Event, Event>,
    flying: set<Event>,
    deleted: set<Event>,
    failed: set<Event>,
    loads: multiset<Load>,
    cache: map<string, seq<Write>>)

  datatype Action =
    | Mutate(id: string)
    | Publish(event: Event)
    | PublisherPanics(event: Event)
    | Clean(step: StaleKeys.Action<Event>)
    | Delete(event: Event)
    | DeleteFails(event: Event)
    | Read(id: string)
    | Store(load: Load)
    | StoreFails(load: Load)
    | Expire(id: string)

  function Initial(): World {
    World(map[], {}, Empty(), {}, {}, {}, multiset{}, map[])
  }

  function Version(w: World, id: string): nat {
    if id in w.versions then w.versions[id] else 0
  }

  function Members(batch: seq<Event>): set<Event> {
    set e | e in batch
  }

  /** The events of the batch that this step of the cleaner hands to `delKeys`. */
  function Issued(p: Pipeline<Event, Event>, step: StaleKeys.Action<Event>): set<Event> {
    var issued := StaleKeys.Next(Same, p, step).issued;
    if |issued| > |p.issued| then Members(issued[|issued| - 1]) else {}
  }

  function Overtaken(w: World, load: Load): set<nat> {
    set m: nat | load.tag < m <= Version(w, load.id) && Event(load.id, m) in w.deleted
  }

  predicate Enabled(w: World, a: Action) {
    match a
    case Mutate(_) => true
    case Publish(e) => e in w.unpublished && StaleKeys.Enabled(w.pipe, Send(e))
    case PublisherPanics(e) => e in w.unpublished
    case Clean(step) => !step.Send? && StaleKeys.Enabled(w.pipe, step)
    case Delete(e) => e in w.flying
    case DeleteFails(e) => e in w.flying
    case Read(_) => true
    case Store(l) => l in w.loads
    case StoreFails(l) => l in w.loads
    case Expire(id) => id in w.cache
  }

  /** The mapping from events to ids; the mutation number is carried along for the bookkeeping. */
  function Same(e: Event): Event {
    e
  }

  function Next(kind: Kind, w: World, a: Action): World {
    if !Enabled(w, a) then w else
      match a
      case Mutate(id) =>
        var v := Version(w, id) + 1;
        w.(versions := w.versions[id := v], unpublished := w.unpublished + {Event(id, v)})
      case Publish(e) =>
        w.(unpublished := w.unpublished - {e}, pipe := StaleKeys.Next(Same, w.pipe, Send(e)))
      case PublisherPanics(e) => w.(unpublished := w.unpublished - {e}, failed := w.failed + {e})
      case Clean(step) =>
        w.(pipe := StaleKeys.Next(Same, w.pipe, step), flying := w.flying + Issued(w.pipe, step))
      case Delete(e) =>
        w.(flying := w.flying - {e}, deleted := w.deleted + {e}, cache := w.cache - {e.id})
      case DeleteFails(e) => w.(flying := w.flying - {e}, failed := w.failed + {e})
      case Read(id) => w.(loads := w.loads + multiset{Load(id, Version(w, id))})
      case Store(l) =>
        var before := if kind.ListKeys? && l.id in w.cache then w.cache[l.id] else [];
        w.(loads := w.loads - multiset{l}, cache := w.cache[l.id := before + [Write(l.tag, Overtaken(w, l))]])
      case StoreFails(l) => w.(loads := w.loads - multiset{l})
      case Expire(id) => w.(cache := w.cache - {id})
  }

  function After(kind: Kind, run: seq<Action>): World {
    if run == [] then Initial() else Next(kind, After(kind, run[..|run| - 1]), run[|run| - 1])
  }

  // ------------------------------------------------------------- invariants

  /** A delete for this mutation is still on its way. */
  predicate Pending(w: World, e: Event) {
    e in w.unpublished || e in w.pipe.channel || e in w.pipe.batch || e in w.flying
  }

  /** The delete for this mutation will never run: refused after close, never published here, or a Redis error. */
  predicate Lost(w: World, e: Event) {
    e in w.pipe.refused || e in w.failed
  }

  /** Why a write may be older than mutation m. */
  predicate Excused(w: World, id: string, wr: Write, m: nat) {
    Pending(w, Event(id, m)) || Lost(w, Event(id, m)) || m in wr.overtaken
  }

  /** The delete for this mutation is on its way, lost, or has run. */
  predicate Accounted(w: World, e: Event) {
    Pending(w, e) || Lost(w, e) || e in w.deleted
  }

  ghost predicate EventsAccounted(w: World) {
    forall e: Event {:trigger Accounted(w, e)} :: 1 <= e.m <= Version(w, e.id) ==> Accounted(w, e)
  }

  ghost predicate LoadsSound(w: World) {
    forall l :: l in w.loads ==> l.tag <= Version(w, l.id)
  }

  ghost predicate WriteSound(w: World, id: string, wr: Write) {
    && wr.tag <= Version(w, id)
    && (forall m: nat {:trigger Excused(w, id, wr, m)} :: wr.tag < m <= Version(w, id) ==> Excused(w, id, wr, m))
    && (forall m :: m in wr.overtaken ==> wr.tag < m <= Version(w, id) && Event(id, m) in w.deleted)
  }

  ghost predicate CacheSound(w: World) {
    forall id, wr {:trigger WriteSound(w, id, wr)} :: id in w.cache && wr in w.cache[id] ==> WriteSound(w, id, wr)
  }

  ghost predicate Inv(w: World) {
    EventsAccounted(w) && LoadsSound(w) && CacheSound(w)
  }

  // -------------------------------------------------------------- the steps

  /** A step of the cleaner moves events forward and drops none. */
  lemma CleanKeepsPending(w: World, step: StaleKeys.Action<Event>, e: Event)
    requires !step.Send? && StaleKeys.Enabled(w.pipe, step) && Pending(w, e)
    ensures Pending(w.(pipe := StaleKeys.Next(Same, w.pipe, step), flying := w.flying + Issued(w.pipe, step)), e)
  {
    if step.Receive? {
      assert w.pipe.channel == [w.pipe.channel[0]] + w.pipe.channel[1..];
    }
  }

  /** Every step but a delete of the event itself keeps its pending or lost state. */
  lemma StepKeepsExcuse(kind: Kind, w: World, a: Action, e: Event)
    requires Pending(w, e) || Lost(w, e)
    ensures var w' := Next(kind, w, a); Pending(w', e) || Lost(w', e) || (a == Delete(e) && e in w'.deleted)
  {
    if Enabled(w, a) {
      match a
      case Clean(step) =>
        if Pending(w, e) {
          CleanKeepsPending(w, step, e);
        }
      case _ =>
    }
  }

  lemma StepKeepsAccounts(kind: Kind, w: World, a: Action)
    requires EventsAccounted(w)
    ensures EventsAccounted(Next(kind, w, a))
  {
    var w' := Next(kind, w, a);
    forall e: Event | 1 <= e.m <= Version(w', e.id) ensures Accounted(w', e) {
      if e.m <= Version(w, e.id) {
        assert Accounted(w, e);
        if Pending(w, e) || Lost(w, e) {
          StepKeepsExcuse(kind, w, a, e);
        }
      }
    }
  }

  /** A write already in the cache stays explained. */
  lemma StepKeepsWrite(kind: Kind, w: World, a: Action, id: string, wr: Write)
    requires WriteSound(w, id, wr) && id in Next(kind, w, a).cache
    ensures WriteSound(Next(kind, w, a), id, wr)
  {
    var w' := Next(kind, w, a);
    forall m: nat | wr.tag < m <= Version(w', id) ensures Excused(w', id, wr, m) {
      if m <= Version(w, id) {
        assert Excused(w, id, wr, m);
        if m !in wr.overtaken {
          StepKeepsExcuse(kind, w, a, Event(id, m));
        }
      } else {
        assert Event(id, m) in w'.unpublished;
      }
    }
  }

  /** A write that lands is explained by what has happened to the mutations since its read. */
  lemma StoredWriteSound(kind: Kind, w: World, l: Load)
    requires EventsAccounted(w) && LoadsSound(w) && l in w.loads
    ensures WriteSound(Next(kind, w, Store(l)), l.id, Write(l.tag, Overtaken(w, l)))
  {
    var w' := Next(kind, w, Store(l));
    var wr := Write(l.tag, Overtaken(w, l));
    forall m: nat | wr.tag < m <= Version(w', l.id) ensures Excused(w', l.id, wr, m) {
      assert Accounted(w, Event(l.id, m));
    }
  }

  lemma StepKeepsCache(kind: Kind, w: World, a: Action)
    requires Inv(w)
    ensures CacheSound(Next(kind, w, a))
  {
    var w' := Next(kind, w, a);
    forall id, wr | id in w'.cache && wr in w'.cache[id] ensures WriteSound(w', id, wr) {
      if id in w.cache && wr in w.cache[id] {
        assert WriteSound(w, id, wr);
        StepKeepsWrite(kind, w, a, id, wr);
      } else {
        StoredWriteSound(kind, w, a.load);
      }
    }
  }

  lemma StepKeepsLoads(kind: Kind, w: World, a: Action)
    requires LoadsSound(w)
    ensures LoadsSound(Next(kind, w, a))
  {
  }

  lemma {:induction false} Reachable(kind: Kind, run: seq<Action>)
    ensures Inv(After(kind, run))
  {
    if run == [] {
    } else {
      var w, a := After(kind, run[..|run| - 1]), run[|run| - 1];
      Reachable(kind, run[..|run| - 1]);
      StepKeepsAccounts(kind, w, a);
      StepKeepsCache(kind, w, a);
      StepKeepsLoads(kind, w, a);
    }
  }

  // ---------------------------------------------------------------- results

  /**
    In every reachable state, whatever a key holds that is older than a mutation of its row
    has one of three reasons: a delete for that mutation is still on its way, that delete was
    lost, or the write landed after that delete had run although its source read came before
    the mutation.
   */
  lemma {:induction false} StaleEntryExplained(kind: Kind, run: seq<Action>, id: string, wr: Write, m: nat)
    requires var w := After(kind, run); id in w.cache && wr in w.cache[id] && wr.tag < m <= Version(w, id)
    ensures var w := After(kind, run);
            || Pending(w, Event(id, m))
            || Lost(w, Event(id, m))
            || (m in wr.overtaken && Event(id, m) in w.deleted)
  {
    Reachable(kind, run);
    var w := After(kind, run);
    assert WriteSound(w, id, wr);
    assert Excused(w, id, wr, m);
  }

  predicate Current(w: World, id: string) {
    id in w.cache ==> forall wr | wr in w.cache[id] :: wr.tag == Version(w, id)
  }

  ghost predicate Drained(w: World, id: string) {
    forall m: nat {:trigger Event(id, m)} :: !Pending(w, Event(id, m))
  }

  /** No write to the key landed after the delete of a mutation it had missed. */
  predicate NoStraddlingSave(w: World, id: string) {
    id in w.cache ==> forall wr | wr in w.cache[id] :: wr.overtaken == {}
  }

  /** No delete was lost for a mutation that came after something the key holds was read. */
  ghost predicate NoLostDelete(w: World, id: string) {
    id in w.cache ==> forall wr, m: nat {:trigger wr in w.cache[id], Event(id, m)} ::
      wr in w.cache[id] && wr.tag < m <= Version(w, id) ==> !Lost(w, Event(id, m))
  }

  /**
    Once nothing is on its way for a row, its key is current exactly when no save straddled
    a mutation and no delete was lost.
   */
  lemma {:induction false} DrainedKeyExact(kind: Kind, run: seq<Action>, id: string)
    requires Drained(After(kind, run), id)
    ensures var w := After(kind, run); Current(w, id) <==> NoStraddlingSave(w, id) && NoLostDelete(w, id)
  {
    var w := After(kind, run);
    Reachable(kind, run);
    if id in w.cache {
      forall wr | wr in w.cache[id] ensures WriteSound(w, id, wr) {
      }
      if NoStraddlingSave(w, id) && NoLostDelete(w, id) {
        forall wr | wr in w.cache[id] ensures wr.tag == Version(w, id) {
          if wr.tag < Version(w, id) {
            StaleEntryExplained(kind, run, id, wr, Version(w, id));
          }
        }
      }
      if Current(w, id) {
        forall wr | wr in w.cache[id] ensures wr.overtaken == {} {
          assert WriteSound(w, id, wr);
        }
      }
    }
  }

  /** A read, a mutation, its delete, and only then the save. */
  function StraddlingRun(id: string): seq<Action> {
    var e := Event(id, 1);
    [Read(id), Mutate(id), Publish(e), Clean(Receive), Clean(Tick), Delete(e), Store(Load(id, 0))]
  }

  /**
    The straddling save does happen: the pipeline is empty, no delete was lost, and the key is
    stale until it expires.
   */
  lemma StraddlingSaveLeavesStale(kind: Kind, id: string)
    ensures var w := After(kind, StraddlingRun(id));
            Drained(w, id) && NoLostDelete(w, id) && !Current(w, id) && !NoStraddlingSave(w, id)
  {
    var run, e, l := StraddlingRun(id), Event(id, 1), Load(id, 0);
    InvalidatedWhileReading(kind, id);
    RunStep(kind, run, 6);
    assert run[..7] == run;
    var w := After(kind, run[..6]);
    assert Overtaken(w, l) == {1};
    assert After(kind, run).cache[id] == [Write(0, {1})];
  }

  /** A read whose row is mutated and invalidated before the result is written back. */
  lemma InvalidatedWhileReading(kind: Kind, id: string)
    ensures var e := Event(id, 1);
            After(kind, StraddlingRun(id)[..6]) ==
            World(map[id := 1], {}, Pipeline([e], [], [], [], [[e]], false, false),
                  {}, {e}, {}, multiset{Load(id, 0)}, map[])
  {
    hide Next;
    var run, e, loads := StraddlingRun(id), Event(id, 1), multiset{Load(id, 0)};
    MutatedWhileReading(kind, id);
    RunStep(kind, run, 3);
    RunStep(kind, run, 4);
    RunStep(kind, run, 5);
    OneEventReceived(kind, map[id := 1], e, loads, map[]);
    OneEventIssued(kind, map[id := 1], e, loads, map[]);
    OneEventDeleted(kind, map[id := 1], e, loads);
  }

  lemma OneEventReceived(
      kind: Kind, versions: map<string, nat>, e: Event, loads: multiset<Load>, cache: map<string, seq<Write>>)
    ensures var w := World(versions, {}, Pipeline([e], [], [e], [], [], false, false), {}, {}, {}, loads, cache);
            Next(kind, w, Clean(Receive)) ==
            World(versions, {}, Pipeline([e], [], [], [e], [], false, false), {}, {}, {}, loads, cache)
  {
  }

  lemma OneEventIssued(
      kind: Kind, versions: map<string, nat>, e: Event, loads: multiset<Load>, cache: map<string, seq<Write>>)
    ensures var w := World(versions, {}, Pipeline([e], [], [], [e], [], false, false), {}, {}, {}, loads, cache);
            Next(kind, w, Clean(Tick)) ==
            World(versions, {}, Pipeline([e], [], [], [], [[e]], false, false), {e}, {}, {}, loads, cache)
  {
    assert Members([e]) == {e};
  }

  lemma OneEventDeleted(kind: Kind, versions: map<string, nat>, e: Event, loads: multiset<Load>)
    ensures var w := World(versions, {}, Pipeline([e], [], [], [], [[e]], false, false), {e}, {}, {}, loads, map[]);
            Next(kind, w, Delete(e)) ==
            World(versions, {}, Pipeline([e], [], [], [], [[e]], false, false), {}, {e}, {}, loads, map[])
  {
    var none: map<string, seq<Write>> := map[];
    assert none - {e.id} == none;
  }

  lemma MutatedWhileReading(kind: Kind, id: string)
    ensures var e := Event(id, 1);
            After(kind, StraddlingRun(id)[..3]) ==
            World(map[id := 1], {}, Pipeline([e], [], [e], [], [], false, false),
                  {}, {}, {}, multiset{Load(id, 0)}, map[])
  {
    var run, e, loads := StraddlingRun(id), Event(id, 1), multiset{Load(id, 0)};
    assert run[..0] == [];
    RunStep(kind, run, 0);
    RunStep(kind, run, 1);
    assert After(kind, run[..2]) == World(map[id := 1], {e}, Empty(), {}, {}, {}, loads, map[]);
    RunStep(kind, run, 2);
    assert {e} - {e} == {};
  }

  lemma RunStep(kind: Kind, run: seq<Action>, i: nat)
    requires i < |run|
    ensures After(kind, run[..i + 1]) == Next(kind, After(kind, run[..i]), run[i])
  {
    assert run[..i + 1][..i] == run[..i];
  }

  /** A save, then a mutation whose delete fails in Redis. */
  function FailedDeleteRun(id: string): seq<Action> {
    var e := Event(id, 1);
    [Read(id), Store(Load(id, 0)), Mutate(id), Publish(e), Clean(Receive), Clean(Tick), DeleteFails(e)]
  }

  /** A save, then a mutation that is published after the channel was closed. */
  function RefusedEventRun(id: string): seq<Action> {
    [Read(id), Store(Load(id, 0)), Mutate(id), Clean(Close), Publish(Event(id, 1))]
  }

  /** A delete that fails leaves the key stale although nothing is on its way and no save straddled. */
  lemma FailedDeleteLeavesStale(kind: Kind, id: string)
    ensures var w := After(kind, FailedDeleteRun(id));
            Drained(w, id) && NoStraddlingSave(w, id) && !NoLostDelete(w, id) && !Current(w, id)
  {
    hide Next;
    var run, e, cache := FailedDeleteRun(id), Event(id, 1), map[id := [Write(0, {})]];
    SavedThenMutated(kind, run, id);
    RunStep(kind, run, 3);
    RunStep(kind, run, 4);
    RunStep(kind, run, 5);
    RunStep(kind, run, 6);
    assert run[..7] == run;
    OneEventSent(kind, map[id := 1], e, multiset{}, cache);
    OneEventReceived(kind, map[id := 1], e, multiset{}, cache);
    OneEventIssued(kind, map[id := 1], e, multiset{}, cache);
    OneDeleteFailed(kind, map[id := 1], e, multiset{}, cache);
    LostDeleteLeavesStale(After(kind, run), id);
  }

  /** So does an event that a closed listener refuses. */
  lemma RefusedEventLeavesStale(kind: Kind, id: string)
    ensures var w := After(kind, RefusedEventRun(id));
            Drained(w, id) && NoStraddlingSave(w, id) && !NoLostDelete(w, id) && !Current(w, id)
  {
    hide Next;
    var run, e, cache := RefusedEventRun(id), Event(id, 1), map[id := [Write(0, {})]];
    SavedThenMutated(kind, run, id);
    RunStep(kind, run, 3);
    RunStep(kind, run, 4);
    assert run[..5] == run;
    OneEventRefused(kind, map[id := 1], e, cache);
    LostDeleteLeavesStale(After(kind, run), id);
  }

  /** A save, then a mutation whose publisher panics before it comes to this cache. */
  function UnheardEventRun(id: string): seq<Action> {
    [Read(id), Store(Load(id, 0)), Mutate(id), PublisherPanics(Event(id, 1))]
  }

  /** So does an event that never reaches the cache. */
  lemma UnheardEventLeavesStale(kind: Kind, id: string)
    ensures var w := After(kind, UnheardEventRun(id));
            Drained(w, id) && NoStraddlingSave(w, id) && !NoLostDelete(w, id) && !Current(w, id)
  {
    var run := UnheardEventRun(id);
    SavedThenMutated(kind, run, id);
    RunStep(kind, run, 3);
    assert run[..4] == run;
    LostDeleteLeavesStale(After(kind, run), id);
  }

  lemma LostDeleteLeavesStale(w: World, id: string)
    requires w.versions == map[id := 1] && w.unpublished == {} && w.flying == {}
    requires w.pipe.channel == [] && w.pipe.batch == [] && w.cache == map[id := [Write(0, {})]]
    requires Lost(w, Event(id, 1))
    ensures Drained(w, id) && NoStraddlingSave(w, id) && !NoLostDelete(w, id) && !Current(w, id)
  {
    var wr := Write(0, {});
    assert wr in w.cache[id] && wr.tag < 1 <= Version(w, id);
  }

  lemma SavedThenMutated(kind: Kind, run: seq<Action>, id: string)
    requires |run| >= 3 && run[0] == Read(id) && run[1] == Store(Load(id, 0)) && run[2] == Mutate(id)
    ensures After(kind, run[..3]) ==
            World(map[id := 1], {Event(id, 1)}, Empty(), {}, {}, {}, multiset{}, map[id := [Write(0, {})]])
  {
    hide Next;
    assert run[..0] == [];
    RunStep(kind, run, 0);
    RunStep(kind, run, 1);
    RunStep(kind, run, 2);
    FirstRead(kind, id);
    FirstStore(kind, id);
    FirstMutation(kind, id, map[id := [Write(0, {})]]);
  }

  lemma FirstRead(kind: Kind, id: string)
    ensures Next(kind, Initial(), Read(id)) == World(map[], {}, Empty(), {}, {}, {}, multiset{Load(id, 0)}, map[])
  {
  }

  lemma FirstStore(kind: Kind, id: string)
    ensures Next(kind, World(map[], {}, Empty(), {}, {}, {}, multiset{Load(id, 0)}, map[]), Store(Load(id, 0))) ==
            World(map[], {}, Empty(), {}, {}, {}, multiset{}, map[id := [Write(0, {})]])
  {
    var w, l := World(map[], {}, Empty(), {}, {}, {}, multiset{Load(id, 0)}, map[]), Load(id, 0);
    assert Overtaken(w, l) == {};
    assert multiset{l} - multiset{l} == multiset{};
    assert [] + [Write(0, {})] == [Write(0, {})];
  }

  lemma FirstMutation(kind: Kind, id: string, cache: map<string, seq<Write>>)
    ensures Next(kind, World(map[], {}, Empty(), {}, {}, {}, multiset{}, cache), Mutate(id)) ==
            World(map[id := 1], {Event(id, 1)}, Empty(), {}, {}, {}, multiset{}, cache)
  {
  }

  lemma OneEventSent(
      kind: Kind, versions: map<string, nat>, e: Event, loads: multiset<Load>, cache: map<string, seq<Write>>)
    ensures Next(kind, World(versions, {e}, Empty(), {}, {}, {}, loads, cache), Publish(e)) ==
            World(versions, {}, Pipeline([e], [], [e], [], [], false, false), {}, {}, {}, loads, cache)
  {
    assert {e} - {e} == {};
  }

  lemma OneDeleteFailed(
      kind: Kind, versions: map<string, nat>, e: Event, loads: multiset<Load>, cache: map<string, seq<Write>>)
    ensures var w := World(versions, {}, Pipeline([e], [], [], [], [[e]], false, false), {e}, {}, {}, loads, cache);
            Next(kind, w, DeleteFails(e)) ==
            World(versions, {}, Pipeline([e], [], [], [], [[e]], false, false), {}, {}, {e}, loads, cache)
  {
    assert {e} - {e} == {};
  }

  lemma OneEventRefused(kind: Kind, versions: map<string, nat>, e: Event, cache: map<string, seq<Write>>)
    ensures var w := World(versions, {e}, Empty(), {}, {}, {}, multiset{}, cache);
            Next(kind, Next(kind, w, Clean(Close)), Publish(e)) ==
            World(versions, {}, Pipeline([], [e], [], [], [], true, false), {}, {}, {}, multiset{}, cache)
  {
    assert {e} - {e} == {};
    assert {} + Issued(Empty(), Close) == {};
  }

  /**
    A stale list key never heals by itself: reloads only add to it. Until it expires or one of
    its deletes runs, it keeps what is outdated.
   */
  lemma {:induction false} StaleListKeyStays(run: seq<Action>, later: seq<Action>, id: string, wr: Write)
    requires var w := After(ListKeys, run); id in w.cache && wr in w.cache[id] && wr.tag < Version(w, id)
    requires forall a :: a in later ==> a != Expire(id) && !(a.Delete? && a.event.id == id)
    ensures var w := After(ListKeys, run + later);
            id in w.cache && wr in w.cache[id] && wr.tag < Version(w, id) && !Current(w, id)
  {
    if later == [] {
      assert run + later == run;
    } else {
      var front, a := later[..|later| - 1], later[|later| - 1];
      assert later[|later| - 1] in later;
      forall x | x in front ensures x in later {
      }
      assert (run + later)[..|run + later| - 1] == run + front;
      StaleListKeyStays(run, front, id, wr);
      StaleListKeyStep(After(ListKeys, run + front), a, id, wr);
    }
  }

  lemma StaleListKeyStep(w: World, a: Action, id: string, wr: Write)
    requires id in w.cache && wr in w.cache[id] && wr.tag < Version(w, id)
    requires a != Expire(id) && !(a.Delete? && a.event.id == id)
    ensures var w' := Next(ListKeys, w, a); id in w'.cache && wr in w'.cache[id] && wr.tag < Version(w', id)
  {
  }

  // --------------------------------------------------- what a key holds when

  /** This step takes the key away: a delete of one of the row's mutations, or expiry. */
  predicate Removes(w: World, a: Action, id: string) {
    a == Expire(id) || (a.Delete? && a.event.id == id && a.event in w.flying)
  }

  predicate Saves(w: World, a: Action, id: string) {
    a.Store? && a.load.id == id && a.load in w.loads
  }

  /** The saves of this row since its key was last taken away; for an object only the last one. */
  function SavesSince(kind: Kind, run: seq<Action>, id: string): seq<Write> {
    if run == [] then [] else
      var w, a := After(kind, run[..|run| - 1]), run[|run| - 1];
      var before := SavesSince(kind, run[..|run| - 1], id);
      if Removes(w, a, id) then []
      else if Saves(w, a, id) then (if kind.ListKeys? then before else []) + [Write(a.load.tag, Overtaken(w, a.load))]
      else before
  }

  predicate Holds(w: World, id: string, saves: seq<Write>) {
    if id in w.cache then saves != [] && w.cache[id] == saves else saves == []
  }

  lemma StepHolds(kind: Kind, w: World, a: Action, id: string, saves: seq<Write>)
    requires Holds(w, id, saves)
    ensures Holds(Next(kind, w, a), id,
                  if Removes(w, a, id) then []
                  else if Saves(w, a, id)
                  then (if kind.ListKeys? then saves else []) + [Write(a.load.tag, Overtaken(w, a.load))]
                  else saves)
  {
    hide StaleKeys.Next, Issued, Overtaken;
    if !Removes(w, a, id) && !Saves(w, a, id) {
      OthersKeepKey(kind, w, a, id);
    }
  }

  lemma OthersKeepKey(kind: Kind, w: World, a: Action, id: string)
    requires !Removes(w, a, id) && !Saves(w, a, id)
    ensures var w' := Next(kind, w, a);
            (id in w'.cache <==> id in w.cache) && (id in w.cache ==> w'.cache[id] == w.cache[id])
  {
    hide StaleKeys.Next, Issued, Overtaken;
  }

  /** In every run a key is there exactly if something was saved since it was taken away, and holds just that. */
  lemma {:induction false} KeyHoldsSaves(kind: Kind, run: seq<Action>, id: string)
    ensures Holds(After(kind, run), id, SavesSince(kind, run, id))
  {
    hide Next, Holds, Removes, Saves;
    if run == [] {
      NothingHeld(kind, id);
    } else {
      var front := run[..|run| - 1];
      KeyHoldsSaves(kind, front, id);
      StepHolds(kind, After(kind, front), run[|run| - 1], id, SavesSince(kind, front, id));
    }
  }

  lemma NothingHeld(kind: Kind, id: string)
    ensures Holds(After(kind, []), id, SavesSince(kind, [], id))
  {
  }

  /** The reads of this version of the row, and the results of such reads that were saved or given up. */
  function ReadsOf(kind: Kind, run: seq<Action>, l: Load): nat {
    if run == [] then 0 else
      var w, a := After(kind, run[..|run| - 1]), run[|run| - 1];
      ReadsOf(kind, run[..|run| - 1], l) + if a == Read(l.id) && Version(w, l.id) == l.tag then 1 else 0
  }

  function EndsOf(kind: Kind, run: seq<Action>, l: Load): nat {
    if run == [] then 0 else
      var w, a := After(kind, run[..|run| - 1]), run[|run| - 1];
      EndsOf(kind, run[..|run| - 1], l) + if (a == Store(l) || a == StoreFails(l)) && l in w.loads then 1 else 0
  }

  lemma StepLoads(kind: Kind, w: World, a: Action, l: Load)
    ensures Next(kind, w, a).loads[l] + (if (a == Store(l) || a == StoreFails(l)) && l in w.loads then 1 else 0) ==
            w.loads[l] + if a == Read(l.id) && Version(w, l.id) == l.tag then 1 else 0
  {
    hide StaleKeys.Next, Issued, Overtaken;
  }

  /** Every read gives the version of its time, and its result is saved once, given up, or still on its way. */
  lemma {:induction false} LoadsBalance(kind: Kind, run: seq<Action>, l: Load)
    ensures After(kind, run).loads[l] + EndsOf(kind, run, l) == ReadsOf(kind, run, l)
  {
    hide Next;
    if run == [] {
    } else {
      LoadsBalance(kind, run[..|run| - 1], l);
      StepLoads(kind, After(kind, run[..|run| - 1]), run[|run| - 1], l);
    }
  }

  /** Whatever came before: once a key is gone, a read whose save follows at once makes it current. */
  lemma FreshSaveIsCurrent(kind: Kind, run: seq<Action>, id: string)
    requires id !in After(kind, run).cache
    ensures var v := Version(After(kind, run), id);
            var w := After(kind, run + [Read(id)] + [Store(Load(id, v))]);
            id in w.cache && w.cache[id] == [Write(v, {})] && Version(w, id) == v && Current(w, id)
  {
    hide Next;
    var v, read := Version(After(kind, run), id), run + [Read(id)];
    assert read[..|run|] == run && (read + [Store(Load(id, v))])[..|read|] == read;
    ReadThenStored(kind, After(kind, run), id);
  }

  lemma ReadThenStored(kind: Kind, w: World, id: string)
    requires id !in w.cache
    ensures var l := Load(id, Version(w, id));
            var w' := Next(kind, Next(kind, w, Read(id)), Store(l));
            id in w'.cache && w'.cache[id] == [Write(l.tag, {})] && Version(w', id) == l.tag
  {
    hide StaleKeys.Next, Issued;
    var l := Load(id, Version(w, id));
    assert Overtaken(Next(kind, w, Read(id)), l) == {};
  }

  /** The pipeline inside the protocol conserves events, like any other run of it. */
  lemma {:induction false} PipeConserves(kind: Kind, run: seq<Action>)
    ensures Conserves(Same, After(kind, run).pipe)
  {
    if run == [] {
    } else {
      var w, a := After(kind, run[..|run| - 1]), run[|run| - 1];
      PipeConserves(kind, run[..|run| - 1]);
      match a
      case Publish(e) => StepConserves(Same, w.pipe, Send(e));
      case Clean(step) => StepConserves(Same, w.pipe, step);
      case _ =>
    }
  }

  /** After the cleaner has finished, only unpublished mutations and running deletes keep a row from being drained. */
  lemma {:induction false} FinishedIsDrained(kind: Kind, run: seq<Action>, id: string)
    requires After(kind, run).pipe.finished
    requires forall e: Event :: e.id == id ==> e !in After(kind, run).unpublished && e !in After(kind, run).flying
    ensures Drained(After(kind, run), id)
  {
    PipeConserves(kind, run);
  }
}
