/**
  Shutdown: the list of shutdown functions, closing them one by one whatever they do, and what
  the order means for a cache whose last deletes need a Redis client that is closed as well.
 */
module Components {
  import opened Wrappers
  import SK = StaleKeys

  /** How a shutdown function ends. */
  datatype Outcome = Done | Error(message: string) | Panic(value: string)

  /** A shutdown function, as what it does to the application. */
  type ShutdownFunc<!S> = S -> (S, Outcome)

  function ErrorsOf(out: Outcome): seq<string> {
    match out
    case Done => []
    case Error(message) => [message]
    case Panic(value) => ["panic when invoking shutdown func, panic is: " + value]
  }

  /** Calling the functions of a list from its beginning. */
  function Closed<S>(funcs: seq<ShutdownFunc<S>>, s: S): (S, seq<string>) {
    if funcs == [] then (s, []) else
      var (before, errs) := Closed(funcs[..|funcs| - 1], s);
      var (after, out) := funcs[|funcs| - 1](before);
      (after, errs + ErrorsOf(out))
  }

  /** Closing what was registered in this order: the last one first. */
  function ClosedBackwards<S>(registered: seq<ShutdownFunc<S>>, s: S): (S, seq<string>) {
    if registered == [] then (s, []) else
      var (after, out) := registered[|registered| - 1](s);
      var (end, errs) := ClosedBackwards(registered[..|registered| - 1], after);
      (end, ErrorsOf(out) + errs)
  }

  /** The list after registering functions in this order. */
  function ListAfter<S>(registered: seq<ShutdownFunc<S>>): seq<ShutdownFunc<S>> {
    if registered == [] then []
    else [registered[|registered| - 1]] + ListAfter(registered[..|registered| - 1])
  }

  lemma {:induction false} ClosedHead<S>(f: ShutdownFunc<S>, funcs: seq<ShutdownFunc<S>>, s: S)
    ensures var (s1, out) := f(s); var (end, errs) := Closed(funcs, s1);
            Closed([f] + funcs, s) == (end, ErrorsOf(out) + errs)
  {
    var all := [f] + funcs;
    if funcs == [] {
      assert all == [f] && all[..0] == [];
      assert Closed([f][..0], s) == (s, []);
      assert [] + ErrorsOf(f(s).1) == ErrorsOf(f(s).1) + [];
    } else {
      var n := |funcs| - 1;
      assert all[..|all| - 1] == [f] + funcs[..n] && all[|all| - 1] == funcs[n];
      ClosedHead(f, funcs[..n], s);
      var (s1, out) := f(s);
      var (s2, errs) := Closed(funcs[..n], s1);
      var more := ErrorsOf(funcs[n](s2).1);
      assert ErrorsOf(out) + (errs + more) == (ErrorsOf(out) + errs) + more;
    }
  }

  lemma ClosedNothing<S>(s: S)
    ensures Closed([], s) == (s, [])
  {
  }

  lemma ClosedNext<S>(funcs: seq<ShutdownFunc<S>>, i: nat, s: S)
    requires i < |funcs|
    ensures var (before, errs) := Closed(funcs[..i], s); var (after, out) := funcs[i](before);
            Closed(funcs[..i + 1], s) == (after, errs + ErrorsOf(out))
  {
    assert funcs[..i + 1][..i] == funcs[..i];
  }

  /** Every registered function is called once, in reverse order of registration, and every failure is reported. */
  lemma {:induction false} ClosesBackwards<S>(registered: seq<ShutdownFunc<S>>, s: S)
    ensures Closed(ListAfter(registered), s) == ClosedBackwards(registered, s)
  {
    if registered == [] {
    } else {
      var last, front := registered[|registered| - 1], registered[..|registered| - 1];
      ClosesBackwards(front, last(s).0);
      ClosedHead(last, ListAfter(front), s);
    }
  }

  /** An error or a panic keeps no other function from running: the effects are the same as without it. */
  lemma {:induction false} FailuresStopNothing<S(!new)>(
      registered: seq<ShutdownFunc<S>>, calm: seq<ShutdownFunc<S>>, s: S)
    requires |registered| == |calm|
    requires forall i, t :: 0 <= i < |calm| ==> calm[i](t) == (registered[i](t).0, Done)
    ensures ClosedBackwards(calm, s) == (ClosedBackwards(registered, s).0, [])
  {
    if registered == [] {
      assert calm == [];
    } else {
      var n := |registered| - 1;
      assert calm[n](s) == (registered[n](s).0, Done);
      FailuresStopNothing(registered[..n], calm[..n], registered[n](s).0);
      assert ErrorsOf(Done) + [] == [];
    }
  }

  /** The state at the turn of function i: those registered later have been called. */
  function StateAt<S>(registered: seq<ShutdownFunc<S>>, s: S, i: nat): S
    requires i < |registered|
    decreases |registered| - i
  {
    if i == |registered| - 1 then s else registered[i + 1](StateAt(registered, s, i + 1)).0
  }

  function OutcomeAt<S>(registered: seq<ShutdownFunc<S>>, s: S, i: nat): Outcome
    requires i < |registered|
  {
    registered[i](StateAt(registered, s, i)).1
  }

  /** The functions from the i-th on that fail, by an error or a panic. */
  function FailedFrom<S>(registered: seq<ShutdownFunc<S>>, s: S, i: nat): set<nat> {
    set j: nat | i <= j < |registered| && OutcomeAt(registered, s, j) != Done
  }

  /** The message reported for a failure. */
  predicate SaysWhy(out: Outcome, message: string) {
    && (out.Error? ==> message == out.message)
    && (out.Panic? ==> message == "panic when invoking shutdown func, panic is: " + out.value)
  }

  /** The message for function i comes after one for each failure among those called before it. */
  predicate Reported<S>(registered: seq<ShutdownFunc<S>>, s: S, errs: seq<string>, i: nat)
    requires i < |registered|
  {
    var k := |FailedFrom(registered, s, i + 1)|;
    k < |errs| && SaysWhy(OutcomeAt(registered, s, i), errs[k])
  }

  lemma {:induction false} StateOfFront<S>(registered: seq<ShutdownFunc<S>>, s: S, i: nat)
    requires i < |registered| - 1
    ensures var n := |registered| - 1;
            StateAt(registered, s, i) == StateAt(registered[..n], registered[n](s).0, i)
    decreases |registered| - i
  {
    if i < |registered| - 2 {
      StateOfFront(registered, s, i + 1);
    }
  }

  lemma OutcomeOfFront<S>(registered: seq<ShutdownFunc<S>>, s: S, i: nat)
    requires i < |registered|
    ensures var n := |registered| - 1; var (after, out) := registered[n](s);
            OutcomeAt(registered, s, i) == if i == n then out else OutcomeAt(registered[..n], after, i)
  {
    if i < |registered| - 1 {
      StateOfFront(registered, s, i);
    }
  }

  lemma FailedOfFront<S>(registered: seq<ShutdownFunc<S>>, s: S, i: nat)
    requires i < |registered|
    ensures var n := |registered| - 1; var (after, out) := registered[n](s);
            |FailedFrom(registered, s, i)| == |FailedFrom(registered[..n], after, i)| + if out == Done then 0 else 1
  {
    hide OutcomeAt;
    var n := |registered| - 1;
    var (after, out) := registered[n](s);
    var all, before := FailedFrom(registered, s, i), FailedFrom(registered[..n], after, i);
    forall j: nat | j <= n ensures j in all <==> j in before || (j == n && out != Done) {
      OutcomeOfFront(registered, s, j);
    }
    assert n !in before;
    assert all == before + if out == Done then {} else {n};
  }

  lemma LastReported<S>(registered: seq<ShutdownFunc<S>>, s: S, errs: seq<string>)
    requires registered != []
    ensures var n := |registered| - 1; var out := registered[n](s).1;
            out != Done ==> Reported(registered, s, ErrorsOf(out) + errs, n)
  {
    var n := |registered| - 1;
    assert OutcomeAt(registered, s, n) == registered[n](s).1;
    assert FailedFrom(registered, s, n + 1) == {};
  }

  lemma ReportedBefore<S>(registered: seq<ShutdownFunc<S>>, s: S, errs: seq<string>, i: nat)
    requires registered != [] && i < |registered| - 1
    requires var n := |registered| - 1; Reported(registered[..n], registered[n](s).0, errs, i)
    ensures Reported(registered, s, ErrorsOf(registered[|registered| - 1](s).1) + errs, i)
  {
    hide FailedFrom;
    StateOfFront(registered, s, i);
    FailedOfFront(registered, s, i + 1);
  }

  lemma {:induction false} ReportedAt<S>(registered: seq<ShutdownFunc<S>>, s: S, i: nat)
    requires i < |registered| && OutcomeAt(registered, s, i) != Done
    ensures Reported(registered, s, ClosedBackwards(registered, s).1, i)
  {
    hide Reported, FailedFrom;
    var n := |registered| - 1;
    var after, errs := registered[n](s).0, ClosedBackwards(registered[..n], registered[n](s).0).1;
    if i == n {
      LastReported(registered, s, errs);
    } else {
      StateOfFront(registered, s, i);
      ReportedAt(registered[..n], after, i);
      ReportedBefore(registered, s, errs, i);
    }
  }

  lemma {:induction false} EndAndCount<S>(registered: seq<ShutdownFunc<S>>, s: S)
    ensures var (end, errs) := ClosedBackwards(registered, s);
            && end == (if registered == [] then s else registered[0](StateAt(registered, s, 0)).0)
            && |errs| == |FailedFrom(registered, s, 0)|
  {
    if registered == [] {
    } else {
      hide FailedFrom;
      EndAndCount(registered[..|registered| - 1], registered[|registered| - 1](s).0);
      FailedOfFront(registered, s, 0);
      if |registered| > 1 {
        StateOfFront(registered, s, 0);
      }
    }
  }

  /**
    Each function runs in the state that those registered after it have left. Each failure, and
    nothing else, is reported once, in the order of the calls.
   */
  lemma {:induction false} ReportsExact<S>(registered: seq<ShutdownFunc<S>>, s: S)
    ensures var (end, errs) := ClosedBackwards(registered, s);
            && end == (if registered == [] then s else registered[0](StateAt(registered, s, 0)).0)
            && |errs| == |FailedFrom(registered, s, 0)|
            && forall i: nat :: i in FailedFrom(registered, s, 0) ==> Reported(registered, s, errs, i)
  {
    hide Reported, ClosedBackwards;
    EndAndCount(registered, s);
    forall i: nat | i in FailedFrom(registered, s, 0)
      ensures Reported(registered, s, ClosedBackwards(registered, s).1, i)
    {
      ReportedAt(registered, s, i);
    }
  }

  class AppShutdown<S> {
    var appShutdownFuncs: seq<ShutdownFunc<S>>
    /** The functions registered so far, in order. */
    ghost var registered: seq<ShutdownFunc<S>>

    ghost predicate Valid()
      reads this
    {
      appShutdownFuncs == ListAfter(registered)
    }

    constructor ()
      ensures Valid() && registered == []
    {
      appShutdownFuncs, registered := [], [];
    }

    method AddShutdownFunc(f: ShutdownFunc<S>)
      requires Valid()
      modifies this
      ensures Valid() && registered == old(registered) + [f] && appShutdownFuncs == [f] + old(appShutdownFuncs)
    {
      appShutdownFuncs := [f] + appShutdownFuncs;
      registered := registered + [f];
      assert registered[..|registered| - 1] == old(registered);
    }

    /** A panic is turned into an error. */
    method InvokeShutdownFunc(f: ShutdownFunc<S>, s: S) returns (after: S, err: Option<string>)
      ensures after == f(s).0
      ensures ErrorsOf(f(s).1) == if err.Some? then [err.value] else []
      ensures (err.None? <==> f(s).1 == Done) && (err.Some? ==> SaysWhy(f(s).1, err.value))
    {
      var (end, out) := f(s);
      after := end;
      match out {
        case Done => err := None;
        case Error(message) => err := Some(message);
        case Panic(value) => err := Some("panic when invoking shutdown func, panic is: " + value);
      }
    }

    method CloseComponents(s: S) returns (end: S, errs: seq<string>)
      requires Valid()
      ensures (end, errs) == ClosedBackwards(registered, s)
    {
      hide Closed, ErrorsOf;
      end, errs := s, [];
      ClosedNothing(s);
      for i := 0 to |appShutdownFuncs|
        invariant (end, errs) == Closed(appShutdownFuncs[..i], s)
      {
        ClosedNext(appShutdownFuncs, i, s);
        var err;
        end, err := InvokeShutdownFunc(appShutdownFuncs[i], end);
        if err.Some? {
          errs := errs + [err.value];
        } else {
          assert errs == errs + [];
        }
      }
      assert appShutdownFuncs[..|appShutdownFuncs|] == appShutdownFuncs;
      ClosesBackwards(registered, s);
    }
  }

  // ----------------------------------------------------- the last deletes

  /**
    What registers itself for shutdown. A cache proxy uses the client it is given; `ticks` are
    the turns its cleaner's select takes from the close of the channel on.
   */
  datatype Component =
    | RedisClient(client: nat, out: Outcome)
    | CacheProxy(cache: nat, uses: nat, ticks: seq<bool>)
    | Other(out: Outcome)

  /**
    The deletes a cache starts while it is closed: batches left to background goroutines, then
    the ids of the synchronous delete, and whether its client was still open at that time.
   */
  datatype Deletes<I> = Deletes(background: seq<seq<I>>, ids: seq<I>, clientOpen: bool)

  datatype App<E, I> = App(closed: set<nat>, pipes: map<nat, SK.Pipeline<E, I>>, deletes: map<nat, Deletes<I>>)

  /** The cleaner's pipeline after the close of the channel and these turns. */
  function Emptied<E, I>(mapping: E -> I, p: SK.Pipeline<E, I>, ticks: seq<bool>): (q: SK.Pipeline<E, I>)
    ensures |p.issued| <= |q.issued|
  {
    var shut := SK.Next(mapping, p, SK.Close);
    SK.TurnsGrow(mapping, shut, ticks);
    SK.Turns(mapping, shut, ticks)
  }

  function DeletesOf<E, I>(mapping: E -> I, p: SK.Pipeline<E, I>, ticks: seq<bool>, clientOpen: bool): Deletes<I> {
    var q := Emptied(mapping, p, ticks);
    Deletes(SK.Since(p, q), q.batch, clientOpen)
  }

  function Effect<E, I>(mapping: E -> I, c: Component, app: App<E, I>): App<E, I> {
    match c
    case RedisClient(client, _) => app.(closed := app.closed + {client})
    case CacheProxy(cache, uses, ticks) =>
      if cache !in app.pipes then app else
        var p := app.pipes[cache];
        app.(pipes := app.pipes[cache := SK.Next(mapping, Emptied(mapping, p, ticks), SK.Finish)],
             deletes := app.deletes[cache := DeletesOf(mapping, p, ticks, uses !in app.closed)])
    case Other(_) => app
  }

  function FuncOf<E, I>(mapping: E -> I, c: Component): ShutdownFunc<App<E, I>> {
    (app: App<E, I>) => (Effect(mapping, c, app), if c.CacheProxy? then Done else c.out)
  }

  function FuncsOf<E, I>(mapping: E -> I, cs: seq<Component>): (fs: seq<ShutdownFunc<App<E, I>>>)
    ensures |fs| == |cs| && forall i :: 0 <= i < |fs| ==> fs[i] == FuncOf(mapping, cs[i])
  {
    seq(|cs|, i requires 0 <= i < |cs| => FuncOf(mapping, cs[i]))
  }

  function ShutDown<E, I>(mapping: E -> I, cs: seq<Component>, app: App<E, I>): App<E, I> {
    ClosedBackwards(FuncsOf(mapping, cs), app).0
  }

  lemma ShutDownLast<E, I>(mapping: E -> I, cs: seq<Component>, app: App<E, I>)
    requires cs != []
    ensures ShutDown(mapping, cs, app) == ShutDown(mapping, cs[..|cs| - 1], Effect(mapping, cs[|cs| - 1], app))
  {
    assert FuncsOf(mapping, cs)[..|cs| - 1] == FuncsOf(mapping, cs[..|cs| - 1]);
  }

  predicate IsCache(c: Component, cache: nat) {
    c.CacheProxy? && c.cache == cache
  }

  predicate IsClient(c: Component, client: nat) {
    c.RedisClient? && c.client == client
  }

  /** Closing other components leaves a cache alone. */
  lemma {:induction false} OthersLeaveCache<E, I>(mapping: E -> I, cs: seq<Component>, app: App<E, I>, cache: nat)
    requires forall j :: 0 <= j < |cs| ==> !IsCache(cs[j], cache)
    requires cache in app.pipes && cache in app.deletes
    ensures var end := ShutDown(mapping, cs, app);
            && cache in end.pipes && end.pipes[cache] == app.pipes[cache]
            && cache in end.deletes && end.deletes[cache] == app.deletes[cache]
  {
    if cs == [] {
    } else {
      hide Emptied, DeletesOf;
      ShutDownLast(mapping, cs, app);
      OthersLeaveCache(mapping, cs[..|cs| - 1], Effect(mapping, cs[|cs| - 1], app), cache);
    }
  }

  /** Component i is the only one that closes its cache, and the application knows the cache. */
  ghost predicate ClosesAlone<E, I>(cs: seq<Component>, app: App<E, I>, i: nat) {
    && i < |cs| && cs[i].CacheProxy? && cs[i].cache in app.pipes
    && forall j :: 0 <= j < |cs| && IsCache(cs[j], cs[i].cache) ==> j == i
  }

  /**
    When a shutdown comes to a cache, whatever turns its cleaner takes, the final synchronous
    delete meets an open Redis client exactly when no component registered after the cache
    closed that client. So a cache built on a client that is already registered has its client.
   */
  lemma {:induction false} LastDeleteExact<E, I>(mapping: E -> I, cs: seq<Component>, app: App<E, I>, i: nat)
    requires ClosesAlone(cs, app, i)
    ensures var end := ShutDown(mapping, cs, app);
            var p := app.pipes[cs[i].cache];
            var open := cs[i].uses !in app.closed && forall j :: i < j < |cs| ==> !IsClient(cs[j], cs[i].uses);
            && cs[i].cache in end.pipes
            && end.pipes[cs[i].cache] == SK.Next(mapping, Emptied(mapping, p, cs[i].ticks), SK.Finish)
            && cs[i].cache in end.deletes && end.deletes[cs[i].cache] == DeletesOf(mapping, p, cs[i].ticks, open)
  {
    hide Effect, Emptied, DeletesOf, ShutDown, SK.Next;
    var n := |cs| - 1;
    ShutDownLast(mapping, cs, app);
    if i == n {
      EffectOfCache(mapping, cs[n], app);
      OthersLeaveCache(mapping, cs[..n], Effect(mapping, cs[n], app), cs[i].cache);
    } else {
      EffectOfOther(mapping, cs[n], app, cs[i].cache, cs[i].uses);
      LastDeleteExact(mapping, cs[..n], Effect(mapping, cs[n], app), i);
    }
  }

  lemma EffectOfCache<E, I>(mapping: E -> I, c: Component, app: App<E, I>)
    requires c.CacheProxy? && c.cache in app.pipes
    ensures var end, p := Effect(mapping, c, app), app.pipes[c.cache];
            && c.cache in end.pipes && end.pipes[c.cache] == SK.Next(mapping, Emptied(mapping, p, c.ticks), SK.Finish)
            && c.cache in end.deletes && end.deletes[c.cache] == DeletesOf(mapping, p, c.ticks, c.uses !in app.closed)
  {
  }

  lemma EffectOfOther<E, I>(mapping: E -> I, c: Component, app: App<E, I>, cache: nat, client: nat)
    requires !IsCache(c, cache) && cache in app.pipes
    ensures var end := Effect(mapping, c, app);
            && cache in end.pipes && end.pipes[cache] == app.pipes[cache]
            && (client in end.closed <==> client in app.closed || IsClient(c, client))
  {
  }

  /**
    Component i is a cache with an open, valid pipeline, built on the client of component k, which
    is registered before it and closed by nobody else; `ticks` empties its channel.
   */
  ghost predicate WellBuilt<E, I>(mapping: E -> I, cs: seq<Component>, app: App<E, I>, i: nat, k: nat) {
    && ClosesAlone(cs, app, i) && k < i && IsClient(cs[k], cs[i].uses) && cs[i].uses !in app.closed
    && (forall j :: 0 <= j < |cs| && IsClient(cs[j], cs[i].uses) ==> j == k)
    && SK.Conserves(mapping, app.pipes[cs[i].cache]) && !app.pipes[cs[i].cache].closed
    && SK.Drains(app.pipes[cs[i].cache], cs[i].ticks)
  }

  /**
    What a shutdown does for such a cache, whatever turns the select takes: every accepted event
    has been handed to `delKeys`; the synchronous delete runs on an open client; it has exactly
    the ids since the last flush, and the outstanding ids before them are left to background
    goroutines, which nothing waits for.
   */
  lemma {:induction false} ShutdownProtectsLastBatch<E, I>(
      mapping: E -> I, cs: seq<Component>, app: App<E, I>, i: nat, k: nat)
    requires WellBuilt(mapping, cs, app, i, k)
    ensures var p, end := app.pipes[cs[i].cache], ShutDown(mapping, cs, app);
            && cs[i].cache in end.pipes && cs[i].cache in end.deletes
            && SK.Concat(end.pipes[cs[i].cache].issued) == SK.Ids(mapping, p.accepted)
            && var d := end.deletes[cs[i].cache];
               && d.clientOpen && |d.ids| == SK.Left(|p.batch|, cs[i].ticks)
               && SK.Concat(d.background) + d.ids == SK.Outstanding(mapping, p)
  {
    hide Emptied, ShutDown, IsClient, IsCache;
    hide SK.Conserves, SK.Concat, SK.Ids, SK.Next, SK.Left, SK.Outstanding, SK.Drains;
    LastDeleteExact(mapping, cs, app, i);
    EmptiedDrains(mapping, app.pipes[cs[i].cache], cs[i].ticks);
  }

  /**
    Of the deletes started at shutdown, those that reach Redis before the client is closed, if of
    the background ones these land.
   */
  function InTime<I>(d: Deletes<I>, landed: nat -> bool): seq<I> {
    Landed(d.background, landed) + if d.clientOpen then d.ids else []
  }

  function Landed<I>(batches: seq<seq<I>>, landed: nat -> bool): seq<I> {
    if batches == [] then []
    else Landed(batches[..|batches| - 1], landed) + if landed(|batches| - 1) then batches[|batches| - 1] else []
  }

  /**
    Exactly when the shutdown deletes every outstanding id before the client is closed, however
    slow the background goroutines are: no tick finds ids in the batch, and fewer than 100 ids
    were outstanding.
   */
  lemma {:induction false} ShutdownDeletesAllExact<E, I>(
      mapping: E -> I, cs: seq<Component>, app: App<E, I>, i: nat, k: nat)
    requires WellBuilt(mapping, cs, app, i, k)
    ensures var p, end := app.pipes[cs[i].cache], ShutDown(mapping, cs, app);
            && cs[i].cache in end.deletes
            && ((forall landed :: InTime(end.deletes[cs[i].cache], landed) == SK.Outstanding(mapping, p)) <==>
                SK.Quiet(|p.batch|, cs[i].ticks) && |p.batch| + |p.channel| < SK.BATCH_LIMIT)
  {
    hide Emptied, ShutDown, IsClient, IsCache;
    hide SK.Conserves, SK.Concat, SK.Next, SK.Left, SK.Outstanding, SK.Drains, SK.Quiet;
    LastDeleteExact(mapping, cs, app, i);
    InTimeExact(mapping, app.pipes[cs[i].cache], cs[i].ticks);
  }

  /** If all background goroutines are in time, all outstanding ids are deleted before the client closes, in order. */
  lemma {:induction false} QuickShutdownDeletesAll<E, I>(
      mapping: E -> I, cs: seq<Component>, app: App<E, I>, i: nat, k: nat)
    requires WellBuilt(mapping, cs, app, i, k)
    ensures var p, end := app.pipes[cs[i].cache], ShutDown(mapping, cs, app);
            && cs[i].cache in end.deletes
            && InTime(end.deletes[cs[i].cache], _ => true) == SK.Outstanding(mapping, p)
  {
    hide Emptied, ShutDown, IsClient, IsCache;
    hide SK.Conserves, SK.Concat, SK.Next, SK.Left, SK.Outstanding, SK.Drains;
    LastDeleteExact(mapping, cs, app, i);
    var p := app.pipes[cs[i].cache];
    EmptiedDrains(mapping, p, cs[i].ticks);
    AllLanded(SK.Since(p, Emptied(mapping, p, cs[i].ticks)));
  }

  lemma {:induction false} AllLanded<I>(batches: seq<seq<I>>)
    ensures Landed(batches, _ => true) == SK.Concat(batches)
  {
    if batches == [] {
    } else {
      AllLanded(batches[..|batches| - 1]);
    }
  }

  lemma {:induction false} InTimeExact<E, I>(mapping: E -> I, p: SK.Pipeline<E, I>, ticks: seq<bool>)
    requires SK.Conserves(mapping, p) && !p.closed && SK.Drains(p, ticks)
    ensures (forall landed :: InTime(DeletesOf(mapping, p, ticks, true), landed) == SK.Outstanding(mapping, p)) <==>
            SK.Quiet(|p.batch|, ticks) && |p.batch| + |p.channel| < SK.BATCH_LIMIT
  {
    hide SK.Conserves, SK.Turns, SK.Concat, SK.Quiet, SK.Events;
    var d := DeletesOf(mapping, p, ticks, true);
    EmptiedDrains(mapping, p, ticks);
    ShutConserves(mapping, p);
    SK.FinalBatchIsAllExact(mapping, SK.Next(mapping, p, SK.Close), ticks);
    NothingLanded(d.background);
    assert InTime(d, _ => false) == d.ids;
    if d.ids == SK.Outstanding(mapping, p) {
      SK.NothingIssuedExact(mapping, SK.Next(mapping, p, SK.Close), ticks);
      assert d.background == [];
      assert forall landed :: InTime(d, landed) == d.ids;
    }
  }

  lemma {:induction false} NothingLanded<I>(batches: seq<seq<I>>)
    ensures Landed(batches, _ => false) == []
  {
    if batches == [] {
    } else {
      NothingLanded(batches[..|batches| - 1]);
    }
  }

  lemma ShutConserves<E, I>(mapping: E -> I, p: SK.Pipeline<E, I>)
    requires SK.Conserves(mapping, p) && !p.closed
    ensures var shut := SK.Next(mapping, p, SK.Close);
            SK.Conserves(mapping, shut) && !shut.finished && |shut.batch| < SK.BATCH_LIMIT
  {
    hide SK.Balanced;
    SK.OpenIsNotFinished(mapping, p);
    SK.StepConserves(mapping, p, SK.Close);
  }

  lemma {:induction false} EmptiedDrains<E, I>(mapping: E -> I, p: SK.Pipeline<E, I>, ticks: seq<bool>)
    requires SK.Conserves(mapping, p) && !p.closed && SK.Drains(p, ticks)
    ensures var q := Emptied(mapping, p, ticks);
            && SK.Concat(SK.Next(mapping, q, SK.Finish).issued) == SK.Ids(mapping, p.accepted)
            && |q.batch| == SK.Left(|p.batch|, ticks)
            && SK.Concat(SK.Since(p, q)) + q.batch == SK.Outstanding(mapping, p)
  {
    hide SK.Conserves, SK.Turns, SK.Concat, SK.Ids, SK.Left;
    var shut := SK.Next(mapping, p, SK.Close);
    ShutConserves(mapping, p);
    var q := SK.FinalBatch(mapping, shut, ticks);
    SK.TurnsConserve(mapping, shut, ticks);
    FinishedIsBalanced(mapping, q);
  }

  lemma FinishedIsBalanced<E, I>(mapping: E -> I, q: SK.Pipeline<E, I>)
    requires SK.Conserves(mapping, q) && SK.Enabled(q, SK.Finish)
    ensures SK.Concat(SK.Next(mapping, q, SK.Finish).issued) == SK.Ids(mapping, q.accepted)
  {
    hide SK.Balanced, SK.Concat, SK.Ids;
    SK.StepConserves(mapping, q, SK.Finish);
    SK.NothingLeft(mapping, SK.Next(mapping, q, SK.Finish));
  }
}
