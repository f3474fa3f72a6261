/**
  The listener and cleaner both cache proxies embed, and the publisher that feeds them.
  `StaleKeyCleaner` updates its fields in place; its contract is the pipeline of `StaleKeys`.
 */
module StaleKeyCleaners {
  import opened StaleKeys

  /** The listener is open, but its channel is full: the sender has to wait. */
  predicate MustWait<E, I>(p: Pipeline<E, I>) {
    !p.closed && |p.channel| == CHANNEL_CAPACITY
  }

  /**
    A listener's trace after an event arrived. A sender that has to wait gets its turn after the
    next receive, unless the channel is closed first: then sending panics.
   */
  function Listened<E, I>(mapping: E -> I, p: Pipeline<E, I>, e: E, closedFirst: bool): Pipeline<E, I> {
    if !MustWait(p) then Next(mapping, p, Send(e))
    else Next(mapping, Next(mapping, p, if closedFirst then Close else Receive), Send(e))
  }

  /**
    An event is accepted, or refused by a listener that is closed by then; only a waiting
    sender's event is lost to a panic.
   */
  lemma {:induction false} ListenedAccounts<E, I>(mapping: E -> I, p: Pipeline<E, I>, e: E, closedFirst: bool)
    requires Conserves(mapping, p)
    ensures var q := Listened(mapping, p, e, closedFirst);
            && Conserves(mapping, q) && q.closed == (p.closed || (MustWait(p) && closedFirst))
            && q.accepted == (if q.closed then p.accepted else p.accepted + [e])
            && q.refused == (if q.closed then p.refused + [e] else p.refused)
  {
    hide Balanced;
    StepConserves(mapping, p, Send(e));
    var ready := Next(mapping, p, if closedFirst then Close else Receive);
    StepConserves(mapping, p, if closedFirst then Close else Receive);
    StepConserves(mapping, ready, Send(e));
  }

  class StaleKeyCleaner<E, I> {
    const idMapping: E -> I

    var daoEventChan: seq<E>
    var daoEventChanClosed: bool
    var ids: seq<I>
    var cleanerClosed: bool
    /** The batches `delKeys` has been called with, oldest first. */
    var delKeysCalls: seq<seq<I>>

    ghost var accepted: seq<E>
    ghost var refused: seq<E>

    ghost function Trace(): Pipeline<E, I>
      reads this
    {
      Pipeline(accepted, refused, daoEventChan, ids, delKeysCalls, daoEventChanClosed, cleanerClosed)
    }

    ghost predicate Valid()
      reads this
    {
      Conserves(idMapping, Trace())
    }

    constructor (mapping: E -> I)
      ensures Valid() && Trace() == Empty() && idMapping == mapping
    {
      idMapping := mapping;
      daoEventChan, daoEventChanClosed := [], false;
      ids, cleanerClosed, delKeysCalls := [], false, [];
      accepted, refused := [], [];
      new;
      assert Conserves(mapping, Empty()) by {
        InvalidationConserves(mapping, []);
      }
    }

    /** `closedFirst`: if the sender has to wait, the channel is closed before the next receive. */
    method Listen(event: E, closedFirst: bool) returns (panics: bool)
      requires Valid()
      modifies this
      ensures Valid() && Trace() == Listened(idMapping, old(Trace()), event, closedFirst)
      ensures panics <==> MustWait(old(Trace())) && closedFirst
      ensures daoEventChanClosed == (old(daoEventChanClosed) || panics)
      ensures daoEventChanClosed ==> refused == old(refused) + [event] && accepted == old(accepted)
      ensures !daoEventChanClosed ==> accepted == old(accepted) + [event] && refused == old(refused)
    {
      hide Balanced;
      ListenedAccounts(idMapping, Trace(), event, closedFirst);
      panics := false;
      if daoEventChanClosed {
        refused := refused + [event];
        return;
      }
      if |daoEventChan| == CHANNEL_CAPACITY {
        if closedFirst {
          CloseChannel();
          refused := refused + [event];
          return true;
        }
        OnEvent();
      }
      daoEventChan := daoEventChan + [event];
      accepted := accepted + [event];
    }

    /** Any step of the cleaner, of the shutdown or of another sender; one that is not possible changes nothing. */
    method Act(step: Action<E>)
      requires Valid()
      modifies this
      ensures Valid() && Trace() == Next(idMapping, old(Trace()), step)
    {
      hide Balanced, Sized;
      StepConserves(idMapping, Trace(), step);
      match step {
        case Send(event) =>
          if daoEventChanClosed {
            refused := refused + [event];
          } else if |daoEventChan| < CHANNEL_CAPACITY {
            daoEventChan := daoEventChan + [event];
            accepted := accepted + [event];
          }
        case Receive =>
          if !cleanerClosed && daoEventChan != [] {
            OnEvent();
          }
        case Tick =>
          if !cleanerClosed {
            OnTick();
          }
        case Close =>
          if !daoEventChanClosed {
            CloseChannel();
          }
        case Finish =>
          if daoEventChanClosed && !cleanerClosed && daoEventChan == [] {
            OnClosed();
          }
      }
    }

    /** Hands the current batch to `delKeys` and starts a new one. */
    method GoDelKeys()
      modifies `delKeysCalls, `ids
      ensures delKeysCalls == old(delKeysCalls) + [old(ids)] && ids == []
    {
      delKeysCalls := delKeysCalls + [ids];
      ids := [];
    }

    /** The ticker case of the cleaner's select. */
    method OnTick()
      requires Valid() && !cleanerClosed
      modifies this
      ensures Valid() && Trace() == Next(idMapping, old(Trace()), Tick)
    {
      hide Balanced, Sized;
      StepConserves(idMapping, Trace(), Tick);
      if |ids| > 0 {
        GoDelKeys();
      }
    }

    /** The event case of the cleaner's select, when the channel delivers one. */
    method OnEvent()
      requires Valid() && !cleanerClosed && daoEventChan != []
      modifies this
      ensures Valid() && Trace() == Next(idMapping, old(Trace()), Receive)
    {
      hide Balanced, Sized;
      ghost var q := Next(idMapping, Trace(), Receive);
      assert Conserves(idMapping, q) by {
        StepConserves(idMapping, Trace(), Receive);
      }
      var id := idMapping(daoEventChan[0]);
      daoEventChan := daoEventChan[1..];
      ids := ids + [id];
      if |ids| >= BATCH_LIMIT {
        GoDelKeys();
      }
      assert Trace() == q;
    }

    /** The event case when the channel is closed and empty: the deferred last delete. */
    method OnClosed()
      requires Valid() && daoEventChanClosed && !cleanerClosed && daoEventChan == []
      modifies this
      ensures Valid() && Trace() == Next(idMapping, old(Trace()), Finish)
    {
      hide Balanced, Sized;
      StepConserves(idMapping, Trace(), Finish);
      if |ids| > 0 {
        GoDelKeys();
      }
      cleanerClosed := true;
    }

    method CloseChannel()
      requires Valid() && !daoEventChanClosed
      modifies `daoEventChanClosed
      ensures Valid() && Trace() == Next(idMapping, old(Trace()), Close)
    {
      daoEventChanClosed := true;
    }

    /**
      The shutdown function: close the channel, then wait for the cleaner. `ticks` tells at
      which turns of the cleaner's loop the ticker is chosen; the channel is chosen again and again.
     */
    method Shutdown(ticks: nat -> bool) returns (ghost turns: seq<bool>)
      requires Valid() && !daoEventChanClosed
      requires Fair(ticks)
      modifies this
      ensures Valid() && Trace().closed && Trace().finished
      ensures accepted == old(accepted) && refused == old(refused)
      ensures Concat(delKeysCalls) == Ids(idMapping, accepted)
      ensures forall i :: 0 <= i < |turns| ==> turns[i] == ticks(i)
      ensures var shut := Next(idMapping, old(Trace()), Close);
              Drains(shut, turns) && Trace() == Next(idMapping, Turns(idMapping, shut, turns), Finish)
    {
      hide Balanced, Sized;
      OpenIsNotFinished(idMapping, Trace());
      CloseChannel();
      turns := AwaitCleaner(ticks);
    }

    /**
      What the cleaner does from the close of the channel on, also if the close made a waiting
      sender panic.
     */
    method AwaitCleaner(ticks: nat -> bool) returns (ghost turns: seq<bool>)
      requires Valid() && daoEventChanClosed && !cleanerClosed
      requires Fair(ticks)
      modifies this
      ensures Valid() && Trace().closed && Trace().finished
      ensures accepted == old(accepted) && refused == old(refused)
      ensures Concat(delKeysCalls) == Ids(idMapping, accepted)
      ensures forall i :: 0 <= i < |turns| ==> turns[i] == ticks(i)
      ensures var shut := old(Trace());
              Drains(shut, turns) && Trace() == Next(idMapping, Turns(idMapping, shut, turns), Finish)
    {
      hide Balanced, Sized, Turns, Events;
      ghost var shut := Trace();
      turns := [];
      NoTurns(idMapping, shut);
      var n := 0;
      while daoEventChan != [] || ticks(n)
        invariant Valid() && daoEventChanClosed && !cleanerClosed
        invariant accepted == old(accepted) && refused == old(refused)
        invariant |turns| == n && forall i :: 0 <= i < n ==> turns[i] == ticks(i)
        invariant Trace() == Turns(idMapping, shut, turns) && Events(turns) + |daoEventChan| == |shut.channel|
        decreases |daoEventChan|, NextReceive(ticks, n) - n
      {
        NextReceiveStays(ticks, n);
        TurnsOneMore(idMapping, shut, turns, ticks(n));
        if ticks(n) {
          OnTick();
        } else {
          OnEvent();
        }
        turns := turns + [ticks(n)];
        n := n + 1;
      }
      OnClosed();
      NothingLeft(idMapping, Trace());
    }
  }

  ghost predicate ReceivesFrom(ticks: nat -> bool, n: nat) {
    exists k: nat :: k >= n && !ticks(k)
  }

  /** The select does not choose the ticker for ever. */
  ghost predicate Fair(ticks: nat -> bool) {
    forall n: nat :: ReceivesFrom(ticks, n)
  }

  ghost predicate IsNextReceive(ticks: nat -> bool, n: nat, k: nat) {
    k >= n && !ticks(k) && forall j: nat :: n <= j < k ==> ticks(j)
  }

  lemma {:induction false} NextReceiveExists(ticks: nat -> bool, n: nat, k: nat)
    requires k >= n && !ticks(k)
    ensures exists first: nat :: IsNextReceive(ticks, n, first)
    decreases k - n
  {
    if ticks(n) {
      NextReceiveExists(ticks, n + 1, k);
      var first: nat :| IsNextReceive(ticks, n + 1, first);
      assert IsNextReceive(ticks, n, first);
    } else {
      assert IsNextReceive(ticks, n, n);
    }
  }

  /** The first turn from n on at which the channel is chosen. */
  ghost function NextReceive(ticks: nat -> bool, n: nat): (k: nat)
    requires Fair(ticks)
    ensures IsNextReceive(ticks, n, k)
  {
    assert ReceivesFrom(ticks, n);
    var k: nat :| k >= n && !ticks(k);
    NextReceiveExists(ticks, n, k);
    var first: nat :| IsNextReceive(ticks, n, first);
    first
  }

  lemma NextReceiveStays(ticks: nat -> bool, n: nat)
    requires Fair(ticks)
    ensures ticks(n) ==> NextReceive(ticks, n + 1) == NextReceive(ticks, n) > n
  {
    var a, b := NextReceive(ticks, n), NextReceive(ticks, n + 1);
    if ticks(n) {
      assert a < b ==> ticks(a);
      assert b < a ==> ticks(b);
    }
  }

  // ------------------------------------------------------------- publisher

  function Copies<E>(e: E, n: nat): seq<E> {
    if n == 0 then [] else Copies(e, n - 1) + [e]
  }

  lemma OneMoreCopy<E>(s: seq<E>, e: E, n: nat)
    ensures s + Copies(e, n) + [e] == s + Copies(e, n + 1)
  {
  }

  /** How often x occurs among the first k elements. */
  function Count<L(==)>(s: seq<L>, x: L, k: nat): nat
    requires k <= |s|
  {
    if k == 0 then 0 else Count(s, x, k - 1) + if s[k - 1] == x then 1 else 0
  }

  /** `now` is `before` and a further copies of the event. */
  ghost predicate Gained<E>(before: seq<E>, now: seq<E>, event: E, a: nat) {
    now == before + Copies(event, a)
  }

  lemma NothingGained<E>(s: seq<E>, event: E)
    ensures Gained(s, s, event, 0)
  {
    assert s + [] == s;
  }

  lemma OneMoreGained<E>(before: seq<E>, now: seq<E>, event: E)
    requires |now| >= |before| && Gained(before, now, event, |now| - |before|)
    ensures Gained(before, now + [event], event, |now| - |before| + 1)
  {
    OneMoreCopy(before, event, |now| - |before|);
  }

  /**
    From one trace to the other a listener has been told n times of the event, and has accepted
    or refused it each time: a closed one has accepted none, an open one has refused none.
   */
  ghost predicate Heard<E, I>(before: Pipeline<E, I>, now: Pipeline<E, I>, event: E, n: nat) {
    var a, r := |now.accepted| - |before.accepted|, |now.refused| - |before.refused|;
    && a >= 0 && r >= 0 && a + r == n
    && Gained(before.accepted, now.accepted, event, a) && Gained(before.refused, now.refused, event, r)
    && (before.closed ==> a == 0 && now.closed)
    && (!now.closed ==> r == 0)
  }

  lemma NothingHeard<E, I>(p: Pipeline<E, I>, event: E)
    ensures Heard(p, p, event, 0)
  {
    NothingGained(p.accepted, event);
    NothingGained(p.refused, event);
  }

  lemma {:induction false} HearsOnce<E, I>(
      mapping: E -> I, before: Pipeline<E, I>, p: Pipeline<E, I>, event: E, n: nat, closedFirst: bool)
    requires Conserves(mapping, p) && Heard(before, p, event, n)
    ensures Heard(before, Listened(mapping, p, event, closedFirst), event, n + 1)
  {
    hide Conserves, Listened, Gained;
    ListenedAccounts(mapping, p, event, closedFirst);
    OneMoreGained(before.accepted, p.accepted, event);
    OneMoreGained(before.refused, p.refused, event);
  }

  lemma StepIsNotHeard<E, I>(
      mapping: E -> I, before: Pipeline<E, I>, p: Pipeline<E, I>, event: E, n: nat, step: Action<E>)
    requires Heard(before, p, event, n) && !step.Send?
    ensures Heard(before, Next(mapping, p, step), event, n)
  {
    hide Gained;
  }

  // ------------------------------------------------------ one round of telling

  /**
    One publication: the event; for each listener, whether its channel is closed first if the
    publisher has to wait there; and what the cleaners, shutdowns and other senders do before
    its turn, as steps of listeners given by their positions.
   */
  datatype Round<E> = Round(event: E, closedFirst: nat -> bool, meanwhile: nat -> seq<(nat, Action<E>)>)

  ghost function Traces<E, I>(all: seq<StaleKeyCleaner<E, I>>): (traces: seq<Pipeline<E, I>>)
    reads all
    ensures |traces| == |all| && forall i :: 0 <= i < |all| ==> traces[i] == all[i].Trace()
  {
    seq(|all|, i requires 0 <= i < |all| reads all => all[i].Trace())
  }

  /** The traces after one listener, which may be registered several times, has changed. */
  ghost function Changed<E, I>(
      all: seq<StaleKeyCleaner<E, I>>, traces: seq<Pipeline<E, I>>, i: nat, now: Pipeline<E, I>)
    : (result: seq<Pipeline<E, I>>)
    requires i < |all| == |traces|
    ensures |result| == |all|
    ensures forall k :: 0 <= k < |all| ==> result[k] == if all[k] == all[i] then now else traces[k]
  {
    seq(|all|, k requires 0 <= k < |all| => if all[k] == all[i] then now else traces[k])
  }

  ghost function Acted<E, I>(
      all: seq<StaleKeyCleaner<E, I>>, traces: seq<Pipeline<E, I>>, steps: seq<(nat, Action<E>)>)
    : (result: seq<Pipeline<E, I>>)
    requires |all| == |traces|
    ensures |result| == |all|
  {
    if steps == [] then traces else
      var before, (i, step) := Acted(all, traces, steps[..|steps| - 1]), steps[|steps| - 1];
      if i < |all| then Changed(all, before, i, Next(all[i].idMapping, before[i], step)) else before
  }

  /** The traces when the first n listeners have been told. */
  ghost function AfterTelling<E, I>(
      all: seq<StaleKeyCleaner<E, I>>, traces: seq<Pipeline<E, I>>, r: Round<E>, n: nat)
    : (result: seq<Pipeline<E, I>>)
    requires n <= |all| == |traces|
    ensures |result| == |all|
    decreases n, 0
  {
    if n == 0 then traces else
      var turn := AtTurn(all, traces, r, n - 1);
      Changed(all, turn, n - 1, Listened(all[n - 1].idMapping, turn[n - 1], r.event, r.closedFirst(n - 1)))
  }

  /** The traces when it is the turn of listener n. */
  ghost function AtTurn<E, I>(
      all: seq<StaleKeyCleaner<E, I>>, traces: seq<Pipeline<E, I>>, r: Round<E>, n: nat)
    : (result: seq<Pipeline<E, I>>)
    requires n < |all| == |traces|
    ensures |result| == |all|
    decreases n, 1
  {
    Acted(all, AfterTelling(all, traces, r, n), r.meanwhile(n))
  }

  /** The publisher has to wait for listener i, and its channel is closed first. */
  ghost predicate PanicsAt<E, I>(
      all: seq<StaleKeyCleaner<E, I>>, traces: seq<Pipeline<E, I>>, r: Round<E>, i: nat)
    requires i < |all| == |traces|
  {
    MustWait(AtTurn(all, traces, r, i)[i]) && r.closedFirst(i)
  }

  ghost predicate NoPanicBefore<E, I>(
      all: seq<StaleKeyCleaner<E, I>>, traces: seq<Pipeline<E, I>>, r: Round<E>, n: nat)
    requires n <= |all| == |traces|
  {
    forall i: nat :: i < n ==> !PanicsAt(all, traces, r, i)
  }

  class RepoBase<E, I> {
    var daoEventListeners: seq<StaleKeyCleaner<E, I>>

    constructor ()
      ensures daoEventListeners == []
    {
      daoEventListeners := [];
    }

    method AddListener(listener: StaleKeyCleaner<E, I>)
      modifies this
      ensures daoEventListeners == old(daoEventListeners) + [listener]
    {
      daoEventListeners := daoEventListeners + [listener];
    }

    /**
      Tells the listeners in turn. The publisher panics exactly if for some listener it has to
      wait, when it comes to it, and the channel is closed first: at the first such listener,
      and those after it are not told.
     */
    method Publish(r: Round<E>) returns (told: nat, panics: bool)
      requires forall l :: l in daoEventListeners ==> l.Valid()
      modifies daoEventListeners
      ensures forall l :: l in daoEventListeners ==> l.Valid()
      ensures told <= |daoEventListeners| && (!panics ==> told == |daoEventListeners|)
      ensures var ls, before := daoEventListeners, old(Traces(daoEventListeners));
              && Traces(ls) == AfterTelling(ls, before, r, told)
              && (panics ==> told > 0 && PanicsAt(ls, before, r, told - 1))
              && NoPanicBefore(ls, before, r, if panics then told - 1 else told)
    {
      hide Conserves, Listened, MustWait, AfterTelling, AtTurn, PanicsAt, NoPanicBefore, Acted;
      var all := daoEventListeners;
      ghost var before := Traces(all);
      told, panics := 0, false;
      NobodyTold(all, before, r);
      while told < |all| && !panics
        invariant all == daoEventListeners && told <= |all|
        invariant forall l :: l in all ==> l.Valid()
        invariant Traces(all) == AfterTelling(all, before, r, told)
        invariant panics ==> told > 0 && PanicsAt(all, before, r, told - 1)
        invariant NoPanicBefore(all, before, r, if panics then told - 1 else told)
        decreases |all| - told
      {
        TurnIs(all, before, r, told);
        panics := TellNext(r, told);
        NextTold(all, before, r, told, panics);
        told := told + 1;
      }
    }

    /** The turn of one listener, and what happens before it. */
    method TellNext(r: Round<E>, i: nat) returns (panics: bool)
      requires i < |daoEventListeners| && forall l :: l in daoEventListeners ==> l.Valid()
      modifies daoEventListeners
      ensures forall l :: l in daoEventListeners ==> l.Valid()
      ensures var ls := daoEventListeners; var turn := Acted(ls, old(Traces(ls)), r.meanwhile(i));
              && Traces(ls) == Changed(ls, turn, i, Listened(ls[i].idMapping, turn[i], r.event, r.closedFirst(i)))
              && (panics <==> MustWait(turn[i]) && r.closedFirst(i))
    {
      hide Conserves, Listened, MustWait, Acted;
      var all := daoEventListeners;
      Meanwhile(r.meanwhile(i));
      var l := all[i];
      ghost var turn := Traces(all);
      assert l.Valid() && l.Trace() == turn[i];
      panics := l.Listen(r.event, r.closedFirst(i));
      assert Traces(all) == Changed(all, turn, i, l.Trace());
    }

    /** What happens at the listeners before the next one's turn. */
    method Meanwhile(steps: seq<(nat, Action<E>)>)
      requires forall l :: l in daoEventListeners ==> l.Valid()
      modifies daoEventListeners
      ensures forall l :: l in daoEventListeners ==> l.Valid()
      ensures Traces(daoEventListeners) == Acted(daoEventListeners, old(Traces(daoEventListeners)), steps)
    {
      hide Conserves, Next, Acted;
      var all := daoEventListeners;
      ghost var before := Traces(all);
      NothingActed(all, before);
      for n := 0 to |steps|
        invariant all == daoEventListeners && forall l :: l in all ==> l.Valid()
        invariant Traces(all) == Acted(all, before, steps[..n])
      {
        ActedNext(all, before, steps, n);
        var (i, step) := steps[n];
        if i < |all| {
          var l := all[i];
          ghost var mid := Traces(all);
          assert l.Valid() && l.Trace() == mid[i];
          l.Act(step);
          assert Traces(all) == Changed(all, mid, i, l.Trace());
        }
      }
      assert steps[..|steps|] == steps;
    }
  }

  lemma NobodyTold<E, I>(all: seq<StaleKeyCleaner<E, I>>, traces: seq<Pipeline<E, I>>, r: Round<E>)
    requires |all| == |traces|
    ensures AfterTelling(all, traces, r, 0) == traces && NoPanicBefore(all, traces, r, 0)
  {
  }

  lemma NextTold<E, I>(
      all: seq<StaleKeyCleaner<E, I>>, traces: seq<Pipeline<E, I>>, r: Round<E>, n: nat, panics: bool)
    requires n < |all| == |traces| && NoPanicBefore(all, traces, r, n)
    requires panics <==> MustWait(AtTurn(all, traces, r, n)[n]) && r.closedFirst(n)
    ensures panics ==> PanicsAt(all, traces, r, n)
    ensures !panics ==> NoPanicBefore(all, traces, r, n + 1)
  {
    hide AtTurn, MustWait;
  }

  lemma TurnIs<E, I>(all: seq<StaleKeyCleaner<E, I>>, traces: seq<Pipeline<E, I>>, r: Round<E>, n: nat)
    requires n < |all| == |traces|
    ensures AtTurn(all, traces, r, n) == Acted(all, AfterTelling(all, traces, r, n), r.meanwhile(n))
    ensures var turn := AtTurn(all, traces, r, n);
            AfterTelling(all, traces, r, n + 1) ==
            Changed(all, turn, n, Listened(all[n].idMapping, turn[n], r.event, r.closedFirst(n)))
  {
  }

  lemma NothingActed<E, I>(all: seq<StaleKeyCleaner<E, I>>, traces: seq<Pipeline<E, I>>)
    requires |all| == |traces|
    ensures Acted(all, traces, []) == traces
  {
  }

  lemma ActedNext<E, I>(
      all: seq<StaleKeyCleaner<E, I>>, traces: seq<Pipeline<E, I>>, steps: seq<(nat, Action<E>)>, n: nat)
    requires n < |steps| && |all| == |traces|
    ensures var mid, (i, step) := Acted(all, traces, steps[..n]), steps[n];
            Acted(all, traces, steps[..n + 1]) ==
            if i < |all| then Changed(all, mid, i, Next(all[i].idMapping, mid[i], step)) else mid
  {
    assert steps[..n + 1][..n] == steps[..n];
  }

  /** Those steps that concern this listener, under any of its positions. */
  ghost function Own<E, I>(
      all: seq<StaleKeyCleaner<E, I>>, l: StaleKeyCleaner<E, I>, steps: seq<(nat, Action<E>)>): seq<Action<E>>
  {
    if steps == [] then [] else
      var (i, step) := steps[|steps| - 1];
      Own(all, l, steps[..|steps| - 1]) + if i < |all| && all[i] == l then [step] else []
  }

  function Ran<E, I>(mapping: E -> I, p: Pipeline<E, I>, actions: seq<Action<E>>): Pipeline<E, I> {
    if actions == [] then p
    else Next(mapping, Ran(mapping, p, actions[..|actions| - 1]), actions[|actions| - 1])
  }

  /** Between the turns every listener takes its own steps, all of them in order, and no others. */
  lemma {:induction false} ActedExact<E, I>(
      all: seq<StaleKeyCleaner<E, I>>, traces: seq<Pipeline<E, I>>, steps: seq<(nat, Action<E>)>, k: nat)
    requires k < |all| == |traces|
    requires forall i, j :: 0 <= i < |all| && 0 <= j < |all| && all[i] == all[j] ==> traces[i] == traces[j]
    ensures Acted(all, traces, steps)[k] == Ran(all[k].idMapping, traces[k], Own(all, all[k], steps))
  {
    hide Next;
    if steps == [] {
    } else {
      var front := steps[..|steps| - 1];
      var (i, step) := steps[|steps| - 1];
      ActedExact(all, traces, front, k);
      if i < |all| && all[i] == all[k] {
        ActedExact(all, traces, front, i);
        assert traces[i] == traces[k] && Own(all, all[k], steps) == Own(all, all[k], front) + [step];
        RanNext(all[k].idMapping, traces[k], Own(all, all[k], front), step);
      } else {
        assert Own(all, all[k], steps) == Own(all, all[k], front);
      }
    }
  }

  lemma RanNext<E, I>(mapping: E -> I, p: Pipeline<E, I>, actions: seq<Action<E>>, step: Action<E>)
    ensures Ran(mapping, p, actions + [step]) == Next(mapping, Ran(mapping, p, actions), step)
  {
    hide Next;
    assert (actions + [step])[..|actions|] == actions;
  }

  // -------------------------------------------------------- what everyone hears

  /** Every trace is one of its listener, and a listener registered twice has one trace. */
  ghost predicate Sound<E, I>(all: seq<StaleKeyCleaner<E, I>>, traces: seq<Pipeline<E, I>>) {
    && |all| == |traces|
    && (forall i :: 0 <= i < |all| ==> Conserves(all[i].idMapping, traces[i]))
    && (forall i, j :: 0 <= i < |all| && 0 <= j < |all| && all[i] == all[j] ==> traces[i] == traces[j])
  }

  lemma TracesAreSound<E, I>(all: seq<StaleKeyCleaner<E, I>>)
    requires forall l :: l in all ==> l.Valid()
    ensures Sound(all, Traces(all))
  {
    hide Conserves;
    forall i | 0 <= i < |all| ensures Conserves(all[i].idMapping, Traces(all)[i]) {
      assert all[i].Valid();
    }
  }

  ghost predicate HeardBy<E, I>(
      all: seq<StaleKeyCleaner<E, I>>, before: seq<Pipeline<E, I>>, now: seq<Pipeline<E, I>>, event: E, n: nat)
    requires n <= |all| == |before| == |now|
  {
    forall k :: 0 <= k < |all| ==> Heard(before[k], now[k], event, Count(all, all[k], n))
  }

  ghost predicate SendsNothing<E>(steps: seq<(nat, Action<E>)>) {
    forall i :: 0 <= i < |steps| ==> !steps[i].1.Send?
  }

  lemma {:induction false} ActedHeard<E, I>(
      all: seq<StaleKeyCleaner<E, I>>, before: seq<Pipeline<E, I>>, traces: seq<Pipeline<E, I>>,
      steps: seq<(nat, Action<E>)>, event: E, n: nat)
    requires Sound(all, traces) && SendsNothing(steps)
    requires n <= |all| == |before| && HeardBy(all, before, traces, event, n)
    ensures Sound(all, Acted(all, traces, steps)) && HeardBy(all, before, Acted(all, traces, steps), event, n)
  {
    hide Conserves, Heard, Next;
    if steps == [] {
    } else {
      var front := steps[..|steps| - 1];
      var (i, step) := steps[|steps| - 1];
      ActedHeard(all, before, traces, front, event, n);
      var mid := Acted(all, traces, front);
      if i < |all| {
        StepConserves(all[i].idMapping, mid[i], step);
        forall k | 0 <= k < |all| && all[k] == all[i]
          ensures Heard(before[k], Next(all[i].idMapping, mid[i], step), event, Count(all, all[k], n))
        {
          StepIsNotHeard(all[i].idMapping, before[k], mid[k], event, Count(all, all[k], n), step);
        }
      }
    }
  }

  /**
    Whatever cleaners and shutdowns do meanwhile: when n listeners have been told, every listener
    has heard the event once for each time it is registered among them.
   */
  lemma {:induction false} EveryoneHears<E, I>(
      all: seq<StaleKeyCleaner<E, I>>, traces: seq<Pipeline<E, I>>, r: Round<E>, n: nat)
    requires Sound(all, traces) && n <= |all| == |traces| && forall i: nat :: SendsNothing(r.meanwhile(i))
    ensures var now := AfterTelling(all, traces, r, n);
            Sound(all, now) && HeardBy(all, traces, now, r.event, n)
  {
    hide Sound, HeardBy, Heard, Acted, AfterTelling, AtTurn, Changed;
    if n == 0 {
      NobodyTold(all, traces, r);
      NobodyHeard(all, traces, r.event);
    } else {
      EveryoneHears(all, traces, r, n - 1);
      SoundSize(all, traces);
      TurnIs(all, traces, r, n - 1);
      ActedHeard(all, traces, AfterTelling(all, traces, r, n - 1), r.meanwhile(n - 1), r.event, n - 1);
      ToldHeard(all, traces, AtTurn(all, traces, r, n - 1), r, n - 1);
    }
  }

  lemma SoundSize<E, I>(all: seq<StaleKeyCleaner<E, I>>, traces: seq<Pipeline<E, I>>)
    requires Sound(all, traces)
    ensures |all| == |traces|
  {
  }

  lemma NobodyHeard<E, I>(all: seq<StaleKeyCleaner<E, I>>, traces: seq<Pipeline<E, I>>, event: E)
    requires |all| == |traces|
    ensures HeardBy(all, traces, traces, event, 0)
  {
    hide Heard;
    forall k | 0 <= k < |all| ensures Heard(traces[k], traces[k], event, 0) {
      NothingHeard(traces[k], event);
    }
  }

  lemma {:induction false} ToldHeard<E, I>(
      all: seq<StaleKeyCleaner<E, I>>, before: seq<Pipeline<E, I>>, turn: seq<Pipeline<E, I>>, r: Round<E>, i: nat)
    requires Sound(all, turn) && i < |all| == |before| && HeardBy(all, before, turn, r.event, i)
    ensures var told := Listened(all[i].idMapping, turn[i], r.event, r.closedFirst(i));
            var now := Changed(all, turn, i, told);
            Sound(all, now) && HeardBy(all, before, now, r.event, i + 1)
  {
    hide Conserves, Heard, Listened;
    ListenedAccounts(all[i].idMapping, turn[i], r.event, r.closedFirst(i));
    var told := Listened(all[i].idMapping, turn[i], r.event, r.closedFirst(i));
    forall k | 0 <= k < |all| && all[k] == all[i] ensures Heard(before[k], told, r.event, Count(all, all[k], i + 1)) {
      HearsOnce(all[i].idMapping, before[k], turn[k], r.event, Count(all, all[k], i), r.closedFirst(i));
    }
  }

  // ------------------------------------------------- undisturbed, before the call

  /** The sender of an event that comes after n others has to wait: the channel is open, and full by then. */
  predicate WouldWait<E, I>(p: Pipeline<E, I>, n: nat) {
    !p.closed && |p.channel| + n >= CHANNEL_CAPACITY
  }

  /** After n events without a panic a listener is as open as before, and its channel has filled up. */
  predicate Filled<E, I>(before: Pipeline<E, I>, now: Pipeline<E, I>, n: nat) {
    && now.closed == before.closed
    && (!now.closed ==> |now.channel| == if WouldWait(before, n) then CHANNEL_CAPACITY else |before.channel| + n)
  }

  ghost predicate FilledAll<E, I>(
      all: seq<StaleKeyCleaner<E, I>>, before: seq<Pipeline<E, I>>, now: seq<Pipeline<E, I>>, n: nat)
    requires n <= |all| == |before| == |now|
  {
    forall k :: 0 <= k < |all| ==> Filled(before[k], now[k], Count(all, all[k], n))
  }

  lemma {:induction false} FillsUp<E, I>(
      mapping: E -> I, before: Pipeline<E, I>, p: Pipeline<E, I>, event: E, n: nat, closedFirst: bool)
    requires Conserves(mapping, p) && Filled(before, p, n)
    ensures MustWait(p) <==> WouldWait(before, n)
    ensures !(MustWait(p) && closedFirst) ==> Filled(before, Listened(mapping, p, event, closedFirst), n + 1)
  {
    hide Conserves, Listened;
    ListenedAccounts(mapping, p, event, closedFirst);
    ListenedChannel(mapping, p, event, closedFirst);
  }

  /** How full the channel is after an event, if there was no panic. */
  lemma ListenedChannel<E, I>(mapping: E -> I, p: Pipeline<E, I>, event: E, closedFirst: bool)
    requires Conserves(mapping, p)
    ensures |p.channel| <= CHANNEL_CAPACITY
    ensures !p.closed && !(MustWait(p) && closedFirst) ==>
              |Listened(mapping, p, event, closedFirst).channel| ==
              if MustWait(p) then CHANNEL_CAPACITY else |p.channel| + 1
  {
    hide Balanced;
    if MustWait(p) && !closedFirst {
      StepConserves(mapping, p, Receive);
      OpenIsNotFinished(mapping, p);
    }
  }

  ghost predicate Undisturbed<E>(r: Round<E>) {
    forall i: nat :: r.meanwhile(i) == []
  }

  lemma {:induction false} UndisturbedFills<E, I>(
      all: seq<StaleKeyCleaner<E, I>>, traces: seq<Pipeline<E, I>>, r: Round<E>, n: nat)
    requires Sound(all, traces) && n <= |all| && Undisturbed(r) && NoPanicBefore(all, traces, r, n)
    ensures var now := AfterTelling(all, traces, r, n); Sound(all, now) && FilledAll(all, traces, now, n)
  {
    hide Conserves, Filled, Listened, MustWait, WouldWait;
    if n == 0 {
      forall k | 0 <= k < |all| ensures Filled(traces[k], traces[k], 0) {
        NothingFilled(all[k].idMapping, traces[k]);
      }
    } else {
      var i := n - 1;
      UndisturbedFills(all, traces, r, i);
      var turn := AtTurn(all, traces, r, i);
      assert turn == AfterTelling(all, traces, r, i) && !PanicsAt(all, traces, r, i);
      ListenedAccounts(all[i].idMapping, turn[i], r.event, r.closedFirst(i));
      forall k | 0 <= k < |all| && all[k] == all[i]
        ensures Filled(traces[k], Listened(all[i].idMapping, turn[i], r.event, r.closedFirst(i)), Count(all, all[k], n))
      {
        FillsUp(all[i].idMapping, traces[k], turn[k], r.event, Count(all, all[k], i), r.closedFirst(i));
      }
    }
  }

  lemma NothingFilled<E, I>(mapping: E -> I, p: Pipeline<E, I>)
    requires Conserves(mapping, p)
    ensures Filled(p, p, 0)
  {
    hide Balanced;
  }

  lemma {:induction false} UndisturbedPanicsAt<E, I>(
      all: seq<StaleKeyCleaner<E, I>>, traces: seq<Pipeline<E, I>>, r: Round<E>, i: nat)
    requires Sound(all, traces) && i < |all| && Undisturbed(r) && NoPanicBefore(all, traces, r, i)
    ensures PanicsAt(all, traces, r, i) <==> r.closedFirst(i) && WouldWait(traces[i], Count(all, all[i], i))
  {
    hide Conserves, Filled, Listened, MustWait, WouldWait, AfterTelling;
    UndisturbedFills(all, traces, r, i);
    var now := AfterTelling(all, traces, r, i);
    FillsUp(all[i].idMapping, traces[i], now[i], r.event, Count(all, all[i], i), r.closedFirst(i));
  }

  lemma {:induction false} FirstPanic<E, I>(
      all: seq<StaleKeyCleaner<E, I>>, traces: seq<Pipeline<E, I>>, r: Round<E>, n: nat) returns (i: nat)
    requires n <= |all| == |traces| && !NoPanicBefore(all, traces, r, n)
    ensures i < n && PanicsAt(all, traces, r, i) && NoPanicBefore(all, traces, r, i)
  {
    hide PanicsAt;
    i := 0;
    while !PanicsAt(all, traces, r, i)
      invariant i < n && NoPanicBefore(all, traces, r, i) && !NoPanicBefore(all, traces, r, n)
      decreases n - i
    {
      i := i + 1;
    }
  }

  /**
    If nothing else happens at the listeners meanwhile, whether the publisher panics can be told
    before the call: exactly if some listener is open, the events of its earlier registrations
    fill its channel, and it is closed first.
   */
  lemma {:induction false} UndisturbedPanicExact<E, I>(
      all: seq<StaleKeyCleaner<E, I>>, traces: seq<Pipeline<E, I>>, r: Round<E>)
    requires Sound(all, traces) && Undisturbed(r)
    ensures !NoPanicBefore(all, traces, r, |all|) <==>
            exists i: nat :: i < |all| && r.closedFirst(i) && WouldWait(traces[i], Count(all, all[i], i))
  {
    hide Conserves, PanicsAt, WouldWait;
    if NoPanicBefore(all, traces, r, |all|) {
      forall i: nat | i < |all| ensures !(r.closedFirst(i) && WouldWait(traces[i], Count(all, all[i], i))) {
        UndisturbedPanicsAt(all, traces, r, i);
      }
    } else {
      var i := FirstPanic(all, traces, r, |all|);
      UndisturbedPanicsAt(all, traces, r, i);
    }
  }

  // ---------------------------------------------------------- the failing case

  /** Sends these events to an idle listener, none of which has to wait. */
  method FillQueue<E, I>(l: StaleKeyCleaner<E, I>, events: seq<E>)
    requires l.Valid() && l.Trace() == Empty() && |events| <= CHANNEL_CAPACITY
    modifies l
    ensures l.Valid() && l.Trace() == After(l.idMapping, Sends(events))
  {
    hide Balanced, Sized;
    assert events[..0] == [];
    for i := 0 to |events|
      invariant l.Valid() && l.Trace() == After(l.idMapping, Sends(events[..i]))
    {
      assert events[..i + 1][..i] == events[..i];
      SendsQueue(l.idMapping, events[..i]);
      RunOneMore(l.idMapping, Sends(events[..i]), Send(events[i]));
      var _ := l.Listen(events[i], false);
    }
    assert events[..|events|] == events;
  }

  /**
    Two listeners, the first with a full channel that is closed while the publisher waits. The
    publisher panics, and nothing has happened to the second listener.
   */
  method FullListenerSilencesNext<E, I>(mapping: E -> I, events: seq<E>, event: E)
    returns (first: StaleKeyCleaner<E, I>, second: StaleKeyCleaner<E, I>, panics: bool)
    requires |events| == CHANNEL_CAPACITY
    ensures panics
    ensures first.accepted == events && first.refused == [event]
    ensures second.Trace() == Empty()
  {
    hide Conserves, After, Sends;
    first := new StaleKeyCleaner(mapping);
    second := new StaleKeyCleaner(mapping);
    FillQueue(first, events);
    SendsQueue(mapping, events);
    panics := PublishToFull(first, second, event);
  }

  method PublishToFull<E, I>(
      first: StaleKeyCleaner<E, I>, second: StaleKeyCleaner<E, I>, event: E)
    returns (panics: bool)
    requires first != second && first.Valid() && second.Valid() && MustWait(first.Trace())
    modifies first, second
    ensures panics
    ensures first.accepted == old(first.accepted) && first.refused == old(first.refused) + [event]
    ensures second.Trace() == old(second.Trace())
  {
    hide Conserves, AfterTelling, PanicsAt;
    var repo := new RepoBase();
    repo.AddListener(first);
    repo.AddListener(second);
    var r := Round(event, i => true, i => []);
    ghost var all, before := [first, second], [first.Trace(), second.Trace()];
    assert repo.daoEventListeners == all && Traces(all) == before;
    FirstLosesSecondIdles(first, second, before, r);
    var told;
    told, panics := repo.Publish(r);
    assert told == 1;
    assert first.Trace() == Traces(all)[0] && second.Trace() == Traces(all)[1];
  }

  lemma FirstLosesSecondIdles<E, I>(
      first: StaleKeyCleaner<E, I>, second: StaleKeyCleaner<E, I>, before: seq<Pipeline<E, I>>, r: Round<E>)
    requires first != second && |before| == 2 && MustWait(before[0]) && r.closedFirst(0) && r.meanwhile(0) == []
    ensures PanicsAt([first, second], before, r, 0)
    ensures var now := AfterTelling([first, second], before, r, 1);
            && now[0].accepted == before[0].accepted && now[0].refused == before[0].refused + [r.event]
            && now[1] == before[1]
  {
    var all := [first, second];
    NobodyTold(all, before, r);
    TurnIs(all, before, r, 0);
  }
}
