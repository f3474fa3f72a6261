/**
  The path of a mutation event to the deletes it causes: the listener's channel, the
  cleaner's current batch and the batches handed to `delKeys`. Both cache proxies have it.
 */
module StaleKeys {

  const BATCH_LIMIT := 100
  const CHANNEL_CAPACITY := 1000

  /**
    E are events, I the ids they map to. `accepted`, `refused` and `issued` are histories:
    the events sent to the channel; those that came after it was closed, or whose sender was
    still waiting for room when it was closed; and the batches `delKeys` was called with.
   */
  datatype Pipeline<E, I> = Pipeline(
    accepted: seq<E>, refused: seq<E>, channel: seq<E>,
    batch: seq<I>, issued: seq<seq<I>>, closed: bool, finished: bool)

  datatype Action<E> = Send(event: E) | Receive | Tick | Close | Finish

  function Empty<E, I>(): Pipeline<E, I> {
    Pipeline([], [], [], [], [], false, false)
  }

  function Flush<E, I>(p: Pipeline<E, I>): Pipeline<E, I> {
    if |p.batch| > 0 then p.(batch := [], issued := p.issued + [p.batch]) else p
  }

  predicate Enabled<E, I>(p: Pipeline<E, I>, a: Action<E>) {
    match a
    case Send(_) => p.closed || |p.channel| < CHANNEL_CAPACITY
    case Receive => !p.finished && p.channel != []
    case Tick => !p.finished
    case Close => !p.closed
    case Finish => p.closed && !p.finished && p.channel == []
  }

  /** One atomic step; a step that is not possible changes nothing. */
  function Next<E, I>(mapping: E -> I, p: Pipeline<E, I>, a: Action<E>): Pipeline<E, I> {
    if !Enabled(p, a) then p else
      match a
      case Send(e) =>
        if p.closed then p.(refused := p.refused + [e])
        else p.(accepted := p.accepted + [e], channel := p.channel + [e])
      case Receive =>
        var q := p.(channel := p.channel[1..], batch := p.batch + [mapping(p.channel[0])]);
        if |q.batch| >= BATCH_LIMIT then Flush(q) else q
      case Tick => Flush(p)
      case Close => p.(closed := true)
      case Finish => Flush(p).(finished := true)
  }

  function After<E, I>(mapping: E -> I, run: seq<Action<E>>): Pipeline<E, I> {
    if run == [] then Empty() else Next(mapping, After(mapping, run[..|run| - 1]), run[|run| - 1])
  }

  // ----------------------------------------------------------- conservation

  function Ids<E, I>(mapping: E -> I, events: seq<E>): (ids: seq<I>)
    ensures |ids| == |events| && forall i :: 0 <= i < |ids| ==> ids[i] == mapping(events[i])
  {
    seq(|events|, i requires 0 <= i < |events| => mapping(events[i]))
  }

  function Concat<I>(batches: seq<seq<I>>): seq<I> {
    if batches == [] then [] else Concat(batches[..|batches| - 1]) + batches[|batches| - 1]
  }

  /** No id is lost, duplicated or reordered between the channel and `delKeys`. */
  ghost predicate Balanced<E, I>(mapping: E -> I, p: Pipeline<E, I>) {
    Concat(p.issued) + p.batch + Ids(mapping, p.channel) == Ids(mapping, p.accepted)
  }

  /** No issued batch is empty or too large, and a finished cleaner has nothing left. */
  ghost predicate Sized<E, I>(p: Pipeline<E, I>) {
    && (forall b :: b in p.issued ==> 1 <= |b| <= BATCH_LIMIT)
    && |p.batch| < BATCH_LIMIT
    && |p.channel| <= CHANNEL_CAPACITY
    && (p.refused != [] ==> p.closed)
    && (p.finished ==> p.closed && p.channel == [] && p.batch == [])
  }

  ghost predicate Conserves<E, I>(mapping: E -> I, p: Pipeline<E, I>) {
    Balanced(mapping, p) && Sized(p)
  }

  lemma FlushBalanced<E, I>(mapping: E -> I, p: Pipeline<E, I>)
    requires Balanced(mapping, p)
    ensures Balanced(mapping, Flush(p))
  {
    if |p.batch| > 0 {
      var issued := p.issued + [p.batch];
      assert issued[..|issued| - 1] == p.issued;
      assert Concat(issued) + [] == Concat(p.issued) + p.batch;
    }
  }

  lemma SendBalanced<E, I>(mapping: E -> I, p: Pipeline<E, I>, e: E)
    requires Balanced(mapping, p)
    ensures Balanced(mapping, p.(accepted := p.accepted + [e], channel := p.channel + [e]))
  {
    assert Ids(mapping, p.channel + [e]) == Ids(mapping, p.channel) + [mapping(e)];
    assert Ids(mapping, p.accepted + [e]) == Ids(mapping, p.accepted) + [mapping(e)];
    var front, back := Concat(p.issued) + p.batch, Ids(mapping, p.channel);
    assert front + (back + [mapping(e)]) == (front + back) + [mapping(e)];
  }

  lemma TakeBalanced<E, I>(mapping: E -> I, p: Pipeline<E, I>)
    requires Balanced(mapping, p) && p.channel != []
    ensures Balanced(mapping, p.(channel := p.channel[1..], batch := p.batch + [mapping(p.channel[0])]))
  {
    hide Concat;
    var id, rest := mapping(p.channel[0]), Ids(mapping, p.channel[1..]);
    assert Ids(mapping, p.channel) == [id] + rest;
    MoveOne(Concat(p.issued), p.batch, id, rest);
  }

  lemma MoveOne<I>(front: seq<I>, batch: seq<I>, id: I, rest: seq<I>)
    ensures front + batch + ([id] + rest) == front + (batch + [id]) + rest
  {
  }

  lemma StepBalanced<E, I>(mapping: E -> I, p: Pipeline<E, I>, a: Action<E>)
    requires Balanced(mapping, p)
    ensures Balanced(mapping, Next(mapping, p, a))
  {
    if Enabled(p, a) {
      match a
      case Send(e) => SendBalanced(mapping, p, e);
      case Receive =>
        TakeBalanced(mapping, p);
        FlushBalanced(mapping, p.(channel := p.channel[1..], batch := p.batch + [mapping(p.channel[0])]));
      case Tick => FlushBalanced(mapping, p);
      case Close =>
      case Finish => FlushBalanced(mapping, p);
    }
  }

  lemma StepConserves<E, I>(mapping: E -> I, p: Pipeline<E, I>, a: Action<E>)
    requires Conserves(mapping, p)
    ensures Conserves(mapping, Next(mapping, p, a))
  {
    StepBalanced(mapping, p, a);
  }

  /** Over every interleaving of sends, receives, ticks, close and finish, ids are conserved. */
  lemma {:induction false} InvalidationConserves<E, I>(mapping: E -> I, run: seq<Action<E>>)
    ensures Conserves(mapping, After(mapping, run))
  {
    if run == [] {
    } else {
      InvalidationConserves(mapping, run[..|run| - 1]);
      StepConserves(mapping, After(mapping, run[..|run| - 1]), run[|run| - 1]);
    }
  }

  /** When the cleaner signals that it is closed, every accepted event has been handed to `delKeys`, in order. */
  lemma NothingLeft<E, I>(mapping: E -> I, p: Pipeline<E, I>)
    requires Conserves(mapping, p) && p.finished
    ensures Concat(p.issued) == Ids(mapping, p.accepted)
  {
    assert Concat(p.issued) + p.batch + Ids(mapping, p.channel) == Concat(p.issued);
  }

  lemma OpenIsNotFinished<E, I>(mapping: E -> I, p: Pipeline<E, I>)
    requires Conserves(mapping, p) && !p.closed
    ensures !p.finished && p.refused == []
  {
  }

  /** The histories only grow. */
  lemma HistoryGrows<E, I>(mapping: E -> I, p: Pipeline<E, I>, a: Action<E>)
    ensures p.accepted <= Next(mapping, p, a).accepted
    ensures p.refused <= Next(mapping, p, a).refused
    ensures p.issued <= Next(mapping, p, a).issued
    ensures p.closed ==> Next(mapping, p, a).closed && Next(mapping, p, a).accepted == p.accepted
  {
  }

  // ------------------------------------------------------------ closing down

  /** Turns of the cleaner's loop: in turn i the select chooses the ticker if `ticks[i]`, else the channel. */
  function Turns<E, I>(mapping: E -> I, p: Pipeline<E, I>, ticks: seq<bool>): Pipeline<E, I> {
    if ticks == [] then p
    else Next(mapping, Turns(mapping, p, ticks[..|ticks| - 1]), if ticks[|ticks| - 1] then Tick else Receive)
  }

  /** In how many turns an event is received. */
  function Events(ticks: seq<bool>): nat {
    if ticks == [] then 0
    else Events(ticks[..|ticks| - 1]) + if ticks[|ticks| - 1] then 0 else 1
  }

  /** These turns receive everything in the channel. Ticks may come anywhere, also after the last event. */
  predicate Drains<E, I>(p: Pipeline<E, I>, ticks: seq<bool>) {
    Events(ticks) == |p.channel|
  }

  /** How many ids are in the batch after these turns, if there were b before. */
  function Left(b: nat, ticks: seq<bool>): nat {
    if ticks == [] then b
    else if ticks[|ticks| - 1] || Left(b, ticks[..|ticks| - 1]) + 1 >= BATCH_LIMIT then 0
    else Left(b, ticks[..|ticks| - 1]) + 1
  }

  /** No tick finds ids in the batch. */
  predicate Quiet(b: nat, ticks: seq<bool>) {
    ticks == [] ||
    (Quiet(b, ticks[..|ticks| - 1]) && (ticks[|ticks| - 1] ==> Left(b, ticks[..|ticks| - 1]) == 0))
  }

  /** The ids that have been accepted and not yet handed to `delKeys`. */
  function Outstanding<E, I>(mapping: E -> I, p: Pipeline<E, I>): seq<I> {
    p.batch + Ids(mapping, p.channel)
  }

  /** The batches that p's successor q has handed to background goroutines since p. */
  function Since<E, I>(p: Pipeline<E, I>, q: Pipeline<E, I>): seq<seq<I>>
    requires |p.issued| <= |q.issued|
  {
    q.issued[|p.issued|..]
  }

  lemma {:induction false} TurnsShape<E, I>(mapping: E -> I, p: Pipeline<E, I>, ticks: seq<bool>)
    requires Events(ticks) <= |p.channel| && !p.finished && |p.batch| < BATCH_LIMIT
    ensures var q := Turns(mapping, p, ticks);
            && q.channel == p.channel[Events(ticks)..] && q.closed == p.closed && !q.finished
            && |q.batch| == Left(|p.batch|, ticks) < BATCH_LIMIT && q.accepted == p.accepted
            && p.issued <= q.issued
  {
    if ticks == [] {
    } else {
      TurnsShape(mapping, p, ticks[..|ticks| - 1]);
      var q := Turns(mapping, p, ticks[..|ticks| - 1]);
      if !ticks[|ticks| - 1] {
        assert q.channel[1..] == p.channel[Events(ticks)..];
      }
    }
  }

  lemma {:induction false} TurnsGrow<E, I>(mapping: E -> I, p: Pipeline<E, I>, ticks: seq<bool>)
    ensures p.issued <= Turns(mapping, p, ticks).issued
  {
    if ticks == [] {
    } else {
      TurnsGrow(mapping, p, ticks[..|ticks| - 1]);
    }
  }

  lemma {:induction false} TurnsConserve<E, I>(mapping: E -> I, p: Pipeline<E, I>, ticks: seq<bool>)
    requires Conserves(mapping, p)
    ensures Conserves(mapping, Turns(mapping, p, ticks))
  {
    hide Balanced, Sized;
    if ticks == [] {
    } else {
      TurnsConserve(mapping, p, ticks[..|ticks| - 1]);
      var q := Turns(mapping, p, ticks[..|ticks| - 1]);
      StepConserves(mapping, q, if ticks[|ticks| - 1] then Tick else Receive);
    }
  }

  lemma {:induction false} ConcatSplit<I>(batches: seq<seq<I>>, k: nat)
    requires k <= |batches|
    ensures Concat(batches) == Concat(batches[..k]) + Concat(batches[k..])
  {
    var n := |batches| - 1;
    if k == |batches| {
      assert batches[..k] == batches && Concat(batches[k..]) == [];
    } else {
      ConcatSplit(batches[..n], k);
      assert batches[..n][..k] == batches[..k] && batches[..n][k..] == batches[k..n];
      assert batches[k..][..n - k] == batches[k..n] && batches[k..][n - k] == batches[n];
    }
  }

  /**
    Whatever turns the select chooses while a closed channel is emptied: the last, synchronous
    batch is the suffix of the outstanding ids since the last flush, and everything before it
    has gone to background goroutines.
   */
  lemma {:induction false} FinalBatch<E, I>(
      mapping: E -> I, p: Pipeline<E, I>, ticks: seq<bool>)
    returns (q: Pipeline<E, I>)
    requires Conserves(mapping, p) && p.closed && !p.finished && Drains(p, ticks)
    ensures q == Turns(mapping, p, ticks) && Enabled(q, Finish) && q.accepted == p.accepted
    ensures |q.batch| == Left(|p.batch|, ticks) && p.issued <= q.issued
    ensures Concat(Since(p, q)) + q.batch == Outstanding(mapping, p)
  {
    hide Turns, Balanced, Concat, Ids, Left;
    q := Turns(mapping, p, ticks);
    TurnsShape(mapping, p, ticks);
    TurnsConserve(mapping, p, ticks);
    IssuedSince(mapping, p, q);
  }

  lemma {:induction false} IssuedSince<E, I>(mapping: E -> I, p: Pipeline<E, I>, q: Pipeline<E, I>)
    requires Balanced(mapping, p) && Balanced(mapping, q)
    requires q.accepted == p.accepted && q.channel == [] && p.issued <= q.issued
    ensures Concat(Since(p, q)) + q.batch == Outstanding(mapping, p)
  {
    hide Concat;
    ConcatSplit(q.issued, |p.issued|);
    assert q.issued[..|p.issued|] == p.issued;
    var front, since := Concat(p.issued), Concat(Since(p, q));
    assert (front + since) + q.batch + [] == front + (since + q.batch);
    assert front + p.batch + Ids(mapping, p.channel) == front + (p.batch + Ids(mapping, p.channel));
    SamePrefix(front, since + q.batch, Outstanding(mapping, p));
  }

  lemma SamePrefix<I>(front: seq<I>, a: seq<I>, b: seq<I>)
    requires front + a == front + b
    ensures a == b
  {
    assert (front + a)[|front|..] == a;
    assert (front + b)[|front|..] == b;
  }

  lemma NextRemainder(n: nat)
    requires n > 0
    ensures n % BATCH_LIMIT == if (n - 1) % BATCH_LIMIT + 1 >= BATCH_LIMIT then 0 else (n - 1) % BATCH_LIMIT + 1
  {
  }

  /** Without a tick the last batch has (batch + channel) mod 100 ids. */
  lemma {:induction false} LeftWithoutTicks(b: nat, ticks: seq<bool>)
    requires b < BATCH_LIMIT && true !in ticks
    ensures Events(ticks) == |ticks| && Left(b, ticks) == (b + |ticks|) % BATCH_LIMIT && Quiet(b, ticks)
  {
    if ticks == [] {
    } else {
      assert ticks[|ticks| - 1] in ticks;
      LeftWithoutTicks(b, ticks[..|ticks| - 1]);
      NextRemainder(b + |ticks|);
    }
  }

  /** Nothing goes to the background exactly when no tick finds ids and fewer than 100 ids are outstanding. */
  lemma {:induction false} NothingIssuedExact<E, I>(mapping: E -> I, p: Pipeline<E, I>, ticks: seq<bool>)
    requires Events(ticks) <= |p.channel| && !p.finished && |p.batch| < BATCH_LIMIT
    ensures var quiet := Quiet(|p.batch|, ticks) && |p.batch| + Events(ticks) < BATCH_LIMIT;
            && (quiet ==> Turns(mapping, p, ticks).issued == p.issued)
            && (quiet ==> Left(|p.batch|, ticks) == |p.batch| + Events(ticks))
            && (!quiet ==> |Turns(mapping, p, ticks).issued| > |p.issued|)
  {
    if ticks == [] {
    } else {
      NothingIssuedExact(mapping, p, ticks[..|ticks| - 1]);
      TurnsShape(mapping, p, ticks[..|ticks| - 1]);
    }
  }

  /**
    Exactly when the synchronous delete covers every id that was outstanding at the close: no
    tick finds ids in the batch, and fewer than 100 ids were outstanding.
   */
  lemma {:induction false} FinalBatchIsAllExact<E, I>(mapping: E -> I, p: Pipeline<E, I>, ticks: seq<bool>)
    requires Conserves(mapping, p) && p.closed && !p.finished && Drains(p, ticks)
    ensures Turns(mapping, p, ticks).batch == Outstanding(mapping, p) <==>
            Quiet(|p.batch|, ticks) && |p.batch| + |p.channel| < BATCH_LIMIT
  {
    hide Outstanding, Balanced;
    var q := FinalBatch(mapping, p, ticks);
    NothingIssuedExact(mapping, p, ticks);
    if |q.issued| > |p.issued| {
      TurnsConserve(mapping, p, ticks);
      var since := Since(p, q);
      assert since[|since| - 1] == q.issued[|q.issued| - 1] && since[|since| - 1] in q.issued;
    } else {
      assert Since(p, q) == [] && [] + q.batch == q.batch;
    }
  }

  lemma TurnsOneMore<E, I>(mapping: E -> I, p: Pipeline<E, I>, ticks: seq<bool>, tick: bool)
    ensures Turns(mapping, p, ticks + [tick]) == Next(mapping, Turns(mapping, p, ticks), if tick then Tick else Receive)
    ensures Events(ticks + [tick]) == Events(ticks) + if tick then 0 else 1
  {
    assert (ticks + [tick])[..|ticks|] == ticks;
  }

  /** One event, received and then ticked away after the close: nothing is left for the synchronous delete. */
  lemma TickTakesLastBatch<E, I>(mapping: E -> I, e: E)
    ensures var p := After(mapping, Sends([e]) + [Close]);
            && Drains(p, [false, true]) && Outstanding(mapping, p) == [mapping(e)]
            && Turns(mapping, p, [false, true]).batch == [] && Turns(mapping, p, [false, true]).issued == [[mapping(e)]]
  {
    hide After, Sends, Turns, Events;
    ClosedQueue(mapping, [e]);
    OneEventTurn(mapping, Pipeline([e], [], [e], [], [], true, false), e);
    assert [] + Ids(mapping, [e]) == [mapping(e)];
    assert [] + [[mapping(e)]] == [[mapping(e)]];
  }

  lemma OneEventTurn<E, I>(mapping: E -> I, p: Pipeline<E, I>, e: E)
    requires p.channel == [e] && p.batch == [] && !p.finished
    ensures var q := Turns(mapping, p, [false, true]);
            Events([false, true]) == 1 && q.batch == [] && q.issued == p.issued + [[mapping(e)]]
  {
    hide Turns, Events;
    TurnsOneMore(mapping, p, [], false);
    TurnsOneMore(mapping, p, [false], true);
    assert [] + [false] == [false] && [false] + [true] == [false, true];
    NoTurns(mapping, p);
    assert p.batch + [mapping(e)] == [mapping(e)];
  }

  lemma NoTurns<E, I>(mapping: E -> I, p: Pipeline<E, I>)
    ensures Turns(mapping, p, []) == p && Events([]) == 0
  {
  }

  function Sends<E>(events: seq<E>): seq<Action<E>> {
    if events == [] then [] else Sends(events[..|events| - 1]) + [Send(events[|events| - 1])]
  }

  lemma {:induction false} SendsQueue<E, I>(mapping: E -> I, events: seq<E>)
    requires |events| <= CHANNEL_CAPACITY
    ensures After(mapping, Sends(events)) == Pipeline(events, [], events, [], [], false, false)
  {
    if events == [] {
    } else {
      var n := |events| - 1;
      SendsQueue(mapping, events[..n]);
      RunOneMore(mapping, Sends(events[..n]), Send(events[n]));
      assert events[..n] + [events[n]] == events;
    }
  }

  lemma RunOneMore<E, I>(mapping: E -> I, run: seq<Action<E>>, a: Action<E>)
    ensures After(mapping, run + [a]) == Next(mapping, After(mapping, run), a)
  {
    assert (run + [a])[..|run|] == run;
  }

  lemma {:induction false} ClosedQueue<E, I>(mapping: E -> I, events: seq<E>)
    requires |events| <= CHANNEL_CAPACITY
    ensures After(mapping, Sends(events) + [Close]) == Pipeline(events, [], events, [], [], true, false)
  {
    SendsQueue(mapping, events);
    RunOneMore(mapping, Sends(events), Close);
  }

  /** A hundred queued events, no tick: all of them go to the background, none to the synchronous delete. */
  lemma {:induction false} HundredGoUnawaited<E, I>(mapping: E -> I, events: seq<E>, ticks: seq<bool>)
    requires |events| == |ticks| == BATCH_LIMIT && true !in ticks
    ensures var p := After(mapping, Sends(events) + [Close]);
            && Drains(p, ticks) && Outstanding(mapping, p) == Ids(mapping, events)
            && Turns(mapping, p, ticks).batch == []
  {
    hide After, Sends, Turns, Events;
    ClosedQueue(mapping, events);
    LeftWithoutTicks(0, ticks);
    TurnsShape(mapping, Pipeline(events, [], events, [], [], true, false), ticks);
    assert [] + Ids(mapping, events) == Ids(mapping, events);
  }
}
