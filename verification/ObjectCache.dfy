/**
  `ObjectCacheProxy` on values: what a read answers and what it schedules to be saved, runs of
  reads and saves over an unchanged source, and exactly when caching can not be noticed.
 */
module ObjectCaches {
  import opened Wrappers

  /** What the data source answers for one id. */
  datatype Row<A> = Failed | Missing | Object(value: A)

  /** The caller's target after a read; `Spoilt` is what a failed decode leaves of it. */
  datatype Target<T> = Untouched | Written(value: T) | Spoilt

  datatype Answer<T> = Answer(found: bool, err: bool, target: Target<T>)

  const NOT_EXISTS_STRING := ""

  /** The answer of a read that asks the source. */
  function FromSource<A, T>(encode: Encoder<A>, decode: Decoder<T>, row: Row<A>): Answer<T> {
    match row
    case Failed => Answer(false, true, Untouched)
    case Missing => Answer(false, false, Untouched)
    case Object(value) =>
      if encode(value).None? then Answer(false, true, Untouched)
      else match decode(encode(value).value)
        case Some(v) => Answer(true, false, Written(v))
        case None => Answer(false, true, Spoilt)
  }

  /** The answer of a read that finds this text in Redis. */
  function FromRedis<T>(decode: Decoder<T>, text: string): Answer<T> {
    if text == NOT_EXISTS_STRING then Answer(false, false, Untouched)
    else match decode(text)
      case Some(v) => Answer(true, false, Written(v))
      case None => Answer(true, true, Spoilt)
  }

  /** The answer to a text found in Redis: the empty text says that there is no object. */
  predicate AnswersText<T(==)>(decode: Decoder<T>, text: string, a: Answer<T>) {
    && (a.found <==> text != "")
    && (a.err <==> text != "" && decode(text).None?)
    && (a.target.Untouched? <==> text == "")
    && (text != "" && decode(text).Some? ==> a.target == Written(decode(text).value))
  }

  /** The text that the source's object encodes to, if it answers with one that does. */
  predicate Encodes<A>(encode: Encoder<A>, row: Row<A>, text: string) {
    row.Object? && encode(row.value) == Some(text)
  }

  /**
    The answer of the source: an error if it fails, if its object does not encode, or if the
    object's text does not decode; found only without an error.
   */
  ghost predicate AnswersRow<A, T>(encode: Encoder<A>, decode: Decoder<T>, row: Row<A>, a: Answer<T>) {
    && (a.found <==> exists text :: Encodes(encode, row, text) && decode(text).Some?)
    && (a.err <==> !row.Missing? && !a.found)
    && (a.target.Spoilt? <==> exists text :: Encodes(encode, row, text) && decode(text).None?)
    && (forall text :: Encodes(encode, row, text) && decode(text).Some? ==> a.target == Written(decode(text).value))
    && (a.target.Written? ==> a.found)
  }

  predicate IsHit(cached: Option<string>, net: Network) {
    net.Fine? && cached.Some?
  }

  function GetAnswer<A, T>(
      encode: Encoder<A>, decode: Decoder<T>, cached: Option<string>, row: Row<A>, net: Network): Answer<T> {
    if IsHit(cached, net) then FromRedis(decode, cached.value) else FromSource(encode, decode, row)
  }

  /** The text that stands for a row in Redis, if any does. */
  function StoredText<A>(encode: Encoder<A>, row: Row<A>): Option<string> {
    match row
    case Failed => None
    case Missing => Some(NOT_EXISTS_STRING)
    case Object(value) => encode(value)
  }

  /** What a read schedules to be saved. */
  function Scheduled<A>(encode: Encoder<A>, cached: Option<string>, row: Row<A>, net: Network): Option<string> {
    if IsHit(cached, net) then None else StoredText(encode, row)
  }

  /** A read answers what Redis holds if it replies with a text, and what the source says otherwise. */
  lemma AnswerExact<A, T>(
      encode: Encoder<A>, decode: Decoder<T>, cached: Option<string>, row: Row<A>, net: Network)
    ensures var a := GetAnswer(encode, decode, cached, row, net);
            if net.Fine? && cached.Some? then AnswersText(decode, cached.value, a)
            else AnswersRow(encode, decode, row, a)
  {
    assert forall text :: Encodes(encode, row, text) ==> encode(row.value).value == text;
    assert row.Object? && encode(row.value).Some? ==> Encodes(encode, row, encode(row.value).value);
  }

  /** A save is scheduled by exactly the reads that Redis does not answer: of the object's text, or of its absence. */
  lemma ScheduledExact<A>(encode: Encoder<A>, cached: Option<string>, row: Row<A>, net: Network, text: string)
    ensures Scheduled(encode, cached, row, net) == Some(text) <==>
            !(net.Fine? && cached.Some?) && (Encodes(encode, row, text) || (row.Missing? && text == ""))
  {
  }

  // ---------------------------------------------------------- one cached row

  /** The row's text is not mistaken for "does not exist", and decodes. */
  predicate Readable<A, T>(encode: Encoder<A>, decode: Decoder<T>, row: Row<A>) {
    row.Object? && encode(row.value).Some? ==>
      encode(row.value).value != NOT_EXISTS_STRING && decode(encode(row.value).value).Some?
  }

  /** A cached row answers like the source exactly when its text is readable. */
  lemma HitAgreesExactly<A, T>(encode: Encoder<A>, decode: Decoder<T>, row: Row<A>, text: string)
    requires StoredText(encode, row) == Some(text)
    ensures FromRedis(decode, text) == FromSource(encode, decode, row) <==> Readable(encode, decode, row)
  {
  }

  // ------------------------------------------------------------------- store

  /** The strings in Redis, and the keys among them that have a time to live. */
  datatype Store = Store(values: map<string, string>, expiring: set<string>)

  function At(s: Store, key: string): Option<string> {
    if key in s.values then Some(s.values[key]) else None
  }

  /** SET with a time to live; without one the key stays until it is deleted. */
  function Saved(s: Store, key: string, text: string, ttl: int): Store {
    Store(s.values[key := text], if ttl > 0 then s.expiring + {key} else s.expiring - {key})
  }

  function Dropped(s: Store, key: string): Store {
    Store(s.values - {key}, s.expiring - {key})
  }

  // -------------------------------------------------------------------- runs

  datatype Save<I> = Save(id: I, text: string)

  /** A proxy's settings, and the row its source holds for each id. */
  datatype Setting<!I, !A> = Setting(assembleKey: I -> string, encode: Encoder<A>, ttl: int, row: I -> Row<A>)

  datatype World<I(==)> = World(store: Store, pending: multiset<Save<I>>)

  /** `sourceUp` tells whether the source answers if asked. A save that fails is dropped. */
  datatype Action<I> =
    | Get(id: I, net: Network, sourceUp: bool)
    | Land(save: Save<I>, net: Network)
    | Remove(id: I)

  function AskedRow<I, A>(c: Setting<I, A>, id: I, sourceUp: bool): Row<A> {
    if sourceUp then c.row(id) else Failed
  }

  /** The world after a read, which only schedules. */
  function Got<I(==), A>(c: Setting<I, A>, w: World<I>, id: I, net: Network, sourceUp: bool): World<I> {
    match Scheduled(c.encode, At(w.store, c.assembleKey(id)), AskedRow(c, id, sourceUp), net)
    case Some(text) => w.(pending := w.pending + multiset{Save(id, text)})
    case None => w
  }

  function Next<I(==), A>(c: Setting<I, A>, w: World<I>, a: Action<I>): World<I> {
    match a
    case Get(id, net, sourceUp) => Got(c, w, id, net, sourceUp)
    case Land(save, net) =>
      if save !in w.pending then w
      else World(if net.RequestLost? then w.store else Saved(w.store, c.assembleKey(save.id), save.text, c.ttl),
                 w.pending - multiset{save})
    case Remove(id) => w.(store := Dropped(w.store, c.assembleKey(id)))
  }

  function After<I(==), A>(c: Setting<I, A>, run: seq<Action<I>>): World<I> {
    if run == [] then World(Store(map[], {}), multiset{})
    else Next(c, After(c, run[..|run| - 1]), run[|run| - 1])
  }

  ghost predicate Injective<I(!new), A>(c: Setting<I, A>) {
    forall a, b :: c.assembleKey(a) == c.assembleKey(b) ==> a == b
  }

  /** What the key of this id holds is the text of its row. */
  ghost predicate KeyCoherent<I, A>(c: Setting<I, A>, w: World<I>, id: I) {
    var cached := At(w.store, c.assembleKey(id));
    cached.Some? ==> cached == StoredText(c.encode, c.row(id))
  }

  /** So is everything on its way to Redis. */
  ghost predicate PendingCoherent<I, A>(c: Setting<I, A>, w: World<I>) {
    forall save :: save in w.pending ==> Some(save.text) == StoredText(c.encode, c.row(save.id))
  }

  lemma StepKeepsPending<I, A>(c: Setting<I, A>, w: World<I>, a: Action<I>)
    requires PendingCoherent(c, w)
    ensures PendingCoherent(c, Next(c, w, a))
  {
  }

  lemma StepKeepsKey<I(!new), A>(c: Setting<I, A>, w: World<I>, a: Action<I>, id: I)
    requires Injective(c) && KeyCoherent(c, w, id) && PendingCoherent(c, w)
    ensures KeyCoherent(c, Next(c, w, a), id)
  {
    match a
    case Get(_, _, _) =>
    case Land(save, _) =>
      assert save.id != id ==> c.assembleKey(save.id) != c.assembleKey(id);
    case Remove(other) =>
      assert other != id ==> c.assembleKey(other) != c.assembleKey(id);
  }

  lemma {:induction false} RunsStayCoherent<I(!new), A>(c: Setting<I, A>, run: seq<Action<I>>, id: I)
    requires Injective(c)
    ensures KeyCoherent(c, After(c, run), id) && PendingCoherent(c, After(c, run))
  {
    hide Next, KeyCoherent, PendingCoherent;
    if run == [] {
      NothingCached(c, id);
    } else {
      var w, a := After(c, run[..|run| - 1]), run[|run| - 1];
      RunsStayCoherent(c, run[..|run| - 1], id);
      StepKeepsKey(c, w, a, id);
      StepKeepsPending(c, w, a);
    }
  }

  lemma NothingCached<I, A>(c: Setting<I, A>, id: I)
    ensures KeyCoherent(c, After(c, []), id) && PendingCoherent(c, After(c, []))
  {
  }

  /**
    After every run of reads, saves landing late or never, deletes and expiries over an
    unchanged source: a read answers what the source answers when asked directly, on a hit, a
    cached absence, a miss or a Redis error.
   */
  lemma {:induction false} GetsAreTransparent<I(!new), A, T>(
      c: Setting<I, A>, decode: Decoder<T>, run: seq<Action<I>>, id: I, net: Network)
    requires Injective(c) && Readable(c.encode, decode, c.row(id))
    ensures GetAnswer(c.encode, decode, At(After(c, run).store, c.assembleKey(id)), c.row(id), net) ==
            FromSource(c.encode, decode, c.row(id))
  {
    RunsStayCoherent(c, run, id);
    var cached := At(After(c, run).store, c.assembleKey(id));
    if IsHit(cached, net) {
      HitAgreesExactly(c.encode, decode, c.row(id), cached.value);
    }
  }

  /**
    Conversely, a row that is not readable is answered differently once it has been read and
    saved: an error the second time claims the object was found.
   */
  lemma {:induction false} UnreadableRowIsNoticed<I(!new), A, T>(
      c: Setting<I, A>, decode: Decoder<T>, id: I)
    returns (run: seq<Action<I>>)
    requires !Readable(c.encode, decode, c.row(id))
    ensures GetAnswer(c.encode, decode, At(After(c, run).store, c.assembleKey(id)), c.row(id), Fine) !=
            FromSource(c.encode, decode, c.row(id))
  {
    var text := StoredText(c.encode, c.row(id)).value;
    run := [Get(id, Fine, true), Land(Save(id, text), Fine)];
    assert At(After(c, run).store, c.assembleKey(id)) == Some(text) by {
      ReadAndSaved(c, id, text);
    }
    HitAgreesExactly(c.encode, decode, c.row(id), text);
  }

  /** The first read of a row, once its save has landed, leaves the row's text in Redis. */
  lemma ReadAndSaved<I(!new), A>(c: Setting<I, A>, id: I, text: string)
    requires StoredText(c.encode, c.row(id)) == Some(text)
    ensures At(After(c, [Get(id, Fine, true), Land(Save(id, text), Fine)]).store, c.assembleKey(id)) == Some(text)
  {
    var read, land := Get(id, Fine, true), Land(Save(id, text), Fine);
    assert After(c, [read]).pending == multiset{Save(id, text)} by {
      assert [read][..0] == [];
      assert After(c, [read]) == Next(c, After(c, []), read);
    }
    assert [read, land][..1] == [read];
    assert After(c, [read, land]) == Next(c, After(c, [read]), land);
  }

  /** So caching this id can never be noticed exactly when its row is readable. */
  lemma {:induction false} TransparencyExact<I(!new), A, T>(c: Setting<I, A>, decode: Decoder<T>, id: I)
    requires Injective(c)
    ensures (forall run, net ::
               GetAnswer(c.encode, decode, At(After(c, run).store, c.assembleKey(id)), c.row(id), net) ==
               FromSource(c.encode, decode, c.row(id)))
            <==> Readable(c.encode, decode, c.row(id))
  {
    if Readable(c.encode, decode, c.row(id)) {
      forall run, net
        ensures GetAnswer(c.encode, decode, At(After(c, run).store, c.assembleKey(id)), c.row(id), net) ==
                FromSource(c.encode, decode, c.row(id))
      {
        GetsAreTransparent(c, decode, run, id, net);
      }
    } else {
      var run := UnreadableRowIsNoticed(c, decode, id);
    }
  }

  // ------------------------------------------------------- what a run leaves

  /** This step is a save of this id that Redis executes. */
  predicate Stores<I(==)>(w: World<I>, a: Action<I>, id: I) {
    a.Land? && a.save.id == id && a.save in w.pending && !a.net.RequestLost?
  }

  /** The text of the last save of this id that Redis executed, unless the key was removed since. */
  function LastStored<I(==), A>(c: Setting<I, A>, run: seq<Action<I>>, id: I): Option<string> {
    if run == [] then None else
      var front, a := run[..|run| - 1], run[|run| - 1];
      if Stores(After(c, front), a, id) then Some(a.save.text)
      else if a == Remove(id) then None
      else LastStored(c, front, id)
  }

  /** Over every run a key holds exactly the text that was saved last, and nothing after its removal. */
  lemma {:induction false} KeyHoldsLastStored<I(!new), A>(c: Setting<I, A>, run: seq<Action<I>>, id: I)
    requires Injective(c)
    ensures At(After(c, run).store, c.assembleKey(id)) == LastStored(c, run, id)
  {
    hide Got;
    if run == [] {
    } else {
      var front, a := run[..|run| - 1], run[|run| - 1];
      KeyHoldsLastStored(c, front, id);
      match a
      case Get(_, _, _) => GotKeepsStore(c, After(c, front), a.id, a.net, a.sourceUp);
      case Land(save, _) => assert save.id != id ==> c.assembleKey(save.id) != c.assembleKey(id);
      case Remove(other) => assert other != id ==> c.assembleKey(other) != c.assembleKey(id);
    }
  }

  lemma GotKeepsStore<I, A>(c: Setting<I, A>, w: World<I>, id: I, net: Network, sourceUp: bool)
    ensures Got(c, w, id, net, sourceUp).store == w.store
  {
  }

  /** This step is a read that finds nothing in Redis and gets a row of this text from the source. */
  predicate Starts<I(==), A>(c: Setting<I, A>, w: World<I>, a: Action<I>, save: Save<I>) {
    && a.Get? && a.id == save.id && a.sourceUp && !(a.net.Fine? && c.assembleKey(a.id) in w.store.values)
    && (Encodes(c.encode, c.row(a.id), save.text) || (c.row(a.id).Missing? && save.text == ""))
  }

  /** How many reads have started this save, and how often it has got its turn. */
  function Started<I(==), A>(c: Setting<I, A>, run: seq<Action<I>>, save: Save<I>): nat {
    if run == [] then 0 else
      var front := run[..|run| - 1];
      Started(c, front, save) + if Starts(c, After(c, front), run[|run| - 1], save) then 1 else 0
  }

  function Landed<I(==), A>(c: Setting<I, A>, run: seq<Action<I>>, save: Save<I>): nat {
    if run == [] then 0 else
      var front, a := run[..|run| - 1], run[|run| - 1];
      Landed(c, front, save) + if a.Land? && a.save == save && save in After(c, front).pending then 1 else 0
  }

  /** Over every run: each read that has to ask starts one save, and each save lands once or is still on its way. */
  lemma {:induction false} SavesBalance<I(!new), A>(c: Setting<I, A>, run: seq<Action<I>>, save: Save<I>)
    ensures After(c, run).pending[save] + Landed(c, run, save) == Started(c, run, save)
  {
    if run == [] {
    } else {
      var front, a := run[..|run| - 1], run[|run| - 1];
      SavesBalance(c, front, save);
      if a.Get? {
        GotStarts(c, After(c, front), a, save);
      }
    }
  }

  lemma GotStarts<I, A>(c: Setting<I, A>, w: World<I>, a: Action<I>, save: Save<I>)
    requires a.Get?
    ensures Got(c, w, a.id, a.net, a.sourceUp).pending[save] == w.pending[save] + if Starts(c, w, a, save) then 1 else 0
  {
    ScheduledExact(c.encode, At(w.store, c.assembleKey(a.id)), AskedRow(c, a.id, a.sourceUp), a.net, save.text);
  }

  ghost predicate AllTimed<I, A>(c: Setting<I, A>, s: Store) {
    s.expiring == if c.ttl > 0 then s.values.Keys else {}
  }

  lemma StepKeepsTimed<I, A>(c: Setting<I, A>, w: World<I>, a: Action<I>)
    requires AllTimed(c, w.store)
    ensures AllTimed(c, Next(c, w, a).store)
  {
  }

  /**
    Over every run, whatever fails: SET carries the time to live, so all keys have one if the
    setting is positive, and none has one otherwise.
   */
  lemma {:induction false} TimeToLiveFollowsSetting<I, A>(c: Setting<I, A>, run: seq<Action<I>>)
    ensures AllTimed(c, After(c, run).store)
  {
    hide Next;
    if run == [] {
    } else {
      TimeToLiveFollowsSetting(c, run[..|run| - 1]);
      StepKeepsTimed(c, After(c, run[..|run| - 1]), run[|run| - 1]);
    }
  }
}
