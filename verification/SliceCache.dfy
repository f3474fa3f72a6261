/**
  `SliceCacheProxy` on values: what a read delivers to its caller, what a reload does to the
  Redis store whichever of its commands fail, and why the two together are transparent.
 */
module SliceCaches {
  import opened Wrappers
  import opened SortedSets
  import opened PageCache

  /** One element as the data source returns it. */
  datatype Row<A> = Row(score: Score, value: A)

  /** What the source answers for one id: None is an error. */
  type Source<A> = RangeInfo -> Option<seq<Row<A>>>

  // -------------------------------------------------------------------- JSON

  /** The text a reload stores for an element; an encoding error is ignored and leaves no text. */
  function Text<A>(encode: Encoder<A>, value: A): string {
    match encode(value)
    case Some(text) => text
    case None => ""
  }

  function EncodeRows<A>(encode: Encoder<A>, rows: seq<Row<A>>): (zs: seq<Z>)
    ensures |zs| == |rows|
    ensures forall i :: 0 <= i < |zs| ==>
              zs[i] == Z(rows[i].score, if encode(rows[i].value).Some? then encode(rows[i].value).value else "")
  {
    seq(|rows|, i requires 0 <= i < |rows| => Z(rows[i].score, Text(encode, rows[i].value)))
  }

  function Members(zs: seq<Z>): (texts: seq<string>)
    ensures |texts| == |zs| && forall i :: 0 <= i < |zs| ==> texts[i] == zs[i].member
  {
    seq(|zs|, i requires 0 <= i < |zs| => zs[i].member)
  }

  /** Values and value separators of an array, section 5 of RFC 8259. */
  function Separated(texts: seq<string>): string
    requires texts != []
  {
    if |texts| == 1 then texts[0] else texts[0] + "," + Separated(texts[1..])
  }

  /** The text of a JSON array with these elements. */
  function ArrayText(texts: seq<string>): string
    requires texts != []
  {
    "[" + Separated(texts) + "]"
  }

  /** Where text k begins: after the bracket, and every text before it with one character behind it. */
  function Position(texts: seq<string>, k: nat): (p: nat)
    requires k <= |texts|
    ensures p >= 1
  {
    if k == 0 then 1 else Position(texts, k - 1) + |texts[k - 1]| + 1
  }

  /** What stands at the place of text k: the text, and a comma, or the closing bracket after the last one. */
  predicate HasTextAt(buffer: string, texts: seq<string>, k: nat)
    requires k < |texts|
  {
    var begin := Position(texts, k);
    var end := begin + |texts[k]|;
    end < |buffer| && buffer[begin..end] == texts[k] && buffer[end] == if k < |texts| - 1 then ',' else ']'
  }

  /** The buffer is an opening bracket and the texts in their order, each at its place; nothing else. */
  predicate IsArrayOf(buffer: string, texts: seq<string>) {
    && |buffer| == Position(texts, |texts|) && buffer[0] == '['
    && forall k :: 0 <= k < |texts| ==> HasTextAt(buffer, texts, k)
  }

  lemma {:induction false} ArrayTextFrom(texts: seq<string>, k: nat)
    requires k < |texts|
    ensures Position(texts, k) < |ArrayText(texts)|
    ensures ArrayText(texts)[Position(texts, k)..] == Separated(texts[k..]) + "]"
  {
    if k == 0 {
      assert texts[0..] == texts;
    } else {
      ArrayTextFrom(texts, k - 1);
      var rest := Separated(texts[k - 1..]) + "]";
      assert texts[k - 1..][1..] == texts[k..];
      assert rest == texts[k - 1] + "," + (Separated(texts[k..]) + "]");
      assert rest[|texts[k - 1]| + 1..] == Separated(texts[k..]) + "]";
    }
  }

  lemma ArrayTextHas(texts: seq<string>, k: nat)
    requires k < |texts|
    ensures HasTextAt(ArrayText(texts), texts, k)
    ensures k == |texts| - 1 ==> |ArrayText(texts)| == Position(texts, |texts|)
  {
    ArrayTextFrom(texts, k);
    var begin, rest := Position(texts, k), ArrayText(texts)[Position(texts, k)..];
    assert rest[..|texts[k]|] == texts[k];
    assert rest[|texts[k]|] == if k < |texts| - 1 then ',' else ']';
  }

  lemma {:induction false} SameUpTo(a: string, b: string, texts: seq<string>, k: nat)
    requires k <= |texts| && IsArrayOf(a, texts) && IsArrayOf(b, texts)
    ensures Position(texts, k) <= |a| && Position(texts, k) <= |b|
    ensures a[..Position(texts, k)] == b[..Position(texts, k)]
  {
    if k == 0 {
    } else {
      SameUpTo(a, b, texts, k - 1);
      assert HasTextAt(a, texts, k - 1) && HasTextAt(b, texts, k - 1);
      var begin, end := Position(texts, k - 1), Position(texts, k);
      assert a[..end] == a[..begin] + texts[k - 1] + [a[end - 1]];
      assert b[..end] == b[..begin] + texts[k - 1] + [b[end - 1]];
    }
  }

  /** The text of an array has every element's text at its place, and no other string has. */
  lemma ArrayTextExact(buffer: string, texts: seq<string>)
    requires texts != []
    ensures IsArrayOf(buffer, texts) <==> buffer == ArrayText(texts)
  {
    forall k | 0 <= k < |texts| ensures HasTextAt(ArrayText(texts), texts, k) {
      ArrayTextHas(texts, k);
    }
    ArrayTextHas(texts, |texts| - 1);
    if IsArrayOf(buffer, texts) {
      SameUpTo(buffer, ArrayText(texts), texts, |texts|);
    }
  }

  // ----------------------------------------------------------------- reading

  /** What became of the caller's target. */
  datatype Outcome<T> = Untouched | Delivered(value: T) | DecodeError | SourceError

  function Deliver<T>(decode: Decoder<T>, texts: seq<string>): Outcome<T> {
    if texts == [] then Untouched else
      match decode(ArrayText(texts))
      case Some(value) => Delivered(value)
      case None => DecodeError
  }

  /** Every element encodes. */
  predicate Encodable<A>(encode: Encoder<A>, rows: seq<Row<A>>) {
    forall i :: 0 <= i < |rows| ==> encode(rows[i].value).Some?
  }

  function FromSource<A, T>(encode: Encoder<A>, decode: Decoder<T>, answer: Option<seq<Row<A>>>): Outcome<T> {
    if answer.None? then SourceError
    else if Encodable(encode, answer.value) then Deliver(decode, Members(EncodeRows(encode, answer.value)))
    else DecodeError
  }

  /** What a read delivers: the page Redis serves, if it serves one, or else the source's. */
  function GetOutcome<A, T>(o: RangeOrder, encode: Encoder<A>, decode: Decoder<T>, z: ZSet, source: Source<A>,
                            q: RangeInfo, net: Network): Outcome<T> {
    var page := LookUp(o, z, q);
    if net.Fine? && page.Some? then Deliver(decode, Members(page.value))
    else FromSource(encode, decode, source(Clamp(q)))
  }

  /** The text of row i, for rows that all encode. */
  function RowTexts<A>(encode: Encoder<A>, rows: seq<Row<A>>): (texts: seq<string>)
    requires forall i :: 0 <= i < |rows| ==> encode(rows[i].value).Some?
    ensures |texts| == |rows| && forall i :: 0 <= i < |rows| ==> encode(rows[i].value) == Some(texts[i])
  {
    seq(|rows|, i requires 0 <= i < |rows| => encode(rows[i].value).value)
  }

  /**
    What a read that Redis serves delivers: nothing for an empty page, else what the array of the
    page's members decodes to. A text that does not decode is an error.
   */
  lemma ServedOutcome<A, T>(o: RangeOrder, encode: Encoder<A>, decode: Decoder<T>, z: ZSet, source: Source<A>,
                            q: RangeInfo, page: seq<Z>, text: string)
    requires LookUp(o, z, q) == Some(page)
    ensures var outcome := GetOutcome(o, encode, decode, z, source, q, Fine);
            && (outcome == Untouched <==> page == [])
            && (page != [] && IsArrayOf(text, seq(|page|, i requires 0 <= i < |page| => page[i].member)) ==>
                  outcome == if decode(text).Some? then Delivered(decode(text).value) else DecodeError)
  {
    if page != [] {
      assert seq(|page|, i requires 0 <= i < |page| => page[i].member) == Members(page);
      ArrayTextExact(text, Members(page));
    }
  }

  /**
    What any other read delivers: the source's error, nothing if the source has no rows, an error
    if some row does not encode, else what the array of the rows' texts decodes to.
   */
  lemma SourceOutcome<A, T>(o: RangeOrder, encode: Encoder<A>, decode: Decoder<T>, z: ZSet, source: Source<A>,
                            q: RangeInfo, net: Network, text: string)
    requires net.Fine? ==> LookUp(o, z, q).None?
    ensures var outcome, answer := GetOutcome(o, encode, decode, z, source, q, net), source(Clamp(q));
            && (outcome == SourceError <==> answer.None?)
            && (outcome == Untouched <==> answer == Some([]))
            && (answer.Some? && (exists i :: 0 <= i < |answer.value| && encode(answer.value[i].value).None?) ==>
                  outcome == DecodeError)
            && (answer.Some? && answer.value != [] &&
                (forall i :: 0 <= i < |answer.value| ==> encode(answer.value[i].value).Some?) &&
                IsArrayOf(text, RowTexts(encode, answer.value)) ==>
                  outcome == if decode(text).Some? then Delivered(decode(text).value) else DecodeError)
  {
    var answer := source(Clamp(q));
    if answer.Some? && answer.value != [] && Encodable(encode, answer.value) {
      assert RowTexts(encode, answer.value) == Members(EncodeRows(encode, answer.value));
      ArrayTextExact(text, RowTexts(encode, answer.value));
    }
  }

  /** The answer there would be without a cache, over a source that never fails. */
  function PlainAnswer<T>(o: RangeOrder, decode: Decoder<T>, list: seq<Z>, q: RangeInfo): Outcome<T> {
    Deliver(decode, Members(Query(o, list, Clamp(q))))
  }

  /** Whenever the source answers, it is with the rows of this list that the query asks for. */
  ghost predicate Honours<A>(o: RangeOrder, encode: Encoder<A>, source: Source<A>, list: seq<Z>) {
    forall q {:trigger source(q)} :: source(q).Some? ==> EncodeRows(encode, source(q).value) == Query(o, list, q)
  }

  // ------------------------------------------------------------------- store

  /** The sorted sets in Redis, and the keys among them that have a time to live. */
  datatype Store = Store(zsets: map<string, ZSet>, expiring: set<string>)

  function At(s: Store, key: string): ZSet {
    if key in s.zsets then s.zsets[key] else map[]
  }

  /** ZADD. Without rows it is an error. */
  function Added(s: Store, key: string, rows: seq<Z>): Store {
    if rows == [] then s else s.(zsets := s.zsets[key := ZAdd(At(s, key), rows)])
  }

  function Dropped(s: Store, key: string): Store {
    Store(s.zsets - {key}, s.expiring - {key})
  }

  /** EXPIRE. A time to live that is not positive deletes the key. */
  function Timed(s: Store, key: string, ttl: int): Store {
    if key !in s.zsets then s
    else if ttl <= 0 then Dropped(s, key)
    else s.(expiring := s.expiring + {key})
  }

  /** How the three commands of a reload go. */
  datatype Commands = Commands(check: Network, zadd: Network, expire: Network)

  /** ZADD and EXPIRE of one reload; EXPIRE is sent even if ZADD failed. */
  function Reloaded(
      o: RangeOrder, s: Store, key: string, fetched: Option<seq<Z>>, capacity: int, ttl: int, cmds: Commands): Store {
    if fetched.None? then s else
      var added := if cmds.zadd.RequestLost? then s else Added(s, key, RowsToCache(o, fetched.value, capacity));
      if cmds.expire.RequestLost? then added else Timed(added, key, ttl)
  }

  /** A reload happens only if EXISTS answers, and says no. */
  function ReloadedIfMissing(
      o: RangeOrder, s: Store, key: string, fetched: Option<seq<Z>>, capacity: int, ttl: int, cmds: Commands): Store {
    if !cmds.check.Fine? || key in s.zsets then s else Reloaded(o, s, key, fetched, capacity, ttl, cmds)
  }

  predicate SameAt(s: Store, s': Store, key: string) {
    (key in s.zsets <==> key in s'.zsets) && At(s, key) == At(s', key) && (key in s.expiring <==> key in s'.expiring)
  }

  /**
    What a reload does: nothing at all unless EXISTS said that the key is missing and the source
    answered. Then the key is there afterwards exactly when ZADD ran and EXPIRE did not delete
    it, and it will expire exactly when EXPIRE ran too. No other key is touched.
   */
  lemma ReloadExact(
      o: RangeOrder, s: Store, key: string, fetched: Option<seq<Z>>, capacity: int, ttl: int, cmds: Commands)
    requires (key in s.expiring ==> key in s.zsets) && capacity >= 1
    ensures var s' := ReloadedIfMissing(o, s, key, fetched, capacity, ttl, cmds);
            if !cmds.check.Fine? || key in s.zsets || fetched.None? then s' == s
            else
              && (key in s'.zsets <==> !cmds.zadd.RequestLost? && (ttl > 0 || cmds.expire.RequestLost?))
              && (key in s'.zsets ==> At(s', key) == ZAdd(map[], RowsToCache(o, fetched.value, capacity)))
              && (key in s'.expiring <==> key in s'.zsets && !cmds.expire.RequestLost?)
              && forall other :: other != key ==> SameAt(s, s', other)
  {
  }

  /** A reload that finds the key there after all, because another one was as fast, adds to what it holds. */
  lemma LateReloadMerges(
      o: RangeOrder, s: Store, key: string, fetched: seq<Z>, capacity: int, ttl: int, cmds: Commands)
    requires DistinctMembers(RowsToCache(o, fetched, capacity))
    requires !cmds.zadd.RequestLost? && (ttl > 0 || cmds.expire.RequestLost?)
    ensures var z, z' := At(s, key), At(Reloaded(o, s, key, Some(fetched), capacity, ttl, cmds), key);
            var rows := RowsToCache(o, fetched, capacity);
            && (forall i :: 0 <= i < |rows| ==> rows[i].member in z' && z'[rows[i].member] == rows[i].score)
            && (forall m :: (forall i :: 0 <= i < |rows| ==> rows[i].member != m) ==>
                  (m in z' <==> m in z) && (m in z ==> z'[m] == z[m]))
  {
    ZAddScores(At(s, key), RowsToCache(o, fetched, capacity));
  }

  // ------------------------------------------------------------ transparency

  /** A key that is missing, or holds exactly what a reload of this list writes. */
  ghost predicate Coherent(o: RangeOrder, z: ZSet, list: seq<Z>, capacity: int) {
    z == map[] || z == Canonical(o, list, capacity)
  }

  /** Read through a coherent key, every page is the plain answer; only a source that fails can be noticed. */
  lemma GetIsTransparent<A, T>(o: RangeOrder, encode: Encoder<A>, decode: Decoder<T>, z: ZSet, source: Source<A>,
                               list: seq<Z>, capacity: int, q: RangeInfo, net: Network)
    requires IsSourceList(o, list) && !Misplaced(o, list, capacity)
    requires Honours(o, encode, source, list) && Coherent(o, z, list, capacity)
    ensures var outcome := GetOutcome(o, encode, decode, z, source, q, net);
            || outcome == PlainAnswer(o, decode, list, q)
            || (outcome == SourceError && source(Clamp(q)).None? && (net.Fine? ==> LookUp(o, z, q).None?))
  {
    HitIsSourceAnswer(o, list, capacity, q);
    MissingKeyMisses(o, q);
    if source(Clamp(q)).Some? {
      QueriedRowsEncode(o, encode, source(Clamp(q)).value, list, Clamp(q));
    }
  }

  lemma QueriedRowsEncode<A>(o: RangeOrder, encode: Encoder<A>, rows: seq<Row<A>>, list: seq<Z>, q: RangeInfo)
    requires IsSourceList(o, list) && EncodeRows(encode, rows) == Query(o, list, q)
    ensures Encodable(encode, rows)
  {
    MatchingMembers(o, list, q);
    forall i | 0 <= i < |rows| ensures encode(rows[i].value).Some? {
      WindowElement(Matching(o, list, q), q.offset, q.limit, i);
      assert EncodeRows(encode, rows)[i] in list;
    }
  }

  /**
    One Redis command of a proxy over an unchanged source: ZADD and EXPIRE of any reload, with
    anything in between, and any removal, by a delete or by time.
   */
  datatype Action<I> = Cache(id: I) | Time(id: I) | Remove(id: I)

  /** The proxy's settings and, for each id, the list its source holds. */
  datatype Setting<!I> = Setting(o: RangeOrder, capacity: int, ttl: int, assembleKey: I -> string, lists: I -> seq<Z>)

  ghost predicate Proper<I(!new)>(c: Setting<I>) {
    && (forall a, b :: c.assembleKey(a) == c.assembleKey(b) ==> a == b)
    && (forall id :: IsSourceList(c.o, c.lists(id)))
  }

  function Next<I>(c: Setting<I>, s: Store, a: Action<I>): Store {
    match a
    case Cache(id) => Added(s, c.assembleKey(id), CachedRows(c.o, c.lists(id), c.capacity))
    case Time(id) => Timed(s, c.assembleKey(id), c.ttl)
    case Remove(id) => Dropped(s, c.assembleKey(id))
  }

  function After<I>(c: Setting<I>, run: seq<Action<I>>): Store {
    if run == [] then Store(map[], {}) else Next(c, After(c, run[..|run| - 1]), run[|run| - 1])
  }

  /** A reload that reaches the source is one of these runs. */
  lemma ReloadIsSteps<I>(c: Setting<I>, s: Store, id: I, cmds: Commands) returns (steps: seq<Action<I>>)
    ensures |steps| <= 2
    ensures var fetched := Query(c.o, c.lists(id), ReloadQuery(c.capacity));
            Reloaded(c.o, s, c.assembleKey(id), Some(fetched), c.capacity, c.ttl, cmds) ==
            if |steps| == 0 then s
            else if |steps| == 1 then Next(c, s, steps[0])
            else Next(c, Next(c, s, steps[0]), steps[1])
  {
    steps := (if cmds.zadd.RequestLost? then [] else [Cache(id)]) +
             (if cmds.expire.RequestLost? then [] else [Time(id)]);
  }

  /** The encoded rows a reload gets from the source, if that answers. */
  function Fetched<A>(encode: Encoder<A>, source: Source<A>, capacity: int): Option<seq<Z>> {
    match source(ReloadQuery(capacity))
    case Some(rows) => Some(EncodeRows(encode, rows))
    case None => None
  }

  ghost predicate KeyCoherent<I>(c: Setting<I>, s: Store, id: I) {
    Coherent(c.o, At(s, c.assembleKey(id)), c.lists(id), c.capacity)
  }

  lemma StepKeepsKey<I(!new)>(c: Setting<I>, s: Store, a: Action<I>, id: I)
    requires Proper(c) && KeyCoherent(c, s, id)
    ensures KeyCoherent(c, Next(c, s, a), id)
  {
    if a == Cache(id) {
      CachedRowsDistinct(c.o, c.lists(id), c.capacity);
      ZAddTwice(CachedRows(c.o, c.lists(id), c.capacity));
    } else {
      assert a.id != id ==> c.assembleKey(a.id) != c.assembleKey(id);
    }
  }

  /**
    Whatever a reload's commands do, and whether its source answers or fails, every key that was
    missing or canonical is so afterwards.
   */
  lemma ReloadKeepsCoherent<I(!new), A>(
      c: Setting<I>, s: Store, id: I, other: I, encode: Encoder<A>, source: Source<A>, cmds: Commands)
    requires Proper(c) && Honours(c.o, encode, source, c.lists(id)) && KeyCoherent(c, s, other)
    ensures var fetched := Fetched(encode, source, c.capacity);
            KeyCoherent(c, ReloadedIfMissing(c.o, s, c.assembleKey(id), fetched, c.capacity, c.ttl, cmds), other)
  {
    var q, fetched := ReloadQuery(c.capacity), Fetched(encode, source, c.capacity);
    if source(q).Some? {
      assert fetched == Some(Query(c.o, c.lists(id), q));
      var steps := ReloadIsSteps(c, s, id, cmds);
      if |steps| > 0 {
        StepKeepsKey(c, s, steps[0], other);
      }
      if |steps| > 1 {
        StepKeepsKey(c, Next(c, s, steps[0]), steps[1], other);
      }
    }
  }

  /** Every key of every run is missing or canonical. */
  lemma {:induction false} KeysStayCoherent<I(!new)>(c: Setting<I>, run: seq<Action<I>>, id: I)
    requires Proper(c)
    ensures KeyCoherent(c, After(c, run), id)
  {
    if run == [] {
    } else {
      KeysStayCoherent(c, run[..|run| - 1], id);
      StepKeepsKey(c, After(c, run[..|run| - 1]), run[|run| - 1], id);
    }
  }

  /**
    Over an unchanged source, whatever reloads, failed commands, deletes and expiries of any
    keys came before: a read delivers the plain answer, with Redis reachable or not.
   */
  lemma ReadsAreAlwaysTransparent<I(!new), A, T>(
      c: Setting<I>, run: seq<Action<I>>, id: I, encode: Encoder<A>, decode: Decoder<T>, source: Source<A>,
      q: RangeInfo, net: Network)
    requires Proper(c) && !Misplaced(c.o, c.lists(id), c.capacity)
    requires Honours(c.o, encode, source, c.lists(id)) && source(Clamp(q)).Some?
    ensures GetOutcome(c.o, encode, decode, At(After(c, run), c.assembleKey(id)), source, q, net) ==
            PlainAnswer(c.o, decode, c.lists(id), q)
  {
    KeysStayCoherent(c, run, id);
    var z := At(After(c, run), c.assembleKey(id));
    GetIsTransparent(c.o, encode, decode, z, source, c.lists(id), c.capacity, q, net);
  }

  // ------------------------------------------------------------ time to live

  /** Step i is a ZADD that creates the key. */
  predicate Creates<I(==)>(c: Setting<I>, run: seq<Action<I>>, i: int, id: I) {
    0 <= i < |run| && run[i] == Cache(id) && CachedRows(c.o, c.lists(id), c.capacity) != [] &&
    c.assembleKey(id) !in After(c, run[..i]).zsets
  }

  /** After step i no EXPIRE of the key and no removal of it has run. */
  predicate LeftAloneSince<I(==)>(run: seq<Action<I>>, i: int, id: I) {
    forall j :: 0 <= i < j < |run| ==> run[j] != Time(id) && run[j] != Remove(id)
  }

  ghost predicate CreatedUntimed<I>(c: Setting<I>, run: seq<Action<I>>, id: I) {
    exists i :: Creates(c, run, i, id) && LeftAloneSince(run, i, id)
  }

  predicate Untimed(s: Store, key: string) {
    key in s.zsets && key !in s.expiring
  }

  lemma {:induction false} OnlyPresentKeysExpire<I>(c: Setting<I>, run: seq<Action<I>>)
    ensures After(c, run).expiring <= After(c, run).zsets.Keys
  {
    if run == [] {
    } else {
      OnlyPresentKeysExpire(c, run[..|run| - 1]);
    }
  }

  /** A step other than the key's own EXPIRE and removal neither times nor untimes it; ZADD may create it. */
  lemma StepUntimed<I(!new)>(c: Setting<I>, s: Store, a: Action<I>, id: I)
    requires Proper(c) && s.expiring <= s.zsets.Keys
    ensures var key := c.assembleKey(id);
            Untimed(Next(c, s, a), key) <==>
            a != Time(id) && a != Remove(id) &&
            (Untimed(s, key) || (a == Cache(id) && key !in s.zsets && CachedRows(c.o, c.lists(id), c.capacity) != []))
  {
    assert a.id != id ==> c.assembleKey(a.id) != c.assembleKey(id);
  }

  lemma CreatedBefore<I>(c: Setting<I>, run: seq<Action<I>>, i: int, id: I)
    requires run != [] && i < |run| - 1
    ensures var front, a := run[..|run| - 1], run[|run| - 1];
            Creates(c, run, i, id) && LeftAloneSince(run, i, id) <==>
            Creates(c, front, i, id) && LeftAloneSince(front, i, id) && a != Time(id) && a != Remove(id)
  {
    var front := run[..|run| - 1];
    if 0 <= i {
      assert front[..i] == run[..i];
      assert forall j :: 0 <= j < |front| ==> front[j] == run[j];
    }
  }

  /**
    Over every run: a key is there without a time to live, so that it stays until it is deleted,
    exactly when since the ZADD that created it no EXPIRE has run. Reloads only add to it.
   */
  lemma {:induction false} UntimedExact<I(!new)>(c: Setting<I>, run: seq<Action<I>>, id: I)
    requires Proper(c)
    ensures Untimed(After(c, run), c.assembleKey(id)) <==> CreatedUntimed(c, run, id)
  {
    hide Proper, Creates, LeftAloneSince;
    if run == [] {
      NothingCreated(c, id);
    } else {
      var front, a := run[..|run| - 1], run[|run| - 1];
      UntimedExact(c, front, id);
      OnlyPresentKeysExpire(c, front);
      StepUntimed(c, After(c, front), a, id);
      CreatedLast(c, run, id);
      forall i | i < |run| - 1
        ensures Creates(c, run, i, id) && LeftAloneSince(run, i, id) <==>
                Creates(c, front, i, id) && LeftAloneSince(front, i, id) && a != Time(id) && a != Remove(id)
      {
        CreatedBefore(c, run, i, id);
      }
      CreatedWithin(c, run, id);
      CreatedWithin(c, front, id);
    }
  }

  lemma CreatedWithin<I>(c: Setting<I>, run: seq<Action<I>>, id: I)
    ensures forall i :: Creates(c, run, i, id) ==> 0 <= i < |run|
  {
  }

  lemma NothingCreated<I>(c: Setting<I>, id: I)
    ensures !CreatedUntimed(c, [], id) && !Untimed(After(c, []), c.assembleKey(id))
  {
  }

  lemma CreatedLast<I>(c: Setting<I>, run: seq<Action<I>>, id: I)
    requires run != []
    ensures var n := |run| - 1;
            Creates(c, run, n, id) && LeftAloneSince(run, n, id) <==>
            && run[n] == Cache(id) && CachedRows(c.o, c.lists(id), c.capacity) != []
            && c.assembleKey(id) !in After(c, run[..n]).zsets
  {
  }
}
