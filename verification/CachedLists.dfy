/**
  What a list key holds while its source changes: every ZADD since the key was last removed,
  merged. This joins the coherence protocol to the page cache.
 */
module CachedLists {
  import opened SortedSets
  import opened PageCache
  import C = Coherence
  import SK = StaleKeys

  /** The sorted set left by these writes, when the source list at version v is `lists(v)`. */
  function Merged(o: RangeOrder, capacity: int, lists: nat -> seq<Z>, writes: seq<C.Write>): ZSet {
    if writes == [] then map[]
    else ZAdd(Merged(o, capacity, lists, writes[..|writes| - 1]),
              CachedRows(o, lists(writes[|writes| - 1].tag), capacity))
  }

  /** Any number of reloads of the same version leave the key canonical for it. */
  lemma {:induction false} SameVersionMerges(
      o: RangeOrder, capacity: int, lists: nat -> seq<Z>, writes: seq<C.Write>, v: nat)
    requires writes != [] && (forall wr :: wr in writes ==> wr.tag == v) && IsSourceList(o, lists(v))
    ensures Merged(o, capacity, lists, writes) == Canonical(o, lists(v), capacity)
  {
    var front, last := writes[..|writes| - 1], writes[|writes| - 1];
    assert last in writes;
    if front == [] {
    } else {
      SameVersionMerges(o, capacity, lists, front, v);
      CachedRowsDistinct(o, lists(v), capacity);
      ZAddTwice(CachedRows(o, lists(v), capacity));
    }
  }

  ghost predicate AllWritten(w: C.World) {
    forall id :: id in w.cache ==> w.cache[id] != []
  }

  lemma StepWrites(kind: C.Kind, w: C.World, a: C.Action)
    requires AllWritten(w)
    ensures AllWritten(C.Next(kind, w, a))
  {
  }

  /** A key in the cache has been written at least once since it was removed. */
  lemma {:induction false} KeysAreWritten(kind: C.Kind, run: seq<C.Action>)
    ensures AllWritten(C.After(kind, run))
  {
    if run == [] {
    } else {
      KeysAreWritten(kind, run[..|run| - 1]);
      StepWrites(kind, C.After(kind, run[..|run| - 1]), run[|run| - 1]);
    }
  }

  /**
    Over an unchanged source, any interleaving of reads, ZADDs, errors, removals and expiries
    leaves the key missing or holding exactly the canonical rows.
   */
  lemma {:induction false} ReloadConverges(
      o: RangeOrder, capacity: int, lists: nat -> seq<Z>, run: seq<C.Action>, id: string)
    requires C.Mutate(id) !in run
    requires IsSourceList(o, lists(0)) && id in C.After(C.ListKeys, run).cache
    ensures Merged(o, capacity, lists, C.After(C.ListKeys, run).cache[id]) == Canonical(o, lists(0), capacity)
  {
    var w := C.After(C.ListKeys, run);
    C.Reachable(C.ListKeys, run);
    NeverMutated(C.ListKeys, run, id);
    KeysAreWritten(C.ListKeys, run);
    forall wr | wr in w.cache[id] ensures wr.tag == 0 {
      assert C.WriteSound(w, id, wr);
    }
    SameVersionMerges(o, capacity, lists, w.cache[id], 0);
  }

  lemma {:induction false} NeverMutated(kind: C.Kind, run: seq<C.Action>, id: string)
    requires C.Mutate(id) !in run
    ensures C.Version(C.After(kind, run), id) == 0
  {
    if run == [] {
    } else {
      assert run == run[..|run| - 1] + [run[|run| - 1]];
      NeverMutated(kind, run[..|run| - 1], id);
    }
  }

  /**
    End to end: once nothing is on its way for a list, no save straddled a mutation and no
    delete was lost, every page served from Redis is the current source's answer.
   */
  lemma {:induction false} DrainedPagesAreCurrent(
      o: RangeOrder, capacity: int, lists: nat -> seq<Z>, run: seq<C.Action>, id: string, q: RangeInfo)
    requires var w := C.After(C.ListKeys, run);
             && C.Drained(w, id) && C.NoStraddlingSave(w, id) && C.NoLostDelete(w, id) && id in w.cache
             && IsSourceList(o, lists(C.Version(w, id))) && !Misplaced(o, lists(C.Version(w, id)), capacity)
    ensures var w := C.After(C.ListKeys, run);
            var page := LookUp(o, Merged(o, capacity, lists, w.cache[id]), q);
            page.Some? ==> page.value == Query(o, lists(C.Version(w, id)), Clamp(q))
  {
    var w := C.After(C.ListKeys, run);
    var v := C.Version(w, id);
    C.DrainedKeyExact(C.ListKeys, run, id);
    KeysAreWritten(C.ListKeys, run);
    SameVersionMerges(o, capacity, lists, w.cache[id], v);
    HitIsSourceAnswer(o, lists(v), capacity, q);
  }

  // ------------------------------------------------- reloads of several versions

  predicate HasMember(rows: seq<Z>, m: string) {
    exists i :: 0 <= i < |rows| && rows[i].member == m
  }

  predicate HasAllMembers(rows: seq<Z>, others: seq<Z>) {
    forall i :: 0 <= i < |others| ==> HasMember(rows, others[i].member)
  }

  /** One of the first n writes brought this member. */
  ghost predicate Brought(o: RangeOrder, capacity: int, lists: nat -> seq<Z>, writes: seq<C.Write>, n: int, m: string) {
    exists i {:trigger writes[i]} ::
      0 <= i < n <= |writes| && HasMember(CachedRows(o, lists(writes[i].tag), capacity), m)
  }

  ghost predicate AllSourceLists(o: RangeOrder, lists: nat -> seq<Z>, writes: seq<C.Write>) {
    forall wr :: wr in writes ==> IsSourceList(o, lists(wr.tag))
  }

  /** Which members a reload leaves, and what it does to the scores of its own. */
  lemma ReloadMembers(o: RangeOrder, capacity: int, list: seq<Z>, z: ZSet)
    requires IsSourceList(o, list)
    ensures var rows, z' := CachedRows(o, list, capacity), ZAdd(z, CachedRows(o, list, capacity));
            && (forall m :: m in z' <==> m in z || HasMember(rows, m))
            && (forall m :: HasMember(rows, m) ==>
                  m in z' && m in Canonical(o, list, capacity) && z'[m] == Canonical(o, list, capacity)[m])
  {
    var rows := CachedRows(o, list, capacity);
    CachedRowsDistinct(o, list, capacity);
    ZAddScores(z, rows);
    ZAddScores(map[], rows);
  }

  lemma {:induction false} MergedMembers(
      o: RangeOrder, capacity: int, lists: nat -> seq<Z>, writes: seq<C.Write>, m: string)
    requires AllSourceLists(o, lists, writes)
    ensures m in Merged(o, capacity, lists, writes) <==> Brought(o, capacity, lists, writes, |writes|, m)
  {
    if writes == [] {
    } else {
      var front, last := writes[..|writes| - 1], writes[|writes| - 1];
      assert last in writes;
      MergedMembers(o, capacity, lists, front, m);
      ReloadMembers(o, capacity, lists(last.tag), Merged(o, capacity, lists, front));
      assert Brought(o, capacity, lists, front, |front|, m) ==> Brought(o, capacity, lists, writes, |writes|, m) by {
        assert forall i :: 0 <= i < |front| ==> front[i] == writes[i];
      }
      var rows := CachedRows(o, lists(last.tag), capacity);
      assert HasMember(rows, m) ==> Brought(o, capacity, lists, writes, |writes|, m);
      if Brought(o, capacity, lists, writes, |writes|, m) {
        var i :| 0 <= i < |writes| && HasMember(CachedRows(o, lists(writes[i].tag), capacity), m);
        assert i < |front| ==> front[i] == writes[i];
      }
    }
  }

  /**
    ZADD never removes. So after any reloads of any versions the key is what a reload of the
    last version alone would leave exactly when that version still has every member that the
    earlier reloads brought.
   */
  lemma {:induction false} MixedReloadExact(o: RangeOrder, capacity: int, lists: nat -> seq<Z>, writes: seq<C.Write>)
    requires writes != [] && AllSourceLists(o, lists, writes)
    ensures Merged(o, capacity, lists, writes) == Canonical(o, lists(writes[|writes| - 1].tag), capacity) <==>
            forall i :: 0 <= i < |writes| - 1 ==>
                          HasAllMembers(
                            CachedRows(o, lists(writes[|writes| - 1].tag), capacity),
                            CachedRows(o, lists(writes[i].tag), capacity))
  {
    hide Merged, CachedRows, Canonical, IsSourceList;
    var front, last := writes[..|writes| - 1], writes[|writes| - 1];
    assert last in writes;
    var before, z := Merged(o, capacity, lists, front), Merged(o, capacity, lists, writes);
    var canonical := Canonical(o, lists(last.tag), capacity);
    var rows := CachedRows(o, lists(last.tag), capacity);
    MergedLast(o, capacity, lists, writes);
    ReloadMembers(o, capacity, lists(last.tag), before);
    CanonicalMembers(o, capacity, lists(last.tag));
    forall m ensures m in before <==> Brought(o, capacity, lists, writes, |front|, m) {
      MergedMembers(o, capacity, lists, front, m);
      SameBrought(o, capacity, lists, writes, m);
    }
    if forall i :: 0 <= i < |writes| - 1 ==> HasAllMembers(rows, CachedRows(o, lists(writes[i].tag), capacity)) {
      forall m | m in before ensures HasMember(rows, m) {
        var i :| 0 <= i < |front| && HasMember(CachedRows(o, lists(writes[i].tag), capacity), m);
        assert HasAllMembers(rows, CachedRows(o, lists(writes[i].tag), capacity));
      }
      assert z.Keys == canonical.Keys;
    } else {
      var i :| 0 <= i < |writes| - 1 && !HasAllMembers(rows, CachedRows(o, lists(writes[i].tag), capacity));
      var others := CachedRows(o, lists(writes[i].tag), capacity);
      var j :| 0 <= j < |others| && !HasMember(rows, others[j].member);
      assert HasMember(others, others[j].member);
      assert Brought(o, capacity, lists, writes, |front|, others[j].member);
    }
  }

  lemma MergedLast(o: RangeOrder, capacity: int, lists: nat -> seq<Z>, writes: seq<C.Write>)
    requires writes != []
    ensures Merged(o, capacity, lists, writes) ==
            ZAdd(Merged(o, capacity, lists, writes[..|writes| - 1]),
                 CachedRows(o, lists(writes[|writes| - 1].tag), capacity))
  {
  }

  lemma CanonicalMembers(o: RangeOrder, capacity: int, list: seq<Z>)
    requires IsSourceList(o, list)
    ensures forall m :: m in Canonical(o, list, capacity) <==> HasMember(CachedRows(o, list, capacity), m)
  {
    ReloadMembers(o, capacity, list, map[]);
  }

  lemma SameBrought(o: RangeOrder, capacity: int, lists: nat -> seq<Z>, writes: seq<C.Write>, m: string)
    requires writes != []
    ensures var front := writes[..|writes| - 1];
            Brought(o, capacity, lists, front, |front|, m) <==> Brought(o, capacity, lists, writes, |writes| - 1, m)
  {
    var front := writes[..|writes| - 1];
    assert forall i :: 0 <= i < |front| ==> front[i] == writes[i];
  }

  /** Two reads of a list, one before and one after a mutation, whose reloads both land. */
  function MixedRun(id: string): seq<C.Action> {
    [C.Read(id), C.Mutate(id), C.Read(id), C.Store(C.Load(id, 0)), C.Store(C.Load(id, 1))]
  }

  lemma MixedRunWrites(id: string)
    ensures var w := C.After(C.ListKeys, MixedRun(id));
            C.Version(w, id) == 1 && id in w.cache && w.cache[id] == [C.Write(0, {}), C.Write(1, {})]
  {
    hide C.Next;
    var run := MixedRun(id);
    BothRead(id);
    C.RunStep(C.ListKeys, run, 3);
    C.RunStep(C.ListKeys, run, 4);
    assert run[..5] == run;
    StoreOf(C.After(C.ListKeys, run[..3]), C.Load(id, 0));
    StoreOf(C.After(C.ListKeys, run[..4]), C.Load(id, 1));
  }

  /** What a reload that lands does to a list key, if no delete has run yet. */
  lemma StoreOf(w: C.World, l: C.Load)
    requires l in w.loads && w.deleted == {}
    ensures var w' := C.Next(C.ListKeys, w, C.Store(l));
            && w'.deleted == {} && w'.versions == w.versions && w'.loads == w.loads - multiset{l}
            && l.id in w'.cache
            && w'.cache[l.id] == (if l.id in w.cache then w.cache[l.id] else []) + [C.Write(l.tag, {})]
  {
    assert C.Overtaken(w, l) == {};
  }

  lemma BothRead(id: string)
    ensures var w := C.After(C.ListKeys, MixedRun(id)[..3]);
            && w.versions == map[id := 1] && w.loads == multiset{C.Load(id, 0), C.Load(id, 1)}
            && w.deleted == {} && w.cache == map[]
  {
    var run := MixedRun(id);
    assert run[..0] == [];
    C.RunStep(C.ListKeys, run, 0);
    C.RunStep(C.ListKeys, run, 1);
    assert C.After(C.ListKeys, run[..2]) ==
           C.World(map[id := 1], {C.Event(id, 1)}, SK.Empty(), {}, {}, {}, multiset{C.Load(id, 0)}, map[]);
    C.RunStep(C.ListKeys, run, 2);
  }

  /** So a key can be canonical for neither version: each version's cached rows have a member the other's lack. */
  lemma {:induction false} MixedReloadMatchesNeither(
      o: RangeOrder, capacity: int, lists: nat -> seq<Z>, id: string, x: string, y: string)
    requires IsSourceList(o, lists(0)) && IsSourceList(o, lists(1))
    requires HasMember(CachedRows(o, lists(0), capacity), x) && !HasMember(CachedRows(o, lists(1), capacity), x)
    requires HasMember(CachedRows(o, lists(1), capacity), y) && !HasMember(CachedRows(o, lists(0), capacity), y)
    ensures var w := C.After(C.ListKeys, MixedRun(id));
            && id in w.cache
            && Merged(o, capacity, lists, w.cache[id]) != Canonical(o, lists(0), capacity)
            && Merged(o, capacity, lists, w.cache[id]) != Canonical(o, lists(1), capacity)
  {
    hide CachedRows, Canonical, C.After, Merged, IsSourceList;
    MixedRunWrites(id);
    var writes := [C.Write(0, {}), C.Write(1, {})];
    assert !HasAllMembers(CachedRows(o, lists(1), capacity), CachedRows(o, lists(writes[0].tag), capacity));
    MixedReloadExact(o, capacity, lists, writes);
    assert Brought(o, capacity, lists, writes, 2, y) by {
      assert writes[1].tag == 1;
    }
    MergedMembers(o, capacity, lists, writes, y);
    CanonicalMembers(o, capacity, lists(0));
  }
}
