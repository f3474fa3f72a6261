/**
  The page cache of `SliceCacheProxy`, on values: what a reload writes, when a read
  counts as a hit, and why a hit is the answer the data source would have given.
 */
module PageCache {
  import opened Wrappers
  import opened SortedSets

  /** What a caller asks for; also what the data source is asked. */
  datatype RangeInfo = RangeInfo(
    startScore: Score, fromBeginning: bool, includeStartScore: bool, offset: int, limit: int)

  // ---------------------------------------------------------- the source

  /** Whether a row with this score is part of the list the query asks for. */
  predicate Asked(o: RangeOrder, q: RangeInfo, x: Score) {
    || q.fromBeginning
    || (if o.HighToLow? then Below(x, q.startScore) else Below(q.startScore, x))
    || (q.includeStartScore && x == q.startScore)
  }

  function Matching(o: RangeOrder, list: seq<Z>, q: RangeInfo): seq<Z> {
    if list == [] then []
    else (if Asked(o, q, list[0].score) then [list[0]] else []) + Matching(o, list[1..], q)
  }

  /** The plain query over the whole list: the answer every caller should see. */
  function Query(o: RangeOrder, list: seq<Z>, q: RangeInfo): seq<Z> {
    Window(Matching(o, list, q), q.offset, q.limit)
  }

  /**
    A list the source may hold: in reading order, with distinct and non-empty encoded
    members. Scores may be infinite.
   */
  ghost predicate IsSourceList(o: RangeOrder, list: seq<Z>) {
    Ordered(o, list) && DistinctMembers(list) && forall i :: 0 <= i < |list| ==> list[i].member != ""
  }

  // ------------------------------------------------------------- reloading

  function FirstInfinity(o: RangeOrder): Score {
    if o.HighToLow? then PosInf else NegInf
  }

  function LastInfinity(o: RangeOrder): Score {
    if o.HighToLow? then NegInf else PosInf
  }

  /** The sentinel that says "nothing follows". */
  function FinalZMember(o: RangeOrder): Z {
    Z(LastInfinity(o), "")
  }

  function ReloadQuery(capacity: int): RangeInfo {
    RangeInfo(Fin(0.0), true, false, 0, capacity)
  }

  /** The rows a reload hands to ZADD, given what the source returned. */
  function RowsToCache(o: RangeOrder, fetched: seq<Z>, capacity: int): seq<Z> {
    if |fetched| < capacity then fetched + [FinalZMember(o)] else fetched
  }

  function CachedRows(o: RangeOrder, list: seq<Z>, capacity: int): seq<Z> {
    RowsToCache(o, Query(o, list, ReloadQuery(capacity)), capacity)
  }

  /** What the key holds after a reload. ZADD of no rows is an error and leaves it missing. */
  function Canonical(o: RangeOrder, list: seq<Z>, capacity: int): ZSet {
    ZAdd(map[], CachedRows(o, list, capacity))
  }

  // --------------------------------------------------------------- reading

  function Clamp(q: RangeInfo): RangeInfo {
    if q.limit < 1 then q.(limit := 1) else q
  }

  function StartBound(o: RangeOrder, q: RangeInfo): Bound {
    Bound(if q.fromBeginning then FirstInfinity(o) else q.startScore, !q.includeStartScore)
  }

  function MinBound(o: RangeOrder, q: RangeInfo): Bound {
    if o.HighToLow? then Bound(NegInf, false) else StartBound(o, q)
  }

  function MaxBound(o: RangeOrder, q: RangeInfo): Bound {
    if o.HighToLow? then StartBound(o, q) else Bound(PosInf, false)
  }

  /** The reply of Redis to the range command a read sends. */
  function Reply(o: RangeOrder, z: ZSet, q: RangeInfo): seq<Z> {
    RangeByScore(o, z, MinBound(o, q), MaxBound(o, q), q.offset, Clamp(q).limit)
  }

  predicate SeesFinal(o: RangeOrder, res: seq<Z>) {
    |res| > 0 && res[|res| - 1] == FinalZMember(o)
  }

  function Stripped(o: RangeOrder, res: seq<Z>): seq<Z> {
    if SeesFinal(o, res) then res[..|res| - 1] else res
  }

  predicate IsHit(o: RangeOrder, res: seq<Z>, q: RangeInfo) {
    |Stripped(o, res)| == Clamp(q).limit || SeesFinal(o, res)
  }

  /** The page served from Redis, or None when the read must ask the source. */
  function LookUp(o: RangeOrder, z: ZSet, q: RangeInfo): Option<seq<Z>> {
    var res := Reply(o, z, q);
    if IsHit(o, res, q) then Some(Stripped(o, res)) else None
  }

  /** A hit, if any, is the source's own answer. */
  ghost predicate AgreesOn(o: RangeOrder, list: seq<Z>, capacity: int, q: RangeInfo) {
    var page := LookUp(o, Canonical(o, list, capacity), q);
    page.Some? ==> page.value == Query(o, list, Clamp(q))
  }

  // ------------------------------------------- when hits agree with the source

  /** Part of the list lies outside the open range `(first infinity` and something cached lies inside. */
  predicate HidesBeginning(o: RangeOrder, list: seq<Z>, capacity: int) {
    && 0 < |list|
    && 0 < capacity
    && list[0].score == FirstInfinity(o)
    && (|list| < capacity || list[capacity - 1].score != FirstInfinity(o))
  }

  /** The sentinel sorts before a row: reading upwards, (+inf, "") precedes (+inf, m). */
  predicate SentinelTooEarly(o: RangeOrder, list: seq<Z>, capacity: int) {
    o.LowToHigh? && 0 < |list| < capacity && list[|list| - 1].score == PosInf
  }

  predicate Misplaced(o: RangeOrder, list: seq<Z>, capacity: int) {
    HidesBeginning(o, list, capacity) || SentinelTooEarly(o, list, capacity)
  }

  /** Finite scores are never misplaced. */
  lemma FiniteScoresAreWellPlaced(o: RangeOrder, list: seq<Z>, capacity: int)
    requires forall i :: 0 <= i < |list| ==> list[i].score.Fin?
    ensures !Misplaced(o, list, capacity)
  {
    if 0 < |list| {
      assert list[0].score.Fin? && list[|list| - 1].score.Fin?;
    }
  }

  // ------------------------------------------------------- filters and prefixes

  lemma {:induction false} WithinConcat(s: seq<Z>, t: seq<Z>, min: Bound, max: Bound)
    ensures Within(s + t, min, max) == Within(s, min, max) + Within(t, min, max)
  {
    if s == [] {
      assert s + t == t;
    } else {
      assert (s + t)[0] == s[0] && (s + t)[1..] == s[1..] + t;
      WithinConcat(s[1..], t, min, max);
    }
  }

  lemma {:induction false} MatchingConcat(o: RangeOrder, s: seq<Z>, t: seq<Z>, q: RangeInfo)
    ensures Matching(o, s + t, q) == Matching(o, s, q) + Matching(o, t, q)
  {
    if s == [] {
      assert s + t == t;
    } else {
      assert (s + t)[0] == s[0] && (s + t)[1..] == s[1..] + t;
      MatchingConcat(o, s[1..], t, q);
    }
  }

  lemma {:induction false} MatchingAll(o: RangeOrder, s: seq<Z>, q: RangeInfo)
    requires forall i :: 0 <= i < |s| ==> Asked(o, q, s[i].score)
    ensures Matching(o, s, q) == s
  {
    if s == [] {
    } else {
      MatchingAll(o, s[1..], q);
    }
  }

  lemma {:induction false} MatchingNone(o: RangeOrder, s: seq<Z>, q: RangeInfo)
    requires forall i :: 0 <= i < |s| ==> !Asked(o, q, s[i].score)
    ensures Matching(o, s, q) == []
  {
    if s == [] {
    } else {
      MatchingNone(o, s[1..], q);
    }
  }

  /** Clamping the limit changes which rows are returned, not which are asked for. */
  lemma {:induction false} MatchingUnderClamp(o: RangeOrder, s: seq<Z>, q: RangeInfo)
    ensures Matching(o, s, Clamp(q)) == Matching(o, s, q)
  {
    if s == [] {
    } else {
      MatchingUnderClamp(o, s[1..], q);
    }
  }

  /** The score range sent to Redis selects what the query asks for, infinite scores at the beginning apart. */
  lemma {:induction false} WithinIsMatching(o: RangeOrder, s: seq<Z>, q: RangeInfo)
    requires q.fromBeginning && !q.includeStartScore ==>
               forall i :: 0 <= i < |s| ==> s[i].score != FirstInfinity(o)
    ensures Within(s, MinBound(o, q), MaxBound(o, q)) == Matching(o, s, q)
  {
    if s == [] {
    } else {
      WithinIsMatching(o, s[1..], q);
    }
  }

  lemma {:induction false} WithinOnlyExcluded(o: RangeOrder, s: seq<Z>, q: RangeInfo)
    requires q.fromBeginning && !q.includeStartScore
    requires forall i :: 0 <= i < |s| ==> s[i].score == FirstInfinity(o)
    ensures Within(s, MinBound(o, q), MaxBound(o, q)) == []
  {
    if s == [] {
    } else {
      WithinOnlyExcluded(o, s[1..], q);
    }
  }

  lemma {:induction false} MatchingMembers(o: RangeOrder, s: seq<Z>, q: RangeInfo)
    ensures forall i :: 0 <= i < |Matching(o, s, q)| ==> Matching(o, s, q)[i] in s
  {
    if s == [] {
    } else {
      MatchingMembers(o, s[1..], q);
    }
  }

  lemma {:induction false} WithinMembers(s: seq<Z>, min: Bound, max: Bound)
    ensures forall i :: 0 <= i < |Within(s, min, max)| ==>
              Within(s, min, max)[i] in s && InRange(min, max, Within(s, min, max)[i].score)
  {
    if s == [] {
    } else {
      WithinMembers(s[1..], min, max);
    }
  }

  /** A full window over a prefix is the window over the whole. */
  lemma FullWindowOfPrefix(s: seq<Z>, t: seq<Z>, offset: int, count: int)
    requires count > 0 && |Window(s, offset, count)| == count
    ensures Window(s + t, offset, count) == Window(s, offset, count)
  {
    assert (s + t)[offset..offset + count] == s[offset..offset + count];
  }

  // ------------------------------------------------------ what a reload leaves

  /** The first `capacity` rows, and the sentinel exactly when they are the whole list. */
  lemma CachedRowsShape(o: RangeOrder, list: seq<Z>, capacity: int)
    ensures CachedRows(o, list, capacity) ==
              if capacity <= 0 then []
              else if |list| < capacity then list + [FinalZMember(o)]
              else list[..capacity]
  {
    MatchingAll(o, list, ReloadQuery(capacity));
  }

  lemma CachedRowsDistinct(o: RangeOrder, list: seq<Z>, capacity: int)
    requires IsSourceList(o, list)
    ensures DistinctMembers(CachedRows(o, list, capacity))
  {
    CachedRowsShape(o, list, capacity);
  }

  lemma SentinelComesLast(o: RangeOrder, list: seq<Z>, capacity: int)
    requires IsSourceList(o, list) && !SentinelTooEarly(o, list, capacity)
    ensures Ordered(o, CachedRows(o, list, capacity))
  {
    CachedRowsShape(o, list, capacity);
    var rows := CachedRows(o, list, capacity);
    if 0 < |list| < capacity {
      forall i | 0 <= i < |list| ensures Precedes(o, rows[i], FinalZMember(o)) {
        if o.LowToHigh? && i < |list| - 1 {
          assert Precedes(o, list[i], list[|list| - 1]);
        }
        assert LexLess("", list[i].member);
      }
    }
  }

  /** Reading a canonical key from end to end gives back the cached rows, sentinel last. */
  lemma CanonicalListing(o: RangeOrder, list: seq<Z>, capacity: int)
    requires IsSourceList(o, list) && !SentinelTooEarly(o, list, capacity)
    ensures Listing(o, Elements(Canonical(o, list, capacity))) == CachedRows(o, list, capacity)
  {
    var rows := CachedRows(o, list, capacity);
    CachedRowsDistinct(o, list, capacity);
    SentinelComesLast(o, list, capacity);
    ZAddFromEmpty(rows);
    ListingUnique(o, rows);
  }

  // ---------------------------------------------------------- the refinement

  /** What Redis replies when the key is canonical and the sentinel is at its end. */
  lemma CanonicalReply(o: RangeOrder, list: seq<Z>, capacity: int, q: RangeInfo)
    requires IsSourceList(o, list) && !SentinelTooEarly(o, list, capacity)
    ensures Reply(o, Canonical(o, list, capacity), q) ==
            Window(Within(CachedRows(o, list, capacity), MinBound(o, q), MaxBound(o, q)), q.offset, Clamp(q).limit)
  {
    CanonicalListing(o, list, capacity);
  }

  lemma WithinOne(x: Z, min: Bound, max: Bound)
    ensures Within([x], min, max) == if InRange(min, max, x.score) then [x] else []
  {
    assert [x][1..] == [];
  }

  /** Rows with the first infinity as score come before all others. */
  lemma FirstInfinitiesLead(o: RangeOrder, list: seq<Z>, k: int)
    requires Ordered(o, list) && 0 <= k < |list| && list[k].score == FirstInfinity(o)
    ensures list[0].score == FirstInfinity(o)
    ensures forall i :: 0 <= i <= k ==> list[i].score == FirstInfinity(o)
  {
    forall i | 0 <= i < k ensures list[i].score == FirstInfinity(o) {
      assert Precedes(o, list[i], list[k]);
    }
  }

  /** A hit on a canonical key is the source's answer to the same (clamped) query. */
  lemma HitIsSourceAnswer(o: RangeOrder, list: seq<Z>, capacity: int, q: RangeInfo)
    requires IsSourceList(o, list) && !Misplaced(o, list, capacity)
    ensures AgreesOn(o, list, capacity, q)
  {
    CanonicalReply(o, list, capacity, q);
    CachedRowsShape(o, list, capacity);
    if capacity <= 0 {
      assert Reply(o, Canonical(o, list, capacity), q) == [];
    } else if |list| < capacity {
      WholeListHit(o, list, capacity, q);
    } else {
      PrefixHit(o, list, capacity, q);
    }
  }

  /** The case in which the list fills the capacity: there is no sentinel, and only a full page is a hit. */
  lemma PrefixHit(o: RangeOrder, list: seq<Z>, capacity: int, q: RangeInfo)
    requires IsSourceList(o, list) && !Misplaced(o, list, capacity) && 0 < capacity <= |list|
    ensures AgreesOn(o, list, capacity, q)
  {
    hide Within, Matching, Ordered, Canonical, Reply;
    var rows, rest := list[..capacity], list[capacity..];
    var min, max := MinBound(o, q), MaxBound(o, q);
    CanonicalReply(o, list, capacity, q);
    CachedRowsShape(o, list, capacity);
    var res := Window(Within(rows, min, max), q.offset, Clamp(q).limit);
    NoSentinelAmong(o, rows, q);
    if |res| == Clamp(q).limit {
      PrefixBeginning(o, list, capacity, q);
      WithinIsMatching(o, rows, q);
      MatchingConcat(o, rows, rest, q);
      assert list == rows + rest;
      MatchingUnderClamp(o, list, q);
      FullWindowOfPrefix(Matching(o, rows, q), Matching(o, rest, q), q.offset, Clamp(q).limit);
    }
  }

  lemma NoSentinelAmong(o: RangeOrder, rows: seq<Z>, q: RangeInfo)
    requires forall x :: x in rows ==> x.member != ""
    ensures !SeesFinal(o, Window(Within(rows, MinBound(o, q), MaxBound(o, q)), q.offset, Clamp(q).limit))
  {
    var all := Within(rows, MinBound(o, q), MaxBound(o, q));
    WithinMembers(rows, MinBound(o, q), MaxBound(o, q));
    var res := Window(all, q.offset, Clamp(q).limit);
    if |res| > 0 {
      WindowElement(all, q.offset, Clamp(q).limit, |res| - 1);
      assert res[|res| - 1] in rows;
    }
  }

  /** If an exclusive read from the beginning of a prefix can fill a page, it skips no row. */
  lemma PrefixBeginning(o: RangeOrder, list: seq<Z>, capacity: int, q: RangeInfo)
    requires IsSourceList(o, list) && !Misplaced(o, list, capacity) && 0 < capacity <= |list|
    requires Within(list[..capacity], MinBound(o, q), MaxBound(o, q)) != []
    ensures q.fromBeginning && !q.includeStartScore ==>
              forall i :: 0 <= i < capacity ==> list[i].score != FirstInfinity(o)
  {
    if q.fromBeginning && !q.includeStartScore {
      if list[0].score == FirstInfinity(o) {
        FirstInfinitiesLead(o, list, capacity - 1);
        WithinOnlyExcluded(o, list[..capacity], q);
      } else {
        forall i | 0 <= i < capacity ensures list[i].score != FirstInfinity(o) {
          if list[i].score == FirstInfinity(o) {
            FirstInfinitiesLead(o, list, i);
          }
        }
      }
    }
  }

  /** What a range over the whole list and its sentinel selects. */
  lemma WholeListWithin(o: RangeOrder, list: seq<Z>, capacity: int, q: RangeInfo)
    requires IsSourceList(o, list) && !Misplaced(o, list, capacity) && |list| < capacity
    ensures Within(list + [FinalZMember(o)], MinBound(o, q), MaxBound(o, q)) ==
            Matching(o, list, q) +
            if InRange(MinBound(o, q), MaxBound(o, q), LastInfinity(o)) then [FinalZMember(o)] else []
    ensures forall i :: 0 <= i < |Matching(o, list, q)| ==> Matching(o, list, q)[i] in list
  {
    var min, max := MinBound(o, q), MaxBound(o, q);
    forall i | 0 <= i < |list| ensures list[i].score != FirstInfinity(o) {
      if list[i].score == FirstInfinity(o) {
        FirstInfinitiesLead(o, list, i);
      }
    }
    WithinIsMatching(o, list, q);
    WithinConcat(list, [FinalZMember(o)], min, max);
    WithinOne(FinalZMember(o), min, max);
    WithinMembers(list, min, max);
  }

  /** The case in which the whole list and the sentinel are cached. */
  lemma WholeListHit(o: RangeOrder, list: seq<Z>, capacity: int, q: RangeInfo)
    requires IsSourceList(o, list) && !Misplaced(o, list, capacity) && |list| < capacity
    ensures AgreesOn(o, list, capacity, q)
  {
    CanonicalReply(o, list, capacity, q);
    CachedRowsShape(o, list, capacity);
    WholeListWithin(o, list, capacity, q);
    MatchingUnderClamp(o, list, q);
    var m := Matching(o, list, q);
    if InRange(MinBound(o, q), MaxBound(o, q), LastInfinity(o)) {
      PageBeforeSentinel(o, m, q);
    } else {
      PageWithoutSentinel(o, m, q);
    }
  }

  lemma PageBeforeSentinel(o: RangeOrder, m: seq<Z>, q: RangeInfo)
    requires forall i :: 0 <= i < |m| ==> m[i] != FinalZMember(o)
    ensures var res := Window(m + [FinalZMember(o)], q.offset, Clamp(q).limit);
            IsHit(o, res, q) ==> Stripped(o, res) == Window(m, q.offset, Clamp(q).limit)
    ensures 0 <= q.offset <= |m| ==> IsHit(o, Window(m + [FinalZMember(o)], q.offset, Clamp(q).limit), q)
  {
    var k, n := q.offset, Clamp(q).limit;
    if 0 <= k && k + n <= |m| {
      FullPageBefore(o, m, k, n);
    } else if 0 <= k <= |m| {
      LastPageBefore(o, m, k, n);
    }
  }

  lemma FullPageBefore(o: RangeOrder, m: seq<Z>, k: nat, n: nat)
    requires (forall i :: 0 <= i < |m| ==> m[i] != FinalZMember(o)) && n > 0 && k + n <= |m|
    ensures var res := Window(m + [FinalZMember(o)], k, n);
            res == Window(m, k, n) && |res| == n && !SeesFinal(o, res)
  {
    var res := (m + [FinalZMember(o)])[k..k + n];
    assert res == m[k..k + n];
    assert res[n - 1] == m[k + n - 1];
  }

  lemma LastPageBefore(o: RangeOrder, m: seq<Z>, k: nat, n: nat)
    requires n > 0 && k <= |m| < k + n
    ensures var res := Window(m + [FinalZMember(o)], k, n);
            SeesFinal(o, res) && Stripped(o, res) == Window(m, k, n)
  {
    var res := (m + [FinalZMember(o)])[k..];
    assert res == m[k..] + [FinalZMember(o)];
    assert res[..|res| - 1] == m[k..];
  }

  lemma PageWithoutSentinel(o: RangeOrder, m: seq<Z>, q: RangeInfo)
    requires forall i :: 0 <= i < |m| ==> m[i] != FinalZMember(o)
    ensures var res := Window(m + [], q.offset, Clamp(q).limit);
            Stripped(o, res) == res == Window(m, q.offset, Clamp(q).limit)
  {
    assert m + [] == m;
    var res := Window(m, q.offset, Clamp(q).limit);
    if |res| > 0 {
      assert res[|res| - 1] == m[q.offset + |res| - 1];
    }
  }

  // -------------------------------------------------------- exactly then

  /** With rows at +inf, reading upwards stops at the sentinel although more rows follow. */
  lemma EarlySentinelHidesRows(o: RangeOrder, list: seq<Z>, capacity: int) returns (q: RangeInfo)
    requires IsSourceList(o, list) && SentinelTooEarly(o, list, capacity)
    ensures !AgreesOn(o, list, capacity, q)
  {
    var n := FirstPosInf(list);
    var shown := list[..n] + [FinalZMember(o)] + list[n..];
    EarlySentinelListing(o, list, capacity, n);
    q := RangeInfo(Fin(0.0), true, true, 0, n + 1);
    WithinIsMatching(o, shown, q);
    MatchingAll(o, shown, q);
    MatchingAll(o, list, q);
    var res := Reply(o, Canonical(o, list, capacity), q);
    assert res == list[..n] + [FinalZMember(o)];
    assert Stripped(o, res) == list[..n];
    assert |Query(o, list, q)| == n + 1;
  }

  /** Redis lists the sentinel between the finite rows and those at +inf. */
  lemma EarlySentinelListing(o: RangeOrder, list: seq<Z>, capacity: int, n: nat)
    requires IsSourceList(o, list) && SentinelTooEarly(o, list, capacity) && n < |list|
    requires forall i :: 0 <= i < |list| ==> (list[i].score == PosInf <==> n <= i)
    ensures Listing(o, Elements(Canonical(o, list, capacity))) == list[..n] + [FinalZMember(o)] + list[n..]
  {
    CachedRowsShape(o, list, capacity);
    CachedRowsDistinct(o, list, capacity);
    ZAddFromEmpty(CachedRows(o, list, capacity));
    SameRowsMoved(list, FinalZMember(o), n);
    EarlySentinelOrdered(list, n);
    ListingUnique(o, list[..n] + [FinalZMember(o)] + list[n..]);
  }

  lemma SameRowsMoved(list: seq<Z>, x: Z, n: nat)
    requires n <= |list|
    ensures RowSet(list + [x]) == RowSet(list[..n] + [x] + list[n..])
  {
    var a, b := list + [x], list[..n] + [x] + list[n..];
    forall i | 0 <= i < |a| ensures a[i] in RowSet(b) {
      assert a[i] == b[if i < n then i else if i == |list| then n else i + 1];
    }
    forall i | 0 <= i < |b| ensures b[i] in RowSet(a) {
      assert b[i] == a[if i < n then i else if i == n then |list| else i - 1];
    }
  }

  lemma EarlySentinelOrdered(list: seq<Z>, n: nat)
    requires IsSourceList(LowToHigh, list) && n < |list|
    requires forall i :: 0 <= i < |list| ==> (list[i].score == PosInf <==> n <= i)
    ensures Ordered(LowToHigh, list[..n] + [FinalZMember(LowToHigh)] + list[n..])
  {
    var shown := list[..n] + [FinalZMember(LowToHigh)] + list[n..];
    forall i, j | 0 <= i < j < |shown| ensures Precedes(LowToHigh, shown[i], shown[j]) {
      if i == n {
        assert LexLess("", list[j - 1].member);
      } else if j == n {
        assert shown[i] == list[i];
      } else {
        var i', j' := if i < n then i else i - 1, if j < n then j else j - 1;
        assert shown[i] == list[i'] && shown[j] == list[j'];
        assert Precedes(LowToHigh, list[i'], list[j']);
      }
    }
  }

  /** Where the rows at +inf begin, in a list read upwards that has some. */
  lemma FirstPosInf(list: seq<Z>) returns (n: nat)
    requires Ordered(LowToHigh, list) && 0 < |list| && list[|list| - 1].score == PosInf
    ensures n < |list|
    ensures forall i :: 0 <= i < |list| ==> (list[i].score == PosInf <==> n <= i)
  {
    n := |list| - 1;
    while n > 0 && list[n - 1].score == PosInf
      invariant n < |list|
      invariant forall i :: n <= i < |list| ==> list[i].score == PosInf
    {
      n := n - 1;
    }
    if n > 0 {
      forall i | 0 <= i < n ensures list[i].score != PosInf {
        if i < n - 1 {
          assert Precedes(LowToHigh, list[i], list[n - 1]);
        }
      }
    }
  }

  /** With a row at the first infinity, an exclusive read from the beginning skips it. */
  lemma BeginningIsSkipped(o: RangeOrder, list: seq<Z>, capacity: int) returns (q: RangeInfo)
    requires IsSourceList(o, list) && HidesBeginning(o, list, capacity) && !SentinelTooEarly(o, list, capacity)
    ensures !AgreesOn(o, list, capacity, q)
  {
    q := RangeInfo(Fin(0.0), true, false, 0, 1);
    var all := Within(CachedRows(o, list, capacity), MinBound(o, q), MaxBound(o, q));
    SkippingRange(o, list, capacity, q);
    CanonicalReply(o, list, capacity, q);
    MatchingAll(o, list, q);
    var res := Reply(o, Canonical(o, list, capacity), q);
    assert res == [all[0]];
    assert Query(o, list, q) == [list[0]];
    assert Stripped(o, res) == if all[0] == FinalZMember(o) then [] else res;
  }

  lemma SkippingRange(o: RangeOrder, list: seq<Z>, capacity: int, q: RangeInfo)
    requires HidesBeginning(o, list, capacity) && q.fromBeginning && !q.includeStartScore
    ensures var all := Within(CachedRows(o, list, capacity), MinBound(o, q), MaxBound(o, q));
            all != [] && all[0].score != FirstInfinity(o)
  {
    CachedRowsShape(o, list, capacity);
    var rows := CachedRows(o, list, capacity);
    LastRowShows(rows, MinBound(o, q), MaxBound(o, q));
    WithinMembers(rows, MinBound(o, q), MaxBound(o, q));
  }

  lemma {:induction false} LastRowShows(rows: seq<Z>, min: Bound, max: Bound)
    requires rows != [] && InRange(min, max, rows[|rows| - 1].score)
    ensures Within(rows, min, max) != []
  {
    if |rows| == 1 {
    } else {
      LastRowShows(rows[1..], min, max);
    }
  }

  /**
    A reload serves only right answers, whatever is asked, exactly when no infinite score
    stands where the sentinel or the exclusive start bound would hide rows.
   */
  lemma PageCacheExact(o: RangeOrder, list: seq<Z>, capacity: int)
    requires IsSourceList(o, list)
    ensures (forall q :: AgreesOn(o, list, capacity, q)) <==> !Misplaced(o, list, capacity)
  {
    if !Misplaced(o, list, capacity) {
      forall q ensures AgreesOn(o, list, capacity, q) {
        HitIsSourceAnswer(o, list, capacity, q);
      }
    } else if SentinelTooEarly(o, list, capacity) {
      var q := EarlySentinelHidesRows(o, list, capacity);
    } else {
      var q := BeginningIsSkipped(o, list, capacity);
    }
  }

  /** A missing key is never a hit. */
  lemma MissingKeyMisses(o: RangeOrder, q: RangeInfo)
    ensures LookUp(o, map[], q) == None
  {
    assert Elements(map[]) == {};
  }

  /**
    A list that fits is served completely from the cache: no read that starts within it
    goes to the source.
   */
  lemma WholeListIsServed(o: RangeOrder, list: seq<Z>, capacity: int, q: RangeInfo)
    requires IsSourceList(o, list) && !Misplaced(o, list, capacity) && |list| < capacity
    requires InRange(MinBound(o, q), MaxBound(o, q), LastInfinity(o))
    requires 0 <= q.offset <= |Matching(o, list, q)|
    ensures LookUp(o, Canonical(o, list, capacity), q) == Some(Query(o, list, Clamp(q)))
  {
    CanonicalReply(o, list, capacity, q);
    CachedRowsShape(o, list, capacity);
    WholeListWithin(o, list, capacity, q);
    MatchingUnderClamp(o, list, q);
    PageBeforeSentinel(o, Matching(o, list, q), q);
  }

  /** The rows that a reload caches. */
  function CachedPart(list: seq<Z>, capacity: nat): seq<Z> {
    if |list| < capacity then list else list[..capacity]
  }

  /** A read reaches the sentinel, if there is one: only asking beyond the last infinity excludes it. */
  predicate AsksForEnd(o: RangeOrder, q: RangeInfo) {
    q.fromBeginning || q.includeStartScore || q.startScore != LastInfinity(o)
  }

  /** An exclusive read from the beginning does not reach a list that begins with the first infinity. */
  predicate StartsBehind(o: RangeOrder, list: seq<Z>, q: RangeInfo) {
    list != [] && list[0].score == FirstInfinity(o) && q.fromBeginning && !q.includeStartScore
  }

  /**
    Exactly which reads a reloaded key serves: those whose page lies within the cached rows, and, if
    the whole list is cached, those that reach its end. All others ask the source.
   */
  lemma HitExact(o: RangeOrder, list: seq<Z>, capacity: nat, q: RangeInfo)
    requires IsSourceList(o, list) && !Misplaced(o, list, capacity) && capacity >= 1
    ensures var asked, limit := Matching(o, CachedPart(list, capacity), q), if q.limit < 1 then 1 else q.limit;
            LookUp(o, Canonical(o, list, capacity), q).Some? <==>
            && 0 <= q.offset && !StartsBehind(o, list, q)
            && (q.offset + limit <= |asked| || (|list| < capacity && q.offset <= |asked| && AsksForEnd(o, q)))
  {
    hide Within, Matching, Ordered, Canonical, Reply;
    CanonicalReply(o, list, capacity, q);
    CachedRowsShape(o, list, capacity);
    if |list| < capacity {
      WholeListWithin(o, list, capacity, q);
      EndIsAsked(o, q);
      if AsksForEnd(o, q) {
        PageBeforeSentinel(o, Matching(o, list, q), q);
      } else {
        PageWithoutSentinel(o, Matching(o, list, q), q);
      }
    } else {
      NoSentinelAmong(o, list[..capacity], q);
      CachedPrefixWithin(o, list, capacity, q);
    }
  }

  lemma CachedPrefixWithin(o: RangeOrder, list: seq<Z>, capacity: nat, q: RangeInfo)
    requires IsSourceList(o, list) && !Misplaced(o, list, capacity) && 1 <= capacity <= |list|
    ensures Within(list[..capacity], MinBound(o, q), MaxBound(o, q)) ==
              if StartsBehind(o, list, q) then [] else Matching(o, list[..capacity], q)
  {
    if StartsBehind(o, list, q) {
      FirstInfinitiesLead(o, list, capacity - 1);
      WithinOnlyExcluded(o, list[..capacity], q);
    } else {
      forall i | 0 <= i < capacity
        ensures q.fromBeginning && !q.includeStartScore ==> list[i].score != FirstInfinity(o)
      {
        if list[i].score == FirstInfinity(o) {
          FirstInfinitiesLead(o, list, i);
        }
      }
      WithinIsMatching(o, list[..capacity], q);
    }
  }

  lemma EndIsAsked(o: RangeOrder, q: RangeInfo)
    ensures InRange(MinBound(o, q), MaxBound(o, q), LastInfinity(o)) <==> AsksForEnd(o, q)
  {
  }

  /** An empty list is cached by its sentinel alone, and read back as an empty page. */
  lemma EmptyListIsCached(o: RangeOrder, capacity: int, q: RangeInfo)
    requires capacity >= 1 && q.fromBeginning && q.offset == 0
    ensures LookUp(o, Canonical(o, [], capacity), q) == Some([])
  {
    WholeListIsServed(o, [], capacity, q);
  }
}
