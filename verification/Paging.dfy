/**
  Reading a whole list page by page: the first read starts from the beginning, each
  further read starts after the last score of the page before, exclusively.
 */
module Paging {
  import opened SortedSets
  import opened PageCache

  /** What a read finds in Redis: nothing, a reloaded key, or no Redis at all. */
  datatype KeyState = Missing | Loaded | Unreachable

  /** The rows `Get` answers with, over an unchanged source. */
  function Answer(o: RangeOrder, list: seq<Z>, capacity: int, state: KeyState, q: RangeInfo): seq<Z> {
    var page := LookUp(o, if state.Loaded? then Canonical(o, list, capacity) else map[], q);
    if !state.Unreachable? && page.Some? then page.value else Query(o, list, Clamp(q))
  }

  /** Cached or not, reachable or not, `Get` agrees with the plain query. */
  lemma AnswerIsQuery(o: RangeOrder, list: seq<Z>, capacity: int, state: KeyState, q: RangeInfo)
    requires IsSourceList(o, list) && !Misplaced(o, list, capacity)
    ensures Answer(o, list, capacity, state, q) == Query(o, list, Clamp(q))
  {
    HitIsSourceAnswer(o, list, capacity, q);
    MissingKeyMisses(o, q);
  }

  // --------------------------------------------------------------- page runs

  /** The query for page k, given the pages before it. */
  function PageQuery(pages: seq<seq<Z>>, k: nat, limit: int): RangeInfo
    requires k <= |pages| && (k > 0 ==> pages[k - 1] != [])
  {
    if k == 0 then RangeInfo(Fin(0.0), true, false, 0, limit)
    else RangeInfo(pages[k - 1][|pages[k - 1]| - 1].score, false, false, 0, limit)
  }

  /** No page but the last is empty: reading stops at the first empty page. */
  ghost predicate OnlyLastEmpty(pages: seq<seq<Z>>) {
    forall k :: 0 <= k < |pages| - 1 ==> pages[k] != []
  }

  /** Page k is what `Get` answered when Redis was in this state. */
  ghost predicate IsAnswer(
      o: RangeOrder, list: seq<Z>, capacity: int, limit: int, state: KeyState, pages: seq<seq<Z>>, k: nat)
    requires OnlyLastEmpty(pages) && k < |pages|
  {
    pages[k] == Answer(o, list, capacity, state, PageQuery(pages, k, limit))
  }

  /** Pages read one after the other, with Redis in any state at each read. */
  ghost predicate PageRun(
      o: RangeOrder, list: seq<Z>, capacity: int, limit: int, states: seq<KeyState>, pages: seq<seq<Z>>)
  {
    && |states| == |pages|
    && OnlyLastEmpty(pages)
    && (forall k {:trigger IsAnswer(o, list, capacity, limit, states[k], pages, k)} :: 0 <= k < |pages| ==>
          IsAnswer(o, list, capacity, limit, states[k], pages, k))
  }

  /** The first k pages, one after the other. */
  function Flatten(pages: seq<seq<Z>>, k: nat): seq<Z>
    requires k <= |pages|
  {
    if k == 0 then [] else Flatten(pages, k - 1) + pages[k - 1]
  }

  function PageSize(limit: int): (n: nat)
    ensures n >= 1
  {
    if limit < 1 then 1 else limit
  }

  /** How many rows k pages of n rows cover. */
  function Reach(k: nat, n: nat, length: nat): (r: nat)
    ensures r <= length
    ensures n >= 1 ==> r == length || r >= k
  {
    if k == 0 then 0 else
      var r := Reach(k - 1, n, length);
      if r + n < length then r + n else length
  }

  lemma {:induction false} ReachIsProduct(k: nat, n: nat, length: nat)
    ensures Reach(k, n, length) == if k * n < length then k * n else length
  {
    if k == 0 {
    } else {
      ReachIsProduct(k - 1, n, length);
      assert k * n == (k - 1) * n + n;
    }
  }

  /** Rows e-1 and e, if both exist, have different scores. */
  predicate CleanBoundary(list: seq<Z>, e: int) {
    0 < e < |list| ==> list[e - 1].score != list[e].score
  }

  /** No page of n rows ends between two rows of equal score. */
  ghost predicate NoTieSplit(list: seq<Z>, n: nat) {
    forall k: nat {:trigger CleanBoundary(list, Reach(k, n, |list|))} :: CleanBoundary(list, Reach(k, n, |list|))
  }

  // ------------------------------------------------------------------ proof

  lemma AskedAfter(o: RangeOrder, list: seq<Z>, e: nat, q: RangeInfo, i: nat)
    requires Ordered(o, list) && 0 < e <= |list| && i < |list| && CleanBoundary(list, e)
    requires !q.fromBeginning && !q.includeStartScore && q.startScore == list[e - 1].score
    ensures Asked(o, q, list[i].score) <==> e <= i
  {
    if i < e - 1 {
      assert Precedes(o, list[i], list[e - 1]);
    } else if i >= e {
      assert Precedes(o, list[e - 1], list[e]);
      assert i > e ==> Precedes(o, list[e], list[i]);
    }
  }

  lemma MatchingSplit(o: RangeOrder, front: seq<Z>, rest: seq<Z>, q: RangeInfo)
    requires forall i :: 0 <= i < |front| ==> !Asked(o, q, front[i].score)
    requires forall i :: 0 <= i < |rest| ==> Asked(o, q, rest[i].score)
    ensures Matching(o, front + rest, q) == rest
  {
    MatchingNone(o, front, q);
    MatchingAll(o, rest, q);
    MatchingConcat(o, front, rest, q);
  }

  /** An exclusive read after row e-1 asks for exactly the rows from e on, if the boundary is clean. */
  lemma RestAfter(o: RangeOrder, list: seq<Z>, e: nat, q: RangeInfo)
    requires Ordered(o, list) && 0 < e <= |list| && CleanBoundary(list, e)
    requires !q.fromBeginning && !q.includeStartScore && q.startScore == list[e - 1].score
    ensures Matching(o, list, q) == list[e..]
  {
    var front, rest := list[..e], list[e..];
    forall i | 0 <= i < |front| ensures !Asked(o, q, front[i].score) {
      AskedAfter(o, list, e, q, i);
    }
    forall i | 0 <= i < |rest| ensures Asked(o, q, rest[i].score) {
      AskedAfter(o, list, e, q, e + i);
    }
    assert list == front + rest;
    MatchingSplit(o, front, rest, q);
  }

  /** The rows of page k when no earlier boundary splits a tie. */
  function ExpectedPage(list: seq<Z>, k: nat, n: nat): seq<Z>
    requires Reach(k, n, |list|) <= Reach(k + 1, n, |list|)
  {
    list[Reach(k, n, |list|)..Reach(k + 1, n, |list|)]
  }

  ghost predicate IsQueryAnswer(o: RangeOrder, list: seq<Z>, limit: int, pages: seq<seq<Z>>, k: nat)
    requires OnlyLastEmpty(pages) && k < |pages|
  {
    pages[k] == Query(o, list, Clamp(PageQuery(pages, k, limit)))
  }

  /** Every page is the plain query's answer. */
  ghost predicate QueryRun(o: RangeOrder, list: seq<Z>, limit: int, pages: seq<seq<Z>>) {
    && OnlyLastEmpty(pages)
    && (forall k {:trigger IsQueryAnswer(o, list, limit, pages, k)} :: 0 <= k < |pages| ==>
          IsQueryAnswer(o, list, limit, pages, k))
  }

  lemma PageRunIsQueryRun(
      o: RangeOrder, list: seq<Z>, capacity: int, limit: int, states: seq<KeyState>, pages: seq<seq<Z>>)
    requires IsSourceList(o, list) && !Misplaced(o, list, capacity)
    requires PageRun(o, list, capacity, limit, states, pages)
    ensures QueryRun(o, list, limit, pages)
  {
    forall k | 0 <= k < |pages| ensures IsQueryAnswer(o, list, limit, pages, k) {
      assert IsAnswer(o, list, capacity, limit, states[k], pages, k);
      AnswerIsQuery(o, list, capacity, states[k], PageQuery(pages, k, limit));
    }
  }

  /** The query that continues after rows a to e answers with the next n rows. */
  lemma QueryAfter(o: RangeOrder, list: seq<Z>, a: nat, e: nat, n: nat)
    requires Ordered(o, list) && a < e <= |list| && n > 0 && CleanBoundary(list, e)
    ensures list[a..e] != []
    ensures var before := list[a..e];
            Query(o, list, RangeInfo(before[|before| - 1].score, false, false, 0, n)) ==
            list[e..if e + n < |list| then e + n else |list|]
  {
    hide Matching, Ordered, CleanBoundary;
    assert list[a..e][e - a - 1] == list[e - 1];
    RestAfter(o, list, e, RangeInfo(list[e - 1].score, false, false, 0, n));
    assert e + n <= |list| ==> list[e..][0..n] == list[e..e + n];
  }

  /** The query that starts from the beginning answers with the first n rows. */
  lemma QueryFirst(o: RangeOrder, list: seq<Z>, n: nat)
    requires n > 0
    ensures Query(o, list, RangeInfo(Fin(0.0), true, false, 0, n)) == list[..if n < |list| then n else |list|]
  {
    MatchingAll(o, list, RangeInfo(Fin(0.0), true, false, 0, n));
  }

  /** One more page takes the next n rows. */
  lemma NextPage(o: RangeOrder, list: seq<Z>, limit: int, pages: seq<seq<Z>>, k: nat)
    requires Ordered(o, list) && QueryRun(o, list, limit, pages) && k < |pages|
    requires CleanBoundary(list, Reach(k, PageSize(limit), |list|))
    requires k > 0 ==> pages[k - 1] == ExpectedPage(list, k - 1, PageSize(limit))
    ensures pages[k] == ExpectedPage(list, k, PageSize(limit))
  {
    var n := PageSize(limit);
    assert IsQueryAnswer(o, list, limit, pages, k);
    if k == 0 {
      QueryFirst(o, list, n);
      assert Reach(1, n, |list|) == if n < |list| then n else |list|;
    } else {
      LaterPage(o, list, limit, pages, k);
    }
  }

  lemma LaterPage(o: RangeOrder, list: seq<Z>, limit: int, pages: seq<seq<Z>>, k: nat)
    requires Ordered(o, list) && QueryRun(o, list, limit, pages) && 0 < k < |pages|
    requires CleanBoundary(list, Reach(k, PageSize(limit), |list|))
    requires pages[k - 1] == ExpectedPage(list, k - 1, PageSize(limit))
    ensures pages[k] == ExpectedPage(list, k, PageSize(limit))
  {
    hide Query, Ordered, CleanBoundary;
    var n := PageSize(limit);
    assert IsQueryAnswer(o, list, limit, pages, k);
    assert pages[k - 1] != [];
    QueryAfter(o, list, Reach(k - 1, n, |list|), Reach(k, n, |list|), n);
  }

  lemma PrefixThenPage(list: seq<Z>, a: nat, b: nat)
    requires a <= b <= |list|
    ensures list[..a] + list[a..b] == list[..b]
  {
  }

  ghost predicate CleanUpTo(list: seq<Z>, n: nat, k: nat) {
    forall j: nat {:trigger CleanBoundary(list, Reach(j, n, |list|))} ::
      j < k ==> CleanBoundary(list, Reach(j, n, |list|))
  }

  /** As long as no boundary splits a tie, page k holds the next rows of the list. */
  lemma {:induction false} PageIs(o: RangeOrder, list: seq<Z>, limit: int, pages: seq<seq<Z>>, k: nat)
    requires Ordered(o, list) && QueryRun(o, list, limit, pages) && k < |pages|
    requires CleanUpTo(list, PageSize(limit), k + 1)
    ensures pages[k] == ExpectedPage(list, k, PageSize(limit))
  {
    if k == 0 {
    } else {
      PageIs(o, list, limit, pages, k - 1);
    }
    NextPage(o, list, limit, pages, k);
  }

  /** So k pages are the first rows of the list. */
  lemma {:induction false} PagesCover(o: RangeOrder, list: seq<Z>, limit: int, pages: seq<seq<Z>>, k: nat)
    requires Ordered(o, list) && QueryRun(o, list, limit, pages) && k <= |pages|
    requires CleanUpTo(list, PageSize(limit), k)
    ensures Flatten(pages, k) == list[..Reach(k, PageSize(limit), |list|)]
  {
    if k == 0 {
    } else {
      PagesCover(o, list, limit, pages, k - 1);
      PageIs(o, list, limit, pages, k - 1);
      PrefixThenPage(list, Reach(k - 1, PageSize(limit), |list|), Reach(k, PageSize(limit), |list|));
    }
  }

  /**
    Paging neither loses nor repeats a row: page k holds rows k*n to (k+1)*n, whatever
    Redis held at each read.
   */
  lemma PagesAreConsecutive(
      o: RangeOrder, list: seq<Z>, capacity: int, limit: int, states: seq<KeyState>, pages: seq<seq<Z>>, k: nat)
    requires IsSourceList(o, list) && !Misplaced(o, list, capacity)
    requires PageRun(o, list, capacity, limit, states, pages) && k < |pages| && NoTieSplit(list, PageSize(limit))
    ensures pages[k] == ExpectedPage(list, k, PageSize(limit))
  {
    PageRunIsQueryRun(o, list, capacity, limit, states, pages);
    PageIs(o, list, limit, pages, k);
  }

  /** Row i of the list is the last row of page k. */
  predicate EndsAt(list: seq<Z>, pages: seq<seq<Z>>, k: int, i: int) {
    0 <= k < |pages| && pages[k] != [] && 0 <= i < |list| && pages[k][|pages[k]| - 1] == list[i]
  }

  lemma LastRowOfPage(o: RangeOrder, list: seq<Z>, limit: int, pages: seq<seq<Z>>, k: nat) returns (i: nat)
    requires QueryRun(o, list, limit, pages) && k < |pages| && pages[k] != []
    ensures EndsAt(list, pages, k, i)
    ensures k > 0 ==> Asked(o, PageQuery(pages, k, limit), list[i].score)
  {
    var q := Clamp(PageQuery(pages, k, limit));
    assert IsQueryAnswer(o, list, limit, pages, k);
    var last := |pages[k]| - 1;
    MatchingMembers(o, list, q);
    MatchingAsked(o, list, q);
    WindowElement(Matching(o, list, q), q.offset, q.limit, last);
    i :| 0 <= i < |list| && list[i] == pages[k][last];
  }

  /** Every page that has rows ends at least one row further on than the page before. */
  lemma {:induction false} PagesAdvance(
      o: RangeOrder, list: seq<Z>, limit: int, pages: seq<seq<Z>>, k: nat)
    returns (i: nat)
    requires Ordered(o, list) && QueryRun(o, list, limit, pages) && k < |pages| && pages[k] != []
    ensures EndsAt(list, pages, k, i) && k <= i
  {
    hide Ordered;
    i := LastRowOfPage(o, list, limit, pages, k);
    if k == 0 {
    } else {
      var j := PagesAdvance(o, list, limit, pages, k - 1);
      AskedIsLater(o, list, PageQuery(pages, k, limit), i, j);
    }
  }

  lemma AskedIsLater(o: RangeOrder, list: seq<Z>, q: RangeInfo, i: nat, j: nat)
    requires Ordered(o, list) && i < |list| && j < |list|
    requires !q.fromBeginning && !q.includeStartScore && q.startScore == list[j].score && Asked(o, q, list[i].score)
    ensures i > j
  {
    assert i < j ==> Precedes(o, list[i], list[j]);
  }

  /** No run is longer than |list| + 1 pages, ties or not. */
  lemma {:induction false} PagingEnds(
      o: RangeOrder, list: seq<Z>, capacity: int, limit: int, states: seq<KeyState>, pages: seq<seq<Z>>)
    requires IsSourceList(o, list) && !Misplaced(o, list, capacity)
    requires PageRun(o, list, capacity, limit, states, pages)
    ensures |pages| <= |list| + 1
  {
    PageRunIsQueryRun(o, list, capacity, limit, states, pages);
    if |pages| > 1 {
      var i := PagesAdvance(o, list, limit, pages, |pages| - 2);
    }
  }

  /** A finished run has returned the whole list. */
  lemma FinishedRunIsComplete(o: RangeOrder, list: seq<Z>, limit: int, pages: seq<seq<Z>>)
    requires Ordered(o, list) && QueryRun(o, list, limit, pages) && NoTieSplit(list, PageSize(limit))
    requires pages != [] && pages[|pages| - 1] == []
    ensures Flatten(pages, |pages|) == list
  {
    assert Reach(|pages|, PageSize(limit), |list|) == |list| by {
      PageIs(o, list, limit, pages, |pages| - 1);
    }
    PagesCover(o, list, limit, pages, |pages|);
  }

  /** Distinct scores are never split by a page boundary. */
  lemma DistinctScoresAreNotSplit(list: seq<Z>, n: nat)
    requires forall i, j :: 0 <= i < j < |list| ==> list[i].score != list[j].score
    ensures NoTieSplit(list, n)
  {
  }

  /** A boundary inside a tie loses rows: no run over such a list returns all of it. */
  lemma SplitTieLosesRows(o: RangeOrder, list: seq<Z>, limit: int, pages: seq<seq<Z>>)
    requires Ordered(o, list) && QueryRun(o, list, limit, pages) && !NoTieSplit(list, PageSize(limit))
    ensures Flatten(pages, |pages|) != list
  {
    var b := FirstSplit(list, PageSize(limit));
    if |pages| <= b {
      PagesCover(o, list, limit, pages, |pages|);
      ReachGrows(|pages|, b, PageSize(limit), |list|);
    } else {
      LostAfter(o, list, limit, pages, b);
    }
  }

  lemma LostAfter(o: RangeOrder, list: seq<Z>, limit: int, pages: seq<seq<Z>>, b: nat)
    requires Ordered(o, list) && QueryRun(o, list, limit, pages) && 0 < b < |pages|
    requires CleanUpTo(list, PageSize(limit), b) && !CleanBoundary(list, Reach(b, PageSize(limit), |list|))
    ensures Flatten(pages, |pages|) != list
  {
    hide IsQueryAnswer, Ordered, CleanUpTo, CleanBoundary, ExpectedPage, Reach, PageSize, Flatten;
    var e := Reach(b, PageSize(limit), |list|);
    SplitIsWithin(list, e);
    assert pages[b] != [] ==> pages[b][0] != list[e] by {
      PageIs(o, list, limit, pages, b - 1);
      PageAfterSplit(o, list, limit, pages, b);
    }
    PagesCover(o, list, limit, pages, b);
    FlattenNext(pages, b);
    FlattenGrows(pages, b + 1, |pages|);
    RestBehind(list, e, pages[b]);
  }

  lemma SplitIsWithin(list: seq<Z>, e: int)
    requires !CleanBoundary(list, e)
    ensures 0 < e < |list|
  {
  }

  lemma FlattenNext(pages: seq<seq<Z>>, k: nat)
    requires k < |pages|
    ensures Flatten(pages, k + 1) == Flatten(pages, k) + pages[k]
  {
  }

  lemma RestBehind(list: seq<Z>, e: nat, page: seq<Z>)
    requires e < |list| && (page != [] ==> page[0] != list[e])
    ensures page != [] ==> !(list[..e] + page <= list)
  {
  }

  /** The page after a split boundary does not start with the row the boundary cut off. */
  lemma PageAfterSplit(o: RangeOrder, list: seq<Z>, limit: int, pages: seq<seq<Z>>, b: nat)
    requires QueryRun(o, list, limit, pages) && 0 < b < |pages|
    requires !CleanBoundary(list, Reach(b, PageSize(limit), |list|))
    requires pages[b - 1] == ExpectedPage(list, b - 1, PageSize(limit))
    ensures pages[b] != [] ==> pages[b][0] != list[Reach(b, PageSize(limit), |list|)]
  {
    var q := Clamp(PageQuery(pages, b, limit));
    assert IsQueryAnswer(o, list, limit, pages, b);
    MatchingAsked(o, list, q);
    if pages[b] != [] {
      WindowElement(Matching(o, list, q), q.offset, q.limit, 0);
      assert Asked(o, q, pages[b][0].score);
      assert q.startScore == list[Reach(b, PageSize(limit), |list|) - 1].score;
    }
  }

  lemma FirstSplit(list: seq<Z>, n: nat) returns (b: nat)
    requires !NoTieSplit(list, n)
    ensures b > 0 && !CleanBoundary(list, Reach(b, n, |list|))
    ensures CleanUpTo(list, n, b)
  {
    var top: nat :| !CleanBoundary(list, Reach(top, n, |list|));
    b := 0;
    while CleanBoundary(list, Reach(b, n, |list|))
      invariant b <= top
      invariant CleanUpTo(list, n, b)
      decreases top - b
    {
      b := b + 1;
    }
  }

  lemma {:induction false} ReachGrows(j: nat, k: nat, n: nat, length: nat)
    requires j <= k
    ensures Reach(j, n, length) <= Reach(k, n, length)
  {
    if j == k {
    } else {
      ReachGrows(j, k - 1, n, length);
    }
  }

  lemma {:induction false} FlattenGrows(pages: seq<seq<Z>>, j: nat, k: nat)
    requires j <= k <= |pages|
    ensures Flatten(pages, j) <= Flatten(pages, k)
  {
    if j == k {
    } else {
      FlattenGrows(pages, j, k - 1);
    }
  }

  lemma {:induction false} MatchingAsked(o: RangeOrder, s: seq<Z>, q: RangeInfo)
    ensures forall i :: 0 <= i < |Matching(o, s, q)| ==> Asked(o, q, Matching(o, s, q)[i].score)
  {
    if s == [] {
    } else {
      MatchingAsked(o, s[1..], q);
    }
  }

  /**
    Over an unchanged source, whatever Redis held at each read, a finished run returns the
    whole list, each row once, exactly when no page boundary splits a tie.
   */
  lemma PagingExact(o: RangeOrder, list: seq<Z>, capacity: int, limit: int, states: seq<KeyState>, pages: seq<seq<Z>>)
    requires IsSourceList(o, list) && !Misplaced(o, list, capacity)
    requires PageRun(o, list, capacity, limit, states, pages) && pages != [] && pages[|pages| - 1] == []
    ensures Flatten(pages, |pages|) == list <==> NoTieSplit(list, PageSize(limit))
  {
    PageRunIsQueryRun(o, list, capacity, limit, states, pages);
    if NoTieSplit(list, PageSize(limit)) {
      FinishedRunIsComplete(o, list, limit, pages);
    } else {
      SplitTieLosesRows(o, list, limit, pages);
    }
  }
}
