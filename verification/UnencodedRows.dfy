/**
  Lists with rows that do not encode. A reload ignores the encoding error and stores the empty
  text for such a row. In the sorted set the empty member of several such rows, and of the
  sentinel, is one and the same; and read alone it makes the array text `[]`, which is an empty
  array. The source path reports an error for every page that has such a row. When the
  difference can be noticed, exactly.
 */
module UnencodedRows {
  import opened Wrappers
  import opened SortedSets
  import opened PageCache
  import opened SliceCaches

  /** A row without a text. */
  predicate IsGap(x: Z) {
    x.member == ""
  }

  predicate HasGap(rows: seq<Z>) {
    exists i :: 0 <= i < |rows| && IsGap(rows[i])
  }

  /**
    A list with finite scores whose rows that encode have distinct texts and are in reading
    order. Gaps may be anywhere.
   */
  ghost predicate IsRowList(o: RangeOrder, list: seq<Z>) {
    && (forall i :: 0 <= i < |list| ==> list[i].score.Fin?)
    && (forall i, j :: 0 <= i < j < |list| && !IsGap(list[i]) && !IsGap(list[j]) ==>
          Precedes(o, list[i], list[j]) && list[i].member != list[j].member)
  }

  /** The condition: none of the rows that a reload caches is a gap. */
  predicate CachedRowsEncode(list: seq<Z>, capacity: int) {
    forall i :: 0 <= i < |list| && i < capacity ==> !IsGap(list[i])
  }

  /**
    A JSON decoder reads the array text of a page exactly if every row has a text, or the page is
    a single row: the text of a gap alone is that of the empty array, section 5 of RFC 8259.
   */
  ghost predicate ReadsTexts<T(!new)>(decode: Decoder<T>, list: seq<Z>) {
    forall page: seq<Z> {:trigger ArrayText(Members(page))} ::
      page != [] && (forall x :: x in page ==> x in list) ==>
        (decode(ArrayText(Members(page))).Some? <==> |page| == 1 || !HasGap(page))
  }

  /** What the source path delivers for a page. */
  function Direct<T>(decode: Decoder<T>, page: seq<Z>): Outcome<T> {
    if HasGap(page) then DecodeError else Deliver(decode, Members(page))
  }

  /** What a page from Redis delivers, if there is one, is what the source path would deliver. */
  ghost predicate Served<T>(o: RangeOrder, decode: Decoder<T>, list: seq<Z>, capacity: int, q: RangeInfo) {
    var page := LookUp(o, Canonical(o, list, capacity), q);
    page.Some? ==> Deliver(decode, Members(page.value)) == Direct(decode, Query(o, list, Clamp(q)))
  }

  lemma SingleRowIsRead<T(!new)>(decode: Decoder<T>, list: seq<Z>, x: Z)
    requires ReadsTexts(decode, list) && x in list
    ensures Deliver(decode, Members([x])) != DecodeError
  {
    assert Members([x]) != [];
    assert decode(ArrayText(Members([x]))).Some?;
  }

  lemma RowsWithTextsAreRead<T(!new)>(decode: Decoder<T>, list: seq<Z>, page: seq<Z>)
    requires ReadsTexts(decode, list) && forall x :: x in page ==> x in list && !IsGap(x)
    ensures Deliver(decode, Members(page)) != DecodeError
  {
    if page != [] {
      assert !HasGap(page);
      assert Members(page) != [];
      assert decode(ArrayText(Members(page))).Some?;
    }
  }

  // -------------------------------------------------------- there is a decoder

  /** Texts without commas can be told apart in an array text. */
  lemma {:induction false} SeparatedApart(a: seq<string>, b: seq<string>)
    requires a != [] && b != [] && Separated(a) == Separated(b)
    requires (forall t :: t in a ==> ',' !in t) && forall t :: t in b ==> ',' !in t
    ensures a == b
    decreases |a|
  {
    var s := Separated(a);
    assert a[0] in a && b[0] in b;
    assert |a| > 1 ==> s[|a[0]|] == ',';
    assert |b| > 1 ==> s[|b[0]|] == ',';
    if |a| == 1 {
      assert a == [a[0]] && b == [b[0]];
    } else {
      var restA, restB := Separated(a[1..]), Separated(b[1..]);
      assert s == a[0] + "," + restA == b[0] + "," + restB;
      FirstComma(a[0], restA, b[0], restB);
      SeparatedApart(a[1..], b[1..]);
      assert a == [a[0]] + a[1..] && b == [b[0]] + b[1..];
    }
  }

  lemma FirstComma(x: string, restX: string, y: string, restY: string)
    requires ',' !in x && ',' !in y && x + "," + restX == y + "," + restY
    ensures x == y && restX == restY
  {
    var s, t := x + "," + restX, y + "," + restY;
    assert s[|x|] == ',' && t[|y|] == ',';
    assert forall k :: 0 <= k < |x| ==> s[k] == x[k] && x[k] in x;
    assert forall k :: 0 <= k < |y| ==> t[k] == y[k] && y[k] in y;
    assert s[..|x|] == x && t[..|y|] == y;
    assert s[|x| + 1..] == restX && t[|y| + 1..] == restY;
  }

  /** A page of the list that a decoder reads, with this text. */
  ghost predicate IsReadable(list: seq<Z>, page: seq<Z>, text: string) {
    && page != [] && (forall x :: x in page ==> x in list)
    && (|page| == 1 || !HasGap(page)) && text == ArrayText(Members(page))
  }

  /** Such a decoder exists for every list whose texts have no commas, with gaps or without. */
  lemma ReaderExists<T(!new)>(list: seq<Z>, value: T) returns (decode: Decoder<T>)
    requires forall i :: 0 <= i < |list| ==> ',' !in list[i].member
    ensures ReadsTexts(decode, list)
  {
    decode := text => if exists page :: IsReadable(list, page, text) then Some(value) else None;
    forall page: seq<Z> | page != [] && forall x :: x in page ==> x in list
      ensures decode(ArrayText(Members(page))).Some? <==> |page| == 1 || !HasGap(page)
    {
      var text := ArrayText(Members(page));
      if |page| == 1 || !HasGap(page) {
        assert IsReadable(list, page, text);
      } else if exists other :: IsReadable(list, other, text) {
        var other :| IsReadable(list, other, text);
        SameTexts(list, page, other);
      }
    }
  }

  lemma SameTexts(list: seq<Z>, page: seq<Z>, other: seq<Z>)
    requires forall i :: 0 <= i < |list| ==> ',' !in list[i].member
    requires (forall x :: x in page ==> x in list) && forall x :: x in other ==> x in list
    requires page != [] && other != [] && ArrayText(Members(page)) == ArrayText(Members(other))
    ensures |page| == |other| && (HasGap(page) <==> HasGap(other))
  {
    var a, b := Members(page), Members(other);
    assert ArrayText(a)[1..|ArrayText(a)| - 1] == Separated(a);
    assert ArrayText(b)[1..|ArrayText(b)| - 1] == Separated(b);
    forall i | 0 <= i < |a| ensures ',' !in a[i] {
      assert page[i] in list;
    }
    forall i | 0 <= i < |b| ensures ',' !in b[i] {
      assert other[i] in list;
    }
    SeparatedApart(a, b);
    assert forall i :: 0 <= i < |page| ==> page[i].member == a[i] == b[i] == other[i].member;
  }

  // ------------------------------------------------------ what the key keeps

  /** Of the rows with one member, the last decides its score. */
  lemma {:induction false} LastWins(z: ZSet, rows: seq<Z>, i: nat)
    requires i < |rows| && forall k :: i < k < |rows| ==> rows[k].member != rows[i].member
    ensures rows[i].member in ZAdd(z, rows) && ZAdd(z, rows)[rows[i].member] == rows[i].score
    decreases |rows|
  {
    if i == 0 {
      var z', tail := z[rows[0].member := rows[0].score], rows[1..];
      assert forall k :: 0 <= k < |tail| ==> tail[k] == rows[k + 1];
      MemberStays(z', tail, rows[0].member);
    } else {
      assert rows[1..][i - 1] == rows[i];
      LastWins(z[rows[0].member := rows[0].score], rows[1..], i - 1);
    }
  }

  lemma {:induction false} MemberStays(z: ZSet, rows: seq<Z>, m: string)
    requires m in z
    ensures m in ZAdd(z, rows)
    ensures (forall k :: 0 <= k < |rows| ==> rows[k].member != m) ==> ZAdd(z, rows)[m] == z[m]
    decreases |rows|
  {
    if rows == [] {
    } else {
      assert forall k :: 0 <= k < |rows[1..]| ==> rows[1..][k] == rows[k + 1];
      MemberStays(z[rows[0].member := rows[0].score], rows[1..], m);
    }
  }

  /** Every member of a row is there afterwards. */
  lemma {:induction false} EveryMemberIsKept(z: ZSet, rows: seq<Z>, i: nat)
    requires i < |rows|
    ensures rows[i].member in ZAdd(z, rows)
    decreases |rows|
  {
    var z' := z[rows[0].member := rows[0].score];
    if i == 0 {
      MemberStays(z', rows[1..], rows[0].member);
    } else {
      EveryMemberIsKept(z', rows[1..], i - 1);
    }
  }

  /** And nothing but rows. */
  lemma {:induction false} OnlyRowsAreKept(z: ZSet, rows: seq<Z>, x: Z)
    requires x in Elements(ZAdd(z, rows))
    ensures x in Elements(z) || x in rows
    decreases |rows|
  {
    if rows == [] {
    } else {
      OnlyRowsAreKept(z[rows[0].member := rows[0].score], rows[1..], x);
    }
  }

  lemma {:induction false} ListingSize(o: RangeOrder, s: set<Z>)
    ensures |Listing(o, s)| == |s|
    decreases |s|
  {
    if s == {} {
    } else {
      ListingSize(o, s - {First(o, s)});
    }
  }

  function FirstMembers(rows: seq<Z>, n: nat): (s: set<string>)
    requires n <= |rows|
  {
    set i | 0 <= i < n :: rows[i].member
  }

  lemma {:induction false} FirstMembersSize(rows: seq<Z>, n: nat)
    requires n <= |rows| && forall i, j :: 0 <= i < j < n ==> rows[i].member != rows[j].member
    ensures |FirstMembers(rows, n)| == n
  {
    if n == 0 {
    } else {
      FirstMembersSize(rows, n - 1);
      assert FirstMembers(rows, n) == FirstMembers(rows, n - 1) + {rows[n - 1].member};
    }
  }

  function ElementsOf(z: ZSet, keys: set<string>): set<Z>
    requires keys <= z.Keys
  {
    set m | m in keys :: Z(z[m], m)
  }

  lemma {:induction false} ElementsSize(z: ZSet, keys: set<string>)
    requires keys <= z.Keys
    ensures |ElementsOf(z, keys)| == |keys|
  {
    if keys == {} {
    } else {
      var m :| m in keys;
      ElementsSize(z, keys - {m});
      assert ElementsOf(z, keys) == ElementsOf(z, keys - {m}) + {Z(z[m], m)};
    }
  }

  lemma SubsetIsSmaller<T>(s: set<T>, all: set<T>)
    requires s <= all
    ensures |s| <= |all|
  {
    assert all == s + (all - s);
  }

  /** A set that has n different members of these rows has at least n entries. */
  lemma FirstMembersListed(z: ZSet, rows: seq<Z>, n: nat)
    requires n <= |rows| && forall i :: 0 <= i < n ==> rows[i].member in z
    requires forall i, j :: 0 <= i < j < n ==> rows[i].member != rows[j].member
    ensures n <= |Elements(z)|
  {
    FirstMembersSize(rows, n);
    SubsetIsSmaller(FirstMembers(rows, n), z.Keys);
    ElementsSize(z, z.Keys);
    assert ElementsOf(z, z.Keys) == Elements(z);
  }

  // ------------------------------------------------------------- it is needed

  lemma {:induction false} FirstGap(rows: seq<Z>) returns (g: nat)
    requires HasGap(rows)
    ensures g < |rows| && IsGap(rows[g]) && forall i :: 0 <= i < g ==> !IsGap(rows[i])
  {
    g := 0;
    while !IsGap(rows[g])
      invariant g < |rows| && exists i :: g <= i < |rows| && IsGap(rows[i])
      invariant forall i :: 0 <= i < g ==> !IsGap(rows[i])
      decreases |rows| - g
    {
      g := g + 1;
    }
  }

  /** The key of a long list has something at the place of the first gap. */
  lemma FirstGapIsListed(o: RangeOrder, list: seq<Z>, capacity: int, g: nat)
    requires IsRowList(o, list) && g < capacity <= |list|
    requires IsGap(list[g]) && forall i :: 0 <= i < g ==> !IsGap(list[i])
    ensures var listing := Listing(o, Elements(Canonical(o, list, capacity)));
            && g < |listing|
            && (forall x :: x in listing ==> x in list)
  {
    hide ZAdd, Listing;
    var rows, z := list[..capacity], Canonical(o, list, capacity);
    CachedRowsShape(o, list, capacity);
    forall i | 0 <= i < g + 1 ensures rows[i].member in z {
      EveryMemberIsKept(map[], rows, i);
    }
    FirstMembersListed(z, rows, g + 1);
    ListingSize(o, Elements(z));
    ListedAreElements(o, Elements(z));
    forall x | x in Elements(z) ensures x in list {
      OnlyRowsAreKept(map[], rows, x);
    }
  }

  lemma ListedAreElements(o: RangeOrder, s: set<Z>)
    ensures forall x :: x in Listing(o, s) <==> x in s
  {
    hide Listing;
    ListingSound(o, s);
    var l := Listing(o, s);
    forall x | x in s ensures x in l {
      assert x in RowSet(l);
    }
    forall x | x in l ensures x in s {
      assert x in RowSet(l);
    }
  }

  /** The query for one row at this place, counted from the beginning. */
  function OneAt(p: nat): RangeInfo {
    RangeInfo(Fin(0.0), true, true, p, 1)
  }

  /** Asking for all rows from the beginning, sentinel included, selects everything. */
  lemma ReadAll(o: RangeOrder, z: ZSet, q: RangeInfo)
    requires q.fromBeginning && q.includeStartScore
    ensures Reply(o, z, q) == Window(Listing(o, Elements(z)), q.offset, Clamp(q).limit)
  {
    hide Listing;
    WithinIsMatching(o, Listing(o, Elements(z)), q);
    MatchingAll(o, Listing(o, Elements(z)), q);
  }

  lemma GapInLongList<T(!new)>(o: RangeOrder, decode: Decoder<T>, list: seq<Z>, capacity: int) returns (q: RangeInfo)
    requires IsRowList(o, list) && ReadsTexts(decode, list) && capacity <= |list| && !CachedRowsEncode(list, capacity)
    ensures !Served(o, decode, list, capacity, q)
  {
    hide ReadsTexts, Canonical, Listing, Matching, Reply;
    var i :| 0 <= i < |list| && i < capacity && IsGap(list[i]);
    assert IsGap(list[..capacity][i]);
    var g := FirstGap(list[..capacity]);
    q := OneAt(g);
    FirstGapIsListed(o, list, capacity, g);
    ReadAll(o, Canonical(o, list, capacity), q);
    MatchingAll(o, list, q);
    var x := Listing(o, Elements(Canonical(o, list, capacity)))[g];
    assert Reply(o, Canonical(o, list, capacity), q) == [x] && x in list;
    assert Query(o, list, q) == [list[g]] && HasGap([list[g]]) by {
      assert IsGap([list[g]][0]);
    }
    SingleRowIsRead(decode, list, x);
  }

  /** In a short list the sentinel takes the place of all gaps. */
  lemma SentinelTakesGaps(o: RangeOrder, list: seq<Z>, capacity: int)
    requires IsRowList(o, list) && |list| < capacity
    ensures var s := Elements(Canonical(o, list, capacity));
            && FinalZMember(o) in s
            && (forall x :: x in s && x != FinalZMember(o) ==> x in list && !IsGap(x))
  {
    hide ZAdd;
    CachedRowsShape(o, list, capacity);
    var rows := list + [FinalZMember(o)];
    LastWins(map[], rows, |list|);
    forall x | x in Elements(ZAdd(map[], rows)) && x != FinalZMember(o) ensures x in list && !IsGap(x) {
      OnlyRowsAreKept(map[], rows, x);
    }
  }

  lemma SentinelIsListedLast(o: RangeOrder, list: seq<Z>, s: set<Z>)
    requires FinalZMember(o) in s && forall x :: x in s && x != FinalZMember(o) ==> x.score.Fin?
    ensures var l := Listing(o, s);
            && l != [] && l[|l| - 1] == FinalZMember(o)
            && (forall x :: x in l[..|l| - 1] ==> x in s && x != FinalZMember(o))
  {
    hide Listing;
    var l, final := Listing(o, s), FinalZMember(o);
    ListingSound(o, s);
    ListedAreElements(o, s);
    PrecedesIrreflexiveIn(o, l);
    assert final in l;
    var i :| 0 <= i < |l| && l[i] == final;
    assert l[|l| - 1] in l;
    assert i < |l| - 1 ==> Precedes(o, final, l[|l| - 1]);
  }

  lemma GapInShortList<T(!new)>(o: RangeOrder, decode: Decoder<T>, list: seq<Z>, capacity: int) returns (q: RangeInfo)
    requires IsRowList(o, list) && ReadsTexts(decode, list) && |list| < capacity && !CachedRowsEncode(list, capacity)
    ensures !Served(o, decode, list, capacity, q)
  {
    hide ReadsTexts, Canonical, Listing, Matching, Reply;
    var z := Canonical(o, list, capacity);
    var l := Listing(o, Elements(z));
    q := RangeInfo(Fin(0.0), true, true, 0, |list| + |l| + 1);
    SentinelTakesGaps(o, list, capacity);
    SentinelIsListedLast(o, list, Elements(z));
    ReadAll(o, z, q);
    MatchingAll(o, list, q);
    assert Reply(o, z, q) == l && Query(o, list, q) == list;
    RowsWithTextsAreRead(decode, list, l[..|l| - 1]);
  }

  /** The smallest case: one row that does not encode, cached alone, is read back as an empty array. */
  lemma LoneGapIsEmptyArray<T>(o: RangeOrder, decode: Decoder<T>, score: real)
    ensures var list := [Z(Fin(score), "")];
            && CachedRows(o, list, 1) == list
            && LookUp(o, Canonical(o, list, 1), OneAt(0)) == Some(list)
            && ArrayText(Members(list)) == "[]"
            && Direct(decode, Query(o, list, OneAt(0))) == DecodeError
  {
    hide Listing, Matching;
    var list := [Z(Fin(score), "")];
    CachedRowsShape(o, list, 1);
    ZAddFromEmpty(list);
    ListingUnique(o, list);
    ReadAll(o, Canonical(o, list, 1), OneAt(0));
    MatchingAll(o, list, OneAt(0));
    assert IsGap(list[0]);
  }

  // ------------------------------------------------------------ it is enough

  lemma EncodedListServed<T>(o: RangeOrder, decode: Decoder<T>, list: seq<Z>, capacity: int, q: RangeInfo)
    requires IsRowList(o, list) && CachedRowsEncode(list, capacity) && |list| < capacity
    ensures Served(o, decode, list, capacity, q)
  {
    assert IsSourceList(o, list);
    FiniteScoresAreWellPlaced(o, list, capacity);
    HitIsSourceAnswer(o, list, capacity, q);
    PageIsFromList(o, list, list, q, Clamp(q).limit);
    MatchingUnderClamp(o, list, q);
    var page := Query(o, list, Clamp(q));
    assert forall i :: 0 <= i < |page| ==> page[i] in page;
  }

  /** A page from a long list's key is never the sentinel, and a hit only if it is full. */
  lemma LongListReply(o: RangeOrder, list: seq<Z>, capacity: int, q: RangeInfo)
    requires IsRowList(o, list) && CachedRowsEncode(list, capacity) && 0 < capacity <= |list|
    ensures var page := Window(Matching(o, list[..capacity], q), q.offset, Clamp(q).limit);
            LookUp(o, Canonical(o, list, capacity), q) == if |page| == Clamp(q).limit then Some(page) else None
  {
    hide Within, Matching, Canonical, Reply, Listing;
    var rows := list[..capacity];
    CachedRowsShape(o, list, capacity);
    PrefixIsListed(o, list, capacity);
    FiniteRange(o, rows, q);
    PageIsFinite(o, rows, q, Clamp(q).limit);
    assert Reply(o, Canonical(o, list, capacity), q) == Window(Matching(o, rows, q), q.offset, Clamp(q).limit) by {
      ReplyIsWindow(o, Canonical(o, list, capacity), q);
    }
  }

  lemma ReplyIsWindow(o: RangeOrder, z: ZSet, q: RangeInfo)
    ensures Reply(o, z, q) ==
            Window(Within(Listing(o, Elements(z)), MinBound(o, q), MaxBound(o, q)), q.offset, Clamp(q).limit)
  {
  }

  lemma PrefixIsListed(o: RangeOrder, list: seq<Z>, capacity: int)
    requires IsRowList(o, list) && CachedRowsEncode(list, capacity) && 0 < capacity <= |list|
    ensures Listing(o, Elements(Canonical(o, list, capacity))) == list[..capacity]
  {
    hide Listing;
    var rows := list[..capacity];
    CachedRowsShape(o, list, capacity);
    assert DistinctMembers(rows) && Ordered(o, rows);
    ZAddFromEmpty(rows);
    ListingUnique(o, rows);
  }

  lemma FiniteRange(o: RangeOrder, rows: seq<Z>, q: RangeInfo)
    requires forall i :: 0 <= i < |rows| ==> rows[i].score.Fin?
    ensures Within(rows, MinBound(o, q), MaxBound(o, q)) == Matching(o, rows, q)
  {
    hide Within, Matching;
    WithinIsMatching(o, rows, q);
  }

  /** A page of rows with finite scores does not end with the sentinel. */
  lemma PageIsFinite(o: RangeOrder, rows: seq<Z>, q: RangeInfo, count: int)
    requires forall i :: 0 <= i < |rows| ==> rows[i].score.Fin?
    ensures !SeesFinal(o, Window(Matching(o, rows, q), q.offset, count))
  {
    hide Matching;
    PageIsFromList(o, rows, rows, q, count);
    var page := Window(Matching(o, rows, q), q.offset, count);
    if page != [] {
      assert page[|page| - 1] in page;
    }
  }

  lemma PageIsFromList(o: RangeOrder, rows: seq<Z>, list: seq<Z>, q: RangeInfo, count: int)
    requires forall x :: x in rows ==> x in list
    ensures forall x :: x in Window(Matching(o, rows, q), q.offset, count) ==> x in list
  {
    MatchingMembers(o, rows, q);
    var page := Window(Matching(o, rows, q), q.offset, count);
    forall x | x in page ensures x in list {
      var i :| 0 <= i < |page| && page[i] == x;
      WindowElement(Matching(o, rows, q), q.offset, count, i);
    }
  }

  lemma EncodedPrefixServed<T>(o: RangeOrder, decode: Decoder<T>, list: seq<Z>, capacity: int, q: RangeInfo)
    requires IsRowList(o, list) && CachedRowsEncode(list, capacity) && 0 < capacity <= |list|
    ensures Served(o, decode, list, capacity, q)
  {
    hide Canonical, Matching, LookUp, IsRowList;
    var rows, rest, n := list[..capacity], list[capacity..], Clamp(q).limit;
    var page := Window(Matching(o, rows, q), q.offset, n);
    LongListReply(o, list, capacity, q);
    if |page| == n {
      assert list == rows + rest;
      MatchingConcat(o, rows, rest, q);
      MatchingUnderClamp(o, list, q);
      FullWindowOfPrefix(Matching(o, rows, q), Matching(o, rest, q), q.offset, n);
      PageIsFromList(o, rows, rows, q, n);
      assert !HasGap(page) by {
        assert forall i :: 0 <= i < |page| ==> page[i] in rows;
      }
    }
  }

  // ------------------------------------------------------------------- result

  /** Without a cache: a page with a row that does not encode is an error. */
  lemma DirectAnswer<A(!new), T>(
      o: RangeOrder, encode: Encoder<A>, decode: Decoder<T>, source: Source<A>, list: seq<Z>, q: RangeInfo)
    requires Honours(o, encode, source, list) && source(q).Some? && forall a :: encode(a) != Some("")
    ensures FromSource(encode, decode, source(q)) == Direct(decode, Query(o, list, q))
  {
    var rows := source(q).value;
    var page := EncodeRows(encode, rows);
    assert page == Query(o, list, q);
    if Encodable(encode, rows) {
      assert forall i :: 0 <= i < |rows| ==> Some(page[i].member) == encode(rows[i].value);
    } else {
      var i :| 0 <= i < |rows| && encode(rows[i].value).None?;
      assert IsGap(page[i]);
    }
  }

  lemma ServedExactly<T(!new)>(o: RangeOrder, decode: Decoder<T>, list: seq<Z>, capacity: int)
    requires IsRowList(o, list) && ReadsTexts(decode, list)
    ensures (forall q :: Served(o, decode, list, capacity, q)) <==> CachedRowsEncode(list, capacity)
  {
    hide IsRowList, ReadsTexts, Served;
    if CachedRowsEncode(list, capacity) {
      forall q ensures Served(o, decode, list, capacity, q) {
        if capacity <= 0 {
          NothingCachedServed(o, decode, list, capacity, q);
        } else if |list| < capacity {
          EncodedListServed(o, decode, list, capacity, q);
        } else {
          EncodedPrefixServed(o, decode, list, capacity, q);
        }
      }
    } else if |list| < capacity {
      var q := GapInShortList(o, decode, list, capacity);
    } else {
      var q := GapInLongList(o, decode, list, capacity);
    }
  }

  lemma NothingCachedServed<T>(o: RangeOrder, decode: Decoder<T>, list: seq<Z>, capacity: int, q: RangeInfo)
    requires capacity <= 0
    ensures Served(o, decode, list, capacity, q)
  {
    CachedRowsShape(o, list, capacity);
    MissingKeyMisses(o, q);
  }

  /**
    Rows that do not encode, exactly: reading through a reloaded key, with Redis reachable or
    not, is always the same as asking the source if and only if every row that is cached encodes.
   */
  lemma {:induction false} UnencodedRowsExact<A(!new), T(!new)>(
      o: RangeOrder, encode: Encoder<A>, decode: Decoder<T>, source: Source<A>, list: seq<Z>, capacity: int)
    requires IsRowList(o, list) && ReadsTexts(decode, list) && Honours(o, encode, source, list)
    requires (forall q :: source(q).Some?) && forall a :: encode(a) != Some("")
    ensures (forall q, net :: GetOutcome(o, encode, decode, Canonical(o, list, capacity), source, q, net) ==
                              FromSource(encode, decode, source(Clamp(q))))
            <==> CachedRowsEncode(list, capacity)
  {
    hide IsRowList, ReadsTexts, Honours, Canonical, LookUp, FromSource, CachedRowsEncode;
    var z := Canonical(o, list, capacity);
    ServedExactly(o, decode, list, capacity);
    if CachedRowsEncode(list, capacity) {
      forall q, net
        ensures GetOutcome(o, encode, decode, z, source, q, net) == FromSource(encode, decode, source(Clamp(q)))
      {
        assert Served(o, decode, list, capacity, q);
        DirectAnswer(o, encode, decode, source, list, Clamp(q));
      }
    } else {
      var q :| !Served(o, decode, list, capacity, q);
      DirectAnswer(o, encode, decode, source, list, Clamp(q));
      assert GetOutcome(o, encode, decode, z, source, q, Fine) != FromSource(encode, decode, source(Clamp(q)));
    }
  }
}
