/**
  Redis sorted sets, as far as the page cache uses them: the order of entries
  (score first, then member bytes), reading by score in either direction, and ZADD.
 */
module SortedSets {

  datatype Score = NegInf | Fin(v: real) | PosInf

  /** One entry of a sorted set, the client library's `redis.Z`. */
  datatype Z = Z(score: Score, member: string)

  /** The direction in which a list is read. */
  datatype RangeOrder = HighToLow | LowToHigh

  /** A sorted set keeps one score per member. A missing key reads as the empty set. */
  type ZSet = map<string, Score>

  // ---------------------------------------------------------------- order

  predicate Below(a: Score, b: Score) {
    a != b && (a.NegInf? || b.PosInf? || (a.Fin? && b.Fin? && a.v < b.v))
  }

  predicate LexLess(a: string, b: string) {
    b != [] && (a == [] || a[0] < b[0] || (a[0] == b[0] && LexLess(a[1..], b[1..])))
  }

  predicate ZLess(x: Z, y: Z) {
    Below(x.score, y.score) || (x.score == y.score && LexLess(x.member, y.member))
  }

  /** x comes before y when the set is read in direction o. */
  predicate Precedes(o: RangeOrder, x: Z, y: Z) {
    if o.HighToLow? then ZLess(y, x) else ZLess(x, y)
  }

  ghost predicate Ordered(o: RangeOrder, s: seq<Z>) {
    forall i, j {:trigger Precedes(o, s[i], s[j])} :: 0 <= i < j < |s| ==> Precedes(o, s[i], s[j])
  }

  ghost predicate DistinctMembers(s: seq<Z>) {
    forall i, j :: 0 <= i < j < |s| ==> s[i].member != s[j].member
  }

  lemma {:induction false} LexTrichotomy(a: string, b: string)
    ensures a == b || LexLess(a, b) || LexLess(b, a)
    ensures !(LexLess(a, b) && LexLess(b, a))
    ensures !LexLess(a, a)
  {
    if a != [] && b != [] {
      LexTrichotomy(a[1..], b[1..]);
      LexTrichotomy(a[1..], a[1..]);
      if a[0] == b[0] && a[1..] == b[1..] {
        assert a == [a[0]] + a[1..] && b == [b[0]] + b[1..];
      }
    } else if a != [] {
      LexTrichotomy(a[1..], a[1..]);
    }
  }

  lemma {:induction false} LexTransitive(a: string, b: string, c: string)
    requires LexLess(a, b) && LexLess(b, c)
    ensures LexLess(a, c)
  {
    if a == [] || a[0] != b[0] || b[0] != c[0] {
    } else {
      LexTransitive(a[1..], b[1..], c[1..]);
    }
  }

  /** The reading order is a strict total order on entries. */
  lemma PrecedesTotal(o: RangeOrder, x: Z, y: Z)
    ensures x == y || Precedes(o, x, y) || Precedes(o, y, x)
    ensures !(Precedes(o, x, y) && Precedes(o, y, x))
    ensures !Precedes(o, x, x)
  {
    LexTrichotomy(x.member, y.member);
    LexTrichotomy(x.member, x.member);
  }

  lemma PrecedesTransitive(o: RangeOrder, x: Z, y: Z, z: Z)
    requires Precedes(o, x, y) && Precedes(o, y, z)
    ensures Precedes(o, x, z)
  {
    if x.score == y.score && y.score == z.score {
      if o.HighToLow? {
        LexTransitive(z.member, y.member, x.member);
      } else {
        LexTransitive(x.member, y.member, z.member);
      }
    }
  }

  // -------------------------------------------------------------- listing

  predicate IsFirst(o: RangeOrder, s: set<Z>, x: Z) {
    x in s && forall y :: y in s && y != x ==> Precedes(o, x, y)
  }

  lemma {:induction false} FirstExists(o: RangeOrder, s: set<Z>)
    requires s != {}
    ensures exists x :: IsFirst(o, s, x)
    decreases |s|
  {
    var e :| e in s;
    if s == {e} {
      assert IsFirst(o, s, e);
    } else {
      var rest := s - {e};
      assert s == rest + {e};
      FirstExists(o, rest);
      var m :| IsFirst(o, rest, m);
      PrecedesTotal(o, e, m);
      if Precedes(o, e, m) {
        forall y | y in s && y != e ensures Precedes(o, e, y) {
          if y != m {
            PrecedesTransitive(o, e, m, y);
          }
        }
        assert IsFirst(o, s, e);
      } else {
        assert IsFirst(o, s, m);
      }
    }
  }

  lemma FirstUnique(o: RangeOrder, s: set<Z>)
    ensures forall x, y :: IsFirst(o, s, x) && IsFirst(o, s, y) ==> x == y
  {
    forall x, y | IsFirst(o, s, x) && IsFirst(o, s, y) ensures x == y {
      PrecedesTotal(o, x, y);
    }
  }

  function First(o: RangeOrder, s: set<Z>): (x: Z)
    requires s != {}
    ensures IsFirst(o, s, x)
  {
    FirstExists(o, s);
    FirstUnique(o, s);
    var x :| IsFirst(o, s, x);
    x
  }

  /** The entries of a set in the order Redis returns them when reading in direction o. */
  function Listing(o: RangeOrder, s: set<Z>): seq<Z>
    decreases |s|
  {
    if s == {} then [] else
      var x := First(o, s);
      [x] + Listing(o, s - {x})
  }

  function Elements(z: ZSet): set<Z> {
    set m | m in z :: Z(z[m], m)
  }

  ghost function RowSet(rows: seq<Z>): set<Z> {
    set i | 0 <= i < |rows| :: rows[i]
  }

  lemma RowSetCons(x: Z, t: seq<Z>)
    ensures RowSet([x] + t) == {x} + RowSet(t)
  {
    var l := [x] + t;
    assert l[0] == x;
    forall i | 0 <= i < |t| ensures t[i] in RowSet(l) {
      assert l[i + 1] == t[i];
    }
    forall i | 0 <= i < |l| ensures l[i] in {x} + RowSet(t) {
      if i > 0 {
        assert l[i] == t[i - 1];
      }
    }
  }

  lemma OrderedCons(o: RangeOrder, x: Z, t: seq<Z>)
    requires Ordered(o, t) && forall y :: y in RowSet(t) ==> Precedes(o, x, y)
    ensures Ordered(o, [x] + t)
  {
    var l := [x] + t;
    forall i, j | 0 <= i < j < |l| ensures Precedes(o, l[i], l[j]) {
      assert l[j] == t[j - 1] && t[j - 1] in RowSet(t);
      assert i > 0 ==> l[i] == t[i - 1] && Precedes(o, t[i - 1], t[j - 1]);
    }
  }

  /** A listing is ordered and holds exactly the entries of the set. */
  lemma {:induction false} ListingSound(o: RangeOrder, s: set<Z>)
    ensures Ordered(o, Listing(o, s)) && RowSet(Listing(o, s)) == s
    decreases |s|
  {
    if s == {} {
    } else {
      var x := First(o, s);
      ListingSound(o, s - {x});
      RowSetCons(x, Listing(o, s - {x}));
      OrderedCons(o, x, Listing(o, s - {x}));
    }
  }

  /** An ordered list of rows is the only listing of its own set of entries. */
  lemma {:induction false} ListingUnique(o: RangeOrder, rows: seq<Z>)
    requires Ordered(o, rows)
    ensures Listing(o, RowSet(rows)) == rows
    decreases |rows|
  {
    if rows == [] {
      assert RowSet(rows) == {};
    } else {
      var s, t := RowSet(rows), rows[1..];
      assert rows[0] in s;
      assert IsFirst(o, s, rows[0]);
      FirstUnique(o, s);
      PrecedesIrreflexiveIn(o, rows);
      assert rows == [rows[0]] + t;
      RowSetCons(rows[0], t);
      assert s - {rows[0]} == RowSet(t);
      ListingUnique(o, t);
    }
  }

  lemma PrecedesIrreflexiveIn(o: RangeOrder, rows: seq<Z>)
    requires Ordered(o, rows)
    ensures forall i, j :: 0 <= i < j < |rows| ==> rows[i] != rows[j]
  {
    forall i, j | 0 <= i < j < |rows| ensures rows[i] != rows[j] {
      PrecedesTotal(o, rows[i], rows[j]);
    }
  }

  ghost function Reversed(s: seq<Z>): (r: seq<Z>)
    ensures |r| == |s| && forall i :: 0 <= i < |s| ==> r[i] == s[|s| - 1 - i]
  {
    seq(|s|, i requires 0 <= i < |s| => s[|s| - 1 - i])
  }

  lemma ReversedHoldsTheSame(s: seq<Z>)
    ensures RowSet(Reversed(s)) == RowSet(s)
  {
    var r := Reversed(s);
    forall i | 0 <= i < |s| ensures s[i] in RowSet(r) {
      assert s[i] == r[|s| - 1 - i];
    }
    forall i | 0 <= i < |s| ensures r[i] in RowSet(s) {
      assert r[i] == s[|s| - 1 - i];
    }
  }

  /** Reading from the high end returns the same entries backwards. */
  lemma HighToLowIsReverse(s: set<Z>)
    ensures Listing(HighToLow, s) == Reversed(Listing(LowToHigh, s))
  {
    ListingSound(LowToHigh, s);
    var up := Listing(LowToHigh, s);
    var down := Reversed(up);
    ReversedHoldsTheSame(up);
    forall i, j | 0 <= i < j < |down| ensures Precedes(HighToLow, down[i], down[j]) {
      assert Precedes(LowToHigh, up[|up| - 1 - j], up[|up| - 1 - i]);
    }
    ListingUnique(HighToLow, down);
  }

  // ---------------------------------------------------------------- ZADD

  /** ZADD writes the rows in turn; a member already present only changes its score. */
  function ZAdd(z: ZSet, rows: seq<Z>): ZSet
    decreases |rows|
  {
    if rows == [] then z else ZAdd(z[rows[0].member := rows[0].score], rows[1..])
  }

  /** What every member's score is after a ZADD of rows with distinct members. */
  lemma {:induction false} ZAddScores(z: ZSet, rows: seq<Z>)
    requires DistinctMembers(rows)
    ensures forall i :: 0 <= i < |rows| ==>
              rows[i].member in ZAdd(z, rows) && ZAdd(z, rows)[rows[i].member] == rows[i].score
    ensures forall m :: (forall i :: 0 <= i < |rows| ==> rows[i].member != m) ==>
                          (m in ZAdd(z, rows) <==> m in z) && (m in z ==> ZAdd(z, rows)[m] == z[m])
    decreases |rows|
  {
    if rows == [] {
    } else {
      var z', t := z[rows[0].member := rows[0].score], rows[1..];
      assert forall i :: 0 <= i < |t| ==> t[i] == rows[i + 1];
      ZAddScores(z', t);
      forall i | 0 <= i < |rows|
        ensures rows[i].member in ZAdd(z, rows) && ZAdd(z, rows)[rows[i].member] == rows[i].score
      {
        if i > 0 {
          assert rows[i] == t[i - 1];
        } else {
          assert forall k :: 0 <= k < |t| ==> t[k].member != rows[0].member;
        }
      }
      forall m | forall i :: 0 <= i < |rows| ==> rows[i].member != m
        ensures (m in ZAdd(z, rows) <==> m in z) && (m in z ==> ZAdd(z, rows)[m] == z[m])
      {
        assert m != rows[0].member;
        assert forall k :: 0 <= k < |t| ==> t[k].member != m;
      }
    }
  }

  /** A set built from rows with distinct members holds exactly those rows. */
  lemma ZAddFromEmpty(rows: seq<Z>)
    requires DistinctMembers(rows)
    ensures Elements(ZAdd(map[], rows)) == RowSet(rows)
  {
    ZAddScores(map[], rows);
    var z := ZAdd(map[], rows);
    forall x | x in Elements(z) ensures x in RowSet(rows) {
      if forall i :: 0 <= i < |rows| ==> rows[i].member != x.member {
        assert false;
      }
      var i :| 0 <= i < |rows| && rows[i].member == x.member;
      assert rows[i] == x;
    }
    forall x | x in RowSet(rows) ensures x in Elements(z) {
      var i :| 0 <= i < |rows| && rows[i] == x;
    }
  }

  /** Adding the same rows a second time changes nothing. */
  lemma ZAddTwice(rows: seq<Z>)
    requires DistinctMembers(rows)
    ensures ZAdd(ZAdd(map[], rows), rows) == ZAdd(map[], rows)
  {
    var z := ZAdd(map[], rows);
    ZAddScores(map[], rows);
    ZAddScores(z, rows);
    var z' := ZAdd(z, rows);
    forall m ensures m in z' <==> m in z {
      if exists i :: 0 <= i < |rows| && rows[i].member == m {
      }
    }
    forall m | m in z ensures z'[m] == z[m] {
      if exists i :: 0 <= i < |rows| && rows[i].member == m {
      }
    }
    assert z' == z;
  }

  // --------------------------------------------------------- range by score

  datatype Bound = Bound(score: Score, exclusive: bool)

  predicate InRange(min: Bound, max: Bound, x: Score) {
    && (Below(min.score, x) || (!min.exclusive && min.score == x))
    && (Below(x, max.score) || (!max.exclusive && max.score == x))
  }

  function Within(s: seq<Z>, min: Bound, max: Bound): seq<Z> {
    if s == [] then []
    else (if InRange(min, max, s[0].score) then [s[0]] else []) + Within(s[1..], min, max)
  }

  /** LIMIT offset count. Redis skips past the end on a negative offset. */
  function Window<T>(s: seq<T>, offset: int, count: int): seq<T> {
    if offset < 0 || count <= 0 || offset >= |s| then []
    else if offset + count <= |s| then s[offset..offset + count]
    else s[offset..]
  }

  lemma WindowElement<T>(s: seq<T>, offset: int, count: int, i: int)
    requires 0 <= i < |Window(s, offset, count)|
    ensures 0 <= offset + i < |s| && Window(s, offset, count)[i] == s[offset + i]
  {
  }

  /** Z[REV]RANGEBYSCORE key min max WITHSCORES LIMIT offset count. */
  function RangeByScore(o: RangeOrder, z: ZSet, min: Bound, max: Bound, offset: int, count: int): seq<Z> {
    Window(Within(Listing(o, Elements(z)), min, max), offset, count)
  }
}
