/** The orders and the stable sort behind sort.Slice and sort.Strings. */
module Sorting {
  import opened Basics

  ghost predicate TotalPreorder<T(!new)>(le: (T, T) -> bool) {
    && (forall x, y :: le(x, y) || le(y, x))
    && (forall x, y, z :: le(x, y) && le(y, z) ==> le(x, z))
  }

  ghost predicate TotalOrder<T(!new)>(le: (T, T) -> bool) {
    && TotalPreorder(le)
    && (forall x, y :: le(x, y) && le(y, x) ==> x == y)
  }

  predicate Sorted<T>(le: (T, T) -> bool, s: seq<T>) {
    forall i, j :: 0 <= i < j < |s| ==> le(s[i], s[j])
  }

  ghost predicate StrictlySorted<T>(le: (T, T) -> bool, s: seq<T>) {
    forall i, j :: 0 <= i < j < |s| ==> le(s[i], s[j]) && s[i] != s[j]
  }

  /** Puts x before the first element that it may precede. */
  function Insert<T>(le: (T, T) -> bool, x: T, s: seq<T>): seq<T> {
    if s == [] || le(x, s[0]) then [x] + s else [s[0]] + Insert(le, x, s[1..])
  }

  /** A stable sort. */
  function Sort<T>(le: (T, T) -> bool, s: seq<T>): seq<T> {
    if s == [] then [] else Insert(le, s[0], Sort(le, s[1..]))
  }

  lemma {:induction false} InsertElements<T>(le: (T, T) -> bool, x: T, s: seq<T>)
    ensures multiset(Insert(le, x, s)) == multiset{x} + multiset(s)
  {
    if s != [] && !le(x, s[0]) {
      InsertElements(le, x, s[1..]);
      assert s == [s[0]] + s[1..];
    }
  }

  lemma {:induction false} InsertSorted<T(!new)>(le: (T, T) -> bool, x: T, s: seq<T>)
    requires TotalPreorder(le) && Sorted(le, s)
    ensures Sorted(le, Insert(le, x, s))
  {
    if s != [] && !le(x, s[0]) {
      var r := Insert(le, x, s[1..]);
      InsertSorted(le, x, s[1..]);
      InsertElements(le, x, s[1..]);
      forall j | 0 <= j < |r| ensures le(s[0], r[j]) {
        assert r[j] in multiset(r);
        assert r[j] == x || r[j] in s[1..];
      }
    }
  }

  lemma {:induction false} SortKeeps<T(!new)>(le: (T, T) -> bool, s: seq<T>)
    ensures multiset(Sort(le, s)) == multiset(s)
    ensures |Sort(le, s)| == |s|
    ensures forall x :: x in Sort(le, s) <==> x in s
    ensures TotalPreorder(le) ==> Sorted(le, Sort(le, s))
  {
    if s != [] {
      SortKeeps(le, s[1..]);
      InsertElements(le, s[0], Sort(le, s[1..]));
      if TotalPreorder(le) {
        InsertSorted(le, s[0], Sort(le, s[1..]));
      }
      assert s == [s[0]] + s[1..];
    }
    SameElements(Sort(le, s), s);
  }

  lemma SameElements<T>(s: seq<T>, t: seq<T>)
    requires multiset(s) == multiset(t)
    ensures |s| == |t|
    ensures forall x :: x in s <==> x in t
  {
    assert |multiset(s)| == |s| && |multiset(t)| == |t|;
    assert forall x :: x in s <==> x in multiset(s);
    assert forall x :: x in t <==> x in multiset(t);
  }

  lemma SameElementsTail<T>(s: seq<T>, t: seq<T>)
    requires multiset(s) == multiset(t) && s != [] && t != [] && s[0] == t[0]
    ensures multiset(s[1..]) == multiset(t[1..])
  {
    assert s == [s[0]] + s[1..] && t == [t[0]] + t[1..];
    assert multiset(s[1..]) == multiset(s) - multiset{s[0]};
    assert multiset(t[1..]) == multiset(t) - multiset{t[0]};
  }

  /** Sorting leaves exactly the sorted sequences alone. */
  lemma {:induction false} SortFixpoint<T(!new)>(le: (T, T) -> bool, s: seq<T>)
    requires TotalPreorder(le)
    ensures Sort(le, s) == s <==> Sorted(le, s)
  {
    if Sorted(le, s) {
      SortOfSorted(le, s);
    } else {
      SortKeeps(le, s);
    }
  }

  lemma {:induction false} SortOfSorted<T>(le: (T, T) -> bool, s: seq<T>)
    requires Sorted(le, s)
    ensures Sort(le, s) == s
  {
    if s != [] {
      SortOfSorted(le, s[1..]);
    }
  }

  lemma SortIdempotent<T(!new)>(le: (T, T) -> bool, s: seq<T>)
    requires TotalPreorder(le)
    ensures Sort(le, Sort(le, s)) == Sort(le, s)
  {
    SortKeeps(le, s);
    SortOfSorted(le, Sort(le, s));
  }

  // ---------------------------------------------------------------------
  // Stability
  // ---------------------------------------------------------------------

  predicate Tied<T>(le: (T, T) -> bool, x: T, y: T) {
    le(x, y) && le(y, x)
  }

  /** The subsequence of the elements that tie with x. */
  function Ties<T>(le: (T, T) -> bool, x: T, s: seq<T>): seq<T> {
    if s == [] then []
    else (if Tied(le, x, s[0]) then [s[0]] else []) + Ties(le, x, s[1..])
  }

  /** Elements that tie keep their relative order. */
  lemma {:induction false} SortStable<T(!new)>(le: (T, T) -> bool, x: T, s: seq<T>)
    requires TotalPreorder(le)
    ensures Ties(le, x, Sort(le, s)) == Ties(le, x, s)
  {
    if s != [] {
      SortStable(le, x, s[1..]);
      InsertStable(le, x, s[0], Sort(le, s[1..]));
    }
  }

  lemma {:induction false} InsertStable<T(!new)>(le: (T, T) -> bool, x: T, y: T, s: seq<T>)
    requires TotalPreorder(le)
    ensures Ties(le, x, Insert(le, y, s)) == (if Tied(le, x, y) then [y] else []) + Ties(le, x, s)
  {
    if s == [] || le(y, s[0]) {
      assert ([y] + s)[1..] == s;
    } else {
      var r := Insert(le, y, s[1..]);
      assert ([s[0]] + r)[1..] == r;
      InsertStable(le, x, y, s[1..]);
      var none: seq<T> := [];
      if Tied(le, x, y) {
        assert !Tied(le, x, s[0]);
        assert Ties(le, x, s) == none + Ties(le, x, s[1..]) == Ties(le, x, s[1..]);
      } else {
        assert none + Ties(le, x, s[1..]) == Ties(le, x, s[1..]);
        assert none + Ties(le, x, s) == Ties(le, x, s);
      }
    }
  }

  /**
   * Sorting is the only stable rearrangement into order: it is the sequence whose ties with
   * every element are those of the input.
   */
  lemma {:induction false} SortedUnique<T(!new)>(le: (T, T) -> bool, s: seq<T>, t: seq<T>)
    requires TotalPreorder(le) && Sorted(le, s) && Sorted(le, t)
    requires forall x :: Ties(le, x, s) == Ties(le, x, t)
    ensures s == t
  {
    hide Ties;
    if s != [] {
      TiesOfTail(le, s[0], s);
      assert Tied(le, s[0], s[0]) && Ties(le, s[0], t) != [];
    }
    if t != [] {
      TiesOfTail(le, t[0], t);
      assert Tied(le, t[0], t[0]) && Ties(le, t[0], s) != [];
    }
    NoTies(le, s, t);
    if s != [] {
      assert t != [];
      TiesMember(le, s[0], t);
      TiesMember(le, t[0], s);
      assert le(s[0], t[0]) && le(t[0], s[0]);
      TiesOfTail(le, s[0], s);
      TiesOfTail(le, s[0], t);
      assert s[0] == t[0];
      forall x ensures Ties(le, x, s[1..]) == Ties(le, x, t[1..]) {
        TiesOfTail(le, x, s);
        TiesOfTail(le, x, t);
      }
      SortedUnique(le, s[1..], t[1..]);
      assert s == [s[0]] + s[1..] && t == [t[0]] + t[1..];
    }
  }

  lemma NoTies<T>(le: (T, T) -> bool, s: seq<T>, t: seq<T>)
    ensures s == [] ==> forall x :: Ties(le, x, s) == []
    ensures t == [] ==> forall x :: Ties(le, x, t) == []
  {
  }

  lemma TiesOfTail<T>(le: (T, T) -> bool, x: T, s: seq<T>)
    requires s != []
    ensures if Tied(le, x, s[0]) then Ties(le, x, s) != [] && Ties(le, x, s)[0] == s[0] && Ties(le, x, s[1..]) == Ties(le, x, s)[1..]
            else Ties(le, x, s[1..]) == Ties(le, x, s)
  {
  }

  lemma {:induction false} TiesMember<T>(le: (T, T) -> bool, x: T, s: seq<T>)
    requires Ties(le, x, s) != []
    ensures exists i :: 0 <= i < |s| && Tied(le, x, s[i])
  {
    if !Tied(le, x, s[0]) {
      TiesMember(le, x, s[1..]);
      var i :| 0 <= i < |s[1..]| && Tied(le, x, s[1..][i]);
      assert Tied(le, x, s[i + 1]);
    }
  }

  // ---------------------------------------------------------------------
  // Strictly ascending enumerations
  // ---------------------------------------------------------------------

  /** Drops every element equal to the one before it. */
  function Uniq<T(==)>(s: seq<T>): seq<T> {
    if |s| <= 1 then s
    else if s[|s| - 1] == s[|s| - 2] then Uniq(s[..|s| - 1])
    else Uniq(s[..|s| - 1]) + [s[|s| - 1]]
  }

  function SortedSet<T(==)>(le: (T, T) -> bool, s: seq<T>): seq<T> {
    Uniq(Sort(le, s))
  }

  lemma {:induction false} UniqKeeps<T(!new)>(le: (T, T) -> bool, s: seq<T>)
    requires TotalOrder(le) && Sorted(le, s)
    ensures StrictlySorted(le, Uniq(s))
    ensures forall x :: x in Uniq(s) <==> x in s
    ensures |Uniq(s)| <= |s|
    ensures s != [] ==> Uniq(s) != [] && Uniq(s)[|Uniq(s)| - 1] == s[|s| - 1]
  {
    if |s| > 1 {
      var front, last := s[..|s| - 1], s[|s| - 1];
      UniqKeeps(le, front);
      assert s == front + [last];
      var u := Uniq(front);
      if last != s[|s| - 2] {
        forall i | 0 <= i < |u| ensures le(u[i], last) && u[i] != last {
          assert u[i] in front;
          assert le(u[i], s[|s| - 2]);
          assert le(s[|s| - 2], last);
        }
      }
    }
  }

  /** The strictly ascending enumeration of the elements of s. */
  lemma SortedSetKeeps<T(!new)>(le: (T, T) -> bool, s: seq<T>)
    requires TotalOrder(le)
    ensures StrictlySorted(le, SortedSet(le, s))
    ensures forall x :: x in SortedSet(le, s) <==> x in s
    ensures |SortedSet(le, s)| <= |s|
  {
    SortKeeps(le, s);
    UniqKeeps(le, Sort(le, s));
  }

  /** A set has one strictly ascending enumeration. */
  lemma {:induction false} EnumerationUnique<T(!new)>(le: (T, T) -> bool, s: seq<T>, t: seq<T>)
    requires TotalOrder(le) && StrictlySorted(le, s) && StrictlySorted(le, t)
    requires forall x :: x in s <==> x in t
    ensures s == t
  {
    assert s != [] ==> s[0] in t;
    assert t != [] ==> t[0] in s;
    if s != [] {
      assert t != [];
      assert le(s[0], t[0]) && le(t[0], s[0]);
      forall x ensures x in s[1..] <==> x in t[1..] {
        assert x in s[1..] <==> x in s && x != s[0];
        assert x in t[1..] <==> x in t && x != t[0];
      }
      EnumerationUnique(le, s[1..], t[1..]);
      assert s == [s[0]] + s[1..] && t == [t[0]] + t[1..];
    }
  }

  /** Under a total order a multiset has one sorted arrangement. */
  lemma {:induction false} ArrangementUnique<T(!new)>(le: (T, T) -> bool, s: seq<T>, t: seq<T>)
    requires TotalOrder(le) && Sorted(le, s) && Sorted(le, t) && multiset(s) == multiset(t)
    ensures s == t
  {
    SameElements(s, t);
    if s != [] {
      assert s[0] in t && t[0] in s;
      FirstUnique(le, s, t);
      SameElementsTail(s, t);
      ArrangementUnique(le, s[1..], t[1..]);
      assert s == [s[0]] + s[1..] && t == [t[0]] + t[1..];
    }
  }

  lemma FirstUnique<T(!new)>(le: (T, T) -> bool, s: seq<T>, t: seq<T>)
    requires TotalOrder(le) && Sorted(le, s) && Sorted(le, t)
    requires s != [] && t != [] && s[0] in t && t[0] in s
    ensures s[0] == t[0]
  {
    var i :| 0 <= i < |t| && t[i] == s[0];
    var j :| 0 <= j < |s| && s[j] == t[0];
    assert le(s[0], s[0]) && le(t[0], t[0]);
  }

  ghost predicate Distinct<T>(s: seq<T>) {
    forall i, j :: 0 <= i < j < |s| ==> s[i] != s[j]
  }

  /** Distinct elements in sorted order are strictly sorted. */
  lemma DistinctSorted<T(!new)>(le: (T, T) -> bool, list: seq<T>, sorted: seq<T>)
    requires multiset(list) == multiset(sorted) && Sorted(le, sorted) && Distinct(list)
    ensures StrictlySorted(le, sorted)
  {
    forall i, j | 0 <= i < j < |sorted| ensures sorted[i] != sorted[j] {
      if sorted[i] == sorted[j] {
        CountTwice(sorted, i, j);
        CountOnce(list, sorted[i]);
      }
    }
  }

  lemma CountTwice<T>(s: seq<T>, i: nat, j: nat)
    requires i < j < |s| && s[i] == s[j]
    ensures multiset(s)[s[i]] >= 2
  {
    assert s == s[..j] + s[j..];
    assert multiset(s) == multiset(s[..j]) + multiset(s[j..]);
    assert s[i] == s[..j][i] && s[i] == s[j..][0];
    assert s[i] in multiset(s[..j]) && s[i] in multiset(s[j..]);
  }

  lemma {:induction false} CountOnce<T>(s: seq<T>, x: T)
    requires Distinct(s)
    ensures multiset(s)[x] <= 1
  {
    if s != [] {
      CountOnce(s[1..], x);
      assert s == [s[0]] + s[1..];
      if x == s[0] {
        assert x !in s[1..];
        assert multiset(s[1..])[x] == 0;
      }
    }
  }

  /** Turning distinct elements into an ascending enumeration loses none. */
  lemma SortedSetOfDistinct<T(!new)>(le: (T, T) -> bool, s: seq<T>)
    requires TotalOrder(le) && Distinct(s)
    ensures SortedSet(le, s) == Sort(le, s) && StrictlySorted(le, Sort(le, s)) && |Sort(le, s)| == |s|
  {
    SortKeeps(le, s);
    DistinctSorted(le, s, Sort(le, s));
    UniqOfStrict(le, Sort(le, s));
  }

  /** An enumeration that already has no duplicates only needs sorting. */
  lemma {:induction false} UniqOfStrict<T>(le: (T, T) -> bool, s: seq<T>)
    requires StrictlySorted(le, s)
    ensures Uniq(s) == s
  {
    if |s| > 1 {
      UniqOfStrict(le, s[..|s| - 1]);
    }
  }

  // ---------------------------------------------------------------------
  // The orders used
  // ---------------------------------------------------------------------

  predicate LeU64(x: u64, y: u64) { x <= y }

  /** Go's string order: bytewise lexicographic. */
  predicate LeBytes(x: bytes, y: bytes) {
    x == [] || (y != [] && (x[0] < y[0] || (x[0] == y[0] && LeBytes(x[1..], y[1..]))))
  }

  /** They first differ at i, where x has the smaller byte. */
  predicate SmallerAt(x: bytes, y: bytes, i: nat) {
    i < |x| && i < |y| && x[..i] == y[..i] && x[i] < y[i]
  }

  /** The order of byte strings as it is meant: a prefix first, else the smaller byte where they first differ. */
  ghost predicate InByteOrder(x: bytes, y: bytes) {
    x <= y || exists i: nat :: SmallerAt(x, y, i)
  }

  lemma {:induction false} LeBytesExact(x: bytes, y: bytes)
    ensures LeBytes(x, y) <==> InByteOrder(x, y)
  {
    hide InByteOrder;
    if x == [] || y == [] {
      EmptyFirst(x, y);
    } else if x[0] == y[0] {
      LeBytesExact(x[1..], y[1..]);
      SameFirstByte(x, y);
    } else {
      OtherFirstByte(x, y);
    }
  }

  lemma EmptyFirst(x: bytes, y: bytes)
    requires x == [] || y == []
    ensures InByteOrder(x, y) <==> x == []
  {
  }

  lemma OtherFirstByte(x: bytes, y: bytes)
    requires x != [] && y != [] && x[0] != y[0]
    ensures InByteOrder(x, y) <==> x[0] < y[0]
  {
    assert x[..0] == y[..0];
    if x[0] < y[0] {
      assert SmallerAt(x, y, 0);
    }
    if InByteOrder(x, y) {
      var i: nat :| SmallerAt(x, y, i);
      if i > 0 {
        AgreeBefore(x, y, i, 0);
        assert false;
      }
    }
  }

  lemma AgreeBefore(x: bytes, y: bytes, i: nat, k: nat)
    requires SmallerAt(x, y, i) && k < i
    ensures x[k] == y[k]
  {
    assert x[..i][k] == x[k] && y[..i][k] == y[k];
  }

  lemma SameFirstByte(x: bytes, y: bytes)
    requires x != [] && y != [] && x[0] == y[0]
    ensures InByteOrder(x, y) <==> InByteOrder(x[1..], y[1..])
  {
    hide SmallerAt;
    PrefixOfTails(x, y);
    if i: nat :| SmallerAt(x[1..], y[1..], i) {
      SmallerInTails(x, y, i);
    }
    if i: nat :| SmallerAt(x, y, i) {
      assert i > 0 by { DifferentThere(x, y, i); }
      SmallerInTails(x, y, i - 1);
    }
  }

  lemma DifferentThere(x: bytes, y: bytes, i: nat)
    requires SmallerAt(x, y, i)
    ensures i < |x| && i < |y| && x[i] != y[i]
  {
  }

  lemma PrefixOfTails(x: bytes, y: bytes)
    requires x != [] && y != [] && x[0] == y[0]
    ensures x <= y <==> x[1..] <= y[1..]
  {
    assert x == [x[0]] + x[1..] && y == [y[0]] + y[1..];
  }

  lemma SmallerInTails(x: bytes, y: bytes, i: nat)
    requires x != [] && y != [] && x[0] == y[0]
    ensures SmallerAt(x, y, i + 1) <==> SmallerAt(x[1..], y[1..], i)
  {
    if i + 1 < |x| && i + 1 < |y| {
      assert x[..i + 1] == [x[0]] + x[1..][..i] && y[..i + 1] == [y[0]] + y[1..][..i];
      assert x[1..][..i] == x[..i + 1][1..] && y[1..][..i] == y[..i + 1][1..];
    }
  }

  /** Sequences of byte strings in ascending order, repetitions allowed. */
  ghost predicate Ascending(s: seq<bytes>) {
    forall i, j :: 0 <= i < j < |s| ==> InByteOrder(s[i], s[j])
  }

  lemma SortedAscends(s: seq<bytes>)
    ensures Sorted(LeBytes, s) <==> Ascending(s)
  {
    hide InByteOrder, LeBytes;
    forall i, j | 0 <= i < j < |s| ensures LeBytes(s[i], s[j]) <==> InByteOrder(s[i], s[j]) {
      LeBytesExact(s[i], s[j]);
    }
  }

  lemma {:induction false} LeBytesTotal(x: bytes, y: bytes)
    ensures LeBytes(x, y) || LeBytes(y, x)
    ensures LeBytes(x, y) && LeBytes(y, x) ==> x == y
  {
    if x != [] && y != [] {
      LeBytesTotal(x[1..], y[1..]);
      assert x == [x[0]] + x[1..] && y == [y[0]] + y[1..];
    }
  }

  lemma {:induction false} LeBytesTransitive(x: bytes, y: bytes, z: bytes)
    requires LeBytes(x, y) && LeBytes(y, z)
    ensures LeBytes(x, z)
  {
    if x != [] && x[0] == y[0] == z[0] {
      LeBytesTransitive(x[1..], y[1..], z[1..]);
    }
  }

  lemma Orders()
    ensures TotalOrder(LeU64)
    ensures TotalOrder(LeBytes)
  {
    forall x: bytes, y: bytes
      ensures LeBytes(x, y) || LeBytes(y, x)
      ensures LeBytes(x, y) && LeBytes(y, x) ==> x == y
    {
      LeBytesTotal(x, y);
    }
    forall x: bytes, y: bytes, z: bytes | LeBytes(x, y) && LeBytes(y, z) ensures LeBytes(x, z) {
      LeBytesTransitive(x, y, z);
    }
  }
}
