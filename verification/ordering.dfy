/**
  The order of both list endpoints: `sort(key=lambda x: x.get("created_at", ""),
  reverse=True)`, newest first, with a missing `created_at` read as the empty string.
 */
module Ordering {
  import opened Text
  import opened Records

  /** The sort key: `created_at`, or the empty string when the document has none. */
  function SortKey(v: View): string {
    v.createdAt.GetOr("")
  }

  /** Keys never increase along the sequence. */
  predicate NewestFirst(vs: seq<View>) {
    forall i, j :: 0 <= i < j < |vs| ==> LessEq(SortKey(vs[j]), SortKey(vs[i]))
  }

  /** No two elements share a sort key. */
  predicate DistinctKeys(vs: seq<View>) {
    forall i, j :: 0 <= i < j < |vs| ==> SortKey(vs[i]) != SortKey(vs[j])
  }

  /** Puts `v` before the first element with a strictly smaller key, so that it
      lands after the elements with an equal key (the stable placement). */
  function Insert(v: View, vs: seq<View>): (r: seq<View>)
    requires NewestFirst(vs)
    ensures NewestFirst(r)
    ensures multiset(r) == multiset(vs) + multiset{v}
    decreases |vs|
  {
    if vs == [] then [v]
    else if Less(SortKey(vs[0]), SortKey(v)) then
      InsertInFront(v, vs);
      [v] + vs
    else
      var rest := Insert(v, vs[1..]);
      InsertBehind(v, vs, rest);
      [vs[0]] + rest
  }

  /** A key above the first key of a newest-first list may go in front of it. */
  lemma InsertInFront(v: View, vs: seq<View>)
    requires NewestFirst(vs) && vs != []
    requires Less(SortKey(vs[0]), SortKey(v))
    ensures NewestFirst([v] + vs)
  {
    var r := [v] + vs;
    forall i, j | 0 <= i < j < |r| ensures LessEq(SortKey(r[j]), SortKey(r[i])) {
      assert r[j] == vs[j - 1];
      if i == 0 && j > 1 {
        LessEqIsTransitive(SortKey(vs[j - 1]), SortKey(vs[0]), SortKey(v));
      } else if i > 0 {
        assert r[i] == vs[i - 1];
      }
    }
  }

  /** A key not above the first key of a newest-first list goes into the rest of it. */
  lemma InsertBehind(v: View, vs: seq<View>, rest: seq<View>)
    requires NewestFirst(vs) && vs != []
    requires !Less(SortKey(vs[0]), SortKey(v))
    requires NewestFirst(rest) && multiset(rest) == multiset(vs[1..]) + multiset{v}
    ensures NewestFirst([vs[0]] + rest)
    ensures multiset([vs[0]] + rest) == multiset(vs) + multiset{v}
  {
    assert vs == [vs[0]] + vs[1..];
    NotLessIsLessEq(SortKey(v), SortKey(vs[0]));
    var r := [vs[0]] + rest;
    forall i, j | 0 <= i < j < |r| ensures LessEq(SortKey(r[j]), SortKey(r[i])) {
      var x := rest[j - 1];
      assert r[j] == x;
      if i == 0 {
        assert x in multiset(rest);
        if x != v {
          assert x in multiset(vs[1..]);
          var m :| 0 <= m < |vs[1..]| && vs[1..][m] == x;
          assert vs[m + 1] == x;
        }
      } else {
        assert r[i] == rest[i - 1];
      }
    }
  }

  /** Insertion sort in input order: the result is `sorted(vs, key=SortKey, reverse=True)`. */
  function SortNewestFirst(vs: seq<View>): (r: seq<View>)
    ensures NewestFirst(r)
    ensures multiset(r) == multiset(vs)
    decreases |vs|
  {
    if vs == [] then []
    else
      var init := vs[..|vs| - 1];
      assert vs == init + [vs[|vs| - 1]];
      Insert(vs[|vs| - 1], SortNewestFirst(init))
  }

  /** A strictly newer announcement is always listed before a strictly older one. */
  lemma NewerListedFirst(vs: seq<View>, i: int, j: int)
    requires NewestFirst(vs)
    requires 0 <= i < |vs| && 0 <= j < |vs|
    requires Less(SortKey(vs[i]), SortKey(vs[j]))
    ensures j < i
  {
    LessIsIrreflexive(SortKey(vs[i]));
    if i < j {
      LessIsTrichotomous(SortKey(vs[i]), SortKey(vs[j]));
    }
  }

  /** Documents without `created_at` come after every document with a non-empty one. */
  lemma UndatedListedLast(vs: seq<View>, i: int, j: int)
    requires NewestFirst(vs)
    requires 0 <= i < |vs| && 0 <= j < |vs|
    requires vs[i].createdAt.None? && SortKey(vs[j]) != ""
    ensures j < i
  {
    EmptyIsLeast(SortKey(vs[j]));
    NewerListedFirst(vs, i, j);
  }

  /** The first elements of two newest-first arrangements of one collection coincide
      when the first one has no repeated key: both hold the collection's newest element. */
  lemma SameNewest(a: seq<View>, b: seq<View>)
    requires NewestFirst(a) && NewestFirst(b)
    requires multiset(a) == multiset(b)
    requires DistinctKeys(a)
    requires a != []
    ensures b != [] && a[0] == b[0]
  {
    assert a[0] in multiset(b);
    assert b[0] in multiset(a);
    var m :| 0 <= m < |a| && a[m] == b[0];
    var k :| 0 <= k < |b| && b[k] == a[0];
    assert LessEq(SortKey(b[k]), SortKey(b[0]));
    if m != 0 {
      assert LessEq(SortKey(a[m]), SortKey(a[0]));
      LessEqIsAntisymmetric(SortKey(a[0]), SortKey(a[m]));
      assert false;
    }
  }

  /** Removing a common first element keeps two sequences permutations of each other. */
  lemma SameRest(a: seq<View>, b: seq<View>)
    requires a != [] && b != [] && a[0] == b[0]
    requires multiset(a) == multiset(b)
    ensures multiset(a[1..]) == multiset(b[1..])
  {
    assert a == [a[0]] + a[1..] && b == [b[0]] + b[1..];
    assert multiset(a[1..]) == multiset(a) - multiset{a[0]};
    assert multiset(b[1..]) == multiset(b) - multiset{a[0]};
  }

  /** When no two elements share a key, the newest-first arrangement of a collection
      is unique: any two of them are the same sequence. */
  lemma {:induction false} NewestFirstIsUnique(a: seq<View>, b: seq<View>)
    requires NewestFirst(a) && NewestFirst(b)
    requires multiset(a) == multiset(b)
    requires DistinctKeys(a)
    ensures a == b
    decreases |a|
  {
    if a == [] {
      assert |b| == |multiset(b)| == 0;
    } else {
      SameNewest(a, b);
      SameRest(a, b);
      assert NewestFirst(a[1..]) && NewestFirst(b[1..]) && DistinctKeys(a[1..]);
      NewestFirstIsUnique(a[1..], b[1..]);
      assert a == [a[0]] + a[1..] && b == [b[0]] + b[1..];
    }
  }
}
