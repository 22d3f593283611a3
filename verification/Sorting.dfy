/** Sorting by a strict order, as a function: what the library sort gives for keys that never tie. */
module Sorting {
  ghost predicate StrictOrder<T(!new)>(less: (T, T) -> bool) {
    && (forall a :: !less(a, a))
    && (forall a, b, c :: less(a, b) && less(b, c) ==> less(a, c))
  }

  ghost predicate Ordered<T>(s: seq<T>, less: (T, T) -> bool) {
    forall i, j :: 0 <= i < j < |s| ==> less(s[i], s[j])
  }

  /** No two elements tie. */
  ghost predicate Comparable<T>(s: seq<T>, less: (T, T) -> bool) {
    forall i, j :: 0 <= i < j < |s| ==> less(s[i], s[j]) || less(s[j], s[i])
  }

  function Insert<T>(x: T, s: seq<T>, less: (T, T) -> bool): seq<T> {
    if s == [] || less(x, s[0]) then [x] + s else [s[0]] + Insert(x, s[1..], less)
  }

  function Sort<T>(s: seq<T>, less: (T, T) -> bool): seq<T> {
    if s == [] then [] else Insert(s[|s| - 1], Sort(s[..|s| - 1], less), less)
  }

  lemma {:induction false} InsertMembers<T(!new)>(x: T, s: seq<T>, less: (T, T) -> bool)
    ensures |Insert(x, s, less)| == |s| + 1
    ensures forall y :: y in Insert(x, s, less) <==> y == x || y in s
  {
    if s != [] && !less(x, s[0]) {
      InsertMembers(x, s[1..], less);
      assert s == [s[0]] + s[1..];
    }
  }

  lemma {:induction false} InsertOrdered<T(!new)>(x: T, s: seq<T>, less: (T, T) -> bool)
    requires StrictOrder(less) && Ordered(s, less)
    requires forall y | y in s :: less(x, y) || less(y, x)
    ensures Ordered(Insert(x, s, less), less)
  {
    if s != [] && !less(x, s[0]) {
      assert s == [s[0]] + s[1..];
      InsertOrdered(x, s[1..], less);
      InsertMembers(x, s[1..], less);
      var rest := Insert(x, s[1..], less);
      forall y | y in rest ensures less(s[0], y) {
        if y != x { assert y in s[1..]; }
      }
    }
  }

  /** Sorting keeps the elements: as many of them, and the same ones. */
  lemma {:induction false} SortMembers<T(!new)>(s: seq<T>, less: (T, T) -> bool)
    ensures |Sort(s, less)| == |s|
    ensures forall y :: y in Sort(s, less) <==> y in s
  {
    if s != [] {
      var init, last := s[..|s| - 1], s[|s| - 1];
      assert s == init + [last];
      SortMembers(init, less);
      InsertMembers(last, Sort(init, less), less);
    }
  }

  lemma {:induction false} SortOrdered<T(!new)>(s: seq<T>, less: (T, T) -> bool)
    requires StrictOrder(less) && Comparable(s, less)
    ensures Ordered(Sort(s, less), less)
  {
    if s != [] {
      var init, last := s[..|s| - 1], s[|s| - 1];
      SortOrdered(init, less);
      SortMembers(init, less);
      forall y | y in Sort(init, less) ensures less(last, y) || less(y, last) {
        var i :| 0 <= i < |init| && init[i] == y;
        assert s[i] == y && s[|s| - 1] == last;
      }
      InsertOrdered(last, Sort(init, less), less);
    }
  }

  /** Only one sequence holds given elements in strictly increasing order. */
  lemma {:induction false} OrderedIsUnique<T(!new)>(s: seq<T>, t: seq<T>, less: (T, T) -> bool)
    requires StrictOrder(less) && Ordered(s, less) && Ordered(t, less)
    requires forall y :: y in s <==> y in t
    ensures s == t
  {
    if t != [] {
      var first := t[0];
      assert first in t;
    }
    if s != [] {
      assert s[0] in t;
      assert t[0] in s;
      assert s[0] == t[0];
      assert s == [s[0]] + s[1..] && t == [t[0]] + t[1..];
      forall y ensures y in s[1..] <==> y in t[1..] {
        TailMembers(s, y, less);
        TailMembers(t, y, less);
      }
      OrderedIsUnique(s[1..], t[1..], less);
    }
  }

  lemma TailMembers<T(!new)>(s: seq<T>, y: T, less: (T, T) -> bool)
    requires StrictOrder(less) && Ordered(s, less) && s != []
    ensures y in s[1..] <==> y in s && y != s[0]
  {
    if y in s[1..] {
      var i :| 0 <= i < |s[1..]| && s[1..][i] == y;
      assert less(s[0], s[i + 1]);
    }
  }
}
