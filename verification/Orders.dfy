/**
 * Strict total orders, ascending sequences and the sort-and-deduplicate step
 * the ledger applies to every set-like vector. Two ascending sequences with
 * the same elements are equal, which is what makes the stored form canonical.
 */
module Orders {

  ghost predicate StrictTotal<T(!new)>(less: (T, T) -> bool) {
    && (forall x :: !less(x, x))
    && (forall x, y, z :: less(x, y) && less(y, z) ==> less(x, z))
    && (forall x, y :: x == y || less(x, y) || less(y, x))
  }

  ghost predicate Ascending<T>(s: seq<T>, less: (T, T) -> bool) {
    forall i, j :: 0 <= i < j < |s| ==> less(s[i], s[j])
  }

  function Elements<T>(s: seq<T>): set<T> {
    set x | x in s
  }

  /** Insert at the lower bound unless an equal element is already there. */
  function Insert<T(==)>(x: T, s: seq<T>, less: (T, T) -> bool): seq<T> {
    if s == [] then [x]
    else if less(x, s[0]) then [x] + s
    else if less(s[0], x) then [s[0]] + Insert(x, s[1..], less)
    else s
  }

  /** Sort followed by removal of equal neighbours. */
  function SortUnique<T(==)>(s: seq<T>, less: (T, T) -> bool): seq<T> {
    if s == [] then [] else Insert(s[0], SortUnique(s[1..], less), less)
  }

  lemma {:induction false} InsertElements<T(!new)>(x: T, s: seq<T>, less: (T, T) -> bool)
    requires StrictTotal(less)
    ensures forall y :: y in Insert(x, s, less) <==> y == x || y in s
  {
    if s != [] && less(s[0], x) {
      InsertElements(x, s[1..], less);
    }
  }

  lemma {:induction false} BelowAll<T(!new)>(x: T, s: seq<T>, less: (T, T) -> bool)
    requires StrictTotal(less) && Ascending(s, less) && s != [] && less(x, s[0])
    ensures x !in s
  {
    assert forall i :: 0 < i < |s| ==> less(s[0], s[i]);
    assert forall i :: 0 <= i < |s| ==> less(x, s[i]);
  }

  lemma {:induction false} InsertPresent<T(!new)>(x: T, s: seq<T>, less: (T, T) -> bool)
    requires StrictTotal(less) && Ascending(s, less)
    ensures if x in s then Insert(x, s, less) == s else |Insert(x, s, less)| == |s| + 1
  {
    if s != [] {
      if less(x, s[0]) {
        BelowAll(x, s, less);
      } else if less(s[0], x) {
        assert x != s[0];
        assert Ascending(s[1..], less);
        InsertPresent(x, s[1..], less);
        hide StrictTotal, Ascending;
        assert [s[0]] + s[1..] == s;
      } else {
        assert x == s[0];
      }
    }
  }

  lemma {:induction false} InsertAscending<T(!new)>(x: T, s: seq<T>, less: (T, T) -> bool)
    requires StrictTotal(less) && Ascending(s, less)
    ensures Ascending(Insert(x, s, less), less)
    ensures x in s <==> Insert(x, s, less) == s
    ensures x !in s <==> |Insert(x, s, less)| == |s| + 1
    ensures x in s <==> |Insert(x, s, less)| == |s|
  {
    InsertPresent(x, s, less);
    if s != [] && less(s[0], x) {
      InsertAscending(x, s[1..], less);
      InsertElements(x, s[1..], less);
      var rest := Insert(x, s[1..], less);
      assert forall y :: y in rest ==> less(s[0], y);
      assert Insert(x, s, less) == [s[0]] + rest;
    } else if s != [] && less(x, s[0]) {
      assert forall i :: 0 <= i < |s| ==> less(x, s[i]);
    }
  }

  lemma {:induction false} SortUniqueSpec<T(!new)>(s: seq<T>, less: (T, T) -> bool)
    requires StrictTotal(less)
    ensures Ascending(SortUnique(s, less), less)
    ensures Elements(SortUnique(s, less)) == Elements(s)
    ensures |SortUnique(s, less)| <= |s|
  {
    if s != [] {
      SortUniqueSpec(s[1..], less);
      var rest := SortUnique(s[1..], less);
      InsertAscending(s[0], rest, less);
      InsertElements(s[0], rest, less);
      forall y ensures y in SortUnique(s, less) <==> y in s {
        assert y in rest <==> y in Elements(rest);
        assert y in s[1..] <==> y in Elements(s[1..]);
      }
    }
  }

  /** The ascending form of a set of elements is unique. */
  lemma {:induction false} AscendingUnique<T(!new)>(s: seq<T>, t: seq<T>, less: (T, T) -> bool)
    requires StrictTotal(less) && Ascending(s, less) && Ascending(t, less)
    requires Elements(s) == Elements(t)
    ensures s == t
  {
    assert s != [] ==> s[0] in Elements(s);
    assert t != [] ==> t[0] in Elements(t);
    if s != [] && t != [] {
      assert s[0] in Elements(t) && t[0] in Elements(s);
      assert s[0] == t[0];
      forall y ensures y in s[1..] <==> y in t[1..] {
        assert y in s <==> y in Elements(s);
        assert y in t <==> y in Elements(t);
        if y in s[1..] { assert less(s[0], y); }
        if y in t[1..] { assert less(t[0], y); }
      }
      AscendingUnique(s[1..], t[1..], less);
      assert s == [s[0]] + s[1..] && t == [t[0]] + t[1..];
    }
  }

  /** Sorting and deduplicating an already ascending sequence changes nothing. */
  lemma {:induction false} SortUniqueIdempotent<T(!new)>(s: seq<T>, less: (T, T) -> bool)
    requires StrictTotal(less) && Ascending(s, less)
    ensures SortUnique(s, less) == s
  {
    SortUniqueSpec(s, less);
    AscendingUnique(SortUnique(s, less), s, less);
  }

  /** A strictly ascending sequence lists each element once. */
  lemma {:induction false} AscendingSize<T(!new)>(s: seq<T>, less: (T, T) -> bool)
    requires StrictTotal(less) && Ascending(s, less)
    ensures |Elements(s)| == |s|
  {
    if s != [] {
      var front, last := s[..|s| - 1], s[|s| - 1];
      assert s == front + [last];
      AscendingSize(front, less);
      assert last !in front by {
        assert forall i :: 0 <= i < |front| ==> less(front[i], last);
      }
      assert Elements(s) == Elements(front) + {last};
    }
  }

  lemma {:induction false} LeastOf(s: set<int>) returns (least: int)
    requires s != {}
    ensures least in s && forall q :: q in s ==> least <= q
  {
    assert (forall x :: x !in s) ==> s == {};
    var r :| r in s;
    least := r;
    var rest := s - {r};
    if rest != {} {
      var other := LeastOf(rest);
      least := if other < r then other else r;
    }
    forall q | q in s ensures least <= q {
      assert q == r || q in rest;
    }
  }

  /** The elements of a set of numbers in ascending order, as an ordered container lists its keys. */
  method AscendingOf(s: set<int>) returns (r: seq<int>)
    ensures forall i, j :: 0 <= i < j < |r| ==> r[i] < r[j]
    ensures (forall x :: x in r <==> x in s) && forall i :: 0 <= i < |r| ==> r[i] in s
  {
    r := [];
    var left := s;
    while left != {}
      invariant forall i, j :: 0 <= i < j < |r| ==> r[i] < r[j]
      invariant forall x :: x in s <==> x in left || x in r
      invariant forall i :: 0 <= i < |r| ==> r[i] in s
      invariant forall i, y :: 0 <= i < |r| && y in left ==> r[i] < y
      decreases left
    {
      ghost var least := LeastOf(left);
      var next :| next in left && forall q :: q in left ==> next <= q;
      r := r + [next];
      left := left - {next};
    }
  }
}
