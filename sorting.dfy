/** Sorting a finite set into a list under a strict total order, stated once for any order so
    that proofs about the list never look inside the order's definition. */
module Sorting {

  ghost predicate StrictTotalOrder<T(!new)>(lt: (T, T) -> bool)
  {
    && (forall a :: !lt(a, a))
    && (forall a, b, c :: lt(a, b) && lt(b, c) ==> lt(a, c))
    && (forall a, b :: a == b || lt(a, b) || lt(b, a))
  }

  /** Strictly ascending (hence free of duplicates). */
  ghost predicate Ascending<T>(r: seq<T>, lt: (T, T) -> bool)
  {
    forall i, j :: 0 <= i < j < |r| ==> lt(r[i], r[j])
  }

  /** `r` lists exactly the elements of `s`, in ascending order. */
  ghost predicate ListsInOrder<T(!new)>(r: seq<T>, s: set<T>, lt: (T, T) -> bool)
  {
    Ascending(r, lt) && forall x :: x in r <==> x in s
  }

  ghost predicate IsLeast<T>(m: T, s: set<T>, lt: (T, T) -> bool)
  {
    m in s && forall y :: y in s && y != m ==> lt(m, y)
  }

  /** The least element of `s`: one element compared with the least of the others. */
  ghost function Least<T(!new)>(s: set<T>, lt: (T, T) -> bool): (m: T)
    requires s != {}
    ensures m in s
    decreases |s|
  {
    var x :| x in s;
    if s == {x} then x
    else
      var m := Least(s - {x}, lt);
      if lt(x, m) then x else m
  }

  lemma {:induction false} LeastIsLeast<T(!new)>(s: set<T>, lt: (T, T) -> bool)
    requires StrictTotalOrder(lt)
    requires s != {}
    ensures IsLeast(Least(s, lt), s, lt)
    decreases |s|
  {
    var x :| x in s && Least(s, lt) == (if s == {x} then x else
      var m := Least(s - {x}, lt); if lt(x, m) then x else m);
    if s != {x} {
      var m := Least(s - {x}, lt);
      LeastIsLeast(s - {x}, lt);
      if lt(x, m) {
        forall y | y in s && y != x ensures lt(x, y) {
          if y != m { assert lt(m, y); }
        }
      } else {
        assert lt(m, x);
      }
    }
  }

  /** The ascending listing of `s`: its least element, then the listing of the rest. */
  ghost function SortedBy<T(!new)>(s: set<T>, lt: (T, T) -> bool): (r: seq<T>)
    ensures forall x :: x in r <==> x in s
    ensures |r| == |s|
    decreases |s|
  {
    if s == {} then []
    else
      var m := Least(s, lt);
      [m] + SortedBy(s - {m}, lt)
  }

  lemma {:induction false} SortedByInOrder<T(!new)>(s: set<T>, lt: (T, T) -> bool)
    requires StrictTotalOrder(lt)
    ensures ListsInOrder(SortedBy(s, lt), s, lt)
    decreases |s|
  {
    if s != {} {
      var m := Least(s, lt);
      LeastIsLeast(s, lt);
      SortedByInOrder(s - {m}, lt);
      var r := SortedBy(s, lt);
      assert r == [m] + SortedBy(s - {m}, lt);
      forall i, j | 0 <= i < j < |r| ensures lt(r[i], r[j]) {
        if i == 0 { assert r[j] in s - {m}; }
      }
    }
  }

  lemma NoMembersEmpty<T>(r: seq<T>)
    ensures (forall x :: x !in r) ==> r == []
  {
    if r != [] { assert r[0] in r; }
  }

  /** Two ascending lists with the same elements are the same list. */
  lemma {:induction false} AscendingUnique<T(!new)>(a: seq<T>, b: seq<T>, lt: (T, T) -> bool)
    requires StrictTotalOrder(lt)
    requires Ascending(a, lt) && Ascending(b, lt)
    requires forall x :: x in a <==> x in b
    ensures a == b
    decreases |a|
  {
    if a == [] {
      NoMembersEmpty(b);
    } else {
      assert a[0] in b;
      assert a[0] == b[0] by {
        HeadIsLeast(a, lt);
        HeadIsLeast(b, lt);
        assert b[0] in a;
      }
      forall x ensures x in a[1..] <==> x in b[1..] {
        if x in a[1..] {
          var i :| 1 <= i < |a| && a[i] == x;
          assert lt(a[0], a[i]);
          assert x in b;
        }
        if x in b[1..] {
          var i :| 1 <= i < |b| && b[i] == x;
          assert lt(b[0], b[i]);
          assert x in a;
        }
      }
      AscendingUnique(a[1..], b[1..], lt);
      assert a == [a[0]] + a[1..] && b == [b[0]] + b[1..];
    }
  }

  /** Any ascending listing of `s` is the sorted list of `s`. */
  lemma SortedByUnique<T(!new)>(r: seq<T>, s: set<T>, lt: (T, T) -> bool)
    requires StrictTotalOrder(lt)
    requires ListsInOrder(r, s, lt)
    ensures r == SortedBy(s, lt)
  {
    SortedByInOrder(s, lt);
    AscendingUnique(r, SortedBy(s, lt), lt);
  }

  /** The first element of an ascending list is below all the others. */
  lemma HeadIsLeast<T>(r: seq<T>, lt: (T, T) -> bool)
    requires Ascending(r, lt) && r != []
    ensures forall y :: y in r && y != r[0] ==> lt(r[0], y)
  {
    forall y | y in r && y != r[0] ensures lt(r[0], y) {
      var i :| 0 <= i < |r| && r[i] == y;
    }
  }

  /** Dropping position `i` keeps a list ascending and drops exactly the element there. */
  lemma RemoveAtAscending<T(!new)>(r: seq<T>, i: nat, lt: (T, T) -> bool)
    requires StrictTotalOrder(lt)
    requires Ascending(r, lt) && i < |r|
    ensures Ascending(r[..i] + r[i + 1..], lt)
    ensures forall x :: x in r[..i] + r[i + 1..] <==> x in r && x != r[i]
  {
    var r' := r[..i] + r[i + 1..];
    forall p, q | 0 <= p < q < |r'| ensures lt(r'[p], r'[q]) {
      var p0 := if p < i then p else p + 1;
      var q0 := if q < i then q else q + 1;
      assert r'[p] == r[p0] && r'[q] == r[q0];
    }
    forall x ensures x in r' <==> x in r && x != r[i] {
      if x in r' {
        var p :| 0 <= p < |r'| && r'[p] == x;
        var p0 := if p < i then p else p + 1;
        assert r'[p] == r[p0];
        if p0 < i { assert lt(r[p0], r[i]); } else { assert lt(r[i], r[p0]); }
      }
      if x in r && x != r[i] {
        var p :| 0 <= p < |r| && r[p] == x;
        if p < i { assert r'[p] == x; } else { assert r'[p - 1] == x; }
      }
    }
  }

  /** Removing the element at position `i` from the set removes exactly that position from
      the sorted list. */
  lemma SortedByRemove<T(!new)>(s: set<T>, lt: (T, T) -> bool, i: nat)
    requires StrictTotalOrder(lt)
    requires i < |SortedBy(s, lt)|
    ensures SortedBy(s - {SortedBy(s, lt)[i]}, lt) == SortedBy(s, lt)[..i] + SortedBy(s, lt)[i + 1..]
  {
    var r := SortedBy(s, lt);
    SortedByInOrder(s, lt);
    RemoveAtAscending(r, i, lt);
    SortedByUnique(r[..i] + r[i + 1..], s - {r[i]}, lt);
  }

  /** Inserting `x` just after the elements below it keeps a list ascending. */
  lemma InsertAscending<T(!new)>(r: seq<T>, i: nat, x: T, lt: (T, T) -> bool)
    requires StrictTotalOrder(lt)
    requires Ascending(r, lt) && i <= |r| && x !in r
    requires forall j :: 0 <= j < i ==> lt(r[j], x)
    requires i < |r| ==> !lt(r[i], x)
    ensures Ascending(r[..i] + [x] + r[i..], lt)
  {
    var r' := r[..i] + [x] + r[i..];
    if i < |r| {
      assert r[i] in r;
      assert lt(x, r[i]);
    }
    forall p, q | 0 <= p < q < |r'| ensures lt(r'[p], r'[q]) {
      if q < i { assert r'[p] == r[p] && r'[q] == r[q]; }
      else if q == i { assert r'[p] == r[p]; }
      else if p < i { assert r'[p] == r[p] && r'[q] == r[q - 1]; }
      else if p == i { assert r'[q] == r[q - 1]; assert lt(x, r[i]); }
      else { assert r'[p] == r[p - 1] && r'[q] == r[q - 1]; }
    }
  }
}
