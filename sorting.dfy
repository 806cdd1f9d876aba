/**
 * A stable sort by a comparator, the model of JavaScript's `Array.prototype.sort`
 * (stable since ECMAScript 2019) as the tournament code calls it with a
 * comparator function. `le(a, b)` means "a may stand before b"; the comparator
 * `cmp` of the source corresponds to `le(a, b) == (cmp(a, b) <= 0)`.
 */
module Sorting {

  /** `le` relates every two values one way or the other. */
  ghost predicate Total<T(!new)>(le: (T, T) -> bool)
  {
    forall a, b :: le(a, b) || le(b, a)
  }

  ghost predicate Transitive<T(!new)>(le: (T, T) -> bool)
  {
    forall a, b, c :: le(a, b) && le(b, c) ==> le(a, c)
  }

  ghost predicate Antisymmetric<T(!new)>(le: (T, T) -> bool)
  {
    forall a, b :: le(a, b) && le(b, a) ==> a == b
  }

  /** A total preorder: what a consistent JavaScript comparator describes. */
  ghost predicate TotalPreorder<T(!new)>(le: (T, T) -> bool)
  {
    Total(le) && Transitive(le)
  }

  predicate Sorted<T>(s: seq<T>, le: (T, T) -> bool)
  {
    forall i, j :: 0 <= i < j < |s| ==> le(s[i], s[j])
  }

  /** `x` goes strictly before `y`: the comparator returns a negative number. */
  predicate StrictlyBefore<T>(le: (T, T) -> bool, x: T, y: T)
  {
    le(x, y) && !le(y, x)
  }

  /**
   * Inserts `x` behind every element it does not strictly precede, that is,
   * immediately before the first element it strictly precedes. Inserting the
   * later elements of the input this way keeps equal elements in input order.
   */
  function Insert<T>(s: seq<T>, x: T, le: (T, T) -> bool): (r: seq<T>)
    ensures |r| == |s| + 1
    ensures multiset(r) == multiset(s) + multiset{x}
  {
    if s == [] then [x]
    else if StrictlyBefore(le, x, s[0]) then [x] + s
    else
      assert s == [s[0]] + s[1..];
      [s[0]] + Insert(s[1..], x, le)
  }

  /** Stable insertion sort. */
  function SortBy<T>(s: seq<T>, le: (T, T) -> bool): (r: seq<T>)
    ensures |r| == |s|
    ensures multiset(r) == multiset(s)
  {
    if s == [] then []
    else
      assert s == s[..|s| - 1] + [s[|s| - 1]];
      Insert(SortBy(s[..|s| - 1], le), s[|s| - 1], le)
  }

  lemma {:induction false} InsertSorted<T(!new)>(s: seq<T>, x: T, le: (T, T) -> bool)
    requires TotalPreorder(le)
    requires Sorted(s, le)
    ensures Sorted(Insert(s, x, le), le)
  {
    if s == [] {
    } else if StrictlyBefore(le, x, s[0]) {
      var r := [x] + s;
      forall i, j | 0 <= i < j < |r| ensures le(r[i], r[j]) {
        if i == 0 {
          assert le(x, s[0]) && le(s[0], s[j - 1]);
        }
      }
    } else {
      InsertSorted(s[1..], x, le);
      var tail := Insert(s[1..], x, le);
      var r := [s[0]] + tail;
      assert le(s[0], x);
      forall i, j | 0 <= i < j < |r| ensures le(r[i], r[j]) {
        if i == 0 {
          var y := tail[j - 1];
          assert y in multiset(tail);
          assert y in multiset(s[1..]) + multiset{x};
          if y != x {
            assert y in s[1..];
            var k :| 0 <= k < |s[1..]| && s[1..][k] == y;
            assert s[k + 1] == y;
          }
        }
      }
    }
  }

  /** The sort's result is ordered by `le`. */
  lemma {:induction false} SortBySorted<T(!new)>(s: seq<T>, le: (T, T) -> bool)
    requires TotalPreorder(le)
    ensures Sorted(SortBy(s, le), le)
  {
    if s != [] {
      SortBySorted(s[..|s| - 1], le);
      InsertSorted(SortBy(s[..|s| - 1], le), s[|s| - 1], le);
    }
  }

  /** Two non-empty sequences sorted by an antisymmetric order with the same elements start alike. */
  lemma SortedSameHead<T(!new)>(a: seq<T>, b: seq<T>, le: (T, T) -> bool)
    requires Antisymmetric(le)
    requires Sorted(a, le) && Sorted(b, le)
    requires a != [] && multiset(a) == multiset(b)
    ensures b != [] && a[0] == b[0]
  {
    assert a[0] in multiset(b);
    assert b[0] in multiset(a);
    var i :| 0 <= i < |b| && b[i] == a[0];
    var j :| 0 <= j < |a| && a[j] == b[0];
    if i > 0 && j > 0 {
      assert le(b[0], b[i]) && le(a[0], a[j]);
    }
  }

  /** Taking the same head off two sequences with the same elements leaves the same elements. */
  lemma SameTails<T>(a: seq<T>, b: seq<T>)
    requires a != [] && b != [] && a[0] == b[0]
    requires multiset(a) == multiset(b)
    ensures multiset(a[1..]) == multiset(b[1..])
  {
    assert a == [a[0]] + a[1..];
    assert b == [b[0]] + b[1..];
    assert multiset(a[1..]) == multiset(a) - multiset{a[0]};
    assert multiset(b[1..]) == multiset(b) - multiset{b[0]};
  }

  /** Two sequences that are sorted by an antisymmetric order and hold the same elements are equal. */
  lemma {:induction false} SortedUnique<T(!new)>(a: seq<T>, b: seq<T>, le: (T, T) -> bool)
    requires Antisymmetric(le)
    requires Sorted(a, le) && Sorted(b, le)
    requires multiset(a) == multiset(b)
    ensures a == b
  {
    if a == [] {
      assert |b| == |multiset(b)| == 0;
    } else {
      SortedSameHead(a, b, le);
      SameTails(a, b);
      SortedUnique(a[1..], b[1..], le);
      assert a == [a[0]] + a[1..];
      assert b == [b[0]] + b[1..];
    }
  }

  /** The sorted result of an antisymmetric order depends only on the multiset of the input. */
  lemma SortByCanonical<T(!new)>(a: seq<T>, b: seq<T>, le: (T, T) -> bool)
    requires TotalPreorder(le) && Antisymmetric(le)
    ensures SortBy(a, le) == SortBy(b, le) <==> multiset(a) == multiset(b)
  {
    if multiset(a) == multiset(b) {
      SortBySorted(a, le);
      SortBySorted(b, le);
      SortedUnique(SortBy(a, le), SortBy(b, le), le);
    }
  }

  // ---------------------------------------------------------------------------
  // Stability
  // ---------------------------------------------------------------------------

  /** Neither value strictly precedes the other: the comparator returns 0. */
  predicate Tie<T>(le: (T, T) -> bool, a: T, b: T)
  {
    le(a, b) && le(b, a)
  }

  /** The elements of `s` that tie with `x`, in the order of `s`. */
  function TiedWith<T>(s: seq<T>, le: (T, T) -> bool, x: T): seq<T>
    decreases |s|
  {
    if s == [] then []
    else (if Tie(le, s[0], x) then [s[0]] else []) + TiedWith(s[1..], le, x)
  }

  lemma {:induction false} TiedWithConcat<T>(a: seq<T>, b: seq<T>, le: (T, T) -> bool, x: T)
    ensures TiedWith(a + b, le, x) == TiedWith(a, le, x) + TiedWith(b, le, x)
    decreases |a|
  {
    if a == [] {
      assert a + b == b;
    } else {
      assert (a + b)[1..] == a[1..] + b;
      TiedWithConcat(a[1..], b, le, x);
    }
  }

  /** Nothing ties with `x` exactly when no element of `s` does. */
  lemma {:induction false} TiedWithNone<T>(s: seq<T>, le: (T, T) -> bool, x: T)
    ensures TiedWith(s, le, x) == [] <==> forall k :: 0 <= k < |s| ==> !Tie(le, s[k], x)
    decreases |s|
  {
    if s != [] {
      TiedWithNone(s[1..], le, x);
      assert forall k :: 1 <= k < |s| ==> s[k] == s[1..][k - 1];
    }
  }

  /**
   * The last element tying with `x` stands at a position of `s` behind which
   * no element ties with `x`.
   */
  lemma {:induction false} TiedWithLast<T>(s: seq<T>, le: (T, T) -> bool, x: T) returns (k: nat)
    requires TiedWith(s, le, x) != []
    ensures k < |s| && s[k] == TiedWith(s, le, x)[|TiedWith(s, le, x)| - 1]
    ensures forall j :: k < j < |s| ==> !Tie(le, s[j], x)
    decreases |s|
  {
    var rest := TiedWith(s[1..], le, x);
    if rest != [] {
      var k' := TiedWithLast(s[1..], le, x);
      k := k' + 1;
    } else {
      TiedWithNone(s[1..], le, x);
      k := 0;
      assert forall j :: 1 <= j < |s| ==> s[j] == s[1..][j - 1];
    }
  }

  lemma TiedWithCons<T>(a: T, s: seq<T>, le: (T, T) -> bool, x: T)
    ensures TiedWith([a] + s, le, x) == (if Tie(le, a, x) then [a] else []) + TiedWith(s, le, x)
  {
    assert ([a] + s)[1..] == s;
  }

  /** A value strictly before the head of a sorted sequence ties with none of it. */
  lemma TiedWithNoneBehind<T(!new)>(r: seq<T>, y: T, le: (T, T) -> bool, x: T)
    requires TotalPreorder(le) && Sorted(r, le)
    requires r != [] && StrictlyBefore(le, y, r[0]) && Tie(le, y, x)
    ensures TiedWith(r, le, x) == []
  {
    forall k | 0 <= k < |r|
      ensures !Tie(le, r[k], x)
    {
      if k > 0 {
        assert le(r[0], r[k]);
      }
    }
    TiedWithNone(r, le, x);
  }

  /** Insertion in front of a sorted sequence, or into an empty one. */
  lemma InsertTiedFront<T(!new)>(r: seq<T>, y: T, le: (T, T) -> bool, x: T)
    requires TotalPreorder(le) && Sorted(r, le)
    requires r == [] || StrictlyBefore(le, y, r[0])
    ensures TiedWith(Insert(r, y, le), le, x) == TiedWith(r, le, x) + (if Tie(le, y, x) then [y] else [])
  {
    assert Insert(r, y, le) == [y] + r;
    TiedWithCons(y, r, le, x);
    if r != [] && Tie(le, y, x) {
      TiedWithNoneBehind(r, y, le, x);
    }
  }

  lemma ConcatAssociative<T>(a: seq<T>, b: seq<T>, c: seq<T>)
    ensures a + (b + c) == (a + b) + c
  {
  }

  /** Insertion behind the head, given what the insertion into the tail keeps. */
  lemma InsertTiedBehind<T>(r: seq<T>, y: T, le: (T, T) -> bool, x: T)
    requires r != [] && !StrictlyBefore(le, y, r[0])
    requires TiedWith(Insert(r[1..], y, le), le, x) == TiedWith(r[1..], le, x) + (if Tie(le, y, x) then [y] else [])
    ensures TiedWith(Insert(r, y, le), le, x) == TiedWith(r, le, x) + (if Tie(le, y, x) then [y] else [])
  {
    var head := if Tie(le, r[0], x) then [r[0]] else [];
    var tail := if Tie(le, y, x) then [y] else [];
    var rest := Insert(r[1..], y, le);
    assert Insert(r, y, le) == [r[0]] + rest;
    TiedWithCons(r[0], rest, le, x);
    assert TiedWith(r, le, x) == head + TiedWith(r[1..], le, x);
    ConcatAssociative(head, TiedWith(r[1..], le, x), tail);
  }

  /**
   * Inserting `y` into a sorted sequence adds `y` behind every element that
   * ties with it: the elements tying with any `x` keep their order, with `y`
   * last among them.
   */
  lemma {:induction false} InsertTied<T(!new)>(r: seq<T>, y: T, le: (T, T) -> bool, x: T)
    requires TotalPreorder(le) && Sorted(r, le)
    ensures TiedWith(Insert(r, y, le), le, x) == TiedWith(r, le, x) + (if Tie(le, y, x) then [y] else [])
    decreases |r|
  {
    if r == [] || StrictlyBefore(le, y, r[0]) {
      InsertTiedFront(r, y, le, x);
    } else {
      assert Sorted(r[1..], le);
      InsertTied(r[1..], y, le, x);
      InsertTiedBehind(r, y, le, x);
    }
  }

  /** One insertion step of the sort keeps the ties' order. */
  lemma InsertStable<T(!new)>(sorted: seq<T>, init: seq<T>, last: T, le: (T, T) -> bool, x: T)
    requires TotalPreorder(le) && Sorted(sorted, le)
    requires TiedWith(sorted, le, x) == TiedWith(init, le, x)
    ensures TiedWith(Insert(sorted, last, le), le, x) == TiedWith(init + [last], le, x)
  {
    InsertTied(sorted, last, le, x);
    assert TiedWith([last], le, x) == (if Tie(le, last, x) then [last] else []) by {
      assert [last][1..] == [];
    }
    TiedWithConcat(init, [last], le, x);
  }

  /**
   * The sort is stable: for every `x`, the elements tying with `x` (those
   * neither strictly before nor strictly after it) appear in the result in
   * the order they have in the input.
   */
  lemma {:induction false} SortByStable<T(!new)>(s: seq<T>, le: (T, T) -> bool, x: T)
    requires TotalPreorder(le)
    ensures TiedWith(SortBy(s, le), le, x) == TiedWith(s, le, x)
    decreases |s|
  {
    if s != [] {
      var init, last := s[..|s| - 1], s[|s| - 1];
      assert s == init + [last];
      SortByStable(init, le, x);
      SortBySorted(init, le);
      InsertStable(SortBy(init, le), init, last, le, x);
    }
  }

  /**
   * The last element of the sorted result is, in the input, an element
   * behind which nothing ties with it.
   */
  lemma SortByLastIsLastTied<T(!new)>(s: seq<T>, le: (T, T) -> bool) returns (k: nat)
    requires TotalPreorder(le) && s != []
    ensures k < |s| && s[k] == SortBy(s, le)[|s| - 1]
    ensures forall j :: k < j < |s| ==> !Tie(le, s[j], SortBy(s, le)[|s| - 1])
  {
    var t := SortBy(s, le);
    var c := t[|t| - 1];
    assert t == t[..|t| - 1] + [c];
    TiedWithConcat(t[..|t| - 1], [c], le, c);
    TiedWithCons(c, [], le, c);
    assert [c] + [] == [c];
    SortByStable(s, le, c);
    k := TiedWithLast(s, le, c);
  }
}
