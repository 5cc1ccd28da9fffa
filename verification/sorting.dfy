/**
  Sorting under a caller-supplied comparison.  `Array.prototype.sort` with a
  comparator is stable, so it is modelled as a stable insertion sort; the
  comparison itself (the tracker uses `localeCompare` on titles) is abstracted
  as a total preorder.
 */
module Sorting {

  /** `le` is total and transitive: a total preorder (ties are allowed). */
  ghost predicate TotalPreorder<T(!new)>(le: (T, T) -> bool) {
    && (forall a, b :: le(a, b) || le(b, a))
    && (forall a, b, c :: le(a, b) && le(b, c) ==> le(a, c))
  }

  /** Every element is `le`-below every later element. */
  ghost predicate SortedBy<T>(le: (T, T) -> bool, s: seq<T>) {
    forall i, j :: 0 <= i < j < |s| ==> le(s[i], s[j])
  }

  /** Every element of `s` is `le`-above `x`. */
  ghost predicate AllAbove<T>(le: (T, T) -> bool, x: T, s: seq<T>) {
    forall i :: 0 <= i < |s| ==> le(x, s[i])
  }

  /**
    Inserts `x` into `s` after every element that is `le`-below it, so that
    `x` lands behind the elements it ties with.
   */
  function InsertBy<T>(le: (T, T) -> bool, x: T, s: seq<T>): (r: seq<T>)
    ensures multiset(r) == multiset(s) + multiset{x}
    ensures |r| == |s| + 1
  {
    if s == [] then [x]
    else if le(s[0], x) then
      assert s == [s[0]] + s[1..];
      [s[0]] + InsertBy(le, x, s[1..])
    else [x] + s
  }

  /** An element below `x` and below all of `s` stays below everything after the insertion. */
  lemma {:induction false} InsertKeepsLowerBound<T>(le: (T, T) -> bool, y: T, x: T, s: seq<T>)
    requires AllAbove(le, y, s) && le(y, x)
    ensures AllAbove(le, y, InsertBy(le, x, s))
  {
    var r := InsertBy(le, x, s);
    if s != [] && le(s[0], x) {
      InsertKeepsLowerBound(le, y, x, s[1..]);
      assert forall i :: 1 <= i < |r| ==> r[i] == InsertBy(le, x, s[1..])[i - 1];
    }
  }

  /** Insertion into a sorted sequence keeps it sorted. */
  lemma {:induction false} InsertKeepsSorted<T(!new)>(le: (T, T) -> bool, x: T, s: seq<T>)
    requires TotalPreorder(le) && SortedBy(le, s)
    ensures SortedBy(le, InsertBy(le, x, s))
  {
    var r := InsertBy(le, x, s);
    if s == [] {
    } else if le(s[0], x) {
      var rest := InsertBy(le, x, s[1..]);
      InsertKeepsSorted(le, x, s[1..]);
      InsertKeepsLowerBound(le, s[0], x, s[1..]);
      assert r == [s[0]] + rest;
    } else {
      assert le(x, s[0]);
      assert r == [x] + s;
    }
  }

  /** `x` and `e` tie: each is `le`-below the other. */
  predicate Tie<T>(le: (T, T) -> bool, x: T, e: T) {
    le(x, e) && le(e, x)
  }

  /** `[e]` when `e` ties with `x`, else nothing. */
  function TieOf<T>(le: (T, T) -> bool, x: T, e: T): seq<T> {
    if Tie(le, x, e) then [e] else []
  }

  /** The elements of `s` that tie with `x`, in their order in `s`. */
  function TiesWith<T>(le: (T, T) -> bool, x: T, s: seq<T>): seq<T> {
    if s == [] then [] else TieOf(le, x, s[0]) + TiesWith(le, x, s[1..])
  }

  /** Picking the ties of a concatenation picks those of each part, in order. */
  lemma {:induction false} TiesWithAppend<T>(le: (T, T) -> bool, x: T, a: seq<T>, b: seq<T>)
    ensures TiesWith(le, x, a + b) == TiesWith(le, x, a) + TiesWith(le, x, b)
  {
    if a == [] {
      assert a + b == b;
    } else {
      var head, ties, tail := TieOf(le, x, a[0]), TiesWith(le, x, a[1..]), TiesWith(le, x, b);
      TiesWithAppend(le, x, a[1..], b);
      assert TiesWith(le, x, a + b) == head + (ties + tail) by {
        ConsTies(le, x, a[0], a[1..] + b);
        assert [a[0]] + (a[1..] + b) == a + b;
      }
      assert TiesWith(le, x, a) == head + ties by {
        ConsTies(le, x, a[0], a[1..]);
        assert [a[0]] + a[1..] == a;
      }
      AppendAssoc(head, ties, tail);
    }
  }

  /** Concatenation is associative. */
  lemma AppendAssoc<T>(a: seq<T>, b: seq<T>, c: seq<T>)
    ensures a + (b + c) == (a + b) + c
  {
  }

  /**
    In a sorted sequence whose first element is not below `y`, nothing ties
    with an `x` that is below `y`.
   */
  lemma NoTiesAboveInsertion<T(!new)>(le: (T, T) -> bool, x: T, y: T, t: seq<T>)
    requires TotalPreorder(le) && SortedBy(le, t)
    requires t != [] && !le(t[0], y) && le(x, y)
    ensures TiesWith(le, x, t) == []
  {
    var k := 0;
    while k < |t|
      invariant 0 <= k <= |t|
      invariant TiesWith(le, x, t) == TiesWith(le, x, t[k..])
    {
      var e := t[k];
      assert le(t[0], e) || k == 0;
      assert !Tie(le, x, e);
      assert t[k..][1..] == t[k + 1..];
      k := k + 1;
    }
  }

  /** Inserting `y` adds it to the ties of `x` after all of them when it ties with `x`, and changes nothing otherwise. */
  lemma {:induction false} InsertByTies<T(!new)>(le: (T, T) -> bool, x: T, y: T, t: seq<T>)
    requires TotalPreorder(le) && SortedBy(le, t)
    ensures TiesWith(le, x, InsertBy(le, y, t)) == TiesWith(le, x, t) + TiesWith(le, x, [y])
  {
    if t == [] {
    } else if le(t[0], y) {
      assert SortedBy(le, t[1..]) by {
        forall i, j | 0 <= i < j < |t[1..]| ensures le(t[1..][i], t[1..][j]) {
          assert t[1..][i] == t[i + 1] && t[1..][j] == t[j + 1];
        }
      }
      InsertByTies(le, x, y, t[1..]);
      PassedTies(le, x, y, t);
    } else {
      AboveTies(le, x, y, t);
    }
  }

  /** `y` passes the first element: that element's ties stay in front. */
  lemma PassedTies<T>(le: (T, T) -> bool, x: T, y: T, t: seq<T>)
    requires t != [] && le(t[0], y)
    requires TiesWith(le, x, InsertBy(le, y, t[1..])) == TiesWith(le, x, t[1..]) + TiesWith(le, x, [y])
    ensures TiesWith(le, x, InsertBy(le, y, t)) == TiesWith(le, x, t) + TiesWith(le, x, [y])
  {
    var rest := InsertBy(le, y, t[1..]);
    var head := TieOf(le, x, t[0]);
    var ties, tail := TiesWith(le, x, t[1..]), TiesWith(le, x, [y]);
    calc {
      TiesWith(le, x, InsertBy(le, y, t));
      { assert InsertBy(le, y, t) == [t[0]] + rest; }
      TiesWith(le, x, [t[0]] + rest);
      { ConsTies(le, x, t[0], rest); }
      head + TiesWith(le, x, rest);
      head + (ties + tail);
      { AppendAssoc(head, ties, tail); }
      (head + ties) + tail;
      { ConsTies(le, x, t[0], t[1..]); assert [t[0]] + t[1..] == t; }
      TiesWith(le, x, t) + tail;
    }
  }

  /** `y` goes in front of a sorted sequence: when it ties with `x`, nothing after it does. */
  lemma AboveTies<T(!new)>(le: (T, T) -> bool, x: T, y: T, t: seq<T>)
    requires TotalPreorder(le) && SortedBy(le, t)
    requires t != [] && !le(t[0], y)
    ensures TiesWith(le, x, InsertBy(le, y, t)) == TiesWith(le, x, t) + TiesWith(le, x, [y])
  {
    if Tie(le, x, y) {
      NoTiesAboveInsertion(le, x, y, t);
    }
    FrontTies(le, x, y, t);
  }

  /** `y` goes in front: its ties come last only because, when it ties with `x`, nothing after it does. */
  lemma FrontTies<T>(le: (T, T) -> bool, x: T, y: T, t: seq<T>)
    requires t != [] && !le(t[0], y)
    requires Tie(le, x, y) ==> TiesWith(le, x, t) == []
    ensures TiesWith(le, x, InsertBy(le, y, t)) == TiesWith(le, x, t) + TiesWith(le, x, [y])
  {
    var rest := TiesWith(le, x, t);
    assert TiesWith(le, x, InsertBy(le, y, t)) == TieOf(le, x, y) + rest by {
      assert InsertBy(le, y, t) == [y] + t;
      ConsTies(le, x, y, t);
    }
    SingleTies(le, x, y);
    SwapAroundEmpty(TieOf(le, x, y), rest);
  }

  /** Two sequences, one of them empty, concatenate the same way round either way. */
  lemma SwapAroundEmpty<T>(a: seq<T>, b: seq<T>)
    requires a == [] || b == []
    ensures a + b == b + a
  {
  }

  /** The ties of a single element are that element, if it ties, and nothing else. */
  lemma SingleTies<T>(le: (T, T) -> bool, x: T, y: T)
    ensures TiesWith(le, x, [y]) == TieOf(le, x, y)
  {
    assert [y][1..] == [];
  }

  /** The ties of `[e] + rest` are those of `e` followed by those of `rest`. */
  lemma ConsTies<T>(le: (T, T) -> bool, x: T, e: T, rest: seq<T>)
    ensures TiesWith(le, x, [e] + rest) == TieOf(le, x, e) + TiesWith(le, x, rest)
  {
    var r := [e] + rest;
    assert r[0] == e && r[1..] == rest;
  }

  /**
    Stable insertion sort: each element is inserted behind the earlier ones it
    ties with, so elements that tie keep their relative order.
   */
  function SortBy<T(!new)>(le: (T, T) -> bool, s: seq<T>): (r: seq<T>)
    ensures multiset(r) == multiset(s)
    ensures |r| == |s|
    ensures TotalPreorder(le) ==> SortedBy(le, r)
    ensures TotalPreorder(le) ==> forall x :: TiesWith(le, x, r) == TiesWith(le, x, s)
  {
    if s == [] then []
    else
      var front := SortBy(le, s[..|s| - 1]);
      var last := s[|s| - 1];
      assert s == s[..|s| - 1] + [last];
      assert TotalPreorder(le) ==> SortedBy(le, InsertBy(le, last, front)) by {
        if TotalPreorder(le) {
          InsertKeepsSorted(le, last, front);
        }
      }
      assert TotalPreorder(le) ==> forall x :: TiesWith(le, x, InsertBy(le, last, front)) == TiesWith(le, x, s) by {
        if TotalPreorder(le) {
          forall x ensures TiesWith(le, x, InsertBy(le, last, front)) == TiesWith(le, x, s) {
            InsertByTies(le, x, last, front);
            TiesWithAppend(le, x, s[..|s| - 1], [last]);
          }
        }
      }
      InsertBy(le, last, front)
  }
}
