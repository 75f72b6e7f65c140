/**
 * A stable sort by a strict weak order, the behaviour of Python's
 * `list.sort(key=…, reverse=True)` (news_bot.py) and of the comment query's
 * `ORDER BY created_at ASC` with ties kept in insertion (id) order.
 *
 * `before(a, b)` says that `a` must come strictly before `b`; elements
 * neither of which comes before the other are tied.
 */
module StableSort {
  import Order

  /** Transitivity at one triple. */
  predicate Chains<T>(before: (T, T) -> bool, a: T, b: T, c: T) {
    before(a, b) && before(b, c) ==> before(a, c)
  }

  /** Any `b` falls after `a` or before `c` when `a` comes before `c`. */
  predicate Splits<T>(before: (T, T) -> bool, a: T, b: T, c: T) {
    before(a, c) ==> before(a, b) || before(b, c)
  }

  /** The three-element laws are stated through `Chains` and `Splits`, so
      that a proof uses them only at the triples it names. */
  ghost predicate StrictWeakOrder<T(!new)>(before: (T, T) -> bool) {
    && (forall a :: !before(a, a))
    && (forall a, b, c :: Chains(before, a, b, c))
    && (forall a, b, c :: Splits(before, a, b, c))
  }

  predicate Tied<T>(before: (T, T) -> bool, a: T, b: T) {
    !before(a, b) && !before(b, a)
  }

  /** No element comes strictly before an element to its left. */
  predicate Sorted<T>(s: seq<T>, before: (T, T) -> bool) {
    forall i, j :: 0 <= i < j < |s| ==> !before(s[j], s[i])
  }

  /** The elements tied with `x`, in their order in `s`. */
  function TiedWith<T>(s: seq<T>, before: (T, T) -> bool, x: T): (r: seq<T>)
    ensures |r| <= |s|
    decreases |s|
  {
    if s == [] then []
    else (if Tied(before, x, s[0]) then [s[0]] else []) + TiedWith(s[1..], before, x)
  }

  lemma {:induction false} TiedWithAppend<T>(a: seq<T>, b: seq<T>, before: (T, T) -> bool, x: T)
    ensures TiedWith(a + b, before, x) == TiedWith(a, before, x) + TiedWith(b, before, x)
    decreases |a|
  {
    if a == [] {
      assert a + b == b;
    } else {
      var head := if Tied(before, x, a[0]) then [a[0]] else [];
      assert (a + b)[0] == a[0];
      assert (a + b)[1..] == a[1..] + b;
      assert TiedWith(a + b, before, x) == head + TiedWith(a[1..] + b, before, x);
      assert TiedWith(a, before, x) == head + TiedWith(a[1..], before, x);
      TiedWithAppend(a[1..], b, before, x);
    }
  }

  /** Puts `x` in front of the first element it comes strictly before. */
  function Insert<T>(x: T, s: seq<T>, before: (T, T) -> bool): (r: seq<T>)
    ensures |r| == |s| + 1
    decreases |s|
  {
    if s == [] then [x]
    else if before(x, s[0]) then [x] + s
    else [s[0]] + Insert(x, s[1..], before)
  }

  /** Inserting adds exactly `x` to the elements. */
  lemma {:induction false} InsertMultiset<T>(x: T, s: seq<T>, before: (T, T) -> bool)
    ensures multiset(Insert(x, s, before)) == multiset(s) + multiset{x}
    decreases |s|
  {
    if s != [] && !before(x, s[0]) {
      assert s == [s[0]] + s[1..];
      InsertMultiset(x, s[1..], before);
    }
  }

  /** Insertion sort that takes the elements from the left and places each
      after every element it does not come strictly before. */
  function Sort<T>(s: seq<T>, before: (T, T) -> bool): (r: seq<T>)
    ensures |r| == |s|
    ensures multiset(r) == multiset(s)
    decreases |s|
  {
    if s == [] then []
    else
      assert s == s[..|s| - 1] + [s[|s| - 1]];
      InsertMultiset(s[|s| - 1], Sort(s[..|s| - 1], before), before);
      Insert(s[|s| - 1], Sort(s[..|s| - 1], before), before)
  }

  /** In a sorted sequence, the elements that `x` comes before form a suffix. */
  lemma PrecedesSuffix<T(!new)>(s: seq<T>, before: (T, T) -> bool, x: T)
    requires StrictWeakOrder(before) && Sorted(s, before) && s != [] && before(x, s[0])
    ensures forall k :: 0 <= k < |s| ==> before(x, s[k])
  {
    forall k | 0 < k < |s| ensures before(x, s[k]) {
      assert !before(s[k], s[0]);
      assert Splits(before, x, s[k], s[0]);
    }
  }

  lemma {:induction false} InsertSorted<T(!new)>(x: T, s: seq<T>, before: (T, T) -> bool)
    requires StrictWeakOrder(before) && Sorted(s, before)
    ensures Sorted(Insert(x, s, before), before)
    decreases |s|
  {
    if s != [] {
      if before(x, s[0]) {
        PrecedesSuffix(s, before, x);
        forall k | 0 <= k < |s| ensures !before(s[k], x) {
          AntiSymmetry(before, x, s[k]);
        }
        ConsSorted(x, s, before);
      } else {
        InsertSorted(x, s[1..], before);
        var t := Insert(x, s[1..], before);
        InsertMultiset(x, s[1..], before);
        assert forall k :: 0 <= k < |s[1..]| ==> !before(s[1..][k], s[0]) by {
          forall k | 0 <= k < |s[1..]| ensures !before(s[1..][k], s[0]) {
            assert s[1..][k] == s[k + 1];
          }
        }
        NotBeforeAny(s[0], x, s[1..], t, before);
        ConsSorted(s[0], t, before);
      }
    }
  }

  /** An element no later element comes before heads a sorted sequence. */
  lemma ConsSorted<T>(h: T, t: seq<T>, before: (T, T) -> bool)
    requires Sorted(t, before) && forall k :: 0 <= k < |t| ==> !before(t[k], h)
    ensures Sorted([h] + t, before)
  {
    var r := [h] + t;
    forall i, j | 0 <= i < j < |r| ensures !before(r[j], r[i]) {
      assert r[j] == t[j - 1];
      if i > 0 {
        assert r[i] == t[i - 1];
      }
    }
  }

  /** What comes before none of `s` nor `x` comes before none of `s` with
      `x` added. */
  lemma NotBeforeAny<T>(b: T, x: T, s: seq<T>, t: seq<T>, before: (T, T) -> bool)
    requires multiset(t) == multiset(s) + multiset{x}
    requires !before(x, b) && forall k :: 0 <= k < |s| ==> !before(s[k], b)
    ensures forall k :: 0 <= k < |t| ==> !before(t[k], b)
  {
    forall k | 0 <= k < |t| ensures !before(t[k], b) {
      assert t[k] in multiset(t);
      if t[k] != x {
        assert t[k] in multiset(s);
        var j :| 0 <= j < |s| && s[j] == t[k];
      }
    }
  }

  /** A strict weak order never puts two elements each before the other. */
  lemma AntiSymmetry<T(!new)>(before: (T, T) -> bool, a: T, b: T)
    requires StrictWeakOrder(before)
    ensures !(before(a, b) && before(b, a))
  {
    assert Chains(before, a, b, a);
  }

  /** The sort orders its input. */
  lemma {:induction false} SortSorted<T(!new)>(s: seq<T>, before: (T, T) -> bool)
    requires StrictWeakOrder(before)
    ensures Sorted(Sort(s, before), before)
    decreases |s|
  {
    if s != [] {
      SortSorted(s[..|s| - 1], before);
      InsertSorted(s[|s| - 1], Sort(s[..|s| - 1], before), before);
    }
  }

  lemma {:induction false} NoneTied<T(!new)>(t: seq<T>, before: (T, T) -> bool, x: T)
    requires forall k :: 0 <= k < |t| ==> before(x, t[k])
    ensures TiedWith(t, before, x) == []
    decreases |t|
  {
    if t != [] {
      NoneTied(t[1..], before, x);
    }
  }

  /** When `y` goes in front, no element of `t` is tied with an `x` tied with `y`. */
  lemma InsertFrontTiedWith<T(!new)>(y: T, t: seq<T>, before: (T, T) -> bool, x: T)
    requires StrictWeakOrder(before) && Sorted(t, before) && t != [] && before(y, t[0])
    requires Tied(before, x, y)
    ensures TiedWith(t, before, x) == []
  {
    PrecedesSuffix(t, before, y);
    forall k | 0 <= k < |t| ensures before(x, t[k]) {
      assert Splits(before, y, x, t[k]);
    }
    NoneTied(t, before, x);
  }

  /** `InsertTiedWith` where `y` goes in front of `t`. */
  lemma InsertFrontTiedWithAll<T(!new)>(y: T, t: seq<T>, before: (T, T) -> bool, x: T)
    requires StrictWeakOrder(before) && Sorted(t, before) && t != [] && before(y, t[0])
    ensures TiedWith(Insert(y, t, before), before, x)
         == TiedWith(t, before, x) + (if Tied(before, x, y) then [y] else [])
  {
    var r := [y] + t;
    assert Insert(y, t, before) == r;
    assert r[0] == y && r[1..] == t;
    if Tied(before, x, y) {
      InsertFrontTiedWith(y, t, before, x);
    }
  }

  /** `InsertTiedWith` where `y` goes after the first element of `t`, from
      the same fact about the rest of `t`. */
  lemma InsertLaterTiedWith<T>(y: T, t: seq<T>, before: (T, T) -> bool, x: T)
    requires t != [] && !before(y, t[0])
    requires TiedWith(Insert(y, t[1..], before), before, x)
          == TiedWith(t[1..], before, x) + (if Tied(before, x, y) then [y] else [])
    ensures TiedWith(Insert(y, t, before), before, x)
         == TiedWith(t, before, x) + (if Tied(before, x, y) then [y] else [])
  {
    var rest := Insert(y, t[1..], before);
    var r := [t[0]] + rest;
    var head := if Tied(before, x, t[0]) then [t[0]] else [];
    var tail := if Tied(before, x, y) then [y] else [];
    assert Insert(y, t, before) == r;
    assert r[0] == t[0] && r[1..] == rest;
    calc {
      TiedWith(r, before, x);
      head + TiedWith(rest, before, x);
      head + (TiedWith(t[1..], before, x) + tail);
      (head + TiedWith(t[1..], before, x)) + tail;
      TiedWith(t, before, x) + tail;
    }
  }

  lemma {:induction false} InsertTiedWith<T(!new)>(y: T, t: seq<T>, before: (T, T) -> bool, x: T)
    requires StrictWeakOrder(before) && Sorted(t, before)
    ensures TiedWith(Insert(y, t, before), before, x)
         == TiedWith(t, before, x) + (if Tied(before, x, y) then [y] else [])
    decreases |t|
  {
    if t == [] {
      TiedWithSingle(y, before, x);
    } else if before(y, t[0]) {
      InsertFrontTiedWithAll(y, t, before, x);
    } else {
      assert Sorted(t[1..], before);
      InsertTiedWith(y, t[1..], before, x);
      InsertLaterTiedWith(y, t, before, x);
    }
  }

  lemma TiedWithSingle<T>(y: T, before: (T, T) -> bool, x: T)
    ensures TiedWith([y], before, x) == (if Tied(before, x, y) then [y] else [])
  {
    assert [y][1..] == [];
  }

  /** Cutting a sorted sequence after `n` elements keeps it sorted, and no
      element cut off comes strictly before a kept one. */
  lemma SortedPrefix<T>(s: seq<T>, before: (T, T) -> bool, n: nat)
    requires Sorted(s, before) && n <= |s|
    ensures Sorted(s[..n], before)
    ensures forall x, y :: x in s && x !in s[..n] && y in s[..n] ==> !before(x, y)
  {
    var p := s[..n];
    forall i, j | 0 <= i < j < |p| ensures !before(p[j], p[i]) {
      assert p[i] == s[i] && p[j] == s[j];
    }
    forall x, y | x in s && x !in p && y in p ensures !before(x, y) {
      var j :| 0 <= j < |s| && s[j] == x;
      var i :| 0 <= i < n && p[i] == y;
      assert j >= n;
      assert s[i] == y;
    }
  }

  /** The first `n` elements of the sorted sequence. */
  function Top<T>(s: seq<T>, before: (T, T) -> bool, n: nat): seq<T> {
    var sorted := Sort(s, before);
    if |sorted| > n then sorted[..n] else sorted
  }

  /** The top `n` are sorted and drawn from the input, and none of the
      elements left out comes before a kept one. */
  lemma TopOf<T(!new)>(s: seq<T>, before: (T, T) -> bool, n: nat)
    requires StrictWeakOrder(before)
    ensures var r := Top(s, before, n);
      && |r| == (if |s| > n then n else |s|)
      && (forall c :: c in r ==> c in s)
      && Sorted(r, before)
      && (forall x, y :: x in s && x !in r && y in r ==> !before(x, y))
  {
    var sorted := Sort(s, before);
    SortSorted(s, before);
    SortMembers(s, before);
    var r := Top(s, before, n);
    assert r == sorted[..|r|];
    SortedPrefix(sorted, before, |r|);
  }

  /** Stability: for every `x`, the elements tied with it keep their order. */
  lemma {:induction false} SortStable<T(!new)>(s: seq<T>, before: (T, T) -> bool, x: T)
    requires StrictWeakOrder(before)
    ensures TiedWith(Sort(s, before), before, x) == TiedWith(s, before, x)
    decreases |s|
  {
    if s != [] {
      var init, last := s[..|s| - 1], s[|s| - 1];
      var sorted := Sort(init, before);
      assert s == init + [last];
      assert Sort(s, before) == Insert(last, sorted, before);
      SortStable(init, before, x);
      SortSorted(init, before);
      InsertTiedWith(last, sorted, before, x);
      TiedWithAppend(init, [last], before, x);
      TiedWithSingle(last, before, x);
    }
  }

  lemma {:induction false} InsertAtEnd<T>(x: T, t: seq<T>, before: (T, T) -> bool)
    requires forall k :: 0 <= k < |t| ==> !before(x, t[k])
    ensures Insert(x, t, before) == t + [x]
    decreases |t|
  {
    if t != [] {
      InsertAtEnd(x, t[1..], before);
      assert t == [t[0]] + t[1..];
    }
  }

  /** A sorted input comes out as it went in. */
  lemma {:induction false} SortOfSorted<T>(s: seq<T>, before: (T, T) -> bool)
    requires Sorted(s, before)
    ensures Sort(s, before) == s
    decreases |s|
  {
    if s != [] {
      var init, last := s[..|s| - 1], s[|s| - 1];
      assert Sorted(init, before);
      SortOfSorted(init, before);
      InsertAtEnd(last, init, before);
      assert s == init + [last];
    }
  }

  /** The sort keeps exactly the elements of its input. */
  lemma SortMembers<T>(s: seq<T>, before: (T, T) -> bool)
    ensures forall x :: x in Sort(s, before) <==> x in s
  {
    var r := Sort(s, before);
    forall x ensures x in r <==> x in s {
      assert x in r <==> x in multiset(r);
      assert x in s <==> x in multiset(s);
    }
  }

  /** Comparing a text key by `Order.Less` is a strict weak order. */
  lemma LessOnKey<T(!new)>(before: (T, T) -> bool, key: T -> string)
    requires forall a, b :: before(a, b) == Order.Less(key(a), key(b))
    ensures StrictWeakOrder(before)
  {
    forall a ensures !before(a, a) {
      Order.LessIrreflexive(key(a));
    }
    forall a, b, c ensures Chains(before, a, b, c) {
      if before(a, b) && before(b, c) {
        Order.LessTransitive(key(a), key(b), key(c));
      }
    }
    forall a, b, c ensures Splits(before, a, b, c) {
      if before(a, c) {
        Order.LessTotal(key(a), key(b));
        Order.LessTotal(key(b), key(c));
        if Order.Less(key(b), key(a)) && Order.Less(key(c), key(b)) {
          Order.LessTransitive(key(c), key(b), key(a));
          Order.LessAsymmetric(key(a), key(c));
        }
      }
    }
  }

  /** Putting a higher integer score first is a strict weak order. */
  lemma HigherFirst<T(!new)>(before: (T, T) -> bool, score: T -> int)
    requires forall a, b :: before(a, b) == (score(a) > score(b))
    ensures StrictWeakOrder(before)
  {
  }
}
