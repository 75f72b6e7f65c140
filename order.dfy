/**
 * The order in which the sources sort text: SQLite's default BINARY
 * collation on `ORDER BY date` and JavaScript's default `Array.prototype.sort`.
 * On the ASCII date and month keys both agree with the lexicographic order
 * on characters defined here.
 */
module Order {

  /** Strict lexicographic order: a proper prefix comes first, otherwise the
      first differing character decides. */
  predicate Less(a: string, b: string)
    decreases |a|
  {
    if |a| == 0 then |b| > 0
    else if |b| == 0 then false
    else if a[0] == b[0] then Less(a[1..], b[1..])
    else a[0] < b[0]
  }

  lemma {:induction false} LessIrreflexive(a: string)
    ensures !Less(a, a)
    decreases |a|
  {
    if |a| > 0 {
      LessIrreflexive(a[1..]);
    }
  }

  lemma {:induction false} LessTransitive(a: string, b: string, c: string)
    requires Less(a, b) && Less(b, c)
    ensures Less(a, c)
    decreases |a|
  {
    if |a| > 0 && a[0] == b[0] && b[0] == c[0] {
      LessTransitive(a[1..], b[1..], c[1..]);
    }
  }

  lemma {:induction false} LessTotal(a: string, b: string)
    ensures a == b || Less(a, b) || Less(b, a)
    decreases |a|
  {
    if |a| > 0 && |b| > 0 && a[0] == b[0] {
      LessTotal(a[1..], b[1..]);
      if a[1..] == b[1..] {
        assert a == [a[0]] + a[1..] && b == [b[0]] + b[1..];
      }
    }
  }

  lemma LessAsymmetric(a: string, b: string)
    requires Less(a, b)
    ensures !Less(b, a)
  {
    if Less(b, a) {
      LessTransitive(a, b, a);
      LessIrreflexive(a);
    }
  }

  /** The elements that satisfy `p`, in order: SQL `WHERE`. */
  function Filter<T(!new)>(s: seq<T>, p: T -> bool): (r: seq<T>)
    ensures |r| <= |s|
    decreases |s|
  {
    if s == [] then []
    else Filter(s[..|s| - 1], p) + (if p(s[|s| - 1]) then [s[|s| - 1]] else [])
  }

  /** The filter keeps exactly the elements that pass. */
  lemma {:induction false} FilterMembers<T(!new)>(s: seq<T>, p: T -> bool)
    ensures forall x :: x in Filter(s, p) <==> x in s && p(x)
    decreases |s|
  {
    if s != [] {
      FilterMembers(s[..|s| - 1], p);
      assert s == s[..|s| - 1] + [s[|s| - 1]];
    }
  }

  lemma {:induction false} FilterAppend<T(!new)>(a: seq<T>, b: seq<T>, p: T -> bool)
    ensures Filter(a + b, p) == Filter(a, p) + Filter(b, p)
    decreases |b|
  {
    if b == [] {
      assert a + b == a;
    } else {
      var init, last := b[..|b| - 1], b[|b| - 1];
      var ab := a + b;
      var tail := if p(last) then [last] else [];
      assert ab[..|ab| - 1] == a + init && ab[|ab| - 1] == last;
      FilterAppend(a, init, p);
      assert Filter(ab, p) == Filter(a + init, p) + tail;
      assert Filter(b, p) == Filter(init, p) + tail;
    }
  }

  /** Filtering a sequence whose every element passes keeps it whole. */
  lemma {:induction false} FilterAll<T(!new)>(s: seq<T>, p: T -> bool)
    requires forall k :: 0 <= k < |s| ==> p(s[k])
    ensures Filter(s, p) == s
    decreases |s|
  {
    if s != [] {
      var init, last := s[..|s| - 1], s[|s| - 1];
      FilterAll(init, p);
      assert p(last);
      assert Filter(s, p) == Filter(init, p) + [last];
      assert s == init + [last];
    }
  }

  /** Filtering a sequence none of whose elements passes gives nothing. */
  lemma {:induction false} FilterNone<T(!new)>(s: seq<T>, p: T -> bool)
    requires forall k :: 0 <= k < |s| ==> !p(s[k])
    ensures Filter(s, p) == []
    decreases |s|
  {
    if s != [] {
      FilterNone(s[..|s| - 1], p);
    }
  }

  /** A relation every earlier element has to every later one survives
      filtering. */
  lemma {:induction false} FilterPairwise<T(!new)>(s: seq<T>, p: T -> bool, rel: (T, T) -> bool)
    requires forall i, j :: 0 <= i < j < |s| ==> rel(s[i], s[j])
    ensures forall i, j :: 0 <= i < j < |Filter(s, p)| ==> rel(Filter(s, p)[i], Filter(s, p)[j])
    decreases |s|
  {
    if s != [] {
      var init, last := s[..|s| - 1], s[|s| - 1];
      FilterPairwise(init, p, rel);
      var f := Filter(init, p);
      FilterMembers(init, p);
      forall i | 0 <= i < |f| ensures rel(f[i], last) {
        assert f[i] in init;
        var k :| 0 <= k < |init| && init[k] == f[i];
        assert s[k] == f[i];
      }
      var r := Filter(s, p);
      assert r == f + (if p(last) then [last] else []);
      forall i, j | 0 <= i < j < |r| ensures rel(r[i], r[j]) {
        if j < |f| {
          assert r[i] == f[i] && r[j] == f[j];
          assert rel(f[i], f[j]);
        } else {
          assert p(last) && j == |f|;
          assert r[i] == f[i] && r[j] == last;
          assert rel(f[i], last);
        }
      }
    }
  }

  /** Non-decreasing order. */
  predicate Ascending(s: seq<string>) {
    forall i, j :: 0 <= i < j < |s| ==> !Less(s[j], s[i])
  }

  predicate StrictlyAscending(s: seq<string>) {
    forall i, j :: 0 <= i < j < |s| ==> Less(s[i], s[j])
  }

  predicate StrictlyDescending(s: seq<string>) {
    forall i, j :: 0 <= i < j < |s| ==> Less(s[j], s[i])
  }

  predicate NoDuplicates<T(==)>(s: seq<T>) {
    forall i, j :: 0 <= i < j < |s| ==> s[i] != s[j]
  }

  function Reverse<T>(s: seq<T>): (r: seq<T>)
    ensures |r| == |s|
    ensures forall k :: 0 <= k < |s| ==> r[k] == s[|s| - 1 - k]
  {
    if s == [] then [] else Reverse(s[1..]) + [s[0]]
  }

  /** Inserts `x` into an ascending sequence before the first element greater
      than it. */
  function InsertAsc(x: string, s: seq<string>): (r: seq<string>)
    requires Ascending(s)
    ensures multiset(r) == multiset(s) + multiset{x}
    ensures Ascending(r)
    decreases |s|
  {
    if s == [] then [x]
    else if Less(x, s[0]) then
      assert forall j :: 0 < j < |s| ==> !Less(s[j], x) by {
        forall j | 0 < j < |s| ensures !Less(s[j], x) {
          if Less(s[j], x) { LessTransitive(s[j], x, s[0]); }
        }
      }
      LessAsymmetric(x, s[0]);
      ConsAscending(x, s);
      [x] + s
    else
      var t := InsertAsc(x, s[1..]);
      assert s == [s[0]] + s[1..];
      LowerBound(s[0], x, s[1..], t);
      ConsAscending(s[0], t);
      [s[0]] + t
  }

  /** A bound below an element and below a sequence is below the sequence
      with the element inserted. */
  lemma LowerBound(b: string, x: string, s: seq<string>, t: seq<string>)
    requires multiset(t) == multiset(s) + multiset{x}
    requires !Less(x, b) && forall k :: 0 <= k < |s| ==> !Less(s[k], b)
    ensures forall k :: 0 <= k < |t| ==> !Less(t[k], b)
  {
    forall k | 0 <= k < |t| ensures !Less(t[k], b) {
      assert t[k] in multiset(t);
      if t[k] != x {
        assert t[k] in multiset(s);
        var j :| 0 <= j < |s| && s[j] == t[k];
      }
    }
  }

  /** An element no later element is below heads an ascending sequence. */
  lemma ConsAscending(h: string, t: seq<string>)
    requires Ascending(t) && forall k :: 0 <= k < |t| ==> !Less(t[k], h)
    ensures Ascending([h] + t)
  {
    var r := [h] + t;
    forall i, j | 0 <= i < j < |r| ensures !Less(r[j], r[i]) {
      assert r[j] == t[j - 1];
      if i > 0 {
        assert r[i] == t[i - 1];
      }
    }
  }

  /** Insertion sort into ascending order: a model of JavaScript's default
      `sort()` on strings. */
  function SortAsc(s: seq<string>): (r: seq<string>)
    ensures Ascending(r)
    ensures multiset(r) == multiset(s)
    ensures |r| == |s|
    decreases |s|
  {
    if s == [] then []
    else
      assert s == [s[0]] + s[1..];
      InsertAsc(s[0], SortAsc(s[1..]))
  }

  /** The first occurrence of every element, in the order of first occurrence:
      SQL `DISTINCT`. */
  function Distinct(s: seq<string>): (r: seq<string>)
    ensures forall x :: x in r <==> x in s
    ensures NoDuplicates(r)
    decreases |s|
  {
    if s == [] then []
    else
      var init := s[..|s| - 1];
      var last := s[|s| - 1];
      assert s == init + [last];
      var d := Distinct(init);
      if last in init then d
      else
        assert last !in d;
        d + [last]
  }

  /** An ascending sequence without duplicates is strictly ascending. */
  lemma AscendingDistinct(s: seq<string>)
    requires Ascending(s) && NoDuplicates(s)
    ensures StrictlyAscending(s)
  {
    forall i, j | 0 <= i < j < |s| ensures Less(s[i], s[j]) {
      LessTotal(s[i], s[j]);
    }
  }

  /** Reversing a strictly ascending sequence gives a strictly descending one. */
  lemma ReverseAscending(s: seq<string>)
    requires StrictlyAscending(s)
    ensures StrictlyDescending(Reverse(s))
  {
    var r := Reverse(s);
    forall i, j | 0 <= i < j < |r| ensures Less(r[j], r[i]) {
      assert r[i] == s[|s| - 1 - i] && r[j] == s[|s| - 1 - j];
    }
  }

  /** Sorting a sequence without duplicates and reversing it gives the same
      elements in strictly descending order: `ORDER BY … DESC` after
      `DISTINCT`, and `sort().reverse()` on distinct keys. */
  lemma SortedDescending(s: seq<string>)
    requires NoDuplicates(s)
    ensures StrictlyDescending(Reverse(SortAsc(s)))
    ensures forall x :: x in Reverse(SortAsc(s)) <==> x in s
  {
    var t := SortAsc(s);
    PermutationKeepsNoDuplicates(s, t);
    AscendingDistinct(t);
    ReverseAscending(t);
    ReverseSameElements(t);
    forall x ensures x in t <==> x in s {
      assert x in t <==> x in multiset(t);
      assert x in s <==> x in multiset(s);
    }
  }

  lemma ReverseSameElements(t: seq<string>)
    ensures forall x :: x in Reverse(t) <==> x in t
  {
    var r := Reverse(t);
    forall x ensures x in r <==> x in t {
      if x in t {
        var k :| 0 <= k < |t| && t[k] == x;
        assert r[|t| - 1 - k] == x;
      }
      if x in r {
        var k :| 0 <= k < |r| && r[k] == x;
        assert t[|t| - 1 - k] == x;
      }
    }
  }

  lemma PermutationKeepsNoDuplicates<T>(s: seq<T>, t: seq<T>)
    requires NoDuplicates(s) && multiset(t) == multiset(s)
    ensures NoDuplicates(t)
  {
    forall i, j | 0 <= i < j < |t| ensures t[i] != t[j] {
      if t[i] == t[j] {
        assert t == t[..i] + [t[i]] + t[i + 1..j] + [t[j]] + t[j + 1..];
        assert multiset(t)[t[i]] >= 2;
        MultiplicityAtMostOne(s, t[i]);
      }
    }
  }

  lemma {:induction false} MultiplicityAtMostOne<T>(s: seq<T>, x: T)
    requires NoDuplicates(s)
    ensures multiset(s)[x] <= 1
    decreases |s|
  {
    if s != [] {
      assert s == [s[0]] + s[1..];
      MultiplicityAtMostOne(s[1..], x);
      if s[0] == x {
        assert x !in s[1..];
      }
    }
  }
}
