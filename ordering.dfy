/**
 * The order the route puts conversions in before grouping, listing and
 * archiving them: by folder, then by converted file name. The route sorts
 * the array of conversions in place with `Array.prototype.sort`, which is
 * stable, so records that compare equal keep their upload order.
 */
module Ordering {
  import opened Processing

  /**
   * `a.localeCompare(b)`, taken as the lexicographic comparison of the
   * characters: negative, zero or positive as `a` comes before, equals or
   * comes after `b`.
   */
  function CompareStrings(a: string, b: string): (r: int)
    ensures -1 <= r <= 1
    ensures r == 0 <==> a == b
  {
    if |a| == 0 && |b| == 0 then 0
    else if |a| == 0 then -1
    else if |b| == 0 then 1
    else if a[0] < b[0] then -1
    else if a[0] > b[0] then 1
    else
      var r := CompareStrings(a[1..], b[1..]);
      assert r == 0 ==> a == [a[0]] + a[1..] == [b[0]] + b[1..] == b;
      r
  }

  /** Swapping the arguments negates the comparison. */
  lemma {:induction false} CompareStringsFlip(a: string, b: string)
    ensures CompareStrings(b, a) == -CompareStrings(a, b)
    decreases |a|
  {
    if |a| > 0 && |b| > 0 && a[0] == b[0] {
      CompareStringsFlip(a[1..], b[1..]);
    }
  }

  /** "Comes before or equals" is transitive. */
  lemma {:induction false} CompareStringsTransitive(a: string, b: string, c: string)
    requires CompareStrings(a, b) <= 0 && CompareStrings(b, c) <= 0
    ensures CompareStrings(a, c) <= 0
    decreases |a|
  {
    if |a| > 0 && |b| > 0 && |c| > 0 && a[0] == b[0] == c[0] {
      CompareStringsTransitive(a[1..], b[1..], c[1..]);
    }
  }

  /** The comparator of lines 90-96: folder first, then the converted file name. */
  function CompareResults(x: ConversionResult, y: ConversionResult): (r: int)
    ensures -1 <= r <= 1
    ensures r == 0 <==> x.folder == y.folder && x.fileName == y.fileName
  {
    if x.folder != y.folder then CompareStrings(x.folder, y.folder)
    else CompareStrings(x.fileName, y.fileName)
  }

  /** The comparator is antisymmetric. */
  lemma CompareResultsFlip(x: ConversionResult, y: ConversionResult)
    ensures CompareResults(y, x) == -CompareResults(x, y)
  {
    CompareStringsFlip(x.folder, y.folder);
    CompareStringsFlip(x.fileName, y.fileName);
  }

  /** The comparator is transitive: it is a consistent total preorder. */
  lemma CompareResultsTransitive(x: ConversionResult, y: ConversionResult, z: ConversionResult)
    requires CompareResults(x, y) <= 0 && CompareResults(y, z) <= 0
    ensures CompareResults(x, z) <= 0
  {
    if x.folder == y.folder == z.folder {
      CompareStringsTransitive(x.fileName, y.fileName, z.fileName);
    } else {
      CompareStringsTransitive(x.folder, y.folder, z.folder);
      if x.folder == z.folder {
        CompareStringsFlip(x.folder, y.folder);
      }
    }
  }

  /** Every record comes before or equals every later one. */
  predicate Sorted(s: seq<ConversionResult>)
  {
    forall i, j :: 0 <= i < j < |s| ==> CompareResults(s[i], s[j]) <= 0
  }

  /**
   * Insert `x` into `s` from the right: it moves left past every record that
   * compares greater than it, and stops at the first one that does not.
   */
  function Insert(s: seq<ConversionResult>, x: ConversionResult): seq<ConversionResult>
  {
    if s == [] then [x]
    else if CompareResults(s[|s| - 1], x) > 0 then Insert(s[..|s| - 1], x) + [s[|s| - 1]]
    else s + [x]
  }

  /** The stable sort by the comparator: insertion of each record in turn. */
  function SortResults(s: seq<ConversionResult>): seq<ConversionResult>
  {
    if s == [] then [] else Insert(SortResults(s[..|s| - 1]), s[|s| - 1])
  }

  lemma {:induction false} InsertPermutes(s: seq<ConversionResult>, x: ConversionResult)
    ensures multiset(Insert(s, x)) == multiset(s) + multiset{x}
    ensures |Insert(s, x)| == |s| + 1
    decreases |s|
  {
    if s != [] && CompareResults(s[|s| - 1], x) > 0 {
      InsertPermutes(s[..|s| - 1], x);
      assert s == s[..|s| - 1] + [s[|s| - 1]];
    }
  }

  /** Appending a record that no earlier record exceeds keeps a sequence sorted. */
  lemma SortedAppend(s: seq<ConversionResult>, y: ConversionResult)
    requires Sorted(s)
    requires forall z :: z in s ==> CompareResults(z, y) <= 0
    ensures Sorted(s + [y])
  {
    forall i, j | 0 <= i < j < |s| + 1
      ensures CompareResults((s + [y])[i], (s + [y])[j]) <= 0
    {
      if j == |s| {
        assert (s + [y])[i] == s[i] && s[i] in s;
      }
    }
  }

  lemma {:induction false} InsertSorted(s: seq<ConversionResult>, x: ConversionResult)
    requires Sorted(s)
    ensures Sorted(Insert(s, x))
    decreases |s|
  {
    if s != [] {
      if CompareResults(s[|s| - 1], x) > 0 {
        assert Sorted(s[..|s| - 1]);
        InsertSorted(s[..|s| - 1], x);
        InsertSortedPast(s, x);
      } else {
        InsertSortedAfter(s, x);
      }
    }
  }

  /** `x` goes after the last record when that one does not exceed it. */
  lemma InsertSortedAfter(s: seq<ConversionResult>, x: ConversionResult)
    requires s != [] && Sorted(s) && CompareResults(s[|s| - 1], x) <= 0
    ensures Sorted(s + [x])
  {
    var last := s[|s| - 1];
    forall z | z in s ensures CompareResults(z, x) <= 0 {
      var i :| 0 <= i < |s| && s[i] == z;
      if i < |s| - 1 {
        CompareResultsTransitive(z, last, x);
      }
    }
    SortedAppend(s, x);
  }

  /** `x` goes before the last record when that one exceeds it. */
  lemma InsertSortedPast(s: seq<ConversionResult>, x: ConversionResult)
    requires s != [] && Sorted(s) && CompareResults(s[|s| - 1], x) > 0
    requires Sorted(Insert(s[..|s| - 1], x))
    ensures Sorted(Insert(s[..|s| - 1], x) + [s[|s| - 1]])
  {
    var init, last := s[..|s| - 1], s[|s| - 1];
    InsertPermutes(init, x);
    CompareResultsFlip(last, x);
    forall z | z in Insert(init, x) ensures CompareResults(z, last) <= 0 {
      assert z in multiset(Insert(init, x));
      if z != x {
        var i :| 0 <= i < |init| && init[i] == z;
        assert s[i] == z;
      }
    }
    SortedAppend(Insert(init, x), last);
  }

  /** The sorted sequence is a permutation of the input. */
  lemma {:induction false} SortResultsPermutes(s: seq<ConversionResult>)
    ensures multiset(SortResults(s)) == multiset(s)
    ensures |SortResults(s)| == |s|
    decreases |s|
  {
    if s != [] {
      SortResultsPermutes(s[..|s| - 1]);
      InsertPermutes(SortResults(s[..|s| - 1]), s[|s| - 1]);
      assert s == s[..|s| - 1] + [s[|s| - 1]];
    }
  }

  /** The sorted sequence is ordered by folder, then by file name. */
  lemma {:induction false} SortResultsSorted(s: seq<ConversionResult>)
    ensures Sorted(SortResults(s))
    decreases |s|
  {
    if s != [] {
      SortResultsSorted(s[..|s| - 1]);
      InsertSorted(SortResults(s[..|s| - 1]), s[|s| - 1]);
    }
  }

  /** The records of `s` with the same folder and file name as `k`, in order. */
  function WithKeyOf(s: seq<ConversionResult>, k: ConversionResult): seq<ConversionResult>
  {
    if s == [] then []
    else WithKeyOf(s[..|s| - 1], k) + (if CompareResults(s[|s| - 1], k) == 0 then [s[|s| - 1]] else [])
  }

  lemma {:induction false} InsertKeepsKeyOrder(s: seq<ConversionResult>, x: ConversionResult, k: ConversionResult)
    ensures WithKeyOf(Insert(s, x), k) == WithKeyOf(s, k) + (if CompareResults(x, k) == 0 then [x] else [])
    decreases |s|
  {
    if s == [] {
      assert WithKeyOf([x], k) == WithKeyOf([], k) + (if CompareResults(x, k) == 0 then [x] else []) by {
        assert [x][..0] == [];
      }
    } else {
      var init, last := s[..|s| - 1], s[|s| - 1];
      if CompareResults(last, x) > 0 {
        var t := Insert(init, x);
        InsertKeepsKeyOrder(init, x, k);
        assert (t + [last])[..|t + [last]| - 1] == t;
        CompareResultsFlip(x, k);
        if CompareResults(x, k) == 0 && CompareResults(last, k) == 0 {
          CompareResultsFlip(last, k);
          CompareResultsTransitive(last, k, x);
          assert false;
        }
      } else {
        assert (s + [x])[..|s|] == s;
      }
    }
  }

  /**
   * Stability: records with the same folder and file name come out of the
   * sort in the order they went in.
   */
  lemma {:induction false} SortResultsStable(s: seq<ConversionResult>, k: ConversionResult)
    ensures WithKeyOf(SortResults(s), k) == WithKeyOf(s, k)
    decreases |s|
  {
    if s != [] {
      var init, last := s[..|s| - 1], s[|s| - 1];
      SortResultsStable(init, k);
      InsertKeepsKeyOrder(SortResults(init), last, k);
    }
  }

  /**
   * A sequence that is a permutation of `s`, sorted, and keeps the input order
   * of the records of each key is `SortResults(s)`: every stable sort with
   * this comparator gives the same result as the insertion sort.
   */
  lemma StableSortUnique(s: seq<ConversionResult>, t: seq<ConversionResult>)
    requires multiset(t) == multiset(s) && Sorted(t)
    requires forall k :: WithKeyOf(t, k) == WithKeyOf(s, k)
    ensures t == SortResults(s)
  {
    var u := SortResults(s);
    SortResultsPermutes(s);
    SortResultsSorted(s);
    forall k ensures WithKeyOf(t, k) == WithKeyOf(u, k) {
      SortResultsStable(s, k);
    }
    SortedStableEqual(t, u);
  }

  /** Two sorted permutations of each other that agree on the order of every key are equal. */
  lemma {:induction false} SortedStableEqual(t: seq<ConversionResult>, u: seq<ConversionResult>)
    requires multiset(t) == multiset(u) && Sorted(t) && Sorted(u)
    requires forall k :: WithKeyOf(t, k) == WithKeyOf(u, k)
    ensures t == u
    decreases |t|
  {
    assert |t| == |multiset(t)| == |multiset(u)| == |u|;
    if t != [] {
      var n := |t| - 1;
      SameLast(t, u);
      forall k ensures WithKeyOf(t[..n], k) == WithKeyOf(u[..n], k) {
        KeyOrderOfInits(t, u, k);
      }
      InitsPermute(t, u);
      SortedStableEqual(t[..n], u[..n]);
    }
  }

  /** Dropping the same last record keeps the order of every key equal. */
  lemma KeyOrderOfInits(t: seq<ConversionResult>, u: seq<ConversionResult>, k: ConversionResult)
    requires t != [] && u != [] && t[|t| - 1] == u[|u| - 1]
    requires WithKeyOf(t, k) == WithKeyOf(u, k)
    ensures WithKeyOf(t[..|t| - 1], k) == WithKeyOf(u[..|u| - 1], k)
  {
    var a := t[|t| - 1];
    DropSameLast(WithKeyOf(t[..|t| - 1], k), WithKeyOf(u[..|u| - 1], k), if CompareResults(a, k) == 0 then [a] else []);
  }

  /** Dropping the same last record keeps two sorted permutations sorted permutations. */
  lemma InitsPermute(t: seq<ConversionResult>, u: seq<ConversionResult>)
    requires t != [] && u != [] && t[|t| - 1] == u[|u| - 1]
    requires multiset(t) == multiset(u) && Sorted(t) && Sorted(u)
    ensures multiset(t[..|t| - 1]) == multiset(u[..|u| - 1])
    ensures Sorted(t[..|t| - 1]) && Sorted(u[..|u| - 1])
  {
    var a := t[|t| - 1];
    assert t == t[..|t| - 1] + [a];
    assert u == u[..|u| - 1] + [a];
    assert multiset(t[..|t| - 1]) == multiset(t) - multiset{a};
    assert multiset(u[..|u| - 1]) == multiset(u) - multiset{a};
    SortedInit(t);
    SortedInit(u);
  }

  /** Dropping the last record keeps a sequence sorted. */
  lemma SortedInit(t: seq<ConversionResult>)
    requires t != [] && Sorted(t)
    ensures Sorted(t[..|t| - 1])
  {
    var init := t[..|t| - 1];
    forall i, j | 0 <= i < j < |init| ensures CompareResults(init[i], init[j]) <= 0 {
      assert init[i] == t[i] && init[j] == t[j];
    }
  }

  /** Two such sequences end in the same record. */
  lemma SameLast(t: seq<ConversionResult>, u: seq<ConversionResult>)
    requires t != [] && |u| == |t|
    requires multiset(t) == multiset(u) && Sorted(t) && Sorted(u)
    requires forall k :: WithKeyOf(t, k) == WithKeyOf(u, k)
    ensures t[|t| - 1] == u[|u| - 1]
  {
    var n := |t| - 1;
    var a, b := t[n], u[n];
    assert a in multiset(t) && b in multiset(u);
    LastIsGreatest(t, b, multiset(u));
    LastIsGreatest(u, a, multiset(t));
    CompareResultsFlip(a, b);
    EndsInLast(t, a);
    EndsInLast(u, a);
    var w := WithKeyOf(t, a);
    assert w[|w| - 1] == a;
  }

  /** The records of `t` with the key of its last one end with that last one. */
  lemma EndsInLast(t: seq<ConversionResult>, k: ConversionResult)
    requires t != [] && CompareResults(t[|t| - 1], k) == 0
    ensures var w := WithKeyOf(t, k);
            |w| > 0 && w[|w| - 1] == t[|t| - 1]
  {
  }

  /** The last record of a sorted sequence comes after or equals any record of it. */
  lemma LastIsGreatest(t: seq<ConversionResult>, x: ConversionResult, m: multiset<ConversionResult>)
    requires t != [] && Sorted(t) && m == multiset(t) && x in m
    ensures CompareResults(x, t[|t| - 1]) <= 0
  {
    var i :| 0 <= i < |t| && t[i] == x;
    if i == |t| - 1 {
      assert CompareResults(x, x) == 0;
    }
  }

  lemma DropSameLast<T>(p: seq<T>, q: seq<T>, x: seq<T>)
    requires p + x == q + x
    ensures p == q
  {
    assert p == (p + x)[..|p|];
    assert q == (q + x)[..|q|];
  }

  /**
   * `convertedImages.sort(...)`: sorts the array in place by insertion. The
   * engine's own algorithm is not visible; any stable sort with this
   * comparator leaves the array in the same order.
   */
  method SortByFolderThenName(a: array<ConversionResult>)
    modifies a
    ensures a[..] == SortResults(old(a[..]))
  {
    for i := 0 to a.Length
      invariant a[..i] == SortResults(old(a[..])[..i])
      invariant a[i..] == old(a[..])[i..]
    {
      assert old(a[..])[..i + 1][..i] == old(a[..])[..i];
      InsertInPlace(a, i);
    }
    assert a[..] == a[..a.Length];
    assert old(a[..]) == old(a[..])[..a.Length];
  }

  /** Inserting a record that the last one exceeds moves it before that last one. */
  lemma InsertPastLast(s: seq<ConversionResult>, x: ConversionResult)
    requires |s| > 0 && CompareResults(s[|s| - 1], x) > 0
    ensures Insert(s, x) == Insert(s[..|s| - 1], x) + [s[|s| - 1]]
  {
  }

  /** One pass of the sort: moves `a[i]` left past the records before it that compare greater. */
  method InsertInPlace(a: array<ConversionResult>, i: nat)
    requires i < a.Length
    modifies a
    ensures a[..i + 1] == Insert(old(a[..i]), old(a[i]))
    ensures a[i + 1..] == old(a[i + 1..])
  {
    ghost var prefix, rest := a[..i], a[i + 1..];
    var x := a[i];
    var j := i;
    assert a[..] == prefix[..j] + [x] + prefix[j..] + rest;
    while j > 0 && CompareResults(a[j - 1], x) > 0
      invariant 0 <= j <= i
      invariant a[..] == prefix[..j] + [x] + prefix[j..] + rest
      invariant AllExceed(prefix[j..], x)
    {
      SwapStep(prefix, x, rest, j);
      ExceedStep(prefix, x, j);
      a[j - 1], a[j] := a[j], a[j - 1];
      j := j - 1;
    }
    PassEnds(prefix, x, rest, j);
  }

  /**
   * Where a pass stops: past every record from `j` on, which all exceed `x`,
   * and after the record at `j - 1`, which does not.
   */
  lemma {:induction false} InsertAt(prefix: seq<ConversionResult>, x: ConversionResult, j: nat)
    requires j <= |prefix|
    requires j == 0 || CompareResults(prefix[j - 1], x) <= 0
    requires forall k :: j <= k < |prefix| ==> CompareResults(prefix[k], x) > 0
    ensures Insert(prefix, x) == prefix[..j] + [x] + prefix[j..]
    decreases |prefix|
  {
    if j < |prefix| {
      var init := prefix[..|prefix| - 1];
      assert init[..j] == prefix[..j];
      InsertAt(init, x, j);
      assert prefix[j..] == init[j..] + [prefix[|prefix| - 1]];
    } else {
      assert prefix[..j] == prefix;
    }
  }

  /** Every record of `s` compares greater than `x`. */
  predicate AllExceed(s: seq<ConversionResult>, x: ConversionResult)
  {
    s == [] || (CompareResults(s[0], x) > 0 && AllExceed(s[1..], x))
  }

  lemma ExceedStep(p: seq<ConversionResult>, x: ConversionResult, j: nat)
    requires 0 < j <= |p| && CompareResults(p[j - 1], x) > 0 && AllExceed(p[j..], x)
    ensures AllExceed(p[j - 1..], x)
  {
    assert p[j - 1..][1..] == p[j..];
  }

  lemma {:induction false} AllExceedAt(p: seq<ConversionResult>, x: ConversionResult, j: nat)
    requires j <= |p| && AllExceed(p[j..], x)
    ensures forall k :: j <= k < |p| ==> CompareResults(p[k], x) > 0
    decreases |p| - j
  {
    if j < |p| {
      assert p[j..][1..] == p[j + 1..];
      AllExceedAt(p, x, j + 1);
    }
  }

  /** Swapping `x` with the record before it moves `x` one place left. */
  lemma SwapStep<T>(p: seq<T>, x: T, r: seq<T>, j: nat)
    requires 0 < j <= |p|
    ensures var s := p[..j] + [x] + p[j..] + r;
            && s[j - 1] == p[j - 1] && s[j] == x
            && s[j - 1 := x][j := p[j - 1]] == p[..j - 1] + [x] + p[j - 1..] + r
  {
    var s := p[..j] + [x] + p[j..] + r;
    var t := p[..j - 1] + [x] + p[j - 1..] + r;
    assert |s[j - 1 := x][j := p[j - 1]]| == |t|;
    forall k | 0 <= k < |t| ensures s[j - 1 := x][j := p[j - 1]][k] == t[k] {
      if k < j - 1 { } else if k == j - 1 { } else if k == j { } else if k <= |p| { } else { }
    }
  }

  /** The array a pass leaves behind: `x` inserted into the prefix, the rest untouched. */
  lemma PassEnds(prefix: seq<ConversionResult>, x: ConversionResult, rest: seq<ConversionResult>, j: nat)
    requires j <= |prefix| && AllExceed(prefix[j..], x)
    requires j == 0 || CompareResults(prefix[j - 1], x) <= 0
    ensures var s := prefix[..j] + [x] + prefix[j..] + rest;
            s[..|prefix| + 1] == Insert(prefix, x) && s[|prefix| + 1..] == rest
  {
    AllExceedAt(prefix, x, j);
    InsertAt(prefix, x, j);
    SplitAfter(prefix[..j] + [x] + prefix[j..], rest);
  }

  lemma SplitAfter<T>(s: seq<T>, r: seq<T>)
    ensures (s + r)[..|s|] == s && (s + r)[|s|..] == r
  {
  }
}
