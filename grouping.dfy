/** The three import tiers and the order the sort puts imports in: tier first,
    then the path, byte by byte. */
module Grouping {
  import opened Types
  import opened Text
  import LocalPrefix

  // ---------------------------------------------------------------------------
  // Tiers

  /** byGroup.group: 2 for the project's own packages (the path is the prefix
      or lies below it), 1 for any other path with a dot (a remote package),
      0 for the rest (the standard library). */
  function Group(prefix: string, path: string): (g: int)
    ensures 0 <= g <= 2
    ensures g == 2 <==> prefix != "" && LocalPrefix.InTree(path, prefix)
    ensures g == 1 <==> !(prefix != "" && LocalPrefix.InTree(path, prefix)) && '.' in path
  {
    if prefix != "" && HasPrefix(path, prefix) && (|path| == |prefix| || path[|prefix|] == '/') then
      assert |path| == |prefix| ==> path == prefix by {
        if |path| == |prefix| {
          assert path[..|prefix|] == path;
        }
      }
      assert path == prefix || HasPrefix(path, prefix + "/") by {
        if |path| != |prefix| {
          assert path[..|prefix| + 1] == path[..|prefix|] + [path[|prefix|]];
        }
      }
      2
    else
      assert LocalPrefix.InTree(path, prefix) ==> HasPrefix(path, prefix) && (|path| == |prefix| || path[|prefix|] == '/') by {
        if path != prefix && HasPrefix(path, prefix + "/") {
          assert path[..|prefix|] == path[..|prefix| + 1][..|prefix|];
          assert path[|prefix|] == path[..|prefix| + 1][|prefix|];
        }
      }
      if '.' in path then 1 else 0
  }

  /** The package being sorted is itself in the local tier, whenever the
      resolver recognises its path. */
  lemma OwnPackageIsLocal(pkg: string)
    requires LocalPrefix.LocalPackagePrefix(pkg) != ""
    ensures Group(LocalPrefix.LocalPackagePrefix(pkg), pkg) == 2
  {
  }

  /** A sibling whose name merely extends the prefix is not local: the prefix
      must be followed by '/' or the end of the path. */
  lemma SiblingNotLocal(prefix: string, suffix: string, rest: string)
    requires prefix != "" && suffix != "" && suffix[0] != '/'
    ensures Group(prefix, prefix + suffix + rest) < 2
  {
    var path := prefix + suffix + rest;
    assert path[|prefix|] == suffix[0];
    assert path != prefix;
  }

  // ---------------------------------------------------------------------------
  // Byte order on paths

  /** Go's `<` on strings: byte-wise lexicographic, a proper prefix first. */
  predicate StrLess(a: string, b: string)
    decreases |a|
  {
    if a == [] then b != []
    else if b == [] then false
    else if a[0] != b[0] then a[0] < b[0]
    else StrLess(a[1..], b[1..])
  }

  lemma {:induction false} StrLessIrreflexive(a: string)
    ensures !StrLess(a, a)
    decreases |a|
  {
    if a != [] {
      StrLessIrreflexive(a[1..]);
    }
  }

  lemma {:induction false} StrLessTransitive(a: string, b: string, c: string)
    requires StrLess(a, b) && StrLess(b, c)
    ensures StrLess(a, c)
    decreases |a|
  {
    if a != [] && b != [] && c != [] && a[0] == b[0] && b[0] == c[0] {
      StrLessTransitive(a[1..], b[1..], c[1..]);
    }
  }

  /** Two different strings are ordered one way or the other. */
  lemma {:induction false} StrLessTotal(a: string, b: string)
    ensures a == b || StrLess(a, b) || StrLess(b, a)
    decreases |a|
  {
    if a != [] && b != [] && a[0] == b[0] {
      StrLessTotal(a[1..], b[1..]);
      if a[1..] == b[1..] {
        assert a == [a[0]] + a[1..] && b == [b[0]] + b[1..];
      }
    }
  }

  // ---------------------------------------------------------------------------
  // The comparator

  /** byGroup.Less: the lower tier first; within a tier, the smaller path.
      Two imports of one path are never ordered. */
  predicate Less(prefix: string, x: Import, y: Import)
    ensures Less(prefix, x, y) ==> x.path != y.path
  {
    var gx, gy := Group(prefix, x.path), Group(prefix, y.path);
    if gx != gy then gx < gy
    else
      StrLessIrreflexive(x.path);
      StrLess(x.path, y.path)
  }

  lemma LessIrreflexive(prefix: string, x: Import)
    ensures !Less(prefix, x, x)
  {
    StrLessIrreflexive(x.path);
  }

  lemma LessTransitive(prefix: string, x: Import, y: Import, z: Import)
    requires Less(prefix, x, y) && Less(prefix, y, z)
    ensures Less(prefix, x, z)
  {
    if Group(prefix, x.path) == Group(prefix, y.path) == Group(prefix, z.path) {
      StrLessTransitive(x.path, y.path, z.path);
    }
  }

  /** Imports neither of which is Less than the other have the same path: the
      only ties the sort may leave in either order are imports of one path. */
  lemma LessTies(prefix: string, x: Import, y: Import)
    requires !Less(prefix, x, y) && !Less(prefix, y, x)
    ensures x.path == y.path
  {
    StrLessTotal(x.path, y.path);
  }

  /** Less looks only at the paths. */
  lemma LessByPath(prefix: string, x: Import, x': Import, y: Import)
    ensures x.path == x'.path ==>
              Less(prefix, x, y) == Less(prefix, x', y) && Less(prefix, y, x) == Less(prefix, y, x')
  {
  }

  /** y is not Less than x exactly when x is Less than y or has its path. */
  lemma NotLessMeans(prefix: string, x: Import, y: Import)
    ensures !Less(prefix, y, x) <==> x.path == y.path || Less(prefix, x, y)
  {
    StrLessTotal(x.path, y.path);
    LessIrreflexive(prefix, x);
    LessByPath(prefix, x, y, x);
    if Less(prefix, x, y) {
      LessAsymmetric(prefix, x, y);
    }
  }

  /** Not-less is transitive too, so Less is a strict weak order, as sort.Sort
      requires of its comparator. */
  lemma NotLessTransitive(prefix: string, x: Import, y: Import, z: Import)
    requires !Less(prefix, y, x) && !Less(prefix, z, y)
    ensures !Less(prefix, z, x)
  {
    NotLessMeans(prefix, x, y);
    NotLessMeans(prefix, y, z);
    NotLessMeans(prefix, x, z);
    LessByPath(prefix, x, y, z);
    LessByPath(prefix, y, z, x);
    if Less(prefix, x, y) && Less(prefix, y, z) {
      LessTransitive(prefix, x, y, z);
    }
  }

  // ---------------------------------------------------------------------------
  // Sortedness

  /** No later import is Less than an earlier one. */
  predicate Sorted(prefix: string, xs: seq<Import>) {
    forall i, j :: 0 <= i < j < |xs| ==> !Less(prefix, xs[j], xs[i])
  }

  /** What a sorted list looks like: tiers never decrease, and within a tier
      the paths never decrease. */
  lemma SortedMeansKeyOrder(prefix: string, xs: seq<Import>, i: nat, j: nat)
    requires Sorted(prefix, xs) && i < j < |xs|
    ensures Group(prefix, xs[i].path) <= Group(prefix, xs[j].path)
    ensures Group(prefix, xs[i].path) == Group(prefix, xs[j].path) ==>
              xs[i].path == xs[j].path || StrLess(xs[i].path, xs[j].path)
  {
    StrLessTotal(xs[i].path, xs[j].path);
  }

  /** Two sorted arrangements of the same imports can differ only in the order
      of imports that share a path; when no path repeats they are equal. */
  lemma {:induction false} SortedUnique(prefix: string, xs: seq<Import>, ys: seq<Import>)
    requires Sorted(prefix, xs) && Sorted(prefix, ys) && multiset(xs) == multiset(ys)
    requires DistinctPaths(xs)
    ensures xs == ys
    decreases |xs|
  {
    if xs != [] {
      assert |ys| == |multiset(ys)| == |multiset(xs)| == |xs|;
      SameHead(prefix, xs, ys);
      SameTail(xs, ys);
      DistinctPathsTail(xs);
      SortedTail(prefix, xs);
      SortedTail(prefix, ys);
      SortedUnique(prefix, xs[1..], ys[1..]);
      HeadTail(xs);
      HeadTail(ys);
    }
  }

  /** The first of two sorted arrangements of the same imports, no path repeated,
      is the same import. */
  lemma SameHead(prefix: string, xs: seq<Import>, ys: seq<Import>)
    requires Sorted(prefix, xs) && Sorted(prefix, ys) && multiset(xs) == multiset(ys)
    requires DistinctPaths(xs) && xs != [] && ys != []
    ensures xs[0] == ys[0]
  {
    var x, y := xs[0], ys[0];
    assert x in multiset(ys) && y in multiset(xs) by {
      assert x in multiset(xs) && y in multiset(ys);
    }
    var j :| 0 <= j < |ys| && ys[j] == x;
    var i :| 0 <= i < |xs| && xs[i] == y;
    // x is a least element of ys and y of xs, so neither is Less than the other
    assert !Less(prefix, x, y) by {
      if j == 0 { LessIrreflexive(prefix, x); }
    }
    assert !Less(prefix, y, x) by {
      if i == 0 { LessIrreflexive(prefix, y); }
    }
    LessTies(prefix, x, y);
    DistinctPathsAt(xs, 0, i);
  }

  /** Removing the same first element from two sequences with equal multisets
      leaves equal multisets. */
  lemma SameTail<T>(xs: seq<T>, ys: seq<T>)
    requires xs != [] && ys != [] && xs[0] == ys[0] && multiset(xs) == multiset(ys)
    ensures multiset(xs[1..]) == multiset(ys[1..])
  {
    HeadTail(xs);
    HeadTail(ys);
    assert multiset(xs) == multiset([xs[0]]) + multiset(xs[1..]);
    assert multiset(ys) == multiset([xs[0]]) + multiset(ys[1..]);
    assert multiset(xs[1..]) == multiset(xs) - multiset([xs[0]]);
  }

  /** No two imports of the list share a path. */
  predicate DistinctPaths(xs: seq<Import>) {
    forall i, j :: 0 <= i < j < |xs| ==> xs[i].path != xs[j].path
  }

  lemma DistinctPathsAt(xs: seq<Import>, i: nat, j: nat)
    requires DistinctPaths(xs) && i < |xs| && j < |xs|
    ensures xs[i].path == xs[j].path ==> i == j
  {
  }

  lemma DistinctPathsTail(xs: seq<Import>)
    requires DistinctPaths(xs) && xs != []
    ensures DistinctPaths(xs[1..])
  {
    forall i, j | 0 <= i < j < |xs| - 1
      ensures xs[1..][i].path != xs[1..][j].path
    {
      assert xs[1..][i] == xs[i + 1] && xs[1..][j] == xs[j + 1];
    }
  }

  lemma SortedTail(prefix: string, xs: seq<Import>)
    requires Sorted(prefix, xs) && xs != []
    ensures Sorted(prefix, xs[1..])
  {
    forall i, j | 0 <= i < j < |xs| - 1
      ensures !Less(prefix, xs[1..][j], xs[1..][i])
    {
      assert xs[1..][i] == xs[i + 1] && xs[1..][j] == xs[j + 1];
    }
  }

  // ---------------------------------------------------------------------------
  // sort.Sort over byGroup

  /** byGroup.Swap: exchanges two imports in place. */
  method Swap(a: array<Import>, i: nat, j: nat)
    requires i < a.Length && j < a.Length
    modifies a
    ensures a[i] == old(a[j]) && a[j] == old(a[i])
    ensures forall k :: 0 <= k < a.Length && k != i && k != j ==> a[k] == old(a[k])
    ensures multiset(a[..]) == multiset(old(a[..]))
  {
    a[i], a[j] := a[j], a[i];
  }

  /** sort.Sort(byg): rearranges the imports in place, using only Less and Swap,
      into an order where no import is Less than one before it, keeping the same
      imports. Which of two imports with the same path comes first is not
      specified; this model happens to use insertion sort. */
  method SortByGroup(prefix: string, a: array<Import>)
    modifies a
    ensures Sorted(prefix, a[..])
    ensures multiset(a[..]) == multiset(old(a[..]))
  {
    var i := 0;
    while i < a.Length
      invariant 0 <= i <= a.Length
      invariant SortedBelow(prefix, a[..], i)
      invariant multiset(a[..]) == multiset(old(a[..]))
    {
      var j := i;
      SortedBelowToInsert(prefix, a[..], i);
      while j > 0 && Less(prefix, a[j], a[j - 1])
        invariant 0 <= j <= i < a.Length
        invariant Inserting(prefix, a[..], i, j)
        invariant multiset(a[..]) == multiset(old(a[..]))
      {
        ghost var before := a[..];
        Swap(a, j, j - 1);
        InsertStep(prefix, before, a[..], i, j);
        j := j - 1;
      }
      InsertDone(prefix, a[..], i, j);
      i := i + 1;
    }
  }

  /** The first n imports are in order. */
  ghost predicate SortedBelow(prefix: string, xs: seq<Import>, n: nat)
    requires n <= |xs|
  {
    forall p, q :: 0 <= p < q < n ==> !Less(prefix, xs[q], xs[p])
  }

  /** Midway through inserting the import that started at i: it now sits at j,
      is Less than every import after it up to i, and every other pair up to i
      is in order. */
  ghost predicate Inserting(prefix: string, xs: seq<Import>, i: nat, j: nat)
    requires j <= i < |xs|
  {
    && (forall p, q :: 0 <= p < q <= i && p != j && q != j ==> !Less(prefix, xs[q], xs[p]))
    && (forall y :: j < y <= i ==> Less(prefix, xs[j], xs[y]))
  }

  lemma SortedBelowToInsert(prefix: string, xs: seq<Import>, i: nat)
    requires i < |xs| && SortedBelow(prefix, xs, i)
    ensures Inserting(prefix, xs, i, i)
  {
  }

  /** One swap moves the inserted import one place to the left. */
  lemma InsertStep(prefix: string, xs: seq<Import>, ys: seq<Import>, i: nat, j: nat)
    requires 0 < j <= i < |xs| && Inserting(prefix, xs, i, j)
    requires Less(prefix, xs[j], xs[j - 1])
    requires |ys| == |xs| && ys[j] == xs[j - 1] && ys[j - 1] == xs[j]
    requires forall k :: 0 <= k < |xs| && k != j && k != j - 1 ==> ys[k] == xs[k]
    ensures Inserting(prefix, ys, i, j - 1)
  {
    forall p, q | 0 <= p < q <= i && p != j - 1 && q != j - 1
      ensures !Less(prefix, ys[q], ys[p])
    {
      var p' := if p == j then j - 1 else p;
      var q' := if q == j then j - 1 else q;
      assert ys[p] == xs[p'] && ys[q] == xs[q'];
      assert p' != j && q' != j;
    }
  }

  /** The inserted import has stopped: the first i + 1 imports are in order. */
  lemma InsertDone(prefix: string, xs: seq<Import>, i: nat, j: nat)
    requires j <= i < |xs| && Inserting(prefix, xs, i, j)
    requires j == 0 || !Less(prefix, xs[j], xs[j - 1])
    ensures SortedBelow(prefix, xs, i + 1)
  {
    forall p, q | 0 <= p < q <= i
      ensures !Less(prefix, xs[q], xs[p])
    {
      if q == j {
        if p < j - 1 {
          NotLessTransitive(prefix, xs[p], xs[j - 1], xs[j]);
        }
      } else if p == j {
        LessAsymmetric(prefix, xs[j], xs[q]);
      }
    }
  }

  lemma LessAsymmetric(prefix: string, x: Import, y: Import)
    requires Less(prefix, x, y)
    ensures !Less(prefix, y, x)
  {
    if Less(prefix, y, x) {
      LessTransitive(prefix, x, y, x);
      LessIrreflexive(prefix, x);
    }
  }
}
