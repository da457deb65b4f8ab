/**
 * Route priority: the comparator the router sorts its routes with, and the
 * one-time in-place sort of the route array.
 */
module Priority {
  import opened Wrappers
  import opened Parts

  /** A route declaration: a pattern and the callback that renders it
      (`None` plays the role of `undefined`). */
  datatype Route<T> = Route(path: string, render: map<string, string> -> Option<T>)

  /** The parts at indices below `n` agree in kind (both static or both dynamic). */
  ghost predicate SameShapeBefore(p1: seq<string>, p2: seq<string>, n: int)
    requires |p1| == |p2|
  {
    forall j :: 0 <= j < n && j < |p1| ==> IsDynamic(p1[j]) == IsDynamic(p2[j])
  }

  /** Index `i` is the first place where the kinds differ, and there `p1` is
      dynamic while `p2` is static. */
  ghost predicate DynamicFirstAt(p1: seq<string>, p2: seq<string>, i: int)
    requires |p1| == |p2|
  {
    0 <= i < |p1| && SameShapeBefore(p1, p2, i) && IsDynamic(p1[i]) && !IsDynamic(p2[i])
  }

  /** The `for` loop over the zipped parts of two equally long patterns:
      the first index where exactly one side is dynamic decides. */
  function ScanShapes(p1: seq<string>, p2: seq<string>): (c: int)
    requires |p1| == |p2|
    ensures -1 <= c <= 1
  {
    if p1 == [] then 0
    else if IsDynamic(p1[0]) && !IsDynamic(p2[0]) then 1
    else if IsDynamic(p2[0]) && !IsDynamic(p1[0]) then -1
    else ScanShapes(p1[1..], p2[1..])
  }

  /** The scan answers 1 exactly when the first kind difference has `p1`
      dynamic, -1 exactly when it has `p2` dynamic, and 0 when there is none. */
  lemma {:induction false} ScanShapesMeaning(p1: seq<string>, p2: seq<string>)
    requires |p1| == |p2|
    ensures ScanShapes(p1, p2) == 1 <==> exists i :: DynamicFirstAt(p1, p2, i)
    ensures ScanShapes(p1, p2) == -1 <==> exists i :: DynamicFirstAt(p2, p1, i)
    ensures ScanShapes(p1, p2) == 0 <==> SameShapeBefore(p1, p2, |p1|)
  {
    if p1 == [] {
    } else if IsDynamic(p1[0]) && !IsDynamic(p2[0]) {
      assert DynamicFirstAt(p1, p2, 0);
    } else if IsDynamic(p2[0]) && !IsDynamic(p1[0]) {
      assert DynamicFirstAt(p2, p1, 0);
    } else {
      ScanShapesMeaning(p1[1..], p2[1..]);
      ShiftFirstDifference(p1, p2);
      ShiftFirstDifference(p2, p1);
    }
  }

  /** When the first parts agree in kind, the first difference of `p1` and `p2`
      is one past the first difference of their tails. */
  lemma ShiftFirstDifference(p1: seq<string>, p2: seq<string>)
    requires |p1| == |p2| > 0 && IsDynamic(p1[0]) == IsDynamic(p2[0])
    ensures SameShapeBefore(p1, p2, |p1|) <==> SameShapeBefore(p1[1..], p2[1..], |p1| - 1)
    ensures (exists i :: DynamicFirstAt(p1, p2, i)) <==> (exists i :: DynamicFirstAt(p1[1..], p2[1..], i))
  {
    var t1, t2 := p1[1..], p2[1..];
    forall n | 0 <= n <= |t1|
      ensures SameShapeBefore(p1, p2, n + 1) <==> SameShapeBefore(t1, t2, n)
    {
      if SameShapeBefore(t1, t2, n) {
        forall j | 0 <= j < n + 1 && j < |p1| ensures IsDynamic(p1[j]) == IsDynamic(p2[j]) {
          if j > 0 { assert p1[j] == t1[j - 1] && p2[j] == t2[j - 1]; }
        }
      }
      if SameShapeBefore(p1, p2, n + 1) {
        forall j | 0 <= j < n && j < |t1| ensures IsDynamic(t1[j]) == IsDynamic(t2[j]) {
          assert t1[j] == p1[j + 1] && t2[j] == p2[j + 1];
        }
      }
    }
    if i :| DynamicFirstAt(p1, p2, i) {
      assert i > 0;
      assert DynamicFirstAt(t1, t2, i - 1);
    }
    if i :| DynamicFirstAt(t1, t2, i) {
      assert DynamicFirstAt(p1, p2, i + 1);
    }
  }

  /** The comparator given to `routes.sort`: negative when the route with path
      `path1` must be tried before the one with `path2`. */
  function ComparePaths(path1: string, path2: string): (c: int)
    ensures -1 <= c <= 1
  {
    var r1parts := GetParts(path1);
    var r2parts := GetParts(path2);
    if |r1parts| < |r2parts| then 1
    else if |r1parts| > |r2parts| then -1
    else ScanShapes(r1parts, r2parts)
  }

  /** The comparator's full meaning: more parts rank first whatever they
      contain; with equal counts, the first index where exactly one part is
      dynamic decides in favour of the static one; otherwise it is a tie. */
  lemma CompareMeaning(path1: string, path2: string)
    ensures var p1, p2 := GetParts(path1), GetParts(path2);
      && (|p1| < |p2| ==> ComparePaths(path1, path2) == 1)
      && (|p1| > |p2| ==> ComparePaths(path1, path2) == -1)
      && (|p1| == |p2| ==>
           && (ComparePaths(path1, path2) == 1 <==> exists i :: DynamicFirstAt(p1, p2, i))
           && (ComparePaths(path1, path2) == -1 <==> exists i :: DynamicFirstAt(p2, p1, i))
           && (ComparePaths(path1, path2) == 0 <==> SameShapeBefore(p1, p2, |p1|)))
  {
    var p1, p2 := GetParts(path1), GetParts(path2);
    if |p1| == |p2| {
      ScanShapesMeaning(p1, p2);
    }
  }

  lemma {:induction false} ScanShapesSwap(p1: seq<string>, p2: seq<string>)
    requires |p1| == |p2|
    ensures ScanShapes(p1, p2) == -ScanShapes(p2, p1)
  {
    if p1 != [] {
      ScanShapesSwap(p1[1..], p2[1..]);
    }
  }

  lemma {:induction false} ScanShapesTransitive(p1: seq<string>, p2: seq<string>, p3: seq<string>)
    requires |p1| == |p2| == |p3|
    requires ScanShapes(p1, p2) <= 0 && ScanShapes(p2, p3) <= 0
    ensures ScanShapes(p1, p3) <= 0
  {
    if p1 != [] && IsDynamic(p1[0]) == IsDynamic(p2[0]) == IsDynamic(p3[0]) {
      ScanShapesTransitive(p1[1..], p2[1..], p3[1..]);
    }
  }

  /** A route ties with itself. */
  lemma CompareReflexive(path: string)
    ensures ComparePaths(path, path) == 0
  {
    ScanShapesSwap(GetParts(path), GetParts(path));
  }

  /** Swapping the arguments negates the result. */
  lemma CompareAntisymmetric(path1: string, path2: string)
    ensures ComparePaths(path1, path2) == -ComparePaths(path2, path1)
  {
    var p1, p2 := GetParts(path1), GetParts(path2);
    if |p1| == |p2| {
      ScanShapesSwap(p1, p2);
    }
  }

  /** "Ranks no lower than" is transitive, so the comparator is a total preorder. */
  lemma CompareTransitive(path1: string, path2: string, path3: string)
    requires ComparePaths(path1, path2) <= 0 && ComparePaths(path2, path3) <= 0
    ensures ComparePaths(path1, path3) <= 0
  {
    var p1, p2, p3 := GetParts(path1), GetParts(path2), GetParts(path3);
    if |p1| == |p2| == |p3| {
      ScanShapesTransitive(p1, p2, p3);
    }
  }

  /** No route ranks strictly above a route placed before it. */
  ghost predicate Sorted<T>(routes: seq<Route<T>>)
  {
    forall i, j :: 0 <= i < j < |routes| ==> ComparePaths(routes[i].path, routes[j].path) <= 0
  }

  ghost predicate AdjacentSorted<T>(routes: seq<Route<T>>)
  {
    forall k :: 0 < k < |routes| ==> ComparePaths(routes[k - 1].path, routes[k].path) <= 0
  }

  lemma {:induction false} AdjacentChain<T>(routes: seq<Route<T>>, i: int, j: int)
    requires AdjacentSorted(routes) && 0 <= i < j < |routes|
    ensures ComparePaths(routes[i].path, routes[j].path) <= 0
    decreases j - i
  {
    if i + 1 < j {
      AdjacentChain(routes, i, j - 1);
      CompareTransitive(routes[i].path, routes[j - 1].path, routes[j].path);
    }
  }

  /** Neighbours in order means all pairs in order. */
  lemma AdjacentToSorted<T>(routes: seq<Route<T>>)
    requires AdjacentSorted(routes)
    ensures Sorted(routes)
  {
    forall i, j | 0 <= i < j < |routes|
      ensures ComparePaths(routes[i].path, routes[j].path) <= 0
    {
      AdjacentChain(routes, i, j);
    }
  }

  /** What the inner loop of the insertion sort keeps: `routes[..j]` and
      `routes[j..i + 1]` are each in order, and the element just left of the
      moving one may be followed by the one just right of it. */
  ghost predicate Sifting<T>(routes: seq<Route<T>>, j: int, i: int)
  {
    && 0 <= j <= i < |routes|
    && AdjacentSorted(routes[..j])
    && AdjacentSorted(routes[j..i + 1])
    && (0 < j < i ==> ComparePaths(routes[j - 1].path, routes[j + 1].path) <= 0)
  }

  /** One swap of the moving route with its left neighbour keeps `Sifting`. */
  lemma SiftStep<T>(routes: seq<Route<T>>, j: int, i: int)
    requires Sifting(routes, j, i) && j > 0
    requires ComparePaths(routes[j - 1].path, routes[j].path) > 0
    ensures Sifting(routes[j - 1 := routes[j]][j := routes[j - 1]], j - 1, i)
  {
    var swapped := routes[j - 1 := routes[j]][j := routes[j - 1]];
    CompareAntisymmetric(routes[j - 1].path, routes[j].path);
    assert swapped[..j - 1] == routes[..j - 1];
    assert AdjacentSorted(swapped[..j - 1]) by {
      assert routes[..j - 1] == routes[..j][..j - 1];
    }
    var moved, rest := swapped[j - 1..i + 1], routes[j..i + 1];
    forall k | 0 < k < |moved|
      ensures ComparePaths(moved[k - 1].path, moved[k].path) <= 0
    {
      if k >= 3 {
        assert moved[k - 1] == rest[k - 2] && moved[k] == rest[k - 1];
      }
    }
    if 0 < j - 1 {
      assert ComparePaths(routes[..j][j - 2].path, routes[..j][j - 1].path) <= 0;
    }
  }

  /** Starting a new round: a sorted prefix `routes[..i]` plus one new element. */
  lemma SiftStart<T>(routes: seq<Route<T>>, i: int)
    requires 0 <= i < |routes| && AdjacentSorted(routes[..i])
    ensures Sifting(routes, i, i)
  {
  }

  /** Ending a round: the moving route has found its place. */
  lemma SiftEnd<T>(routes: seq<Route<T>>, j: int, i: int)
    requires Sifting(routes, j, i)
    requires j == 0 || ComparePaths(routes[j - 1].path, routes[j].path) <= 0
    ensures AdjacentSorted(routes[..i + 1])
  {
  }

  /** Exchanges `a[j - 1]` and `a[j]`. */
  method Swap<T>(a: array<Route<T>>, j: int)
    requires 0 < j < a.Length
    modifies a
    ensures a[..] == old(a[..])[j - 1 := old(a[j])][j := old(a[j - 1])]
    ensures multiset(a[..]) == old(multiset(a[..]))
  {
    a[j - 1], a[j] := a[j], a[j - 1];
  }

  /** One round of insertion: moves `a[i]` left past every route that must
      come after it, so that `a[..i + 1]` ends up in order. */
  method Insert<T>(a: array<Route<T>>, i: int)
    requires 0 <= i < a.Length && AdjacentSorted(a[..i])
    modifies a
    ensures AdjacentSorted(a[..i + 1])
    ensures multiset(a[..]) == old(multiset(a[..]))
  {
    SiftStart(a[..], i);
    var j := i;
    while j > 0 && ComparePaths(a[j - 1].path, a[j].path) > 0
      invariant Sifting(a[..], j, i)
      invariant multiset(a[..]) == old(multiset(a[..]))
    {
      SiftStep(a[..], j, i);
      Swap(a, j);
      j := j - 1;
    }
    SiftEnd(a[..], j, i);
  }

  /** `routes.sort(comparator)`: sorts the array in place by priority. */
  method SortRoutes<T>(a: array<Route<T>>)
    modifies a
    ensures Sorted(a[..])
    ensures multiset(a[..]) == old(multiset(a[..]))
  {
    var i := 0;
    while i < a.Length
      invariant 0 <= i <= a.Length
      invariant AdjacentSorted(a[..i])
      invariant multiset(a[..]) == old(multiset(a[..]))
    {
      Insert(a, i);
      i := i + 1;
    }
    assert a[..a.Length] == a[..];
    AdjacentToSorted(a[..]);
  }
}
