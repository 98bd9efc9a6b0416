/** The three phases of Weighted_graph::minimum_spanning_tree as functions:
    collecting the upper-triangle edges of the adjacency matrix, the stable
    insertion sort by weight, and Kruskal's loop driven by a disjoint-sets
    forest (the Snapshot model of DataStructures). */
module Kruskal {
  import opened DataStructures

  /** A matrix entry. Absent stands for the INF sentinel: no edge. */
  datatype Weight = Absent | Present(value: real)

  /** An edge of the spanning-tree computation: endpoints and weight. */
  datatype Edge = Edge(v1: int, v2: int, weight: real)

  /** A square n by n matrix of entries. */
  ghost predicate Square(g: seq<seq<Weight>>, n: int)
  {
    |g| == n && forall i :: 0 <= i < n ==> |g[i]| == n
  }

  /** Cell (i, j) yields an edge when it lies above the diagonal and holds
      a present, non-zero weight. */
  function CellEdges(g: seq<seq<Weight>>, i: int, j: int): (es: seq<Edge>)
    requires 0 <= i < |g| && 0 <= j < |g[i]|
  {
    if i < j && g[i][j].Present? && g[i][j].value != 0.0 then [Edge(i, j, g[i][j].value)] else []
  }

  /** The edges of row i found in columns 0 .. j-1, in column order. */
  function RowEdges(g: seq<seq<Weight>>, n: int, i: int, j: int): (es: seq<Edge>)
    requires Square(g, n) && 0 <= i < n && 0 <= j <= n
    ensures |es| <= j
  {
    if j == 0 then [] else RowEdges(g, n, i, j - 1) + CellEdges(g, i, j - 1)
  }

  /** The edges of rows 0 .. i-1, in row-major order. */
  function RowsEdges(g: seq<seq<Weight>>, n: int, i: int): (es: seq<Edge>)
    requires Square(g, n) && 0 <= i <= n
  {
    if i == 0 then [] else RowsEdges(g, n, i - 1) + RowEdges(g, n, i - 1, n)
  }

  /** Before row i of an n by n matrix is scanned, the edges found so far
      leave room for a whole row among the n * n cells. */
  lemma RoomForRow(g: seq<seq<Weight>>, n: int, i: int)
    requires Square(g, n) && 0 <= i < n
    ensures |RowsEdges(g, n, i)| + n <= n * n
  {
    RowsEdgesLength(g, n, i);
    RowBelowSquare(i, n);
  }

  /** Row i ends inside an n by n matrix. */
  lemma RowBelowSquare(i: int, n: int)
    requires 0 <= i < n
    ensures i * n + n <= n * n
  {
    var k := n - i - 1;
    assert k * n >= 0;
    assert n * n == i * n + n + k * n;
  }

  lemma {:induction false} RowsEdgesLength(g: seq<seq<Weight>>, n: int, i: int)
    requires Square(g, n) && 0 <= i <= n
    ensures |RowsEdges(g, n, i)| <= i * n
  {
    if i > 0 {
      RowsEdgesLength(g, n, i - 1);
      assert i * n == (i - 1) * n + n;
    }
  }

  /** Every edge the scan of the whole matrix collects. */
  function UpperEdges(g: seq<seq<Weight>>, n: int): seq<Edge>
    requires Square(g, n)
  {
    RowsEdges(g, n, n)
  }

  /** e is an edge of the matrix above the diagonal with a present,
      non-zero weight. */
  ghost predicate IsUpperEdge(g: seq<seq<Weight>>, n: int, e: Edge)
    requires Square(g, n)
  {
    0 <= e.v1 < e.v2 < n && g[e.v1][e.v2] == Present(e.weight) && e.weight != 0.0
  }

  lemma {:induction false} RowEdgesMembers(g: seq<seq<Weight>>, n: int, i: int, j: int, e: Edge)
    requires Square(g, n) && 0 <= i < n && 0 <= j <= n
    ensures e in RowEdges(g, n, i, j) <==> e.v1 == i && e.v2 < j && IsUpperEdge(g, n, e)
  {
    if j > 0 {
      RowEdgesMembers(g, n, i, j - 1, e);
    }
  }

  /** An edge is collected from rows 0 .. i-1 exactly when it is collected
      from rows 0 .. i-2 or from row i-1. */
  lemma JoinRows(g: seq<seq<Weight>>, n: int, i: int, e: Edge, a: seq<Edge>, b: seq<Edge>, rows: seq<Edge>)
    requires Square(g, n) && 0 < i <= n && rows == a + b
    requires e in a <==> e.v1 < i - 1 && IsUpperEdge(g, n, e)
    requires e in b <==> e.v1 == i - 1 && e.v2 < n && IsUpperEdge(g, n, e)
    ensures e in rows <==> e.v1 < i && IsUpperEdge(g, n, e)
  {
  }

  lemma {:induction false} RowsEdgesMembers(g: seq<seq<Weight>>, n: int, i: int)
    requires Square(g, n) && 0 <= i <= n
    ensures forall e :: e in RowsEdges(g, n, i) <==> e.v1 < i && IsUpperEdge(g, n, e)
  {
    if i > 0 {
      var a, b := RowsEdges(g, n, i - 1), RowEdges(g, n, i - 1, n);
      assert RowsEdges(g, n, i) == a + b;
      RowsEdgesMembers(g, n, i - 1);
      forall e
        ensures e in RowsEdges(g, n, i) <==> e.v1 < i && IsUpperEdge(g, n, e)
      {
        RowEdgesMembers(g, n, i - 1, n, e);
        JoinRows(g, n, i, e, a, b, RowsEdges(g, n, i));
      }
    }
  }

  /** The collected list holds exactly the present, non-zero entries above
      the diagonal. */
  lemma UpperEdgesMembers(g: seq<seq<Weight>>, n: int)
    requires Square(g, n)
    ensures forall e :: e in UpperEdges(g, n) <==> IsUpperEdge(g, n, e)
  {
    RowsEdgesMembers(g, n, n);
  }

  /** (i, j) comes strictly before (k, l) in row-major order. */
  predicate Before(i: int, j: int, k: int, l: int)
  {
    i < k || (i == k && j < l)
  }

  /** Edges listed in strictly increasing row-major order of their cells. */
  ghost predicate RowMajor(es: seq<Edge>)
  {
    forall k, l :: 0 <= k < l < |es| ==> Before(es[k].v1, es[k].v2, es[l].v1, es[l].v2)
  }

  /** Joining two row-major lists whose rows are all below r and all equal
      to r, respectively, gives a row-major list with rows up to r. */
  lemma AppendRowMajor(a: seq<Edge>, b: seq<Edge>, r: int)
    requires RowMajor(a) && RowMajor(b)
    requires forall k :: 0 <= k < |a| ==> a[k].v1 < r
    requires forall k :: 0 <= k < |b| ==> b[k].v1 == r
    ensures RowMajor(a + b)
    ensures forall k :: 0 <= k < |a + b| ==> (a + b)[k].v1 <= r
  {
    var c := a + b;
    forall k, l | 0 <= k < l < |c|
      ensures Before(c[k].v1, c[k].v2, c[l].v1, c[l].v2)
    {
      if l < |a| {
        assert c[k] == a[k] && c[l] == a[l];
      } else if k < |a| {
        assert c[k] == a[k] && c[l] == b[l - |a|];
      } else {
        assert c[k] == b[k - |a|] && c[l] == b[l - |a|];
      }
    }
    forall k | 0 <= k < |c|
      ensures c[k].v1 <= r
    {
      if k < |a| {
        assert c[k] == a[k];
      } else {
        assert c[k] == b[k - |a|];
      }
    }
  }

  lemma {:induction false} RowEdgesOrdered(g: seq<seq<Weight>>, n: int, i: int, j: int)
    requires Square(g, n) && 0 <= i < n && 0 <= j <= n
    ensures RowMajor(RowEdges(g, n, i, j))
    ensures forall k :: 0 <= k < |RowEdges(g, n, i, j)| ==> RowEdges(g, n, i, j)[k].v1 == i
  {
    if j > 0 {
      RowEdgesOrdered(g, n, i, j - 1);
      var a, b := RowEdges(g, n, i, j - 1), CellEdges(g, i, j - 1);
      forall k | 0 <= k < |a|
        ensures a[k].v2 < j - 1
      {
        RowEdgesMembers(g, n, i, j - 1, a[k]);
      }
      var c := a + b;
      forall k, l | 0 <= k < l < |c|
        ensures Before(c[k].v1, c[k].v2, c[l].v1, c[l].v2)
      {
        if l < |a| {
          assert c[k] == a[k] && c[l] == a[l];
        } else {
          assert c[k] == a[k] && c[l] == b[0];
        }
      }
      forall k | 0 <= k < |c|
        ensures c[k].v1 == i
      {
        if k < |a| {
          assert c[k] == a[k];
        }
      }
    }
  }

  lemma {:induction false} RowsEdgesOrdered(g: seq<seq<Weight>>, n: int, i: int)
    requires Square(g, n) && 0 <= i <= n
    ensures RowMajor(RowsEdges(g, n, i))
    ensures forall k :: 0 <= k < |RowsEdges(g, n, i)| ==> RowsEdges(g, n, i)[k].v1 < i
  {
    if i > 0 {
      RowsEdgesOrdered(g, n, i - 1);
      RowEdgesOrdered(g, n, i - 1, n);
      AppendRowMajor(RowsEdges(g, n, i - 1), RowEdges(g, n, i - 1, n), i - 1);
    }
  }

  /** The collected list names each cell at most once, in row-major order. */
  lemma UpperEdgesOrdered(g: seq<seq<Weight>>, n: int)
    requires Square(g, n)
    ensures RowMajor(UpperEdges(g, n))
  {
    RowsEdgesOrdered(g, n, n);
  }

  /***************************************************************************
   * The insertion sort
   ***************************************************************************/

  ghost predicate SortedByWeight(es: seq<Edge>)
  {
    forall k, l :: 0 <= k < l < |es| ==> es[k].weight <= es[l].weight
  }

  /** Insert key into a list, passing from the right over every entry that
      is strictly heavier than key, as the inner loop of the source's
      insertion sort does. */
  function InsertByWeight(sorted: seq<Edge>, key: Edge): seq<Edge>
  {
    if |sorted| == 0 then [key]
    else if sorted[|sorted| - 1].weight > key.weight then
      InsertByWeight(sorted[..|sorted| - 1], key) + [sorted[|sorted| - 1]]
    else sorted + [key]
  }

  /** Insertion adds exactly the key. */
  lemma {:induction false} InsertIsPermutation(sorted: seq<Edge>, key: Edge)
    ensures multiset(InsertByWeight(sorted, key)) == multiset(sorted) + multiset{key}
  {
    if |sorted| > 0 {
      var init, last := sorted[..|sorted| - 1], sorted[|sorted| - 1];
      assert sorted == init + [last];
      if last.weight > key.weight {
        InsertIsPermutation(init, key);
      }
    }
  }

  /** Inserting into a list sorted by weight keeps it sorted. */
  lemma {:induction false} InsertKeepsSorted(sorted: seq<Edge>, key: Edge)
    requires SortedByWeight(sorted)
    ensures SortedByWeight(InsertByWeight(sorted, key))
  {
    if |sorted| > 0 {
      var init, last := sorted[..|sorted| - 1], sorted[|sorted| - 1];
      if last.weight > key.weight {
        var rest := InsertByWeight(init, key);
        InsertKeepsSorted(init, key);
        InsertIsPermutation(init, key);
        assert sorted == init + [last];
        forall i | 0 <= i < |rest|
          ensures rest[i].weight <= last.weight
        {
          assert rest[i] in multiset(rest);
          if rest[i] != key {
            assert rest[i] in multiset(init);
            var j :| 0 <= j < |init| && init[j] == rest[i];
            assert sorted[j] == init[j];
          }
        }
        assert InsertByWeight(sorted, key) == rest + [last];
      }
    }
  }

  /** The source's insertion sort: insert each entry, left to right, into
      the sorted prefix before it. */
  function SortByWeight(es: seq<Edge>): seq<Edge>
  {
    if |es| == 0 then []
    else InsertByWeight(SortByWeight(es[..|es| - 1]), es[|es| - 1])
  }

  /** Sorting a list with one more entry inserts it into the sorted rest. */
  lemma SortAppend(es: seq<Edge>, e: Edge)
    ensures SortByWeight(es + [e]) == InsertByWeight(SortByWeight(es), e)
  {
    assert (es + [e])[..|es|] == es;
  }

  /** One turn of an insertion sort in place: when before holds the sorted
      first c entries of the input followed by its entry c, inserting that
      entry leaves the sorted first c + 1 entries in after. */
  lemma SortedPrefixGrows(input: seq<Edge>, c: int, before: seq<Edge>, after: seq<Edge>)
    requires 0 <= c < |input| && c < |before| && c < |after|
    requires before[..c] == SortByWeight(input[..c]) && before[c] == input[c]
    requires after[..c + 1] == InsertByWeight(before[..c], before[c])
    ensures after[..c + 1] == SortByWeight(input[..c + 1])
  {
    SortAppend(input[..c], input[c]);
    assert input[..c + 1] == input[..c] + [input[c]];
  }

  /** The sorted list is a permutation of the input, ordered by weight. */
  lemma {:induction false} SortIsSortedPermutation(es: seq<Edge>)
    ensures multiset(SortByWeight(es)) == multiset(es)
    ensures SortedByWeight(SortByWeight(es))
  {
    if |es| > 0 {
      var init, last := es[..|es| - 1], es[|es| - 1];
      assert es == init + [last];
      SortIsSortedPermutation(init);
      InsertIsPermutation(SortByWeight(init), last);
      InsertKeepsSorted(SortByWeight(init), last);
    }
  }

  /** Where the inner loop stops: key goes right after the last entry no
      heavier than it, once every later entry is heavier. */
  lemma {:induction false} InsertAt(sorted: seq<Edge>, key: Edge, j: int)
    requires 0 <= j <= |sorted|
    requires j == 0 || sorted[j - 1].weight <= key.weight
    requires forall k :: j <= k < |sorted| ==> sorted[k].weight > key.weight
    ensures InsertByWeight(sorted, key) == sorted[..j] + [key] + sorted[j..]
  {
    if j < |sorted| {
      var init, last := sorted[..|sorted| - 1], sorted[|sorted| - 1];
      InsertAt(init, key, j);
      assert init[..j] == sorted[..j];
      assert init[j..] + [last] == sorted[j..];
    } else {
      assert sorted[..j] == sorted && sorted[j..] == [];
    }
  }

  /** The shape an in-place insertion leaves behind: the entries of sorted
      before position j, then key, then the rest of sorted shifted one place
      right, is the insertion of key into sorted. */
  lemma ShiftedInsert(sorted: seq<Edge>, key: Edge, j: int, out: seq<Edge>)
    requires 0 <= j <= |sorted| < |out|
    requires forall t :: 0 <= t < j ==> out[t] == sorted[t]
    requires out[j] == key
    requires forall t :: j < t <= |sorted| ==> out[t] == sorted[t - 1]
    requires j == 0 || sorted[j - 1].weight <= key.weight
    requires forall k :: j <= k < |sorted| ==> sorted[k].weight > key.weight
    ensures out[..|sorted| + 1] == InsertByWeight(sorted, key)
  {
    InsertAt(sorted, key, j);
    assert out[..|sorted| + 1] == sorted[..j] + [key] + sorted[j..];
  }

  /** Sorting a list that is already in weight order leaves it unchanged. */
  lemma {:induction false} SortSortedIsIdentity(es: seq<Edge>)
    requires SortedByWeight(es)
    ensures SortByWeight(es) == es
  {
    if |es| > 0 {
      var init, last := es[..|es| - 1], es[|es| - 1];
      SortSortedIsIdentity(init);
      InsertAt(init, last, |init|);
      assert init + [last] == es;
    }
  }

  /***************************************************************************
   * Kruskal's loop
   ***************************************************************************/

  /** Every endpoint names an element of an n-element forest. */
  ghost predicate EdgesWithin(es: seq<Edge>, n: int)
  {
    forall k :: 0 <= k < |es| ==> 0 <= es[k].v1 < n && 0 <= es[k].v2 < n
  }

  /** Examining one edge: find both endpoints (compressing their paths),
      and union them when they lie in different sets. */
  ghost function Step(s: Snapshot, e: Edge): (t: Snapshot)
    requires Invariant(s) && 0 <= e.v1 < |s.parent| && 0 <= e.v2 < |s.parent|
    ensures Forest(t) && |t.parent| == |s.parent|
  {
    var c1 := Compress(s, e.v1);
    CompressKeepsInvariant(s, e.v1);
    var c := Compress(c1, e.v2);
    CompressKeepsInvariant(c1, e.v2);
    if Root(c, e.v1) != Root(c, e.v2) then
      UnionKeepsInvariant(c, e.v1, e.v2);
      Union(c, e.v1, e.v2)
    else
      c
  }

  /** A step keeps the disjoint-sets invariant, and lowers the number of
      sets by one exactly when the endpoints were in different sets. */
  lemma StepKeepsInvariant(s: Snapshot, e: Edge)
    requires Invariant(s) && 0 <= e.v1 < |s.parent| && 0 <= e.v2 < |s.parent|
    ensures Invariant(Step(s, e))
    ensures Step(s, e).count == if Root(s, e.v1) == Root(s, e.v2) then s.count else s.count - 1
  {
    var c1 := Compress(s, e.v1);
    CompressKeepsInvariant(s, e.v1);
    var c := Compress(c1, e.v2);
    CompressKeepsInvariant(c1, e.v2);
    assert Root(c, e.v1) == Root(s, e.v1) && Root(c, e.v2) == Root(s, e.v2);
    if Root(c, e.v1) != Root(c, e.v2) {
      UnionKeepsInvariant(c, e.v1, e.v2);
      assert Step(s, e) == Union(c, e.v1, e.v2);
    } else {
      assert Step(s, e) == c;
    }
  }

  /** After a step both endpoints share the old root of one of them. */
  lemma StepJoins(s: Snapshot, e: Edge)
    requires Invariant(s) && 0 <= e.v1 < |s.parent| && 0 <= e.v2 < |s.parent|
    ensures Root(Step(s, e), e.v2) == Root(Step(s, e), e.v1)
    ensures Root(Step(s, e), e.v1) == Root(s, e.v1) || Root(Step(s, e), e.v1) == Root(s, e.v2)
  {
    var c1 := Compress(s, e.v1);
    CompressKeepsInvariant(s, e.v1);
    var c := Compress(c1, e.v2);
    CompressKeepsInvariant(c1, e.v2);
    if Root(c, e.v1) != Root(c, e.v2) {
      UnionDifferentSets(c, e.v1, e.v2);
      var a, b := Root(c, e.v1), Root(c, e.v2);
      assert Survivor(c.height, a, b) == a || Survivor(c.height, a, b) == b;
    }
  }

  /** Where a step sends one element: to the endpoints' common new root if
      it was in either endpoint's set, and nowhere new otherwise. */
  lemma StepMovesRoot(s: Snapshot, e: Edge, y: int)
    requires Invariant(s) && 0 <= e.v1 < |s.parent| && 0 <= e.v2 < |s.parent| && 0 <= y < |s.parent|
    ensures Root(Step(s, e), y) ==
      if Root(s, y) == Root(s, e.v1) || Root(s, y) == Root(s, e.v2) then Root(Step(s, e), e.v1) else Root(s, y)
  {
    var c1 := Compress(s, e.v1);
    CompressKeepsInvariant(s, e.v1);
    var c := Compress(c1, e.v2);
    CompressKeepsInvariant(c1, e.v2);
    assert Root(c, y) == Root(s, y) && Root(c, e.v1) == Root(s, e.v1) && Root(c, e.v2) == Root(s, e.v2);
    if Root(c, e.v1) != Root(c, e.v2) {
      UnionDifferentSets(c, e.v1, e.v2);
    }
  }

  /** A step merges exactly the sets of the two endpoints, under the old
      root of one of them; every other element keeps its root. */
  lemma StepMerges(s: Snapshot, e: Edge)
    requires Invariant(s) && 0 <= e.v1 < |s.parent| && 0 <= e.v2 < |s.parent|
    ensures var t := Step(s, e);
      && Root(t, e.v1) == Root(t, e.v2)
      && (Root(t, e.v1) == Root(s, e.v1) || Root(t, e.v1) == Root(s, e.v2))
      && forall y :: 0 <= y < |s.parent| ==>
           Root(t, y) == if Root(s, y) == Root(s, e.v1) || Root(s, y) == Root(s, e.v2) then Root(t, e.v1) else Root(s, y)
  {
    StepJoins(s, e);
    forall y | 0 <= y < |s.parent|
      ensures Root(Step(s, e), y) ==
        if Root(s, y) == Root(s, e.v1) || Root(s, y) == Root(s, e.v2) then Root(Step(s, e), e.v1) else Root(s, y)
    {
      StepMovesRoot(s, e, y);
    }
  }

  /** Hence a step only merges sets: an element's new root is the new root
      of its old root. */
  lemma StepOnlyMerges(s: Snapshot, e: Edge)
    requires Invariant(s) && 0 <= e.v1 < |s.parent| && 0 <= e.v2 < |s.parent|
    ensures forall y :: 0 <= y < |s.parent| ==> Root(Step(s, e), y) == Root(Step(s, e), Root(s, y))
  {
    forall y | 0 <= y < |s.parent|
      ensures Root(Step(s, e), y) == Root(Step(s, e), Root(s, y))
    {
      var ry := Root(s, y);
      assert Root(s, ry) == ry;
      StepMovesRoot(s, e, y);
      StepMovesRoot(s, e, ry);
    }
  }

  /** What the loop leaves: how many edges it examined, the edges that
      joined two sets (in order), and the final forest. */
  datatype Run = Run(visits: int, tree: seq<Edge>, final: Snapshot)

  /** Examine the edges in order until one set remains or the edges run
      out. Every taken edge lowers the number of sets by one. */
  ghost function Consume(es: seq<Edge>, s: Snapshot): (r: Run)
    requires Invariant(s) && EdgesWithin(es, |s.parent|)
    ensures Forest(r.final) && |r.final.parent| == |s.parent|
    ensures 0 <= r.visits <= |es|
    decreases |es|
  {
    if |es| == 0 then Run(0, [], s)
    else
      var t := Step(s, es[0]);
      var taken := Taken(s, es[0]);
      if t.count == 1 then Run(1, taken, t)
      else
        StepKeepsInvariant(s, es[0]);
        var r := Consume(es[1..], t);
        Run(r.visits + 1, taken + r.tree, r.final)
  }

  /** The edge e as a list when it joins two different sets of s, and the
      empty list otherwise. */
  ghost function Taken(s: Snapshot, e: Edge): seq<Edge>
    requires Forest(s) && 0 <= e.v1 < |s.parent| && 0 <= e.v2 < |s.parent|
  {
    if Root(s, e.v1) != Root(s, e.v2) then [e] else []
  }

  /** The run of the whole loop, seen from position i: the i edges already
      examined and the edges taken among them, followed by the run of the
      rest. */
  ghost function Resume(i: int, tree: seq<Edge>, r: Run): Run
  {
    Run(i + r.visits, tree + r.tree, r.final)
  }

  /** A suffix of a list of edges within n is within n. */
  lemma EdgesWithinRest(es: seq<Edge>, i: int, n: int)
    requires 0 <= i < |es| && EdgesWithin(es[i..], n)
    ensures 0 <= es[i].v1 < n && 0 <= es[i].v2 < n && EdgesWithin(es[i + 1..], n)
  {
    assert es[i..][0] == es[i];
    assert es[i + 1..] == es[i..][1..];
  }

  /** The loop at position i, when examining es[i] leaves one set: it
      stops after that edge, so the whole run ends there. */
  lemma ResumeLast(goal: Run, es: seq<Edge>, i: int, tree: seq<Edge>, s: Snapshot)
    requires Invariant(s) && 0 <= i < |es| && EdgesWithin(es[i..], |s.parent|)
    requires 0 <= es[i].v1 < |s.parent| && 0 <= es[i].v2 < |s.parent|
    requires goal == Resume(i, tree, Consume(es[i..], s))
    requires Step(s, es[i]).count == 1
    ensures goal == Run(i + 1, tree + Taken(s, es[i]), Step(s, es[i]))
  {
    assert es[i..][0] == es[i];
    assert Consume(es[i..], s) == Run(1, Taken(s, es[i]), Step(s, es[i]));
  }

  /** The loop at position i, when more than one set remains after es[i]:
      it goes on with the rest of the list from the new state. */
  lemma ResumeNext(goal: Run, rest: seq<Edge>, i: int, tree: seq<Edge>, s: Snapshot, t: Snapshot)
    requires Invariant(s) && |rest| > 0 && EdgesWithin(rest, |s.parent|)
    requires t == Step(s, rest[0]) && t.count != 1 && Invariant(t)
    requires EdgesWithin(rest[1..], |s.parent|)
    requires goal == Resume(i, tree, Consume(rest, s))
    ensures goal == Resume(i + 1, tree + Taken(s, rest[0]), Consume(rest[1..], t))
  {
    var r := Consume(rest[1..], t);
    assert Consume(rest, s) == Run(r.visits + 1, Taken(s, rest[0]) + r.tree, r.final);
    AppendAssociates(tree, Taken(s, rest[0]), r.tree);
  }

  lemma AppendAssociates<T>(a: seq<T>, b: seq<T>, c: seq<T>)
    ensures a + (b + c) == a + b + c
  {
  }

  lemma AppendTail<T>(a: seq<T>, b: seq<T>)
    requires |a| > 0
    ensures (a + b)[0] == a[0] && (a + b)[1..] == a[1..] + b
  {
  }

  /** The loop has examined es[..i] from the start and is in state s: the
      whole run is the tree so far followed by the run of the rest. */
  ghost predicate OnTrack(goal: Run, es: seq<Edge>, i: int, tree: seq<Edge>, s: Snapshot)
  {
    && Invariant(s) && 0 <= i <= |es| && EdgesWithin(es[i..], |s.parent|)
    && goal == Resume(i, tree, Consume(es[i..], s))
  }

  /** The loop starts on track. */
  lemma OnTrackStart(es: seq<Edge>, n: nat)
    requires n >= 1 && EdgesWithin(es, n)
    ensures OnTrack(KruskalRun(es, n), es, 0, [], Initial(n))
  {
    InitialInvariant(n);
    assert es[0..] == es;
  }

  /** The next edge names two elements of the forest. */
  lemma OnTrackEdge(goal: Run, es: seq<Edge>, i: int, tree: seq<Edge>, s: Snapshot)
    requires OnTrack(goal, es, i, tree, s) && i < |es|
    ensures 0 <= es[i].v1 < |s.parent| && 0 <= es[i].v2 < |s.parent|
  {
    EdgesWithinRest(es, i, |s.parent|);
  }

  /** The ghost side of one turn of the loop at position i: with t the
      state after examining es[i], the run goes on from t (or ends there
      when one set remains), and the running total follows the tree. */
  lemma Advance(goal: Run, es: seq<Edge>, i: int, tree: seq<Edge>, s: Snapshot, t: Snapshot, joined: bool)
    requires OnTrack(goal, es, i, tree, s) && i < |es|
    requires 0 <= es[i].v1 < |s.parent| && 0 <= es[i].v2 < |s.parent|
    requires t == Step(s, es[i]) && Invariant(t)
    requires joined <==> Root(s, es[i].v1) != Root(s, es[i].v2)
    ensures WeightOf(tree + Taken(s, es[i])) == WeightOf(tree) + es[i].weight <== joined
    ensures WeightOf(tree + Taken(s, es[i])) == WeightOf(tree) <== !joined
    ensures t.count == 1 ==> goal == Run(i + 1, tree + Taken(s, es[i]), t)
    ensures t.count != 1 ==> OnTrack(goal, es, i + 1, tree + Taken(s, es[i]), t)
  {
    EdgesWithinRest(es, i, |s.parent|);
    AddTaken(tree, s, es[i], joined);
    if t.count == 1 {
      ResumeLast(goal, es, i, tree, s);
    } else {
      assert es[i..][0] == es[i] && es[i..][1..] == es[i + 1..];
      ResumeNext(goal, es[i..], i, tree, s, t);
    }
  }

  /** A run that has reached the end of the list is complete. */
  lemma OnTrackEnd(goal: Run, es: seq<Edge>, tree: seq<Edge>, s: Snapshot)
    requires OnTrack(goal, es, |es|, tree, s)
    ensures goal == Run(|es|, tree, s)
  {
    assert es[|es|..] == [] && tree + [] == tree;
  }

  /** A run that has reached the end of the list, or stopped, is the
      spanning-tree result. */
  lemma ResumeDone(goal: Run, es: seq<Edge>, n: nat, visits: int, count: real)
    requires n >= 1 && EdgesWithin(es, n) && goal == KruskalRun(es, n)
    requires goal.visits == visits && count == WeightOf(goal.tree)
    ensures (count, visits) == SpanningTree(es, n)
  {
  }

  /** The loop keeps the disjoint-sets invariant, and every taken edge
      lowers the number of sets by one. */
  lemma {:induction false} ConsumeKeepsInvariant(es: seq<Edge>, s: Snapshot)
    requires Invariant(s) && EdgesWithin(es, |s.parent|)
    ensures Invariant(Consume(es, s).final) && |Consume(es, s).final.parent| == |s.parent|
    ensures Consume(es, s).final.count + |Consume(es, s).tree| == s.count
    decreases |es|
  {
    if |es| > 0 {
      var t := Step(s, es[0]);
      StepKeepsInvariant(s, es[0]);
      if t.count != 1 {
        ConsumeKeepsInvariant(es[1..], t);
      }
    }
  }

  /** The loop runs until the edges run out or one set remains, and
      examines at least one edge when there is one. */
  lemma {:induction false} ConsumeStops(es: seq<Edge>, s: Snapshot)
    requires Invariant(s) && EdgesWithin(es, |s.parent|)
    ensures Consume(es, s).visits == |es| || Consume(es, s).final.count == 1
    ensures |es| > 0 ==> Consume(es, s).visits > 0
    decreases |es|
  {
    if |es| > 0 {
      var t := Step(s, es[0]);
      StepKeepsInvariant(s, es[0]);
      if t.count != 1 {
        ConsumeStops(es[1..], t);
      }
    }
  }

  /** Once one set remains the loop breaks: if the run over the edges in
      `front` ends with one set, no edge of `rest` is examined and the run
      over `front + rest` is that same run. */
  lemma {:induction false} NothingAfterOneSet(front: seq<Edge>, rest: seq<Edge>, s: Snapshot)
    requires Invariant(s) && EdgesWithin(front + rest, |s.parent|) && |front| > 0
    requires EdgesWithin(front, |s.parent|) && Consume(front, s).final.count == 1
    ensures Consume(front + rest, s) == Consume(front, s)
    decreases |front|
  {
    var es := front + rest;
    AppendTail(front, rest);
    var t := Step(s, es[0]);
    StepKeepsInvariant(s, es[0]);
    if t.count != 1 {
      if |front| > 1 {
        NothingAfterOneSet(front[1..], rest, t);
      }
    }
  }

  /** Prefixing the first examined edge, taken or not, keeps the taken
      edges among the examined ones. */
  lemma ExaminedPrefix(es: seq<Edge>, taken: seq<Edge>, tree: seq<Edge>, v: int)
    requires 0 <= v < |es| && (taken == [] || taken == [es[0]])
    requires forall e :: e in tree ==> e in es[1..][..v]
    ensures forall e :: e in taken + tree ==> e in es[..v + 1]
  {
    forall e | e in taken + tree
      ensures e in es[..v + 1]
    {
      if e in tree {
        var i :| 0 <= i < v && es[1..][i] == e;
        assert es[..v + 1][i + 1] == e;
      } else {
        assert es[..v + 1][0] == e;
      }
    }
  }

  /** The taken edges are among the examined ones. */
  lemma {:induction false} TreeFromExamined(es: seq<Edge>, s: Snapshot)
    requires Invariant(s) && EdgesWithin(es, |s.parent|)
    ensures forall e :: e in Consume(es, s).tree ==> e in es[..Consume(es, s).visits]
    decreases |es|
  {
    if |es| > 0 {
      var t := Step(s, es[0]);
      var taken := if Root(s, es[0].v1) != Root(s, es[0].v2) then [es[0]] else [];
      if t.count != 1 {
        StepKeepsInvariant(s, es[0]);
        var r := Consume(es[1..], t);
        TreeFromExamined(es[1..], t);
        ExaminedPrefix(es, taken, r.tree, r.visits);
      } else {
        ExaminedPrefix(es, taken, [], 0);
      }
    }
  }

  /** The summed weight of a list of edges. */
  function WeightOf(es: seq<Edge>): real
  {
    if |es| == 0 then 0.0 else es[0].weight + WeightOf(es[1..])
  }

  /** Adding the weight of an edge exactly when it joins two sets keeps a
      running total equal to the summed weight of the taken edges. */
  lemma AddTaken(tree: seq<Edge>, s: Snapshot, e: Edge, joined: bool)
    requires Forest(s) && 0 <= e.v1 < |s.parent| && 0 <= e.v2 < |s.parent|
    requires joined <==> Root(s, e.v1) != Root(s, e.v2)
    ensures WeightOf(tree + Taken(s, e)) == WeightOf(tree) + e.weight <== joined
    ensures WeightOf(tree + Taken(s, e)) == WeightOf(tree) <== !joined
  {
    WeightOfAppend(tree, Taken(s, e));
    if joined {
      assert WeightOf([e]) == e.weight + WeightOf([]);
    }
  }

  /** Summing the weights of two lists one after the other. */
  lemma {:induction false} WeightOfAppend(a: seq<Edge>, b: seq<Edge>)
    ensures WeightOf(a + b) == WeightOf(a) + WeightOf(b)
  {
    if |a| > 0 {
      WeightOfAppend(a[1..], b);
      assert (a + b)[1..] == a[1..] + b;
    } else {
      assert a + b == b;
    }
  }

  /** Two rounds of merging compose: if t only merges sets of s and f only
      merges sets of t, then f only merges sets of s. */
  lemma ComposeMerges(s: Snapshot, t: Snapshot, f: Snapshot)
    requires Forest(s) && Forest(t) && Forest(f)
    requires |t.parent| == |s.parent| && |f.parent| == |s.parent|
    requires forall y :: 0 <= y < |s.parent| ==> Root(t, y) == Root(t, Root(s, y))
    requires forall y :: 0 <= y < |s.parent| ==> Root(f, y) == Root(f, Root(t, y))
    ensures forall y :: 0 <= y < |s.parent| ==> Root(f, y) == Root(f, Root(s, y))
  {
    forall y | 0 <= y < |s.parent|
      ensures Root(f, y) == Root(f, Root(s, y))
    {
      var ry := Root(s, y);
      assert Root(t, y) == Root(t, ry);
      assert Root(f, ry) == Root(f, Root(t, ry));
    }
  }

  /** The loop only merges sets: each element ends up with the final root
      of the root it started with. */
  lemma {:induction false} ConsumeMerges(es: seq<Edge>, s: Snapshot)
    requires Invariant(s) && EdgesWithin(es, |s.parent|)
    ensures forall x :: 0 <= x < |s.parent| ==>
      Root(Consume(es, s).final, x) == Root(Consume(es, s).final, Root(s, x))
    decreases |es|
  {
    if |es| == 0 {
      forall x | 0 <= x < |s.parent|
        ensures Root(s, x) == Root(s, Root(s, x))
      {
        assert s.parent[Root(s, x)] == Root(s, x);
      }
    } else {
      var t := Step(s, es[0]);
      StepKeepsInvariant(s, es[0]);
      StepOnlyMerges(s, es[0]);
      if t.count != 1 {
        var f := Consume(es[1..], t).final;
        ConsumeMerges(es[1..], t);
        assert Consume(es, s).final == f;
        ComposeMerges(s, t, f);
      }
    }
  }

  /** Every examined edge ends with both endpoints in one set, so the
      edges taken span everything the examined edges connect. */
  lemma {:induction false} ExaminedEdgesJoined(es: seq<Edge>, s: Snapshot)
    requires Invariant(s) && EdgesWithin(es, |s.parent|)
    ensures forall k :: 0 <= k < Consume(es, s).visits ==>
      Root(Consume(es, s).final, es[k].v1) == Root(Consume(es, s).final, es[k].v2)
    decreases |es|
  {
    if |es| > 0 {
      var t := Step(s, es[0]);
      StepKeepsInvariant(s, es[0]);
      StepJoins(s, es[0]);
      if t.count != 1 {
        var r := Consume(es[1..], t);
        assert Consume(es, s) == Run(r.visits + 1, Consume(es, s).tree, r.final);
        ExaminedEdgesJoined(es[1..], t);
        ConsumeMerges(es[1..], t);
        var f := r.final;
        assert Root(f, es[0].v1) == Root(f, Root(t, es[0].v1));
        assert Root(f, es[0].v2) == Root(f, Root(t, es[0].v2));
        forall k | 0 <= k < r.visits + 1
          ensures Root(f, es[k].v1) == Root(f, es[k].v2)
        {
          if k > 0 {
            assert es[k] == es[1..][k - 1];
          }
        }
      }
    }
  }

  /** The taken edges are the ones that joined two different sets: their
      number is the drop in the number of sets, so they never close a
      cycle, and a run over n singletons takes at most n - 1 of them. */
  lemma TreeSize(es: seq<Edge>, n: nat)
    requires n >= 1 && EdgesWithin(es, n)
    ensures Invariant(Initial(n))
    ensures |Consume(es, Initial(n)).tree| == n - Consume(es, Initial(n)).final.count
    ensures |Consume(es, Initial(n)).tree| <= n - 1
  {
    InitialInvariant(n);
    ConsumeKeepsInvariant(es, Initial(n));
    CountIsNumberOfSets(Consume(es, Initial(n)).final);
  }

  /** The loop run over the edges in order on n singletons. */
  ghost function KruskalRun(es: seq<Edge>, n: nat): Run
    requires n >= 1 && EdgesWithin(es, n)
  {
    InitialInvariant(n);
    Consume(es, Initial(n))
  }

  /** The result of the loop on n singletons: the summed weight of the
      edges that joined two sets, and the number of edges examined. */
  ghost function SpanningTree(es: seq<Edge>, n: nat): (real, int)
    requires n >= 1 && EdgesWithin(es, n)
  {
    var r := KruskalRun(es, n);
    (WeightOf(r.tree), r.visits)
  }

  /** With no edges the result is (0, 0). */
  lemma NoEdges(n: nat)
    requires n >= 1
    ensures SpanningTree([], n) == (0.0, 0)
  {
  }

  /** A lone edge (0, 1) among four vertices: it is examined and taken, and
      three sets remain. */
  lemma LoneEdgeScenario()
    ensures SpanningTree([Edge(0, 1, 5.0)], 4) == (5.0, 1)
    ensures Invariant(Initial(4)) && Consume([Edge(0, 1, 5.0)], Initial(4)).final.count == 3
  {
    InitialInvariant(4);
    var s0 := Initial(4);
    assert Root(s0, 0) == 0 && Root(s0, 1) == 1;
    var es := [Edge(0, 1, 5.0)];
    assert es[1..] == [];
  }

  /** Sorting two entries already in order changes nothing. */
  lemma SortTwo(a: Edge, b: Edge)
    requires a.weight <= b.weight
    ensures SortByWeight([a, b]) == [a, b]
  {
    SortSortedIsIdentity([a, b]);
  }

  /** A heavier second entry moves past a lighter third one. */
  lemma SortThree(a: Edge, b: Edge, c: Edge)
    requires a.weight <= c.weight < b.weight
    ensures SortByWeight([a, b, c]) == [a, c, b]
  {
    SortTwo(a, b);
    SortAppend([a, b], c);
    assert [a, b] + [c] == [a, b, c];
    InsertAt([a, b], c, 1);
    assert [a, b][..1] + [c] + [a, b][1..] == [a, c, b];
  }

  /** Sorting a list whose second entry is heavier than the two after it,
      which are in order, moves that entry to the end. */
  lemma SortMovesHeavySecond(a: Edge, b: Edge, c: Edge, d: Edge)
    requires a.weight <= c.weight <= d.weight < b.weight
    ensures SortByWeight([a, b, c, d]) == [a, c, d, b]
  {
    SortThree(a, b, c);
    SortAppend([a, b, c], d);
    assert [a, b, c] + [d] == [a, b, c, d];
    InsertAt([a, c, b], d, 2);
    assert [a, c, b][..2] + [d] + [a, c, b][2..] == [a, c, d, b];
  }

  /** An edge that joins the last two sets is the last one examined. */
  lemma ConsumeFinalJoin(es: seq<Edge>, s: Snapshot)
    requires Invariant(s) && EdgesWithin(es, |s.parent|) && |es| > 0
    requires Root(s, es[0].v1) != Root(s, es[0].v2) && s.count == 2
    ensures Consume(es, s) == Run(1, [es[0]], Step(s, es[0]))
  {
  }

  /** Two vertices and two edges between them: the first joins the only two
      sets, so the loop stops before it examines the second. The loop takes
      any edge list; the scan itself would list this pair only once. */
  lemma EarlyStopScenario()
    ensures SpanningTree([Edge(0, 1, 1.0), Edge(1, 0, 4.0)], 2) == (1.0, 1)
  {
    InitialInvariant(2);
    var s0 := Initial(2);
    var es := [Edge(0, 1, 1.0), Edge(1, 0, 4.0)];
    assert Root(s0, 0) == 0 && Root(s0, 1) == 1;
    ConsumeFinalJoin(es, s0);
    assert [es[0]][1..] == [];
  }

  /** A triangle after sorting, lightest edges first: the first two edges
      join all three vertices, so the loop stops before it examines the
      heaviest one. */
  lemma TriangleScenario()
    ensures SpanningTree([Edge(0, 1, 1.0), Edge(1, 2, 2.0), Edge(0, 2, 3.0)], 3) == (3.0, 2)
  {
    InitialInvariant(3);
    var s0 := Initial(3);
    var es := [Edge(0, 1, 1.0), Edge(1, 2, 2.0), Edge(0, 2, 3.0)];
    assert Root(s0, 0) == 0 && Root(s0, 1) == 1 && Root(s0, 2) == 2;
    StepKeepsInvariant(s0, es[0]);
    StepMerges(s0, es[0]);
    var s1 := Step(s0, es[0]);
    assert Root(s1, 2) == 2;
    ConsumeFinalJoin(es[1..], s1);
    assert es[1..][0] == es[1];
    var r := Consume(es[1..], s1);
    assert r.tree == [es[1]];
    var tree := [es[0]] + [es[1]];
    assert KruskalRun(es, 3).tree == tree && KruskalRun(es, 3).visits == 2;
    assert tree[1..] == [es[1]] && tree[1..][1..] == [];
    assert WeightOf(tree[1..]) == 2.0 + WeightOf([]);
  }

  /** The triangle of TriangleScenario as an adjacency matrix. */
  function TriangleGraph(): seq<seq<Weight>>
  {
    [[Absent, Present(1.0), Present(3.0)],
     [Present(1.0), Absent, Present(2.0)],
     [Present(3.0), Present(2.0), Absent]]
  }

  /** The scan of the triangle yields (0,1) and (0,2) from row 0 and (1,2)
      from row 1. */
  lemma TriangleScan()
    ensures Square(TriangleGraph(), 3)
    ensures UpperEdges(TriangleGraph(), 3) == [Edge(0, 1, 1.0), Edge(0, 2, 3.0), Edge(1, 2, 2.0)]
  {
    var g := TriangleGraph();
    assert Square(g, 3);
    assert RowEdges(g, 3, 0, 3) == [Edge(0, 1, 1.0), Edge(0, 2, 3.0)];
    assert RowEdges(g, 3, 1, 3) == [Edge(1, 2, 2.0)];
    assert RowEdges(g, 3, 2, 3) == [];
    assert RowsEdges(g, 3, 1) == [Edge(0, 1, 1.0), Edge(0, 2, 3.0)];
  }

  /** The whole computation on the triangle: the sort moves (1,2) ahead of
      the heavier (0,2), and the loop then takes the two lightest edges. */
  lemma TriangleFromScan()
    ensures Square(TriangleGraph(), 3)
    ensures SortByWeight(UpperEdges(TriangleGraph(), 3)) == [Edge(0, 1, 1.0), Edge(1, 2, 2.0), Edge(0, 2, 3.0)]
    ensures SpanningTree(SortByWeight(UpperEdges(TriangleGraph(), 3)), 3) == (3.0, 2)
  {
    TriangleScan();
    SortThree(Edge(0, 1, 1.0), Edge(0, 2, 3.0), Edge(1, 2, 2.0));
    TriangleScenario();
  }
}
