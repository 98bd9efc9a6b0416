/** Weighted_graph: an undirected weighted graph of fixed capacity maxVert
    stored as a dense adjacency matrix, with per-vertex degrees, two running
    counters and Kruskal's minimum spanning tree.

    The matrix is an array2 of Weight, where Absent stands for the INF
    sentinel. The ghost function Grid() reads it as a sequence of rows, so
    that each mutator can be stated as a function of the old grid and the
    spanning-tree method as a function of the current one. */
module WeightedGraphs {
  import opened Exceptions
  import opened DataStructures
  import opened Kruskal

  /** The capacity used when no size is given. */
  const DefaultCapacity := 10

  /***************************************************************************
   * The matrix as a value
   ***************************************************************************/

  /** An entry the class can hold at (i, j): absent, or zero on the
      diagonal, or a positive weight off it. */
  predicate EntryOk(i: int, j: int, w: Weight)
  {
    w.Absent? || (if i == j then w.value == 0.0 else w.value > 0.0)
  }

  /** A freshly built or cleared matrix: zero on the diagonal, no edges. */
  function EmptyGrid(n: nat): (g: seq<seq<Weight>>)
  {
    seq(n, i => seq(n, j => if i == j then Present(0.0) else Absent))
  }

  /** The grid g with the single entry (i, j) replaced by w. */
  function SetCell(g: seq<seq<Weight>>, i: int, j: int, w: Weight): (h: seq<seq<Weight>>)
    requires 0 <= i < |g| && 0 <= j < |g[i]|
  {
    g[i := g[i][j := w]]
  }

  /** The matrix after insert_edge(i, j, d) succeeds: both (i, j) and
      (j, i) hold d. */
  function Inserted(g: seq<seq<Weight>>, i: int, j: int, d: real): seq<seq<Weight>>
    requires 0 <= i < |g| && 0 <= j < |g| && j < |g[i]| && i < |g[j]|
  {
    SetCell(SetCell(g, i, j, Present(d)), j, i, Present(d))
  }

  /** The matrix after erase_edge(i, j) finds an entry: only (i, j) is
      cleared. */
  function Erased(g: seq<seq<Weight>>, i: int, j: int): seq<seq<Weight>>
    requires 0 <= i < |g| && 0 <= j < |g[i]|
  {
    SetCell(g, i, j, Absent)
  }

  /** Writing one cell of the matrix writes that cell of its grid. */
  lemma SetCellSquare(g: seq<seq<Weight>>, n: int, i: int, j: int, w: Weight)
    requires Square(g, n) && 0 <= i < n && 0 <= j < n
    ensures Square(SetCell(g, i, j, w), n)
    ensures forall p, q :: 0 <= p < n && 0 <= q < n ==>
      SetCell(g, i, j, w)[p][q] == if p == i && q == j then w else g[p][q]
  {
  }

  /** Two square grids that agree cell by cell are equal. */
  lemma GridsEqual(g: seq<seq<Weight>>, h: seq<seq<Weight>>, n: int)
    requires Square(g, n) && Square(h, n)
    requires forall i, j :: 0 <= i < n && 0 <= j < n ==> g[i][j] == h[i][j]
    ensures g == h
  {
    forall i | 0 <= i < n
      ensures g[i] == h[i]
    {
      assert forall j :: 0 <= j < n ==> g[i][j] == h[i][j];
    }
  }

  lemma EmptyGridNoUpperEdge(n: nat, e: Edge)
    ensures Square(EmptyGrid(n), n) && !IsUpperEdge(EmptyGrid(n), n, e)
  {
  }

  /** An empty matrix yields no edges, so its spanning tree is (0, 0). */
  lemma EmptyGridHasNoEdges(n: nat)
    ensures Square(EmptyGrid(n), n) && UpperEdges(EmptyGrid(n), n) == []
  {
    var g := EmptyGrid(n);
    if UpperEdges(g, n) != [] {
      var e := UpperEdges(g, n)[0];
      EmptyGridNoUpperEdge(n, e);
      UpperEdgesMembers(g, n);
      assert false;
    }
  }

  /** After a successful insert_edge(i, j, d) the scan collects the edge
      between i and j, listed from the lower index, with weight d. */
  lemma InsertedIsCollected(g: seq<seq<Weight>>, n: int, i: int, j: int, d: real)
    requires Square(g, n) && 0 <= i < n && 0 <= j < n && i != j && d > 0.0
    ensures Square(Inserted(g, i, j, d), n)
    ensures var lo, hi := if i < j then i else j, if i < j then j else i;
      Edge(lo, hi, d) in UpperEdges(Inserted(g, i, j, d), n)
  {
    var h := Inserted(g, i, j, d);
    UpperEdgesMembers(h, n);
  }

  /** An insert changes no other edge the scan collects. */
  lemma InsertedKeepsOthers(g: seq<seq<Weight>>, n: int, i: int, j: int, d: real, e: Edge)
    requires Square(g, n) && 0 <= i < n && 0 <= j < n
    requires !(e.v1 == i && e.v2 == j) && !(e.v1 == j && e.v2 == i)
    ensures Square(Inserted(g, i, j, d), n)
    ensures e in UpperEdges(Inserted(g, i, j, d), n) <==> e in UpperEdges(g, n)
  {
    UpperEdgesMembers(g, n);
    UpperEdgesMembers(Inserted(g, i, j, d), n);
  }

  /** erase_edge(i, j) clears only (i, j): after an insert of (i, j) and an
      erase of (i, j) the mirror entry (j, i) still holds the weight. */
  lemma EraseLeavesMirror(g: seq<seq<Weight>>, n: int, i: int, j: int, d: real)
    requires Square(g, n) && 0 <= i < n && 0 <= j < n && i != j
    ensures var h := Erased(Inserted(g, i, j, d), i, j);
      Square(h, n) && h[i][j] == Absent && h[j][i] == Present(d)
  {
  }

  /** Grids that agree above the diagonal are scanned alike. */
  lemma {:induction false} SameUpperRows(g: seq<seq<Weight>>, h: seq<seq<Weight>>, n: int, i: int)
    requires Square(g, n) && Square(h, n) && 0 <= i <= n
    requires forall p, q :: 0 <= p < q < n ==> g[p][q] == h[p][q]
    ensures RowsEdges(g, n, i) == RowsEdges(h, n, i)
  {
    if i > 0 {
      SameUpperRows(g, h, n, i - 1);
      SameUpperRow(g, h, n, i - 1, n);
      assert RowsEdges(g, n, i) == RowsEdges(g, n, i - 1) + RowEdges(g, n, i - 1, n);
      assert RowsEdges(h, n, i) == RowsEdges(h, n, i - 1) + RowEdges(h, n, i - 1, n);
    }
  }

  lemma {:induction false} SameUpperRow(g: seq<seq<Weight>>, h: seq<seq<Weight>>, n: int, i: int, j: int)
    requires Square(g, n) && Square(h, n) && 0 <= i < n && 0 <= j <= n
    requires forall p, q :: 0 <= p < q < n ==> g[p][q] == h[p][q]
    ensures RowEdges(g, n, i, j) == RowEdges(h, n, i, j)
  {
    if j > 0 {
      SameUpperRow(g, h, n, i, j - 1);
      assert CellEdges(g, i, j - 1) == CellEdges(h, i, j - 1);
    }
  }

  /** Erasing a cell below the diagonal leaves the scanned edge list as it
      was: the spanning tree only ever reads the upper triangle. */
  lemma EraseBelowKeepsEdges(g: seq<seq<Weight>>, n: int, i: int, j: int)
    requires Square(g, n) && 0 <= j < i < n
    ensures Square(Erased(g, i, j), n)
    ensures UpperEdges(Erased(g, i, j), n) == UpperEdges(g, n)
  {
    SameUpperRows(Erased(g, i, j), g, n, n);
  }

  /** Every entry of an n by n grid is one the class can hold. */
  ghost predicate GridOk(g: seq<seq<Weight>>, n: int)
    requires Square(g, n)
  {
    forall i, j :: 0 <= i < n && 0 <= j < n ==> EntryOk(i, j, g[i][j])
  }

  /** Storing an entry the class can hold keeps the grid well formed. */
  lemma SetCellOk(g: seq<seq<Weight>>, n: int, i: int, j: int, w: Weight)
    requires Square(g, n) && GridOk(g, n) && 0 <= i < n && 0 <= j < n && EntryOk(i, j, w)
    ensures Square(SetCell(g, i, j, w), n) && GridOk(SetCell(g, i, j, w), n)
  {
    SetCellSquare(g, n, i, j, w);
  }

  /** The first k collected edges, sorted, name vertices of the matrix. */
  lemma SortedEdgesWithin(g: seq<seq<Weight>>, n: int, k: int)
    requires Square(g, n) && 0 <= k <= |UpperEdges(g, n)|
    ensures EdgesWithin(SortByWeight(UpperEdges(g, n)[..k]), Max(1, n))
  {
    var es := UpperEdges(g, n)[..k];
    var sorted := SortByWeight(es);
    SortIsSortedPermutation(es);
    UpperEdgesMembers(g, n);
    forall t | 0 <= t < |sorted|
      ensures 0 <= sorted[t].v1 < Max(1, n) && 0 <= sorted[t].v2 < Max(1, n)
    {
      assert sorted[t] in multiset(es);
      var u :| 0 <= u < k && es[u] == sorted[t];
      assert UpperEdges(g, n)[u] == sorted[t];
      assert sorted[t] in UpperEdges(g, n);
      assert IsUpperEdge(g, n, sorted[t]);
    }
  }

  /***************************************************************************
   * The class
   ***************************************************************************/

  class WeightedGraph {
    var matrix: array2<Weight>
    var degrees: array<int>
    var maxVert: int
    var edgesTotal: int
    var verticesTotal: int

    /** The shape of the matrix. */
    ghost predicate Shaped()
      reads this`matrix, this`maxVert
    {
      maxVert >= 0 && matrix.Length0 == maxVert && matrix.Length1 == maxVert
    }

    /** The matrix as a sequence of rows. */
    ghost function Grid(): (g: seq<seq<Weight>>)
      reads this`matrix, this`maxVert, matrix
      requires Shaped()
      ensures Square(g, maxVert)
    {
      var m, n := matrix, maxVert;
      seq(n, i requires 0 <= i < n reads m =>
        seq(n, j requires 0 <= j < n reads m => m[i, j]))
    }

    /** The grid holds the matrix entries. */
    lemma GridCells()
      requires Shaped()
      ensures forall i, j :: 0 <= i < maxVert && 0 <= j < maxVert ==> Grid()[i][j] == matrix[i, j]
    {
    }

    /** The shape of the object, the entries it can hold, and the counters
        that never go negative (verticesTotal can: erase_edge lowers it
        without a matching insert). */
    ghost predicate Valid()
      reads this, matrix, degrees
    {
      && Shaped()
      && degrees.Length == maxVert
      && GridOk(Grid(), maxVert)
      && (forall i :: 0 <= i < maxVert ==> degrees[i] >= 0)
      && edgesTotal >= 0
    }

    /** Weighted_graph(n) for n >= 0: no edges, zero on the diagonal, all
        degrees and both counters zero. */
    constructor (n: nat)
      ensures Valid() && fresh(matrix) && fresh(degrees)
      ensures maxVert == n && edgesTotal == 0 && verticesTotal == 0
      ensures Grid() == EmptyGrid(n)
      ensures forall i :: 0 <= i < n ==> degrees[i] == 0
    {
      var deg := new int[n];
      for i := 0 to n
        invariant forall k :: 0 <= k < i ==> deg[k] == 0
      {
        deg[i] := 0;
      }
      var m := NewMatrix(n);
      matrix := m;
      degrees := deg;
      maxVert := n;
      edgesTotal := 0;
      verticesTotal := 0;
      new;
      GridCells();
      GridsEqual(Grid(), EmptyGrid(n), n);
    }

    /** A fresh n by n matrix with no entries and zero on the diagonal. */
    static method NewMatrix(n: nat) returns (m: array2<Weight>)
      ensures fresh(m) && m.Length0 == n && m.Length1 == n
      ensures forall p, q :: 0 <= p < n && 0 <= q < n ==> m[p, q] == if p == q then Present(0.0) else Absent
    {
      m := new Weight[n, n];
      for i := 0 to n
        invariant forall p, q :: 0 <= p < i && 0 <= q < n ==> m[p, q] == if p == q then Present(0.0) else Absent
      {
        for j := 0 to n
          invariant forall p, q :: 0 <= p < i && 0 <= q < n ==> m[p, q] == if p == q then Present(0.0) else Absent
          invariant forall q :: 0 <= q < j ==> m[i, q] == Absent
        {
          m[i, j] := Absent;
        }
        m[i, i] := Present(0.0);
      }
    }

    /** Weighted_graph(n): illegal_argument for a negative n, otherwise a
        new empty graph of capacity n (DefaultCapacity when none is
        given). */
    static method Create(n: int := DefaultCapacity) returns (r: Result<WeightedGraph>)
      ensures r.IllegalArgument? <==> n < 0
      ensures r.Ok? ==> fresh(r.value) && fresh(r.value.matrix) && fresh(r.value.degrees)
      ensures r.Ok? ==> r.value.Valid() && r.value.maxVert == n
      ensures r.Ok? ==> r.value.Grid() == EmptyGrid(n) && r.value.edgesTotal == 0 && r.value.verticesTotal == 0
      ensures r.Ok? ==> forall x :: 0 <= x < n ==> r.value.degrees[x] == 0
    {
      if n < 0 {
        return IllegalArgument;
      }
      var g := new WeightedGraph(n);
      return Ok(g);
    }

    /** degree(x): illegal_argument unless 0 <= x <= verticesTotal (the
        bound is the counter, not the capacity); otherwise the stored
        degree, never negative. */
    function Degree(x: int): (r: Result<int>)
      reads this, matrix, degrees
      requires Valid()
      requires 0 <= x <= verticesTotal ==> x < maxVert
      ensures r.IllegalArgument? <==> x < 0 || x > verticesTotal
      ensures r.Ok? ==> r.value == degrees[x] && r.value >= 0
    {
      if x < 0 || x > verticesTotal then IllegalArgument else Ok(degrees[x])
    }

    /** edge_count(): the counter of inserted edges, never negative. */
    function EdgeCount(): (k: int)
      reads this, matrix, degrees
      requires Valid()
      ensures k >= 0 && k == edgesTotal
    {
      edgesTotal
    }

    /** check_edge(i, j): illegal_argument for an index outside the graph,
        otherwise whether (i, j) holds an entry. */
    function CheckEdge(i: int, j: int): (r: Result<bool>)
      reads this, matrix, degrees
      requires Valid()
      ensures r.IllegalArgument? <==> i < 0 || j < 0 || i >= maxVert || j >= maxVert
      ensures r.Ok? ==> (r.value <==> Grid()[i][j].Present?)
    {
      if i < 0 || j < 0 || j >= maxVert || i >= maxVert then IllegalArgument
      else GridCells(); Ok(matrix[i, j] != Absent)
    }

    /** One write into the matrix. */
    method Store(i: int, j: int, w: Weight)
      requires Shaped() && 0 <= i < maxVert && 0 <= j < maxVert
      modifies matrix
      ensures Grid() == SetCell(old(Grid()), i, j, w)
    {
      ghost var g := Grid();
      GridCells();
      matrix[i, j] := w;
      GridCells();
      SetCellSquare(g, maxVert, i, j, w);
      GridsEqual(Grid(), SetCell(g, i, j, w), maxVert);
    }

    /** insert_edge(i, j, d): illegal_argument for an index outside the
        graph or a negative weight; false, with nothing changed, for a
        loop or a zero weight; otherwise both (i, j) and (j, i) hold d, and
        the degrees of i and j and both counters go up by one unless (i, j)
        already held an entry. */
    method InsertEdge(i: int, j: int, d: real) returns (r: Result<bool>)
      requires Valid()
      modifies this`edgesTotal, this`verticesTotal, matrix, degrees
      ensures Valid()
      ensures r.IllegalArgument? <==> i < 0 || j < 0 || i >= maxVert || j >= maxVert || d < 0.0
      ensures r == Ok(false) <==> !r.IllegalArgument? && (i == j || d == 0.0)
      ensures !(r == Ok(true)) ==>
        Grid() == old(Grid()) && degrees[..] == old(degrees[..])
        && edgesTotal == old(edgesTotal) && verticesTotal == old(verticesTotal)
      ensures r == Ok(true) ==> Grid() == Inserted(old(Grid()), i, j, d)
      ensures r == Ok(true) ==>
        var added := if old(matrix[i, j]).Absent? then 1 else 0;
        && edgesTotal == old(edgesTotal) + added
        && verticesTotal == old(verticesTotal) + added
        && forall k :: 0 <= k < maxVert ==> degrees[k] == old(degrees[k]) + (if k == i || k == j then added else 0)
    {
      if i < 0 || j < 0 || i >= maxVert || j >= maxVert || d < 0.0 {
        return IllegalArgument;
      }
      if i < maxVert && j < maxVert && d > 0.0 && i != j {
        Connect(i, j, d);
        return Ok(true);
      }
      return Ok(false);
    }

    /** The body of a successful insert_edge: undo the counts of an entry
        already at (i, j), then store d at (i, j) and (j, i) and count the
        edge once. */
    method Connect(i: int, j: int, d: real)
      requires Valid() && 0 <= i < maxVert && 0 <= j < maxVert && i != j && d > 0.0
      modifies this`edgesTotal, this`verticesTotal, matrix, degrees
      ensures Valid()
      ensures Grid() == Inserted(old(Grid()), i, j, d)
      ensures var added := if old(matrix[i, j]).Absent? then 1 else 0;
        && edgesTotal == old(edgesTotal) + added
        && verticesTotal == old(verticesTotal) + added
        && forall k :: 0 <= k < maxVert ==> degrees[k] == old(degrees[k]) + (if k == i || k == j then added else 0)
    {
      if matrix[i, j] != Absent {
        Count(i, j, -1);
      }
      Place(i, j, d);
      Count(i, j, 1);
    }

    /** Stores d at (i, j) and at (j, i). */
    method Place(i: int, j: int, d: real)
      requires Shaped() && GridOk(Grid(), maxVert) && 0 <= i < maxVert && 0 <= j < maxVert && i != j && d > 0.0
      modifies matrix
      ensures Grid() == Inserted(old(Grid()), i, j, d) && GridOk(Grid(), maxVert)
    {
      ghost var g := Grid();
      Store(i, j, Present(d));
      SetCellOk(g, maxVert, i, j, Present(d));
      Store(j, i, Present(d));
      SetCellOk(SetCell(g, i, j, Present(d)), maxVert, j, i, Present(d));
    }

    /** Adds delta to both counters and to the degrees of i and j. */
    method Count(i: int, j: int, delta: int)
      requires Shaped() && degrees.Length == maxVert && 0 <= i < maxVert && 0 <= j < maxVert && i != j
      modifies this`edgesTotal, this`verticesTotal, degrees
      ensures edgesTotal == old(edgesTotal) + delta && verticesTotal == old(verticesTotal) + delta
      ensures forall k :: 0 <= k < maxVert ==> degrees[k] == old(degrees[k]) + (if k == i || k == j then delta else 0)
    {
      edgesTotal := edgesTotal + delta;
      degrees[i] := degrees[i] + delta;
      degrees[j] := degrees[j] + delta;
      verticesTotal := verticesTotal + delta;
    }

    /** erase_edge(i, j): illegal_argument for an index outside the graph;
        otherwise, when (i, j) holds an entry, only that entry is cleared
        and only verticesTotal drops by one (the mirror entry (j, i), the
        degrees and edgesTotal stay as they were). */
    method EraseEdge(i: int, j: int) returns (r: Result<bool>)
      requires Valid()
      modifies this`verticesTotal, matrix
      ensures Valid()
      ensures r.IllegalArgument? <==> i < 0 || j < 0 || i >= maxVert || j >= maxVert
      ensures r.Ok? ==> (r.value <==> old(Grid())[i][j].Present?)
      ensures r == Ok(true) ==> Grid() == Erased(old(Grid()), i, j) && verticesTotal == old(verticesTotal) - 1
      ensures !(r == Ok(true)) ==> Grid() == old(Grid()) && verticesTotal == old(verticesTotal)
    {
      if i < 0 || j < 0 || j >= maxVert || i >= maxVert {
        return IllegalArgument;
      }
      if matrix[i, j] != Absent {
        ghost var g := Grid();
        Store(i, j, Absent);
        SetCellOk(g, maxVert, i, j, Absent);
        verticesTotal := verticesTotal - 1;
        return Ok(true);
      }
      return Ok(false);
    }

    /** clear_edges(): every degree zero, no edges, zero on the diagonal;
        edgesTotal and verticesTotal are left as they were. */
    method ClearEdges()
      requires Valid()
      modifies matrix, degrees
      ensures Valid()
      ensures Grid() == EmptyGrid(maxVert)
      ensures forall i :: 0 <= i < maxVert ==> degrees[i] == 0
      ensures edgesTotal == old(edgesTotal) && verticesTotal == old(verticesTotal)
    {
      for i := 0 to maxVert
        invariant forall k :: 0 <= k < i ==> degrees[k] == 0
      {
        degrees[i] := 0;
      }
      for i := 0 to maxVert
        invariant forall k :: 0 <= k < maxVert ==> degrees[k] == 0
        invariant forall p, q :: 0 <= p < i && 0 <= q < maxVert ==> matrix[p, q] == if p == q then Present(0.0) else Absent
      {
        for j := 0 to maxVert
          invariant forall k :: 0 <= k < maxVert ==> degrees[k] == 0
          invariant forall p, q :: 0 <= p < i && 0 <= q < maxVert ==> matrix[p, q] == if p == q then Present(0.0) else Absent
          invariant forall q :: 0 <= q < j ==> matrix[i, q] == Absent
        {
          matrix[i, j] := Absent;
        }
        matrix[i, i] := Present(0.0);
      }
      GridCells();
      GridsEqual(Grid(), EmptyGrid(maxVert), maxVert);
    }

    /***************************************************************************
     * minimum_spanning_tree
     ***************************************************************************/

    /** The scan of the upper triangle: every cell (i, j) with i < j holding a
        present, non-zero weight is copied, in row-major order, into a fresh
        array of maxVert * maxVert edges; a counts them. */
    method CollectEdges() returns (es: array<Edge>, a: int)
      requires Shaped()
      ensures fresh(es) && 0 <= a <= es.Length
      ensures es[..a] == UpperEdges(Grid(), maxVert)
    {
      var n := maxVert;
      ghost var g := Grid();
      if n > 0 {
        RowBelowSquare(0, n);
      }
      es := new Edge[n * n];
      a := 0;
      for i := 0 to n
        invariant 0 <= a <= es.Length && es[..a] == RowsEdges(g, n, i)
      {
        RoomForRow(g, n, i);
        a := ScanRow(es, a, i, g);
      }
    }

    /** The inner scan loop over row i: the edges of that row are appended
        after the first a entries of es, which has room for a whole row. */
    method ScanRow(es: array<Edge>, a: int, i: int, ghost g: seq<seq<Weight>>) returns (a': int)
      requires Shaped() && g == Grid() && 0 <= i < maxVert
      requires 0 <= a && a + maxVert <= es.Length
      modifies es
      ensures a <= a' <= es.Length
      ensures es[..a'] == old(es[..a]) + RowEdges(g, maxVert, i, maxVert)
      ensures old(es[..a]) == RowsEdges(g, maxVert, i) ==> es[..a'] == RowsEdges(g, maxVert, i + 1)
    {
      var n := maxVert;
      GridCells();
      ghost var prefix := es[..a];
      a' := a;
      for j := 0 to n
        invariant forall k :: 0 <= k < n ==> g[i][k] == matrix[i, k]
        invariant a <= a' <= a + j
        invariant es[..a'] == prefix + RowEdges(g, n, i, j)
      {
        var w := matrix[i, j];
        if i < j && w != Absent && w.value != 0.0 {
          ghost var before := es[..a'];
          es[a'] := Edge(i, j, w.value);
          assert es[..a' + 1] == before + [Edge(i, j, w.value)];
          AppendAssociates(prefix, RowEdges(g, n, i, j), CellEdges(g, i, j));
          a' := a' + 1;
        } else {
          assert CellEdges(g, i, j) == [];
          assert RowEdges(g, n, i, j) + [] == RowEdges(g, n, i, j);
        }
      }
    }

    /** The inner loop of the insertion sort: es[c] is moved left past every
        strictly heavier entry of the sorted prefix es[..c]. */
    static method InsertKey(es: array<Edge>, c: int)
      requires 0 <= c < es.Length
      modifies es
      ensures es[..c + 1] == InsertByWeight(old(es[..c]), old(es[c]))
      ensures es[c + 1..] == old(es[c + 1..])
    {
      ghost var s := es[..c];
      var key := es[c];
      var b := c - 1;
      while b >= 0 && es[b].weight > key.weight
        invariant -1 <= b < c
        invariant forall t :: 0 <= t <= b ==> es[t] == s[t]
        invariant forall t :: b + 2 <= t <= c ==> es[t] == s[t - 1]
        invariant forall t :: b + 1 <= t < c ==> s[t].weight > key.weight
        invariant forall t :: c < t < es.Length ==> es[t] == old(es[t])
      {
        es[b + 1] := es[b];
        b := b - 1;
      }
      es[b + 1] := key;
      ShiftedInsert(s, key, b + 1, es[..]);
    }

    /** The insertion sort of the first k collected edges, in place. */
    static method InsertionSort(es: array<Edge>, k: int)
      requires 0 <= k <= es.Length
      modifies es
      ensures es[..k] == SortByWeight(old(es[..k]))
      ensures es[k..] == old(es[k..])
    {
      ghost var input := es[..k];
      if k == 0 {
        return;
      }
      assert input[..1] == [input[0]];
      var c := 1;
      while c < k
        invariant 1 <= c <= k
        invariant es[..c] == SortByWeight(input[..c])
        invariant es[c..] == old(es[c..])
      {
        ghost var before := es[..];
        assert before[c] == es[c..][0] == input[c];
        InsertKey(es, c);
        SortedPrefixGrows(input, c, before, es[..]);
        assert es[c + 1..] == before[c..][1..] == old(es[c..])[1..];
        c := c + 1;
      }
      assert input[..k] == input;
    }

    /** One turn of Kruskal's loop on edge e: find both endpoints, then
        set_union when their representatives differ. The new state is Step
        of the old one. */
    static method Examine(sets: DisjointSets, e: Edge) returns (joined: bool)
      requires sets.Valid() && 0 <= e.v1 < sets.arraySize && 0 <= e.v2 < sets.arraySize
      modifies sets`maxHeight, sets`numDisjointSets, sets.parent, sets.treeHeight
      ensures sets.Valid() && sets.arraySize == old(sets.arraySize)
      ensures sets.parent == old(sets.parent) && sets.treeHeight == old(sets.treeHeight)
      ensures joined <==> Root(old(sets.State()), e.v1) != Root(old(sets.State()), e.v2)
      ensures sets.State() == Step(old(sets.State()), e)
    {
      ghost var s := sets.State();
      var r1 := sets.Find(e.v1);
      var r2 := sets.Find(e.v2);
      joined := r1 != r2;
      if joined {
        sets.SetUnion(e.v1, e.v2);
      }
    }

    /** One turn of Kruskal's loop on edges[i], weighing the edge in when it
        joins two sets. The loop is on track before; after it, it has either
        stopped with one set left, or is on track at position i + 1. */
    static method Turn(sets: DisjointSets, e: Edge, count: real,
                       ghost goal: Run, ghost edges: seq<Edge>, ghost i: int, ghost tree: seq<Edge>)
      returns (count': real, ghost tree': seq<Edge>)
      requires sets.Valid() && OnTrack(goal, edges, i, tree, sets.State())
      requires 0 <= i < |edges| && e == edges[i] && count == WeightOf(tree)
      modifies sets`maxHeight, sets`numDisjointSets, sets.parent, sets.treeHeight
      ensures sets.Valid() && sets.arraySize == old(sets.arraySize)
      ensures sets.parent == old(sets.parent) && sets.treeHeight == old(sets.treeHeight)
      ensures count' == WeightOf(tree')
      ensures sets.numDisjointSets == 1 ==> goal == Run(i + 1, tree', sets.State())
      ensures sets.numDisjointSets != 1 ==> OnTrack(goal, edges, i + 1, tree', sets.State())
    {
      ghost var s := sets.State();
      OnTrackEdge(goal, edges, i, tree, s);
      var joined := Examine(sets, e);
      count' := if joined then count + e.weight else count;
      Advance(goal, edges, i, tree, s, sets.State(), joined);
      tree' := tree + Taken(s, e);
    }

    /** Kruskal's loop over the sorted edges with a fresh union-find of n
        elements: an edge whose endpoints lie in different sets adds its
        weight to count and joins the sets; every edge examined counts as a
        visit, and the loop stops once one set remains. */
    static method Consumption(edges: seq<Edge>, n: int) returns (count: real, visits: int)
      requires EdgesWithin(edges, Max(1, n))
      ensures (count, visits) == SpanningTree(edges, Max(1, n))
    {
      var sets := new DisjointSets(n);
      ghost var size := Max(1, n);
      ghost var goal := KruskalRun(edges, size);
      OnTrackStart(edges, size);
      ghost var tree: seq<Edge> := [];
      count, visits := 0.0, 0;
      var i := 0;
      while i < |edges|
        invariant visits == i
        invariant sets.Valid() && sets.arraySize == size
        invariant fresh(sets.parent) && fresh(sets.treeHeight)
        invariant count == WeightOf(tree)
        invariant OnTrack(goal, edges, i, tree, sets.State())
      {
        count, tree := Turn(sets, edges[i], count, goal, edges, i, tree);
        visits := visits + 1;
        if sets.DisjointSetCount() == 1 {
          ResumeDone(goal, edges, size, visits, count);
          return;
        }
        i := i + 1;
      }
      OnTrackEnd(goal, edges, tree, sets.State());
      ResumeDone(goal, edges, size, visits, count);
    }

    /** minimum_spanning_tree(): collect the upper-triangle edges, sort the
        first verticesTotal of them by weight, and run Kruskal's loop over
        those on capacity max(1, maxVert). The source runs both loops up to
        verticesTotal, so the result is defined only when verticesTotal does
        not exceed the number of edges collected. */
    method MinimumSpanningTree() returns (count: real, visits: int)
      requires Valid()
      requires verticesTotal <= |UpperEdges(Grid(), maxVert)|
      ensures var es := UpperEdges(Grid(), maxVert)[..Max(0, verticesTotal)];
        EdgesWithin(SortByWeight(es), Max(1, maxVert))
        && (count, visits) == SpanningTree(SortByWeight(es), Max(1, maxVert))
    {
      var es, a := CollectEdges();
      var k := Max(0, verticesTotal);
      ghost var collected := UpperEdges(Grid(), maxVert);
      assert es[..k] == collected[..k];
      InsertionSort(es, k);
      assert es[..k] == SortByWeight(collected[..k]);
      SortedEdgesWithin(Grid(), maxVert, k);
      count, visits := Consumption(es[..k], maxVert);
    }
  }
}
