/** Data_structures::Disjoint_sets: a union-find structure over the elements
    0 .. size-1 with union by rank (tree heights) and path compression.

    The first half of the module describes the structure as a value (a
    Snapshot of its four fields) and proves what find, set_union and clear do
    to that value; the class DisjointSets below updates real arrays in place
    and is proved to follow those functions exactly. */
module DataStructures {
  import opened Sets

  function Max(a: int, b: int): int
  {
    if a >= b then a else b
  }

  /** The state of a Disjoint_sets object: the parent and tree_height arrays,
      max_height and num_disjoint_sets. */
  datatype Snapshot = Snapshot(parent: seq<int>, height: seq<int>, maxHeight: int, count: int)

  /** The shape invariant: every element's link is sound (LinkOk), so the
      parent links form a forest and following them terminates. */
  ghost predicate Forest(s: Snapshot)
  {
    && |s.height| == |s.parent|
    && forall i :: 0 <= i < |s.parent| ==> LinkOk(s, i)
  }

  /** The link of element i stays in range, its height lies in
      [0, maxHeight], and a child is strictly lower than its parent. */
  ghost predicate LinkOk(s: Snapshot, i: int)
    requires 0 <= i < |s.parent| && |s.height| == |s.parent|
  {
    && 0 <= s.parent[i] < |s.parent|
    && 0 <= s.height[i] <= s.maxHeight
    && (s.parent[i] != i ==> s.height[i] < s.height[s.parent[i]])
  }

  /** The representative of x: the root reached by following parent links. */
  ghost function Root(s: Snapshot, x: int): (r: int)
    requires Forest(s) && 0 <= x < |s.parent|
    ensures 0 <= r < |s.parent| && s.parent[r] == r
    ensures s.height[x] <= s.height[r]
    ensures r == x <==> s.parent[x] == x
    decreases s.maxHeight - s.height[x]
  {
    assert LinkOk(s, x);
    if s.parent[x] == x then x else Root(s, s.parent[x])
  }

  /** The roots, one per disjoint set. */
  ghost function Roots(p: seq<int>): set<int>
  {
    set i | 0 <= i < |p| && p[i] == i
  }

  /** Two facts the counters rely on: a root of positive height still has a
      child (heights only grow when an equally tall tree is attached, and
      compression never takes a child away from a root), and maxHeight is 0
      or the height of some element. */
  ghost predicate HeightsWitnessed(s: Snapshot)
  {
    && |s.height| == |s.parent|
    && (forall x :: 0 <= x < |s.parent| ==> TallRootHasChild(s, x))
    && (s.maxHeight == 0 || exists x :: 0 <= x < |s.height| && s.height[x] == s.maxHeight)
  }

  /** If x is a root of positive height, some other element links to it. */
  ghost predicate TallRootHasChild(s: Snapshot, x: int)
    requires 0 <= x < |s.parent| && |s.height| == |s.parent|
  {
    s.parent[x] == x && s.height[x] > 0 ==> exists c :: 0 <= c < |s.parent| && c != x && s.parent[c] == x
  }

  /** The object invariant: a non-empty forest whose count is its number of
      roots. */
  ghost predicate Invariant(s: Snapshot)
  {
    && |s.parent| >= 1
    && Forest(s)
    && HeightsWitnessed(s)
    && s.count == |Roots(s.parent)|
  }

  /** Every element its own root, every height 0. */
  function Initial(n: nat): Snapshot
  {
    Snapshot(seq(n, i => i), seq(n, i => 0), 0, n)
  }

  lemma InitialInvariant(n: nat)
    requires n >= 1
    ensures Invariant(Initial(n))
  {
    var s := Initial(n);
    forall i | 0 <= i < n ensures LinkOk(s, i) && TallRootHasChild(s, i) { }
    assert Roots(s.parent) == Range(n);
  }

  /***************************************************************************
   * find: path compression
   ***************************************************************************/

  /** The state find(x) leaves behind: the recursive call compresses the path
      above x, then x itself is pointed at the root. Only parent changes; each
      element either keeps its link or now links straight to its root, and
      every element keeps its root. */
  ghost function Compress(s: Snapshot, x: int): (t: Snapshot)
    requires Forest(s) && 0 <= x < |s.parent|
    ensures t.height == s.height && t.maxHeight == s.maxHeight && t.count == s.count
    ensures |t.parent| == |s.parent| && Forest(t)
    ensures t.parent[x] == Root(s, x)
    ensures forall y :: 0 <= y < |s.parent| ==> t.parent[y] == s.parent[y] || t.parent[y] == Root(s, y)
    ensures forall y :: 0 <= y < |s.parent| ==> Root(t, y) == Root(s, y)
    decreases s.maxHeight - s.height[x]
  {
    assert LinkOk(s, x);
    if s.parent[x] == x then s
    else
      var t := Compress(s, s.parent[x]);
      RedirectToRoot(t, x);
      t.(parent := t.parent[x := Root(t, x)])
  }

  /** Pointing one element straight at its root keeps the forest and every
      element's root. */
  lemma RedirectToRoot(t: Snapshot, x: int)
    requires Forest(t) && 0 <= x < |t.parent|
    ensures Forest(t.(parent := t.parent[x := Root(t, x)]))
    ensures forall y :: 0 <= y < |t.parent| ==>
      Root(t.(parent := t.parent[x := Root(t, x)]), y) == Root(t, y)
  {
    var r := Root(t, x);
    var u := t.(parent := t.parent[x := r]);
    forall i | 0 <= i < |u.parent|
      ensures LinkOk(u, i)
    {
      assert LinkOk(t, i);
      if i == x && t.parent[x] != x {
        assert Root(t, x) == Root(t, t.parent[x]);
      }
    }
    forall y | 0 <= y < |t.parent|
      ensures Root(u, y) == Root(t, y)
    {
      RedirectKeepsRoot(t, u, x, y);
    }
  }

  lemma {:induction false} RedirectKeepsRoot(t: Snapshot, u: Snapshot, x: int, y: int)
    requires Forest(t) && 0 <= x < |t.parent| && 0 <= y < |t.parent|
    requires u.height == t.height && u.maxHeight == t.maxHeight
    requires u.parent == t.parent[x := Root(t, x)] && Forest(u)
    ensures Root(u, y) == Root(t, y)
    decreases t.maxHeight - t.height[y]
  {
    var r := Root(t, x);
    assert LinkOk(t, y);
    if y == x {
      if t.parent[x] != x {
        assert u.parent[x] == r && u.parent[r] == r;
        assert Root(u, x) == Root(u, r) == r;
      }
    } else if t.parent[y] != y {
      var z := t.parent[y];
      assert u.parent[y] == z;
      assert Root(t, y) == Root(t, z);
      assert Root(u, y) == Root(u, z);
      RedirectKeepsRoot(t, u, x, z);
    }
  }

  /** The two finds of one Kruskal test can run in either order: each sees
      the root it would have seen first, and both orders leave every element
      with the same root. */
  lemma FindOrderIrrelevant(s: Snapshot, a: int, b: int)
    requires Forest(s) && 0 <= a < |s.parent| && 0 <= b < |s.parent|
    ensures Root(Compress(s, a), b) == Root(s, b)
    ensures Root(Compress(s, b), a) == Root(s, a)
    ensures forall y :: 0 <= y < |s.parent| ==>
      Root(Compress(Compress(s, a), b), y) == Root(Compress(Compress(s, b), a), y)
  {
  }

  /** Compression keeps the whole invariant: the roots, and hence the count,
      are those of the old state, and every root keeps its children. */
  lemma CompressKeepsInvariant(s: Snapshot, x: int)
    requires Invariant(s) && 0 <= x < |s.parent|
    ensures Invariant(Compress(s, x))
    ensures Roots(Compress(s, x).parent) == Roots(s.parent)
  {
    var t := Compress(s, x);
    forall y | 0 <= y < |s.parent|
      ensures t.parent[y] == y <==> s.parent[y] == y
    {
      if s.parent[y] != y {
        assert Root(s, y) != y;
      }
    }
    assert Roots(t.parent) == Roots(s.parent);
    forall r | 0 <= r < |t.parent|
      ensures TallRootHasChild(t, r)
    {
      if t.parent[r] == r && t.height[r] > 0 {
        assert TallRootHasChild(s, r);
        var c :| 0 <= c < |s.parent| && c != r && s.parent[c] == r;
        assert Root(s, c) == Root(s, r) == r;
        assert t.parent[c] == r;
      }
    }
  }

  /** A second find(x) right after the first changes nothing more, and both
      report the same representative. */
  lemma {:induction false} CompressIdempotent(s: Snapshot, x: int)
    requires Forest(s) && 0 <= x < |s.parent|
    ensures Compress(Compress(s, x), x) == Compress(s, x)
    ensures Root(Compress(s, x), x) == Root(s, x)
  {
    var t := Compress(s, x);
    if t.parent[x] != x {
      var r := t.parent[x];
      assert r == Root(s, x);
      assert t.parent[r] == r;
      assert Compress(t, r) == t;
      assert t.parent[x := Root(t, x)] == t.parent;
    }
  }

  /***************************************************************************
   * set_union: union by rank
   ***************************************************************************/

  /** Attach the shorter of two distinct roots below the taller; on equal
      heights b goes below a, a grows by one and maxHeight follows. */
  ghost function Link(s: Snapshot, a: int, b: int): Snapshot
    requires Forest(s) && 0 <= a < |s.parent| && 0 <= b < |s.parent|
  {
    var ha, hb := s.height[a], s.height[b];
    Snapshot(
      if ha >= hb then s.parent[b := a] else s.parent[a := b],
      if ha == hb then s.height[a := ha + 1] else s.height,
      if ha == hb then Max(s.maxHeight, ha + 1) else s.maxHeight,
      s.count - 1)
  }

  /** The root that survives a union of the trees rooted at a and b. */
  function Survivor(h: seq<int>, a: int, b: int): int
    requires 0 <= a < |h| && 0 <= b < |h|
  {
    if h[a] >= h[b] then a else b
  }

  /** The state set_union(m, n) leaves behind: find(m), then find(n), then a
      link of the two roots when they differ. */
  ghost function Union(s: Snapshot, m: int, n: int): Snapshot
    requires Forest(s) && 0 <= m < |s.parent| && 0 <= n < |s.parent|
  {
    var t := Compress(Compress(s, m), n);
    var a, b := Root(s, m), Root(s, n);
    if a == b then t else Link(t, a, b)
  }

  lemma LinkKeepsInvariant(s: Snapshot, a: int, b: int)
    requires Invariant(s) && 0 <= a < |s.parent| && 0 <= b < |s.parent|
    requires a != b && s.parent[a] == a && s.parent[b] == b
    ensures Invariant(Link(s, a, b))
    ensures Roots(Link(s, a, b).parent) == Roots(s.parent) - {if s.height[a] >= s.height[b] then b else a}
  {
    var t := Link(s, a, b);
    var w := Survivor(s.height, a, b);
    var loser := if w == a then b else a;
    assert t.parent == s.parent[loser := w];
    forall i | 0 <= i < |t.parent|
      ensures LinkOk(t, i)
    {
      assert LinkOk(s, i);
      if i != loser && s.parent[i] != i {
        assert i != a && i != b;
        assert LinkOk(s, s.parent[i]);
      }
    }
    assert Roots(t.parent) == Roots(s.parent) - {loser};
    forall x | 0 <= x < |t.parent|
      ensures TallRootHasChild(t, x)
    {
      if t.parent[x] == x && t.height[x] > 0 {
        if x == w && s.height[a] == s.height[b] {
          assert t.parent[loser] == x;
        } else {
          assert s.parent[x] == x && s.height[x] > 0;
          assert TallRootHasChild(s, x);
          var c :| 0 <= c < |s.parent| && c != x && s.parent[c] == x;
          assert c != loser;
          assert t.parent[c] == x;
        }
      }
    }
    if t.maxHeight != 0 && t.maxHeight != t.height[w] {
      var x :| 0 <= x < |s.height| && s.height[x] == s.maxHeight;
      assert t.height[x] == t.maxHeight;
    }
  }

  /** After a link every element whose root was a or b has the survivor as
      its root, and every other element keeps its root. */
  lemma {:induction false} LinkMovesRoot(s: Snapshot, a: int, b: int, y: int)
    requires Forest(s) && 0 <= a < |s.parent| && 0 <= b < |s.parent|
    requires a != b && s.parent[a] == a && s.parent[b] == b
    requires Forest(Link(s, a, b)) && 0 <= y < |s.parent|
    ensures Root(Link(s, a, b), y) ==
      if Root(s, y) == a || Root(s, y) == b then Survivor(s.height, a, b) else Root(s, y)
    decreases s.maxHeight - s.height[y]
  {
    var t := Link(s, a, b);
    var w := Survivor(s.height, a, b);
    var loser := if w == a then b else a;
    assert LinkOk(s, y);
    if y == loser {
      assert t.parent[y] == w && t.parent[w] == w;
      assert Root(t, y) == Root(t, w) == w;
    } else if s.parent[y] != y {
      var z := s.parent[y];
      assert t.parent[y] == z;
      assert Root(s, y) == Root(s, z);
      assert Root(t, y) == Root(t, z);
      LinkMovesRoot(s, a, b, z);
    }
  }

  /** The union of two elements of the same set leaves the count, the
      heights, the roots and every representative as they were. */
  lemma UnionSameSet(s: Snapshot, m: int, n: int)
    requires Invariant(s) && 0 <= m < |s.parent| && 0 <= n < |s.parent|
    requires Root(s, m) == Root(s, n)
    ensures Invariant(Union(s, m, n))
    ensures Union(s, m, n).count == s.count
    ensures Union(s, m, n).height == s.height && Union(s, m, n).maxHeight == s.maxHeight
    ensures Roots(Union(s, m, n).parent) == Roots(s.parent)
    ensures forall y :: 0 <= y < |s.parent| ==> Root(Union(s, m, n), y) == Root(s, y)
  {
    CompressKeepsInvariant(s, m);
    CompressKeepsInvariant(Compress(s, m), n);
  }

  /** The union of two elements of different sets keeps the invariant and
      lowers the count by one. */
  lemma UnionKeepsInvariant(s: Snapshot, m: int, n: int)
    requires Invariant(s) && 0 <= m < |s.parent| && 0 <= n < |s.parent|
    requires Root(s, m) != Root(s, n)
    ensures Invariant(Union(s, m, n))
    ensures Union(s, m, n).count == s.count - 1
  {
    var a, b := Root(s, m), Root(s, n);
    var s1 := Compress(s, m);
    CompressKeepsInvariant(s, m);
    var t := Compress(s1, n);
    CompressKeepsInvariant(s1, n);
    assert a in Roots(s.parent) && b in Roots(s.parent);
    LinkKeepsInvariant(t, a, b);
  }

  /** The union of two elements of different sets joins exactly those two
      sets under the survivor of union by rank, the count drops by one, and
      afterwards m and n have the same representative. */
  lemma UnionDifferentSets(s: Snapshot, m: int, n: int)
    requires Invariant(s) && 0 <= m < |s.parent| && 0 <= n < |s.parent|
    requires Root(s, m) != Root(s, n)
    ensures Invariant(Union(s, m, n))
    ensures Union(s, m, n).count == s.count - 1
    ensures var a, b := Root(s, m), Root(s, n);
      forall y :: 0 <= y < |s.parent| ==>
        Root(Union(s, m, n), y) ==
          if Root(s, y) == a || Root(s, y) == b then Survivor(s.height, a, b) else Root(s, y)
    ensures Root(Union(s, m, n), m) == Root(Union(s, m, n), n)
  {
    var a, b := Root(s, m), Root(s, n);
    var s1 := Compress(s, m);
    CompressKeepsInvariant(s, m);
    var t := Compress(s1, n);
    CompressKeepsInvariant(s1, n);
    UnionKeepsInvariant(s, m, n);
    forall y | 0 <= y < |s.parent|
      ensures Root(Link(t, a, b), y) ==
        if Root(s, y) == a || Root(s, y) == b then Survivor(s.height, a, b) else Root(s, y)
    {
      LinkMovesRoot(t, a, b, y);
    }
  }

  /** Union by rank: the taller root survives; on a tie the root of the first
      argument survives, grows by exactly one, and maxHeight becomes the
      larger of its old value and that height. No other height changes. */
  lemma UnionByRank(s: Snapshot, m: int, n: int)
    requires Invariant(s) && 0 <= m < |s.parent| && 0 <= n < |s.parent|
    requires Root(s, m) != Root(s, n)
    ensures var a, b := Root(s, m), Root(s, n);
      var u := Union(s, m, n);
      && (s.height[a] > s.height[b] ==> u.parent[b] == a && u.height == s.height && u.maxHeight == s.maxHeight)
      && (s.height[a] < s.height[b] ==> u.parent[a] == b && u.height == s.height && u.maxHeight == s.maxHeight)
      && (s.height[a] == s.height[b] ==>
            && u.parent[b] == a
            && u.height == s.height[a := s.height[a] + 1]
            && u.maxHeight == Max(s.maxHeight, s.height[a] + 1))
  {
    CompressKeepsInvariant(s, m);
    CompressKeepsInvariant(Compress(s, m), n);
  }

  /***************************************************************************
   * clear
   ***************************************************************************/

  /** clear() skips its work when the count already equals the size. */
  ghost function Cleared(s: Snapshot): Snapshot
  {
    if s.count == |s.parent| then s else Initial(|s.parent|)
  }

  /** A structure with as many sets as elements is all singletons of height
      0 with maxHeight 0, so the early return in clear() is sound: either
      way the result is the initial state. */
  lemma ClearGivesInitial(s: Snapshot)
    requires Invariant(s)
    ensures Cleared(s) == Initial(|s.parent|)
  {
    var n := |s.parent|;
    if s.count == n {
      assert Roots(s.parent) <= Range(n);
      SubsetOfSameSize(Roots(s.parent), Range(n));
      forall c | 0 <= c < n
        ensures s.parent[c] == c
      {
        assert c in Range(n);
      }
      forall x | 0 <= x < n
        ensures s.height[x] == 0
      {
        assert LinkOk(s, x) && TallRootHasChild(s, x);
      }
      assert s.parent == Initial(n).parent;
      assert s.height == Initial(n).height;
    }
  }

  /***************************************************************************
   * is_singleton, height and disjoint_sets
   ***************************************************************************/

  /** x is a root of height 0 exactly when no other element shares its
      representative. */
  lemma SingletonIsAlone(s: Snapshot, x: int)
    requires Invariant(s) && 0 <= x < |s.parent|
    ensures (s.parent[x] == x && s.height[x] == 0) <==>
            (forall y :: 0 <= y < |s.parent| ==> (Root(s, y) == Root(s, x) <==> y == x))
  {
    assert LinkOk(s, x);
    if s.parent[x] == x && s.height[x] == 0 {
      LoneRoot(s, x);
    } else {
      var y := Companion(s, x);
      assert Root(s, y) == Root(s, x);
    }
  }

  /** An element that is not a root of height 0 shares its set with some
      other element: its root, or a child of it. */
  lemma Companion(s: Snapshot, x: int) returns (y: int)
    requires Invariant(s) && 0 <= x < |s.parent|
    requires s.parent[x] != x || s.height[x] != 0
    ensures 0 <= y < |s.parent| && y != x && Root(s, y) == Root(s, x)
  {
    assert LinkOk(s, x);
    if s.parent[x] != x {
      y := Root(s, x);
      assert Root(s, y) == y;
    } else {
      assert TallRootHasChild(s, x);
      var c :| 0 <= c < |s.parent| && c != x && s.parent[c] == x;
      assert LinkOk(s, c);
      assert Root(s, c) == Root(s, x);
      y := c;
    }
  }

  /** A root of height 0 is nobody's ancestor but its own. */
  lemma LoneRoot(s: Snapshot, x: int)
    requires Invariant(s) && 0 <= x < |s.parent|
    requires s.parent[x] == x && s.height[x] == 0
    ensures forall y :: 0 <= y < |s.parent| && y != x ==> Root(s, y) != x
  {
    forall y | 0 <= y < |s.parent| && y != x
      ensures Root(s, y) != x
    {
      assert LinkOk(s, y);
      if s.parent[y] != y {
        assert LinkOk(s, s.parent[y]);
        assert Root(s, y) == Root(s, s.parent[y]);
      }
    }
  }

  /** The distinct representatives, one per disjoint set. */
  ghost function Representatives(s: Snapshot): set<int>
    requires Forest(s)
  {
    set y | 0 <= y < |s.parent| :: Root(s, y)
  }

  /** The count is the number of distinct representatives, between 1 and
      the number of elements. */
  lemma CountIsNumberOfSets(s: Snapshot)
    requires Invariant(s)
    ensures s.count == |Representatives(s)|
    ensures 1 <= s.count <= |s.parent|
  {
    var reps := Representatives(s);
    forall r | r in Roots(s.parent) ensures r in reps {
      assert Root(s, r) == r;
    }
    assert reps == Roots(s.parent);
    assert Root(s, 0) in Roots(s.parent);
    assert Roots(s.parent) <= Range(|s.parent|);
    SubsetSize(Roots(s.parent), Range(|s.parent|));
  }

  /***************************************************************************
   * The class
   ***************************************************************************/

  class DisjointSets {
    var arraySize: int
    var parent: array<int>
    var treeHeight: array<int>
    var maxHeight: int
    var numDisjointSets: int

    /** The abstract value of the object. */
    ghost function State(): Snapshot
      reads this, parent, treeHeight
    {
      Snapshot(parent[..], treeHeight[..], maxHeight, numDisjointSets)
    }

    ghost predicate Valid()
      reads this, parent, treeHeight
    {
      && parent.Length == arraySize
      && treeHeight.Length == arraySize
      && parent != treeHeight
      && Invariant(State())
    }

    /** The representative of x, as find(x) would report it. */
    ghost function RootOf(x: int): int
      reads this, parent, treeHeight
      requires Valid() && 0 <= x < arraySize
    {
      Root(State(), x)
    }

    /** Disjoint_sets(n): max(1, n) singletons. */
    constructor (n: int)
      ensures Valid() && fresh(parent) && fresh(treeHeight)
      ensures arraySize == Max(1, n) && State() == Initial(arraySize)
    {
      var size := Max(1, n);
      var p := new int[size];
      var h := new int[size];
      for i := 0 to size
        invariant forall k :: 0 <= k < i ==> p[k] == k && h[k] == 0
      {
        p[i] := i;
        h[i] := 0;
      }
      assert p[..] == Initial(size).parent;
      assert h[..] == Initial(size).height;
      arraySize := size;
      parent := p;
      treeHeight := h;
      maxHeight := 0;
      numDisjointSets := size;
      InitialInvariant(size);
    }

    /** The copy constructor: a deep copy into fresh arrays. */
    constructor Copy(other: DisjointSets)
      requires other.Valid()
      ensures Valid() && fresh(parent) && fresh(treeHeight)
      ensures arraySize == other.arraySize && State() == other.State()
    {
      var p, h := CopyArrays(other);
      arraySize := other.arraySize;
      parent := p;
      treeHeight := h;
      maxHeight := other.maxHeight;
      numDisjointSets := other.numDisjointSets;
    }

    /** operator=: a deep copy of other, or nothing on self-assignment. */
    method Assign(other: DisjointSets)
      requires Valid() && other.Valid()
      modifies this
      ensures Valid()
      ensures arraySize == old(other.arraySize) && State() == old(other.State())
      ensures other != this ==> fresh(parent) && fresh(treeHeight)
      ensures other == this ==> parent == old(parent) && treeHeight == old(treeHeight)
    {
      if this == other {
        return;
      }
      var p, h := CopyArrays(other);
      arraySize := other.arraySize;
      parent := p;
      treeHeight := h;
      maxHeight := other.maxHeight;
      numDisjointSets := other.numDisjointSets;
    }

    /** The element-by-element copy shared by the copy constructor and
        operator=. */
    static method CopyArrays(other: DisjointSets) returns (p: array<int>, h: array<int>)
      requires other.Valid()
      ensures fresh(p) && fresh(h) && p != h
      ensures p[..] == other.parent[..] && h[..] == other.treeHeight[..]
    {
      var size := other.arraySize;
      p := new int[size];
      h := new int[size];
      for i := 0 to size
        invariant forall k :: 0 <= k < i ==> p[k] == other.parent[k] && h[k] == other.treeHeight[k]
      {
        p[i] := other.parent[i];
        h[i] := other.treeHeight[i];
      }
      assert p[..] == other.parent[..];
      assert h[..] == other.treeHeight[..];
    }

    /** find(x): the representative of x, compressing the path from x to it. */
    method Find(x: int) returns (r: int)
      requires Valid() && 0 <= x < arraySize
      modifies parent
      ensures Valid()
      ensures r == old(RootOf(x))
      ensures State() == Compress(old(State()), x)
      decreases maxHeight - treeHeight[x]
    {
      ghost var s := State();
      assert LinkOk(s, x);
      if parent[x] == x {
        r := x;
      } else {
        var up := Find(parent[x]);
        parent[x] := up;
        r := parent[x];
        assert parent[..] == Compress(s, x).parent;
        CompressKeepsInvariant(s, x);
      }
    }

    /** is_singleton(x): x shares its set with no other element. */
    function IsSingleton(x: int): (b: bool)
      reads this, parent, treeHeight
      requires Valid() && 0 <= x < arraySize
      ensures b <==> forall y :: 0 <= y < arraySize ==> (Root(State(), y) == Root(State(), x) <==> y == x)
    {
      SingletonIsAlone(State(), x);
      parent[x] == x && treeHeight[x] == 0
    }

    /** height(): the greatest tree height reached so far. */
    function Height(): (h: int)
      reads this, parent, treeHeight
      requires Valid()
      ensures forall i :: 0 <= i < arraySize ==> 0 <= treeHeight[i] <= h
      ensures h == 0 || exists i :: 0 <= i < arraySize && treeHeight[i] == h
    {
      assert forall i :: 0 <= i < arraySize ==> LinkOk(State(), i) && State().height[i] == treeHeight[i];
      maxHeight
    }

    /** disjoint_sets(): the number of distinct representatives. */
    function DisjointSetCount(): (k: int)
      reads this, parent, treeHeight
      requires Valid()
      ensures k == |Representatives(State())|
      ensures 1 <= k <= arraySize
    {
      CountIsNumberOfSets(State());
      numDisjointSets
    }

    /** set_union(m, n): join the sets of m and n by rank. */
    method SetUnion(m: int, n: int)
      requires Valid() && 0 <= m < arraySize && 0 <= n < arraySize
      modifies this`maxHeight, this`numDisjointSets, parent, treeHeight
      ensures Valid()
      ensures State() == Union(old(State()), m, n)
    {
      ghost var s := State();
      var a := Find(m);
      var b := Find(n);
      ghost var t := State();
      assert a == Root(s, m) && b == Root(s, n);
      assert t == Compress(Compress(s, m), n);
      if a == b {
        return;
      }
      UnionKeepsInvariant(s, m, n);
      LinkRoots(a, b);
    }

    /** The grafting half of set_union on two distinct roots: one fewer
        set, the shorter tree below the taller, and on a tie b below a with
        a one taller. */
    method LinkRoots(a: int, b: int)
      requires parent.Length == arraySize && treeHeight.Length == arraySize && parent != treeHeight
      requires Forest(State()) && 0 <= a < arraySize && 0 <= b < arraySize
      modifies this`maxHeight, this`numDisjointSets, parent, treeHeight
      ensures State() == Link(old(State()), a, b)
    {
      ghost var u := Link(State(), a, b);
      numDisjointSets := numDisjointSets - 1;
      if treeHeight[a] >= treeHeight[b] {
        parent[b] := a;
        if treeHeight[a] == treeHeight[b] {
          treeHeight[a] := treeHeight[a] + 1;
          maxHeight := Max(maxHeight, treeHeight[a]);
        }
      } else {
        parent[a] := b;
      }
      assert parent[..] == u.parent && treeHeight[..] == u.height;
    }

    /** clear(): back to singletons, skipped when the count already says so. */
    method Clear()
      requires Valid()
      modifies this`maxHeight, this`numDisjointSets, parent, treeHeight
      ensures Valid()
      ensures State() == Cleared(old(State()))
      ensures State() == Initial(arraySize)
    {
      ClearGivesInitial(State());
      if numDisjointSets == arraySize {
        return;
      }
      maxHeight := 0;
      numDisjointSets := arraySize;
      for i := 0 to arraySize
        invariant maxHeight == 0 && numDisjointSets == arraySize
        invariant forall k :: 0 <= k < i ==> parent[k] == k && treeHeight[k] == 0
      {
        parent[i] := i;
        treeHeight[i] := 0;
      }
      assert parent[..] == Initial(arraySize).parent;
      assert treeHeight[..] == Initial(arraySize).height;
      InitialInvariant(arraySize);
    }
  }
}
