/** The quadtree of terrain chunks as data: its shape, which nodes are split, and which
    hold a mesh. The functions say what a call asks for; the lemmas say what the tree
    keeps. Nodes are named by their index in the pool, and -1 stands for no node. */
module ChunkModel {
  datatype Shape = Shape(
    parent: seq<int>,
    children: seq<seq<int>>,
    neighbour: seq<seq<int>>,
    depth: seq<nat>,
    height: nat)
  {
    predicate IsNode(n: int) { 0 <= n < |parent| }

    predicate HasChildren(n: int)
      requires Ok() && IsNode(n)
    {
      children[n] != []
    }

    /** A tree with root 0 in which every inner node has four children, and every neighbour
        is at most one level deeper. */
    ghost predicate Ok()
      ensures Ok() ==> 0 < |parent| == |children| == |neighbour| == |depth|
      ensures Ok() ==> forall n :: 0 <= n < |parent| ==> -1 <= parent[n] < |parent| && |neighbour[n]| == 4
    {
      && 0 < |parent| == |children| == |neighbour| == |depth|
      && parent[0] == -1 && depth[0] == 0
      && (forall n :: 0 <= n < |parent| ==> NodeOk(n) && -1 <= parent[n] < |parent| && |neighbour[n]| == 4)
    }

    ghost predicate NodeOk(n: int)
      requires 0 <= n < |parent| == |children| == |neighbour| == |depth|
    {
      && depth[n] <= height
      && (n > 0 ==> 0 <= parent[n] < |parent| && depth[n] == depth[parent[n]] + 1 && n in children[parent[n]])
      && (children[n] == [] || |children[n]| == 4)
      && (forall j :: 0 <= j < |children[n]| ==> 0 < children[n][j] < |parent| && parent[children[n][j]] == n)
      && (forall i, j :: 0 <= i < j < |children[n]| ==> children[n][i] != children[n][j])
      && |neighbour[n]| == 4
      && (forall j :: 0 <= j < 4 ==>
           neighbour[n][j] == -1 || (0 <= neighbour[n][j] < |parent| && depth[neighbour[n][j]] <= depth[n] + 1))
    }

    lemma NodeIsOk(n: int)
      requires Ok() && IsNode(n)
      ensures NodeOk(n)
    {
    }

    /** The parent of a child, seen from the child or from the parent. */
    lemma Family(n: int, c: int)
      requires Ok() && IsNode(n)
      ensures c in children[n] <==> IsNode(c) && c > 0 && parent[c] == n
      ensures c in children[n] ==> depth[c] == depth[n] + 1
      ensures n > 0 ==> IsNode(parent[n]) && n in children[parent[n]]
    {
      NodeIsOk(n);
      if IsNode(c) {
        NodeIsOk(c);
      }
    }

    /** The node two levels up, or -1. */
    function TwoUp(n: int): (m: int)
      requires Ok() && -1 <= n < |parent|
      ensures -1 <= m < |parent|
    {
      if n == -1 then -1 else if parent[n] == -1 then -1 else parent[parent[n]]
    }

    lemma TwoUpIsHigher(n: int, j: int)
      requires Ok() && IsNode(n) && 0 <= j < 4
      ensures -1 <= neighbour[n][j] < |parent|
      ensures var m := TwoUp(neighbour[n][j]); m != -1 ==> depth[m] < depth[n] && HasChildren(m)
    {
      NodeIsOk(n);
      var k := neighbour[n][j];
      if k != -1 {
        NodeIsOk(k);
        if parent[k] != -1 {
          NodeIsOk(parent[k]);
        }
      }
    }

    lemma ParentIsHigher(n: int)
      requires Ok() && IsNode(n)
      ensures parent[n] != -1 ==> depth[parent[n]] < depth[n] && HasChildren(parent[n])
      ensures parent[n] == -1 <==> n == 0
    {
      NodeIsOk(n);
    }
  }

  /** Which nodes are split, which hold a mesh, and the lod of every node. */
  datatype State = State(split: set<int>, mesh: set<int>, lod: seq<int>)

  // ----- what CanSplit asks for

  function Children(s: Shape, n: int): set<int>
    requires s.Ok() && s.IsNode(n)
  {
    set c | c in s.children[n]
  }

  /** The nodes whose data CanSplit requests: the children of the node, and what its
      ancestors and the nodes two levels above its neighbours ask for. */
  function Req(s: Shape, split: set<int>, n: int): (r: set<int>)
    requires s.Ok() && -1 <= n < |s.parent|
    decreases if n == -1 then 0 else s.depth[n] + 1, 0
  {
    if n == -1 || n in split || !s.HasChildren(n) then {} else
    s.ParentIsHigher(n);
    Children(s, n) + Req(s, split, s.parent[n]) + ReqOfNeighbours(s, split, n, 4)
  }

  /** The same for the first k neighbours. */
  function ReqOfNeighbours(s: Shape, split: set<int>, n: int, k: nat): (r: set<int>)
    requires s.Ok() && s.IsNode(n) && k <= 4
    decreases s.depth[n] + 1, 0, k
  {
    if k == 0 then {} else
    s.TwoUpIsHigher(n, k - 1);
    ReqOfNeighbours(s, split, n, k - 1) + Req(s, split, s.TwoUp(s.neighbour[n][k - 1]))
  }

  lemma ReqUpwards(s: Shape, split: set<int>, n: int)
    requires s.Ok() && -1 <= n < |s.parent|
    ensures n == -1 || n in split ==> Req(s, split, n) == {}
    ensures n != -1 && n !in split && s.HasChildren(n) ==> Req(s, split, s.parent[n]) <= Req(s, split, n)
  {
  }

  /** With more nodes split, less is asked for. */
  lemma {:induction false} ReqShrinks(s: Shape, split: set<int>, split': set<int>, n: int)
    requires s.Ok() && -1 <= n < |s.parent| && split <= split'
    ensures Req(s, split', n) <= Req(s, split, n)
    decreases if n == -1 then 0 else s.depth[n] + 1, 0
  {
    if n != -1 && n !in split' && s.HasChildren(n) {
      s.ParentIsHigher(n);
      ReqShrinks(s, split, split', s.parent[n]);
      NeighboursShrink(s, split, split', n, 4);
    }
  }

  lemma {:induction false} NeighboursShrink(s: Shape, split: set<int>, split': set<int>, n: int, k: nat)
    requires s.Ok() && s.IsNode(n) && k <= 4 && split <= split'
    ensures ReqOfNeighbours(s, split', n, k) <= ReqOfNeighbours(s, split, n, k)
    decreases s.depth[n] + 1, 0, k
  {
    if k > 0 {
      s.TwoUpIsHigher(n, k - 1);
      NeighboursShrink(s, split, split', n, k - 1);
      ReqShrinks(s, split, split', s.TwoUp(s.neighbour[n][k - 1]));
    }
  }

  // ----- what the tree keeps

  /** Data at a node means data at its parent. */
  ghost predicate MeshClosed(s: Shape, mesh: set<int>)
    requires s.Ok()
  {
    forall n :: n in mesh ==> s.IsNode(n) && (n > 0 ==> s.parent[n] in mesh)
  }

  /** A split node's parent is split; `but` may be the exception. */
  ghost predicate SplitClosedBut(s: Shape, split: set<int>, but: int)
    requires s.Ok()
  {
    forall n :: n in split ==> s.IsNode(n) && s.HasChildren(n) && (n > 0 ==> s.parent[n] in split || s.parent[n] == but)
  }

  ghost predicate SplitClosed(s: Shape, split: set<int>)
    requires s.Ok()
  {
    SplitClosedBut(s, split, -1)
  }

  /** The children of a split node have data. */
  ghost predicate SplitData(s: Shape, split: set<int>, mesh: set<int>)
    requires s.Ok()
  {
    forall n :: n in split ==> s.IsNode(n) && Children(s, n) <= mesh
  }

  /** The high byte of a node's lod is its depth (in eight bits, as everything here is). */
  ghost predicate LodOk(s: Shape, lod: seq<int>)
    requires s.Ok()
  {
    |lod| == |s.parent| && forall n :: 0 <= n < |lod| ==> 0 <= lod[n] < 0x1_0000 && lod[n] / 256 == s.depth[n] % 256
  }

  ghost predicate Inv(s: Shape, st: State)
    requires s.Ok()
  {
    && 0 in st.mesh && MeshClosed(s, st.mesh)
    && SplitClosed(s, st.split)
    && SplitData(s, st.split, st.mesh)
    && LodOk(s, st.lod)
  }

  // ----- requests keep the data closed

  /** Whoever asks for a node has data, or asks for the parent of the node too. */
  lemma {:induction false} ReqClosed(s: Shape, split: set<int>, mesh: set<int>, n: int)
    requires s.Ok() && -1 <= n < |s.parent| && SplitClosed(s, split) && SplitData(s, split, mesh) && 0 in mesh
    ensures forall c :: c in Req(s, split, n) ==> s.IsNode(c) && c > 0 && s.parent[c] in mesh + Req(s, split, n)
    decreases if n == -1 then 0 else s.depth[n] + 1, 0
  {
    if n != -1 && n !in split && s.HasChildren(n) {
      s.NodeIsOk(n);
      s.ParentIsHigher(n);
      ReqClosed(s, split, mesh, s.parent[n]);
      assert n in mesh + Req(s, split, s.parent[n]) by {
        if n > 0 {
          s.Family(s.parent[n], n);
          assert n in Children(s, s.parent[n]);
        }
      }
      for k := 0 to 4
        invariant forall c :: c in ReqOfNeighbours(s, split, n, k) ==>
                    s.IsNode(c) && c > 0 && s.parent[c] in mesh + ReqOfNeighbours(s, split, n, k)
      {
        s.TwoUpIsHigher(n, k);
        ReqClosed(s, split, mesh, s.TwoUp(s.neighbour[n][k]));
      }
    }
  }

  /** CanSplit keeps the data closed, whatever node it is called for. */
  lemma RequestKeepsInv(s: Shape, st: State, n: int)
    requires s.Ok() && s.IsNode(n) && Inv(s, st)
    ensures Inv(s, st.(mesh := st.mesh + Req(s, st.split, n)))
  {
    ReqClosed(s, st.split, st.mesh, n);
  }

  // ----- splitting

  /** The node and those above it, up to the first that is split already. */
  function Up(s: Shape, split: set<int>, n: int): set<int>
    requires s.Ok() && -1 <= n < |s.parent|
    decreases if n == -1 then 0 else s.depth[n] + 1
  {
    if n == -1 || n in split then {} else
    s.ParentIsHigher(n);
    {n} + Up(s, split, s.parent[n])
  }

  /** m is n or below it. */
  predicate Below(s: Shape, m: int, n: int)
    requires s.Ok() && -1 <= m < |s.parent|
    decreases if m == -1 then 0 else s.depth[m] + 1
  {
    m != -1 && (m == n || (s.ParentIsHigher(m); Below(s, s.parent[m], n)))
  }

  /** What lies below the root: everything. */
  lemma {:induction false} BelowRoot(s: Shape, m: int)
    requires s.Ok() && s.IsNode(m)
    ensures Below(s, m, 0)
    decreases s.depth[m]
  {
    s.ParentIsHigher(m);
    if m != 0 {
      BelowRoot(s, s.parent[m]);
    }
  }

  lemma {:induction false} BelowTwice(s: Shape, a: int, b: int, c: int)
    requires s.Ok() && s.IsNode(a) && s.IsNode(b) && Below(s, a, b) && Below(s, b, c)
    ensures Below(s, a, c)
    decreases s.depth[a]
  {
    if a != b {
      s.ParentIsHigher(a);
      BelowTwice(s, s.parent[a], b, c);
    }
  }

  /** Below a node is the node itself or what is below one of its children. */
  lemma {:induction false} BelowViaChild(s: Shape, m: int, n: int) returns (c: int)
    requires s.Ok() && s.IsNode(m) && s.IsNode(n) && Below(s, m, n) && m != n
    ensures c in s.children[n] && s.IsNode(c) && Below(s, m, c)
    decreases s.depth[m]
  {
    s.ParentIsHigher(m);
    if s.parent[m] == n {
      c := m;
      s.Family(n, m);
    } else {
      c := BelowViaChild(s, s.parent[m], n);
    }
  }

  lemma {:induction false} BelowIsDeeper(s: Shape, m: int, n: int)
    requires s.Ok() && s.IsNode(m) && s.IsNode(n) && Below(s, m, n)
    ensures s.depth[n] <= s.depth[m] && (m != n ==> s.depth[n] < s.depth[m])
    decreases s.depth[m]
  {
    if m != n {
      s.ParentIsHigher(m);
      BelowIsDeeper(s, s.parent[m], n);
    }
  }

  /** Split flags are closed below n: a split node below n has a split parent. */
  ghost predicate ClosedWithin(s: Shape, split: set<int>, n: int)
    requires s.Ok()
  {
    forall m :: m in split && s.IsNode(m) && m != n && Below(s, m, n) ==> s.parent[m] in split
  }

  lemma ClosedEverywhere(s: Shape, split: set<int>, n: int)
    requires s.Ok() && SplitClosed(s, split)
    ensures ClosedWithin(s, split, n)
  {
    forall m | m in split && s.IsNode(m) && m != n && Below(s, m, n)
      ensures s.parent[m] in split
    {
      s.ParentIsHigher(m);
      assert Below(s, s.parent[m], n);
    }
  }

  /** With closed split flags, nothing is split below an unsplit node. */
  lemma {:induction false} UnsplitBelow(s: Shape, split: set<int>, m: int, n: int)
    requires s.Ok() && s.IsNode(m) && ClosedWithin(s, split, n) && n !in split && Below(s, m, n)
    ensures m !in split
    decreases s.depth[m]
  {
    if m != n {
      s.ParentIsHigher(m);
      UnsplitBelow(s, split, s.parent[m], n);
    }
  }

  /** With closed data, there is no data below a node without. */
  lemma {:induction false} NoDataBelow(s: Shape, mesh: set<int>, m: int, n: int)
    requires s.Ok() && s.IsNode(m) && MeshClosed(s, mesh) && n !in mesh && Below(s, m, n)
    ensures m !in mesh
    decreases s.depth[m]
  {
    if m != n {
      s.ParentIsHigher(m);
      NoDataBelow(s, mesh, s.parent[m], n);
    }
  }

  /** The nodes of a subtree. */
  function Subtree(s: Shape, n: int): set<int>
    requires s.Ok() && s.IsNode(n)
  {
    set m | 0 <= m < |s.parent| && Below(s, m, n) :: m
  }

  /** The subtrees of the first k children. */
  function Subtrees(s: Shape, n: int, k: nat): set<int>
    requires s.Ok() && s.IsNode(n) && k <= |s.children[n]|
  {
    set j, m | 0 <= j < k && 0 <= m < |s.parent| && s.IsNode(s.children[n][j]) && Below(s, m, s.children[n][j]) :: m
  }

  lemma SubtreeSplits(s: Shape, n: int)
    requires s.Ok() && s.IsNode(n)
    ensures Subtree(s, n) == {n} + Subtrees(s, n, |s.children[n]|)
    ensures n !in Subtrees(s, n, |s.children[n]|)
  {
    forall m | m in Subtree(s, n) && m != n
      ensures m in Subtrees(s, n, |s.children[n]|)
    {
      var c := BelowViaChild(s, m, n);
      var j :| 0 <= j < |s.children[n]| && s.children[n][j] == c;
    }
    forall m | m in Subtrees(s, n, |s.children[n]|)
      ensures m in Subtree(s, n) && m != n
    {
      var j :| 0 <= j < |s.children[n]| && Below(s, m, s.children[n][j]);
      var c := s.children[n][j];
      s.Family(n, c);
      assert Below(s, c, n);
      BelowTwice(s, m, c, n);
      BelowIsDeeper(s, m, c);
    }
    assert Below(s, n, n);
  }

  lemma UnloadedClosed(s: Shape, mesh: set<int>, n: int)
    requires s.Ok() && s.IsNode(n) && MeshClosed(s, mesh)
    ensures MeshClosed(s, mesh - Subtree(s, n))
  {
    forall m | m in mesh - Subtree(s, n) && m > 0
      ensures s.parent[m] in mesh - Subtree(s, n)
    {
      s.ParentIsHigher(m);
      assert Below(s, s.parent[m], n) ==> Below(s, m, n);
    }
  }

  /** Unloading below an unsplit parent keeps everything the tree promises. */
  lemma UnloadKeepsInv(s: Shape, st: State, n: int)
    requires s.Ok() && s.IsNode(n) && n > 0 && Inv(s, st) && s.parent[n] !in st.split
    ensures Inv(s, st.(mesh := st.mesh - Subtree(s, n)))
  {
    UnloadedClosed(s, st.mesh, n);
    s.ParentIsHigher(n);
    assert !Below(s, 0, n);
    forall m, c | m in st.split && c in Children(s, m)
      ensures c !in Subtree(s, n)
    {
      s.Family(m, c);
      s.Family(s.parent[n], n);
      if Below(s, c, n) && c != n {
        BelowTwice(s, m, n, s.parent[n]);
        ClosedEverywhere(s, st.split, s.parent[n]);
        UnsplitBelow(s, st.split, m, s.parent[n]);
      }
    }
  }

  lemma ChildIsNode(s: Shape, n: int, j: int)
    requires s.Ok() && s.IsNode(n) && 0 <= j < |s.children[n]|
    ensures var c := s.children[n][j];
            && s.IsNode(c) && c > 0 && s.parent[c] == n && s.depth[c] == s.depth[n] + 1 <= s.height
            && Below(s, c, n) && !Below(s, n, c)
  {
    var c := s.children[n][j];
    s.Family(n, c);
    s.NodeIsOk(c);
    assert Below(s, c, n);
    if Below(s, n, c) {
      BelowIsDeeper(s, n, c);
    }
  }

  lemma NoSubtrees(s: Shape, n: int)
    requires s.Ok() && s.IsNode(n)
    ensures Subtrees(s, n, 0) == {}
  {
  }

  lemma SubtreesNext(s: Shape, n: int, k: nat)
    requires s.Ok() && s.IsNode(n) && k < |s.children[n]| && s.IsNode(s.children[n][k])
    ensures Subtrees(s, n, k + 1) == Subtrees(s, n, k) + Subtree(s, s.children[n][k])
  {
    forall m | m in Subtree(s, s.children[n][k])
      ensures m in Subtrees(s, n, k + 1)
    {
    }
  }

  lemma NothingToUnload(s: Shape, mesh: set<int>, n: int)
    requires s.Ok() && s.IsNode(n) && MeshClosed(s, mesh) && n !in mesh
    ensures mesh - Subtree(s, n) == mesh
  {
    forall m | m in mesh
      ensures m !in Subtree(s, n)
    {
      if m in Subtree(s, n) {
        NoDataBelow(s, mesh, m, n);
      }
    }
  }

  lemma NothingToClear(s: Shape, split: set<int>, n: int)
    requires s.Ok() && s.IsNode(n) && ClosedWithin(s, split, n) && n !in split
    ensures split - Subtree(s, n) == split
  {
    forall m | m in split
      ensures m !in Subtree(s, n)
    {
      if m in Subtree(s, n) {
        UnsplitBelow(s, split, m, n);
      }
    }
  }

  /** Once the node and its first children are cleared, the rest below is still closed. */
  lemma ClosedWithinChild(s: Shape, split: set<int>, n: int, k: nat)
    requires s.Ok() && s.IsNode(n) && ClosedWithin(s, split, n) && k < |s.children[n]|
    ensures ClosedWithin(s, (split - {n}) - Subtrees(s, n, k), s.children[n][k])
  {
    var c := s.children[n][k];
    ChildIsNode(s, n, k);
    var rest := (split - {n}) - Subtrees(s, n, k);
    forall m | m in rest && s.IsNode(m) && m != c && Below(s, m, c)
      ensures s.parent[m] in rest
    {
      BelowTwice(s, m, c, n);
      s.ParentIsHigher(m);
      assert Below(s, s.parent[m], c);
      forall j | 0 <= j < k && s.IsNode(s.children[n][j]) && Below(s, s.parent[m], s.children[n][j])
        ensures Below(s, m, s.children[n][j])
      {
      }
    }
  }

  // ----- splitting a node

  /** CanSplit says yes. */
  predicate MaySplit(s: Shape, st: State, n: int, testsData: bool)
    requires s.Ok() && s.IsNode(n)
  {
    n in st.split || (testsData && s.HasChildren(n) && Req(s, st.split, n) <= st.mesh)
  }

  function Clamp(lod: int, desired: int): (r: int)
    ensures lod >= 0 ==> r / 256 == lod / 256
  {
    if desired < lod / 256 * 256 then lod / 256 * 256
    else if desired > lod / 256 * 256 + 255 then lod / 256 * 256 + 255
    else desired
  }

  /** The lods after the given nodes were split: their children are clamped. */
  function Clamped(s: Shape, lod: seq<int>, desired: seq<int>, nodes: set<int>): (lod': seq<int>)
    requires s.Ok() && |lod| == |desired| == |s.parent|
    ensures |lod'| == |lod|
  {
    seq(|lod|, c requires 0 <= c < |lod| =>
      if s.parent[c] in nodes then Clamp(lod[c], desired[c]) else lod[c])
  }

  function ClampedUpTo(s: Shape, lod: seq<int>, desired: seq<int>, n: int, k: nat): (lod': seq<int>)
    requires s.Ok() && s.IsNode(n) && |lod| == |desired| == |s.parent| && k <= |s.children[n]|
    ensures |lod'| == |lod|
  {
    seq(|lod|, c requires 0 <= c < |lod| =>
      if c in s.children[n][..k] then Clamp(lod[c], desired[c]) else lod[c])
  }

  lemma ClampedNext(s: Shape, lod: seq<int>, desired: seq<int>, n: int, k: nat)
    requires s.Ok() && s.IsNode(n) && |lod| == |desired| == |s.parent| && k < |s.children[n]|
    ensures ClampedUpTo(s, lod, desired, n, 0) == lod
    ensures var c := s.children[n][k];
            && s.IsNode(c) && ClampedUpTo(s, lod, desired, n, k)[c] == lod[c]
            && ClampedUpTo(s, lod, desired, n, k + 1)
               == ClampedUpTo(s, lod, desired, n, k)[c := Clamp(lod[c], desired[c])]
  {
    hide Clamp, Shape.Ok;
    s.NodeIsOk(n);
    var c := s.children[n][k];
    assert s.children[n][..k + 1] == s.children[n][..k] + [c];
  }

  lemma ClampedAll(s: Shape, lod: seq<int>, desired: seq<int>, n: int)
    requires s.Ok() && s.IsNode(n) && |lod| == |desired| == |s.parent|
    ensures ClampedUpTo(s, lod, desired, n, |s.children[n]|) == Clamped(s, lod, desired, {n})
    ensures ClampedUpTo(s, lod, desired, n, 0) == lod
  {
    forall c | 0 <= c < |s.parent|
      ensures c in s.children[n] <==> s.parent[c] == n
    {
      s.Family(n, c);
    }
  }

  lemma ClampedTwice(s: Shape, lod: seq<int>, desired: seq<int>, a: set<int>, b: set<int>)
    requires s.Ok() && |lod| == |desired| == |s.parent| && a !! b
    ensures Clamped(s, Clamped(s, lod, desired, a), desired, b) == Clamped(s, lod, desired, a + b)
  {
  }

  lemma ClampedOk(s: Shape, lod: seq<int>, desired: seq<int>, nodes: set<int>)
    requires s.Ok() && LodOk(s, lod) && |desired| == |s.parent|
    requires forall c :: 0 <= c < |desired| ==> 0 <= desired[c] < 0x1_0000
    ensures LodOk(s, Clamped(s, lod, desired, nodes))
  {
  }

  /** What DoSplit relies on. */
  ghost predicate Splittable(s: Shape, st: State, n: int, testsData: bool)
    requires s.Ok() && s.IsNode(n)
  {
    && SplitClosedBut(s, st.split, n) && MeshClosed(s, st.mesh)
    && s.HasChildren(n) && n in st.mesh && MaySplit(s, st, n, testsData)
  }

  /** After the node is flagged, its parent can be split in turn. */
  lemma ParentSplittable(s: Shape, st: State, n: int, testsData: bool)
    requires s.Ok() && s.IsNode(n) && Splittable(s, st, n, testsData) && n !in st.split && n > 0
    ensures s.IsNode(s.parent[n]) && Splittable(s, st.(split := st.split + {n}), s.parent[n], testsData)
  {
    s.ParentIsHigher(n);
    ReqShrinks(s, st.split, st.split + {n}, s.parent[n]);
  }

  /** There is nothing to do for a split node, or above the root. */
  lemma NothingToSplit(s: Shape, st: State, n: int, desired: seq<int>)
    requires s.Ok() && -1 <= n < |s.parent| && (n == -1 || n in st.split)
    requires SplitClosedBut(s, st.split, n) && |st.lod| == |desired| == |s.parent|
    ensures SplitClosed(s, st.split)
    ensures st == st.(split := st.split + Up(s, st.split, n), lod := Clamped(s, st.lod, desired, Up(s, st.split, n)))
  {
    assert Clamped(s, st.lod, desired, {}) == st.lod;
    assert Up(s, st.split, n) == {};
  }

  /** Flagging a node and then those above it. */
  lemma SplitThenUp(s: Shape, st: State, n: int, desired: seq<int>)
    requires s.Ok() && s.IsNode(n) && n !in st.split && |st.lod| == |desired| == |s.parent|
    ensures -1 <= s.parent[n] < |s.parent|
    ensures var up, rest := Up(s, st.split, n), Up(s, st.split + {n}, s.parent[n]);
            && st.split + up == (st.split + {n}) + rest
            && Clamped(s, st.lod, desired, up) == Clamped(s, Clamped(s, st.lod, desired, {n}), desired, rest)
  {
    s.ParentIsHigher(n);
    UpAfter(s, st.split, n, s.parent[n]);
    ClampedTwice(s, st.lod, desired, {n}, Up(s, st.split, s.parent[n]));
  }

  lemma UpHas(s: Shape, split: set<int>, n: int)
    requires s.Ok() && s.IsNode(n)
    ensures n in split + Up(s, split, n)
  {
  }

  lemma AboveSplit(s: Shape, split: set<int>, n: int)
    requires s.Ok() && s.IsNode(n) && SplitClosed(s, split) && n in split
    ensures s.parent[n] == -1 || s.parent[n] in split
  {
    s.ParentIsHigher(n);
  }

  lemma SplittableIs(s: Shape, st: State, n: int, testsData: bool)
    requires s.Ok() && s.IsNode(n) && Splittable(s, st, n, testsData)
    ensures SplitClosedBut(s, st.split, n)
  {
  }

  /** What holds once the node is flagged: only its parent may be missing. */
  lemma FlaggedFirst(s: Shape, st: State, n: int, testsData: bool)
    requires s.Ok() && s.IsNode(n) && Splittable(s, st, n, testsData) && n !in st.split
    ensures SplitClosedBut(s, st.split + {n}, s.parent[n])
    ensures s.parent[n] != -1 ==> s.IsNode(s.parent[n])
    ensures s.parent[n] != -1 ==>
              forall lod :: Splittable(s, st.(split := st.split + {n}, lod := lod), s.parent[n], testsData)
  {
    s.ParentIsHigher(n);
    if n > 0 {
      ParentSplittable(s, st, n, testsData);
    }
  }

  /** The asserts of DoSplit hold. */
  lemma SplittableMaySplit(s: Shape, st: State, n: int, testsData: bool)
    requires s.Ok() && s.IsNode(n) && Splittable(s, st, n, testsData) && n !in st.split
    ensures MaySplit(s, st, n, testsData) && n in st.mesh && st.mesh + Req(s, st.split, n) == st.mesh
  {
  }

  /** Flagging the unsplit ancestors closes the split flags again. */
  lemma {:induction false} UpCloses(s: Shape, split: set<int>, n: int)
    requires s.Ok() && s.IsNode(n) && SplitClosedBut(s, split, n) && s.HasChildren(n)
    ensures SplitClosed(s, split + Up(s, split, n)) && n in split + Up(s, split, n)
    decreases s.depth[n]
  {
    s.ParentIsHigher(n);
    if n !in split {
      if n > 0 {
        var next := split + {n};
        UpCloses(s, next, s.parent[n]);
        UpAfter(s, split, n, s.parent[n]);
        assert next + Up(s, next, s.parent[n]) == split + Up(s, split, n);
      }
    }
  }

  /** Flagging a deeper node does not change the way up. */
  lemma {:induction false} UpAfter(s: Shape, split: set<int>, n: int, m: int)
    requires s.Ok() && s.IsNode(n) && -1 <= m < |s.parent| && (m == -1 || s.depth[m] < s.depth[n])
    ensures Up(s, split + {n}, m) == Up(s, split, m)
    ensures n !in Up(s, split, m)
    decreases if m == -1 then 0 else s.depth[m] + 1
  {
    if m != -1 {
      s.ParentIsHigher(m);
      if m !in split {
        UpAfter(s, split, n, s.parent[m]);
      }
    }
  }

  /** Every node on the way up has its children among what was asked for. */
  lemma {:induction false} UpRequested(s: Shape, split: set<int>, n: int, a: int)
    requires s.Ok() && s.IsNode(n) && s.HasChildren(n) && a in Up(s, split, n)
    ensures s.IsNode(a) && s.HasChildren(a) && Children(s, a) <= Req(s, split, n)
    decreases s.depth[n]
  {
    s.ParentIsHigher(n);
    if a != n {
      UpRequested(s, split, s.parent[n], a);
    }
  }

  /** DoSplit keeps everything the tree promises. */
  lemma SplitKeepsInv(s: Shape, st: State, n: int, desired: seq<int>)
    requires s.Ok() && s.IsNode(n) && Inv(s, st) && n !in st.split && s.HasChildren(n) && |desired| == |s.parent|
    requires forall c :: 0 <= c < |desired| ==> 0 <= desired[c] < 0x1_0000
    requires Req(s, st.split, n) <= st.mesh
    ensures Inv(s, st.(split := st.split + Up(s, st.split, n), lod := Clamped(s, st.lod, desired, Up(s, st.split, n))))
    ensures n == 0 || s.parent[n] in st.split ==> Up(s, st.split, n) == {n}
  {
    s.ParentIsHigher(n);
    ClampedOk(s, st.lod, desired, Up(s, st.split, n));
    UpCloses(s, st.split, n);
    forall a | a in Up(s, st.split, n)
      ensures s.IsNode(a) && Children(s, a) <= st.mesh
    {
      UpRequested(s, st.split, n, a);
    }
  }

  // ----- descendants

  /** What lies two or more levels below c, up to child k. */
  function GrandSubtrees(s: Shape, c: int, k: nat): (r: set<int>)
    requires s.Ok() && s.IsNode(c) && k <= |s.children[c]|
  {
    if k == 0 then {} else
    ChildIsNode(s, c, k - 1);
    GrandSubtrees(s, c, k - 1) + Subtrees(s, s.children[c][k - 1], |s.children[s.children[c][k - 1]]|)
  }

  lemma {:induction false} GrandSubtreesAre(s: Shape, c: int, k: nat, m: int)
    requires s.Ok() && s.IsNode(c) && k <= |s.children[c]|
    ensures m in GrandSubtrees(s, c, k) <==>
              exists j :: 0 <= j < k && s.IsNode(m) && m != s.children[c][j] && Below(s, m, s.children[c][j])
  {
    hide Below, Subtrees;
    if k > 0 {
      GrandSubtreesAre(s, c, k - 1, m);
      ChildIsNode(s, c, k - 1);
      SubtreeSplits(s, s.children[c][k - 1]);
      assert m in Subtree(s, s.children[c][k - 1]) <==> s.IsNode(m) && Below(s, m, s.children[c][k - 1]);
    }
  }

  /** What warming up a node with high priority unloads: exactly the nodes at least two
      levels below it. */
  lemma GrandSubtreesMean(s: Shape, c: int, m: int)
    requires s.Ok() && s.IsNode(c)
    ensures m in GrandSubtrees(s, c, |s.children[c]|)
            <==> s.IsNode(m) && Below(s, m, c) && s.depth[m] >= s.depth[c] + 2
  {
    GrandSubtreesAre(s, c, |s.children[c]|, m);
    if m in GrandSubtrees(s, c, |s.children[c]|) {
      var j :| 0 <= j < |s.children[c]| && m != s.children[c][j] && Below(s, m, s.children[c][j]);
      ChildIsNode(s, c, j);
      BelowIsDeeper(s, m, s.children[c][j]);
      BelowTwice(s, m, s.children[c][j], c);
    }
    if s.IsNode(m) && Below(s, m, c) && s.depth[m] >= s.depth[c] + 2 {
      var d := BelowViaChild(s, m, c);
      s.Family(c, d);
      var j :| 0 <= j < |s.children[c]| && s.children[c][j] == d;
    }
  }

  // ----- what is drawn

  /** Render gets from n down to m through split nodes. */
  predicate Reached(s: Shape, split: set<int>, m: int, n: int)
    requires s.Ok() && -1 <= m < |s.parent|
    decreases if m == -1 then 0 else s.depth[m] + 1
  {
    m != -1 && (m == n || (s.ParentIsHigher(m); s.parent[m] in split && Reached(s, split, s.parent[m], n)))
  }

  /** Render draws the unsplit nodes it reaches. */
  predicate Drawn(s: Shape, split: set<int>, m: int, n: int)
    requires s.Ok() && s.IsNode(m)
  {
    m !in split && Reached(s, split, m, n)
  }

  /** Every node that is drawn has data. */
  lemma DrawnHasData(s: Shape, st: State, m: int)
    requires s.Ok() && Inv(s, st) && s.IsNode(m) && Drawn(s, st.split, m, 0)
    ensures m in st.mesh
  {
    if m != 0 {
      s.ParentIsHigher(m);
      s.Family(s.parent[m], m);
    }
  }

  lemma {:induction false} SplitIsReached(s: Shape, split: set<int>, m: int)
    requires s.Ok() && SplitClosed(s, split) && s.IsNode(m) && (m == 0 || s.parent[m] in split)
    ensures Reached(s, split, m, 0)
    decreases s.depth[m]
  {
    s.ParentIsHigher(m);
    if m != 0 {
      SplitIsReached(s, split, s.parent[m]);
    }
  }

  /** No part of the terrain is left out: above every leaf there is a node that is drawn. */
  lemma {:induction false} LeafIsCovered(s: Shape, split: set<int>, m: int) returns (a: int)
    requires s.Ok() && SplitClosed(s, split) && s.IsNode(m) && m !in split
    ensures s.IsNode(a) && Below(s, m, a) && Drawn(s, split, a, 0)
    decreases s.depth[m]
  {
    s.ParentIsHigher(m);
    if m == 0 || s.parent[m] in split {
      SplitIsReached(s, split, m);
      a := m;
    } else {
      a := LeafIsCovered(s, split, s.parent[m]);
    }
  }

  /** And no part is drawn twice: of two nodes above the same leaf, at most one is drawn. */
  lemma {:induction false} LeafIsCoveredOnce(s: Shape, split: set<int>, m: int, a: int, b: int)
    requires s.Ok() && s.IsNode(m) && s.IsNode(a) && s.IsNode(b)
    requires Below(s, m, a) && Below(s, m, b) && Drawn(s, split, a, 0) && Drawn(s, split, b, 0)
    ensures a == b
    decreases s.depth[m]
  {
    s.ParentIsHigher(m);
    if m == a && m != b {
      AboveReachedIsSplit(s, split, a, b);
    } else if m == b && m != a {
      AboveReachedIsSplit(s, split, b, a);
    } else if m != a {
      LeafIsCoveredOnce(s, split, s.parent[m], a, b);
    }
  }

  lemma {:induction false} AboveReachedIsSplit(s: Shape, split: set<int>, m: int, a: int)
    requires s.Ok() && s.IsNode(m) && s.IsNode(a) && Reached(s, split, m, 0) && Below(s, m, a) && m != a
    ensures a in split
    decreases s.depth[m]
  {
    s.ParentIsHigher(m);
    if s.parent[m] != a {
      AboveReachedIsSplit(s, split, s.parent[m], a);
    }
  }

  // ----- settling a node that is not split

  lemma LoadKeepsInv(s: Shape, st: State, n: int)
    requires s.Ok() && s.IsNode(n) && n > 0 && Inv(s, st) && s.parent[n] in st.mesh
    ensures Inv(s, st.(mesh := st.mesh + {n}))
  {
  }

  /** Unloading below the first k children of an unsplit node. */
  lemma {:induction false} UnloadChildrenKeepsInv(s: Shape, st: State, n: int, k: nat)
    requires s.Ok() && s.IsNode(n) && Inv(s, st) && n !in st.split && k <= |s.children[n]|
    ensures Inv(s, st.(mesh := st.mesh - Subtrees(s, n, k)))
  {
    hide Inv, Subtree, Subtrees;
    NoSubtrees(s, n);
    if k == 0 {
      assert st.mesh - Subtrees(s, n, 0) == st.mesh;
    } else {
      UnloadChildrenKeepsInv(s, st, n, k - 1);
      ChildIsNode(s, n, k - 1);
      SubtreesNext(s, n, k - 1);
      UnloadKeepsInv(s, st.(mesh := st.mesh - Subtrees(s, n, k - 1)), s.children[n][k - 1]);
      assert (st.mesh - Subtrees(s, n, k - 1)) - Subtree(s, s.children[n][k - 1]) == st.mesh - Subtrees(s, n, k);
    }
  }

  lemma ChildUnsplit(s: Shape, st: State, n: int, j: int)
    requires s.Ok() && s.IsNode(n) && Inv(s, st) && n !in st.split && 0 <= j < |s.children[n]|
    ensures s.children[n][j] !in st.split
  {
    ChildIsNode(s, n, j);
  }

  lemma InvGives(s: Shape, st: State)
    requires s.Ok() && Inv(s, st)
    ensures MeshClosed(s, st.mesh) && SplitClosed(s, st.split) && LodOk(s, st.lod) && 0 in st.mesh
  {
  }

  /** Unloading what lies two levels below a node, with nothing split below it. */
  lemma {:induction false} UnloadGrandKeepsInv(s: Shape, st: State, c: int, k: nat)
    requires s.Ok() && s.IsNode(c) && Inv(s, st) && c !in st.split && k <= |s.children[c]|
    ensures Inv(s, st.(mesh := st.mesh - GrandSubtrees(s, c, k)))
  {
    hide Inv, Subtrees;
    if k == 0 {
      assert st.mesh - GrandSubtrees(s, c, 0) == st.mesh;
    } else {
      ChildIsNode(s, c, k - 1);
      var d := s.children[c][k - 1];
      UnloadGrandKeepsInv(s, st, c, k - 1);
      ChildUnsplit(s, st, c, k - 1);
      UnloadChildrenKeepsInv(s, st.(mesh := st.mesh - GrandSubtrees(s, c, k - 1)), d, |s.children[d]|);
      assert (st.mesh - GrandSubtrees(s, c, k - 1)) - Subtrees(s, d, |s.children[d]|)
             == st.mesh - GrandSubtrees(s, c, k);
    }
  }

  /** What WarmUpData leaves loaded: the node itself, and with high priority also the
      children that were. */
  function Warmed(s: Shape, mesh: set<int>, n: int, high: bool): set<int>
    requires s.Ok() && s.IsNode(n)
  {
    if high then (mesh + {n}) - GrandSubtrees(s, n, |s.children[n]|)
    else (mesh + {n}) - Subtrees(s, n, |s.children[n]|)
  }

  lemma WarmKeepsInv(s: Shape, st: State, n: int, high: bool)
    requires s.Ok() && s.IsNode(n) && n > 0 && Inv(s, st) && s.parent[n] in st.mesh && n !in st.split
    ensures Inv(s, st.(mesh := st.mesh + {n})) && Inv(s, st.(mesh := Warmed(s, st.mesh, n, high)))
  {
    hide Inv, Subtrees, GrandSubtrees;
    LoadKeepsInv(s, st, n);
    UnloadChildrenKeepsInv(s, st.(mesh := st.mesh + {n}), n, |s.children[n]|);
    UnloadGrandKeepsInv(s, st.(mesh := st.mesh + {n}), n, |s.children[n]|);
  }

  lemma NotBelowChild(s: Shape, n: int, j: int)
    requires s.Ok() && s.IsNode(n) && 0 <= j < |s.children[n]|
    ensures s.IsNode(s.children[n][j]) && n !in Subtree(s, s.children[n][j])
  {
    ChildIsNode(s, n, j);
  }

  lemma WarmedKeepsParent(s: Shape, mesh: set<int>, n: int, j: int, high: bool)
    requires s.Ok() && s.IsNode(n) && 0 <= j < |s.children[n]| && n in mesh
    ensures s.IsNode(s.children[n][j]) && n in Warmed(s, mesh, s.children[n][j], high)
  {
    var c := s.children[n][j];
    ChildIsNode(s, n, j);
    SubtreeSplits(s, c);
    GrandSubtreesMean(s, c, n);
  }

  // ----- updating a subtree

  /** The first k children. */
  function FirstChildren(s: Shape, n: int, k: nat): set<int>
    requires s.Ok() && s.IsNode(n) && k <= |s.children[n]|
  {
    set c | c in s.children[n][..k]
  }

  lemma FirstChildrenNext(s: Shape, n: int, k: nat)
    requires s.Ok() && s.IsNode(n) && k <= |s.children[n]|
    ensures FirstChildren(s, n, 0) == {}
    ensures k < |s.children[n]| ==> FirstChildren(s, n, k + 1) == FirstChildren(s, n, k) + {s.children[n][k]}
    ensures k == |s.children[n]| ==> FirstChildren(s, n, k) == Children(s, n)
  {
    if k < |s.children[n]| {
      assert s.children[n][..k + 1] == s.children[n][..k] + [s.children[n][k]];
    } else {
      assert s.children[n][..k] == s.children[n];
    }
  }

  /** Asking a second time succeeds, if the test is for data: the first call loads all that
      the second looks for. With the program's own test, no call on an unsplit node ever
      succeeds. */
  lemma AskedTwice(s: Shape, st: State, n: int, testsData: bool)
    requires s.Ok() && s.IsNode(n) && s.HasChildren(n) && n !in st.split
    ensures MaySplit(s, st.(mesh := st.mesh + Req(s, st.split, n)), n, testsData) <==> testsData
  {
  }

  lemma SplittableFromInv(s: Shape, st: State, n: int, testsData: bool)
    requires s.Ok() && s.IsNode(n) && Inv(s, st) && n in st.mesh && n !in st.split && MaySplit(s, st, n, testsData)
    ensures Splittable(s, st, n, testsData) && s.HasChildren(n) && testsData
    ensures Req(s, st.split, n) <= st.mesh && st.mesh + Req(s, st.split, n) == st.mesh
  {
  }

  /** A child of a node that was just split has data, and is not split unless it was
      reached already. */
  lemma ChildReady(s: Shape, before: State, st: State, n: int, j: int)
    requires s.Ok() && s.IsNode(n) && Inv(s, before) && n !in before.split && Inv(s, st) && n in st.split
    requires 0 <= j < |s.children[n]|
    requires forall m :: m in st.split ==> m in before.split || m == n || m in Subtrees(s, n, j)
    ensures var c := s.children[n][j]; s.IsNode(c) && c in st.mesh && c !in st.split && s.parent[c] == n
  {
    var c := s.children[n][j];
    ChildIsNode(s, n, j);
    assert c in Children(s, n);
    ChildUnsplit(s, before, n, j);
    if c in Subtrees(s, n, j) {
      var i :| 0 <= i < j && s.IsNode(s.children[n][i]) && Below(s, c, s.children[n][i]);
      ChildIsNode(s, n, i);
      BelowIsDeeper(s, c, s.children[n][i]);
      s.NodeIsOk(n);
    }
  }

  /** The node lies below n, and wants a finer lod than its own. */
  predicate Wanted(s: Shape, m: int, n: int, desired: seq<int>)
    requires s.Ok() && |desired| == |s.parent|
  {
    s.IsNode(m) && Below(s, m, n) && desired[m] > s.depth[m] % 256 * 256 + 255
  }

  lemma WantedAbove(s: Shape, m: int, n: int, j: int, desired: seq<int>)
    requires s.Ok() && |desired| == |s.parent| && s.IsNode(n) && 0 <= j < |s.children[n]|
    requires s.IsNode(s.children[n][j]) && Wanted(s, m, s.children[n][j], desired)
    ensures Wanted(s, m, n, desired) && m in Subtree(s, s.children[n][j])
  {
    ChildIsNode(s, n, j);
    BelowTwice(s, m, s.children[n][j], n);
  }

  // ----- the outcome of an update

  /** The meshes after the first k children were settled. */
  function SettledMesh(s: Shape, mesh: set<int>, n: int, high: bool, k: nat): set<int>
    requires s.Ok() && s.IsNode(n) && k <= |s.children[n]|
  {
    if k == 0 then mesh else
    ChildIsNode(s, n, k - 1);
    var before, c := SettledMesh(s, mesh, n, high, k - 1), s.children[n][k - 1];
    if high then Warmed(s, before, c, high) else before - Subtree(s, c)
  }

  /** Whether a node is close enough to being split that its children stay loaded. */
  predicate HighPriority(lod: int, desiredLod: int) {
    desiredLod > lod / 256 * 256 && 2 * (lod % 256) >= 255
  }

  function Morphed(lod: int, desiredLod: int): int {
    if lod / 256 == 0 then Clamp(lod, desiredLod) else lod
  }

  /** A node that stays unsplit: the root is morphed, and the children are loaded or
      unloaded by priority. */
  function Settled(s: Shape, st: State, n: int, desiredLod: int): (u: State)
    requires s.Ok() && s.IsNode(n) && |st.lod| == |s.parent|
    ensures |u.lod| == |st.lod| && u.split == st.split
  {
    var lod := Morphed(st.lod[n], desiredLod);
    st.(lod := st.lod[n := lod],
        mesh := SettledMesh(s, st.mesh, n, HighPriority(lod, desiredLod), |s.children[n]|))
  }

  function WasSplit(s: Shape, st: State, n: int, desired: seq<int>): (u: State)
    requires s.Ok() && s.IsNode(n) && |st.lod| == |desired| == |s.parent|
    ensures |u.lod| == |st.lod|
  {
    st.(split := st.split + Up(s, st.split, n), lod := Clamped(s, st.lod, desired, Up(s, st.split, n)))
  }

  /** Update: a node that wants a finer lod, and can be split, is split and its children are
      updated in turn; any other node is settled, after CanSplit has asked for data if it
      was called. */
  function Updated(s: Shape, st: State, n: int, desired: seq<int>, testsData: bool): (u: State)
    requires s.Ok() && s.IsNode(n) && |st.lod| == |desired| == |s.parent|
    ensures |u.lod| == |st.lod|
    decreases NodeHeight(s, n), 1, 0
  {
    if s.HasChildren(n) && desired[n] > st.lod[n] / 256 * 256 + 255 then
      var asked := st.(mesh := st.mesh + Req(s, st.split, n));
      if MaySplit(s, st, n, testsData) then
        UpdatedChildren(s, WasSplit(s, asked, n, desired), n, desired, testsData, |s.children[n]|)
      else Settled(s, asked, n, desired[n])
    else Settled(s, st, n, desired[n])
  }

  /** The first k children in turn. */
  function UpdatedChildren(s: Shape, st: State, n: int, desired: seq<int>, testsData: bool, k: nat): (u: State)
    requires s.Ok() && s.IsNode(n) && |st.lod| == |desired| == |s.parent| && k <= |s.children[n]|
    ensures |u.lod| == |st.lod|
    decreases NodeHeight(s, n), 0, k
  {
    if k == 0 then st else
    ChildIsNode(s, n, k - 1);
    Updated(s, UpdatedChildren(s, st, n, desired, testsData, k - 1), s.children[n][k - 1], desired, testsData)
  }

  /** How many levels there can be below a node. */
  function NodeHeight(s: Shape, n: int): nat
    requires s.Ok() && s.IsNode(n)
  {
    s.NodeIsOk(n);
    s.height - s.depth[n]
  }

  // ----- splitting happens

  /** An update never takes a split flag back. */
  lemma {:induction false} UpdatedKeepsSplit(s: Shape, st: State, n: int, desired: seq<int>, testsData: bool)
    requires s.Ok() && s.IsNode(n) && |st.lod| == |desired| == |s.parent|
    ensures st.split <= Updated(s, st, n, desired, testsData).split
    decreases NodeHeight(s, n), 1, 0
  {
    hide Req, MaySplit, Up, Clamped, SettledMesh;
    var asked := st.(mesh := st.mesh + Req(s, st.split, n));
    if s.HasChildren(n) && desired[n] > st.lod[n] / 256 * 256 + 255 && MaySplit(s, st, n, testsData) {
      ChildrenKeepSplit(s, WasSplit(s, asked, n, desired), n, desired, testsData, |s.children[n]|);
    }
  }

  lemma {:induction false} ChildrenKeepSplit(s: Shape, st: State, n: int, desired: seq<int>, testsData: bool, k: nat)
    requires s.Ok() && s.IsNode(n) && |st.lod| == |desired| == |s.parent| && k <= |s.children[n]|
    ensures st.split <= UpdatedChildren(s, st, n, desired, testsData, k).split
    decreases NodeHeight(s, n), 0, k
  {
    hide Updated;
    if k > 0 {
      ChildIsNode(s, n, k - 1);
      ChildrenKeepSplit(s, st, n, desired, testsData, k - 1);
      var before := UpdatedChildren(s, st, n, desired, testsData, k - 1);
      UpdatedKeepsSplit(s, before, s.children[n][k - 1], desired, testsData);
    }
  }

  /** A node that is settled with high priority keeps the data of its children. */
  lemma {:induction false} SettledKeepsChildren(s: Shape, mesh: set<int>, n: int, k: nat)
    requires s.Ok() && s.IsNode(n) && k <= |s.children[n]| && Children(s, n) <= mesh
    ensures Children(s, n) <= SettledMesh(s, mesh, n, true, k)
  {
    hide GrandSubtrees, Shape.Ok;
    if k > 0 {
      ChildIsNode(s, n, k - 1);
      SettledKeepsChildren(s, mesh, n, k - 1);
      forall c | c in Children(s, n)
        ensures c !in GrandSubtrees(s, s.children[n][k - 1], |s.children[s.children[n][k - 1]]|)
      {
        s.Family(n, c);
        GrandSubtreesMean(s, s.children[n][k - 1], c);
      }
    }
  }

  /** A frame starts from a cleared tree with data at the root. */
  function FrameStart(st: State): State {
    st.(split := {}, mesh := st.mesh + {0})
  }

  // ----- the whole tree

  lemma ClearedAll(s: Shape, split: set<int>)
    requires s.Ok() && SplitClosed(s, split)
    ensures split - Subtree(s, 0) == {}
  {
    forall m | m in split
      ensures m in Subtree(s, 0)
    {
      BelowRoot(s, m);
    }
  }

  /** A cleared tree with data at its root meets everything the update relies on. */
  lemma ClearedIsInv(s: Shape, st: State)
    requires s.Ok() && st.split == {} && 0 in st.mesh && MeshClosed(s, st.mesh) && LodOk(s, st.lod)
    ensures Inv(s, st)
  {
  }

  /** Drawn below one of the first k children. */
  predicate DrawnFirst(s: Shape, split: set<int>, m: int, n: int, k: nat)
    requires s.Ok() && s.IsNode(n) && k <= |s.children[n]|
  {
    s.IsNode(m) && exists j :: 0 <= j < k && Drawn(s, split, m, s.children[n][j])
  }

  lemma {:induction false} ReachedViaChild(s: Shape, split: set<int>, m: int, n: int) returns (c: int)
    requires s.Ok() && s.IsNode(m) && s.IsNode(n) && m != n && Reached(s, split, m, n)
    ensures c in s.children[n] && Reached(s, split, m, c)
    decreases s.depth[m]
  {
    s.ParentIsHigher(m);
    if s.parent[m] == n {
      c := m;
      s.Family(n, m);
    } else {
      c := ReachedViaChild(s, split, s.parent[m], n);
    }
  }

  lemma {:induction false} ReachedFurther(s: Shape, split: set<int>, m: int, n: int, j: int)
    requires s.Ok() && s.IsNode(m) && s.IsNode(n) && n in split && 0 <= j < |s.children[n]|
    requires Reached(s, split, m, s.children[n][j])
    ensures Reached(s, split, m, n)
    decreases s.depth[m]
  {
    ChildIsNode(s, n, j);
    s.ParentIsHigher(m);
    if m != s.children[n][j] {
      ReachedFurther(s, split, s.parent[m], n, j);
    }
  }

  lemma DrawnViaChildren(s: Shape, st: State, n: int)
    requires s.Ok() && s.IsNode(n) && Inv(s, st) && n in st.split
    ensures s.HasChildren(n)
    ensures forall m :: s.IsNode(m) ==> (Drawn(s, st.split, m, n) <==> DrawnFirst(s, st.split, m, n, |s.children[n]|))
  {
    forall m | s.IsNode(m)
      ensures Drawn(s, st.split, m, n) <==> DrawnFirst(s, st.split, m, n, |s.children[n]|)
    {
      if Drawn(s, st.split, m, n) {
        var c := ReachedViaChild(s, st.split, m, n);
        var j :| 0 <= j < |s.children[n]| && s.children[n][j] == c;
        assert Drawn(s, st.split, m, s.children[n][j]);
      }
      if DrawnFirst(s, st.split, m, n, |s.children[n]|) {
        var j :| 0 <= j < |s.children[n]| && Drawn(s, st.split, m, s.children[n][j]);
        ReachedFurther(s, st.split, m, n, j);
      }
    }
  }

  lemma DrawnItself(s: Shape, st: State, n: int)
    requires s.Ok() && s.IsNode(n) && Inv(s, st) && n !in st.split && (n == 0 || s.parent[n] in st.split)
    ensures n in st.mesh
    ensures forall m :: s.IsNode(m) ==> (Drawn(s, st.split, m, n) <==> m == n)
  {
    if n > 0 {
      s.ParentIsHigher(n);
      s.Family(s.parent[n], n);
    }
    forall m | s.IsNode(m) && Drawn(s, st.split, m, n)
      ensures m == n
    {
      if m != n {
        AboveReachedIsSplitFrom(s, st.split, m, n);
      }
    }
  }

  lemma {:induction false} AboveReachedIsSplitFrom(s: Shape, split: set<int>, m: int, n: int)
    requires s.Ok() && s.IsNode(m) && s.IsNode(n) && Reached(s, split, m, n) && m != n
    ensures n in split
    decreases s.depth[m]
  {
    s.ParentIsHigher(m);
    if s.parent[m] != n {
      AboveReachedIsSplitFrom(s, split, s.parent[m], n);
    }
  }

  lemma {:induction false} ReachedIsBelow(s: Shape, split: set<int>, m: int, n: int)
    requires s.Ok() && s.IsNode(m) && Reached(s, split, m, n)
    ensures Below(s, m, n)
    decreases s.depth[m]
  {
    s.ParentIsHigher(m);
    if m != n {
      ReachedIsBelow(s, split, s.parent[m], n);
    }
  }

  /** Two different nodes of the same depth have nothing in common below them. */
  lemma {:induction false} SameDepthApart(s: Shape, m: int, a: int, b: int)
    requires s.Ok() && s.IsNode(m) && s.IsNode(a) && s.IsNode(b) && s.depth[a] == s.depth[b]
    requires Below(s, m, a) && Below(s, m, b)
    ensures a == b
    decreases s.depth[m]
  {
    s.ParentIsHigher(m);
    if m == a || m == b {
      BelowIsDeeper(s, m, a);
      BelowIsDeeper(s, m, b);
    } else {
      SameDepthApart(s, s.parent[m], a, b);
    }
  }

  /** What is drawn below one child is not drawn below another. */
  lemma DrawnApart(s: Shape, split: set<int>, n: int, k: nat)
    requires s.Ok() && s.IsNode(n) && k < |s.children[n]|
    ensures forall m :: s.IsNode(m) ==> !(DrawnFirst(s, split, m, n, k) && Drawn(s, split, m, s.children[n][k]))
  {
    forall m | s.IsNode(m) && DrawnFirst(s, split, m, n, k)
      ensures !Drawn(s, split, m, s.children[n][k])
    {
      if Drawn(s, split, m, s.children[n][k]) {
        var j :| 0 <= j < k && Drawn(s, split, m, s.children[n][j]);
        ChildIsNode(s, n, j);
        ChildIsNode(s, n, k);
        ReachedIsBelow(s, split, m, s.children[n][j]);
        ReachedIsBelow(s, split, m, s.children[n][k]);
        s.NodeIsOk(n);
        SameDepthApart(s, m, s.children[n][j], s.children[n][k]);
      }
    }
  }
}
