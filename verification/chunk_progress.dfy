/** Which nodes a frame splits, and when it gets around to a node that wants a finer lod. All
    of this is about the test for data; with the program's own test nothing is ever split. */
module ChunkProgress {
  import opened ChunkModel

  // ----- one call of Update

  /** The node is inner, and wants a finer lod than it has. */
  predicate Refines(s: Shape, st: State, n: int, desired: seq<int>)
    requires s.Ok() && s.IsNode(n) && |st.lod| == |desired| == |s.parent|
  {
    s.HasChildren(n) && desired[n] > st.lod[n] / 256 * 256 + 255
  }

  predicate Splits(s: Shape, st: State, n: int, desired: seq<int>)
    requires s.Ok() && s.IsNode(n) && |st.lod| == |desired| == |s.parent|
  {
    Refines(s, st, n, desired) && MaySplit(s, st, n, true)
  }

  function Asked(s: Shape, st: State, n: int): State
    requires s.Ok() && s.IsNode(n)
  {
    st.(mesh := st.mesh + Req(s, st.split, n))
  }

  /** The node was split, and its first k children have been updated. */
  function SplitUpTo(s: Shape, st: State, n: int, desired: seq<int>, k: nat): (u: State)
    requires s.Ok() && s.IsNode(n) && |st.lod| == |desired| == |s.parent| && k <= |s.children[n]|
    ensures |u.lod| == |st.lod|
  {
    UpdatedChildren(s, WasSplit(s, Asked(s, st, n), n, desired), n, desired, true, k)
  }

  lemma UpdatedIs(s: Shape, st: State, n: int, desired: seq<int>)
    requires s.Ok() && s.IsNode(n) && |st.lod| == |desired| == |s.parent|
    ensures Updated(s, st, n, desired, true)
            == if Splits(s, st, n, desired) then SplitUpTo(s, st, n, desired, |s.children[n]|)
               else if Refines(s, st, n, desired) then Settled(s, Asked(s, st, n), n, desired[n])
               else Settled(s, st, n, desired[n])
  {
    hide MaySplit, Req, Settled, UpdatedChildren, WasSplit;
  }

  lemma NextChild(s: Shape, st: State, n: int, desired: seq<int>, k: nat)
    requires s.Ok() && s.IsNode(n) && |st.lod| == |desired| == |s.parent| && k < |s.children[n]|
    ensures s.IsNode(s.children[n][k])
    ensures SplitUpTo(s, st, n, desired, k + 1)
            == Updated(s, SplitUpTo(s, st, n, desired, k), s.children[n][k], desired, true)
  {
    hide Updated, WasSplit, Asked;
    ChildIsNode(s, n, k);
  }

  // ----- what an update leaves alone

  /** Only the meshes strictly below the node may go. */
  lemma {:induction false} SettledKeeps(s: Shape, mesh: set<int>, n: int, high: bool, k: nat, m: int)
    requires s.Ok() && s.IsNode(n) && k <= |s.children[n]| && m in mesh && s.IsNode(m)
    requires !Below(s, m, n) || m == n
    ensures m in SettledMesh(s, mesh, n, high, k)
  {
    hide GrandSubtrees, Below;
    if k > 0 {
      ChildIsNode(s, n, k - 1);
      var c := s.children[n][k - 1];
      SettledKeeps(s, mesh, n, high, k - 1, m);
      GrandSubtreesMean(s, c, m);
      NotUnder(s, m, n, c);
    }
  }

  /** A node that is not strictly below n is not below a child of n. */
  lemma NotUnder(s: Shape, m: int, n: int, c: int)
    requires s.Ok() && s.IsNode(m) && s.IsNode(n) && s.IsNode(c) && Below(s, c, n) && !Below(s, n, c)
    requires !Below(s, m, n) || m == n
    ensures !Below(s, m, c)
  {
    if Below(s, m, c) {
      BelowTwice(s, m, c, n);
    }
  }

  /** Two children of a node have nothing below them in common. */
  lemma ChildrenApart(s: Shape, n: int, i: nat, j: nat, m: int)
    requires s.Ok() && s.IsNode(n) && i < |s.children[n]| && j < |s.children[n]| && i != j && s.IsNode(m)
    requires s.IsNode(s.children[n][i]) && s.IsNode(s.children[n][j]) && Below(s, m, s.children[n][i])
    ensures !Below(s, m, s.children[n][j])
  {
    ChildIsNode(s, n, i);
    ChildIsNode(s, n, j);
    s.NodeIsOk(n);
    if Below(s, m, s.children[n][j]) {
      SameDepthApart(s, m, s.children[n][i], s.children[n][j]);
    }
  }

  /** Elsewhere no mesh goes, no flag comes, and no lod changes. */
  predicate Keeps(st: State, u: State, m: int)
    requires |u.lod| == |st.lod|
  {
    && (m in st.mesh ==> m in u.mesh)
    && (m in u.split <==> m in st.split)
    && (0 <= m < |st.lod| ==> u.lod[m] == st.lod[m])
  }

  lemma {:induction false} UpdateKeeps(s: Shape, st: State, n: int, desired: seq<int>, m: int)
    requires s.Ok() && s.IsNode(n) && |st.lod| == |desired| == |s.parent| && s.IsNode(m) && !Below(s, m, n)
    requires s.parent[n] == -1 || s.parent[n] in st.split
    ensures Keeps(st, Updated(s, st, n, desired, true), m)
    decreases NodeHeight(s, n), 1, 0
  {
    hide Req, SettledMesh, Up, Clamped, Below, MaySplit, UpdatedChildren, Updated;
    UpdatedIs(s, st, n, desired);
    if Splits(s, st, n, desired) {
      UpUnderSplit(s, st.split, n);
      NotChildOf(s, m, n);
      SplitKeeps(s, st, n, desired, m, |s.children[n]|);
    } else if Refines(s, st, n, desired) {
      SettleKeeps(s, Asked(s, st, n), n, desired[n], m);
    } else {
      SettleKeeps(s, st, n, desired[n], m);
    }
  }

  lemma SettleKeeps(s: Shape, st: State, n: int, desiredLod: int, m: int)
    requires s.Ok() && s.IsNode(n) && |st.lod| == |s.parent| && s.IsNode(m) && !Below(s, m, n)
    ensures Keeps(st, Settled(s, st, n, desiredLod), m)
  {
    hide SettledMesh, Shape.Ok;
    if m in st.mesh {
      SettledKeeps(s, st.mesh, n, HighPriority(Morphed(st.lod[n], desiredLod), desiredLod), |s.children[n]|, m);
    }
    assert Below(s, n, n);
  }

  lemma UpUnderSplit(s: Shape, split: set<int>, n: int)
    requires s.Ok() && s.IsNode(n) && (s.parent[n] == -1 || s.parent[n] in split)
    ensures Up(s, split, n) <= {n} && split + Up(s, split, n) == split + {n}
  {
  }

  lemma NotChildOf(s: Shape, m: int, n: int)
    requires s.Ok() && s.IsNode(m) && s.IsNode(n) && !Below(s, m, n)
    ensures m != n && s.parent[m] != n
  {
    s.ParentIsHigher(m);
    assert Below(s, n, n);
  }

  /** Splitting a node and updating its first k children. */
  lemma {:induction false} SplitKeeps(s: Shape, st: State, n: int, desired: seq<int>, m: int, k: nat)
    requires s.Ok() && s.IsNode(n) && |st.lod| == |desired| == |s.parent| && k <= |s.children[n]|
    requires s.IsNode(m) && !Below(s, m, n) && m != n && s.parent[m] != n
    requires Up(s, st.split, n) <= {n}
    ensures Keeps(st, SplitUpTo(s, st, n, desired, k), m) && n in SplitUpTo(s, st, n, desired, k).split
    decreases NodeHeight(s, n), 0, k
  {
    hide Req, Up, Clamp, Below, Updated;
    if k == 0 {
      UpHas(s, st.split, n);
    } else {
      SplitKeeps(s, st, n, desired, m, k - 1);
      NextChild(s, st, n, desired, k - 1);
      ChildIsNode(s, n, k - 1);
      NotUnder(s, m, n, s.children[n][k - 1]);
      UpdateKeeps(s, SplitUpTo(s, st, n, desired, k - 1), s.children[n][k - 1], desired, m);
      ChildKeepsParent(s, SplitUpTo(s, st, n, desired, k - 1), n, k - 1, desired);
    }
  }

  lemma ChildKeepsParent(s: Shape, st: State, n: int, j: nat, desired: seq<int>)
    requires s.Ok() && s.IsNode(n) && |st.lod| == |desired| == |s.parent| && j < |s.children[n]| && n in st.split
    ensures s.IsNode(s.children[n][j]) && n in Updated(s, st, s.children[n][j], desired, true).split
  {
    ChildIsNode(s, n, j);
    UpdatedKeepsSplit(s, st, s.children[n][j], desired, true);
  }

  /** The children between i and k leave alone what is not below them. */
  lemma {:induction false} OthersKeep(s: Shape, st: State, n: int, desired: seq<int>, m: int, i: nat, k: nat)
    requires s.Ok() && s.IsNode(n) && |st.lod| == |desired| == |s.parent| && i <= k <= |s.children[n]| && s.IsNode(m)
    requires forall j :: i <= j < k ==> s.IsNode(s.children[n][j]) && !Below(s, m, s.children[n][j])
    ensures Keeps(SplitUpTo(s, st, n, desired, i), SplitUpTo(s, st, n, desired, k), m)
    ensures n in SplitUpTo(s, st, n, desired, k).split
    decreases k
  {
    hide Req, Clamp, Below, Updated, SplitUpTo;
    if i < k {
      OthersKeep(s, st, n, desired, m, i, k - 1);
      NextChild(s, st, n, desired, k - 1);
      ChildIsNode(s, n, k - 1);
      UpdateKeeps(s, SplitUpTo(s, st, n, desired, k - 1), s.children[n][k - 1], desired, m);
      ChildKeepsParent(s, SplitUpTo(s, st, n, desired, k - 1), n, k - 1, desired);
    } else {
      FlaggedUpTo(s, st, n, desired, k);
    }
  }

  lemma FlaggedUpTo(s: Shape, st: State, n: int, desired: seq<int>, k: nat)
    requires s.Ok() && s.IsNode(n) && |st.lod| == |desired| == |s.parent| && k <= |s.children[n]|
    ensures n in SplitUpTo(s, st, n, desired, k).split
  {
    hide Req, Clamped, Updated, UpdatedChildren;
    UpHas(s, st.split, n);
    ChildrenKeepSplit(s, WasSplit(s, Asked(s, st, n), n, desired), n, desired, true, k);
  }

  // ----- how a frame gets to a node

  ghost function PlaceOf(s: Shape, n: int): (j: nat)
    requires s.Ok() && s.IsNode(n) && n > 0
    ensures s.IsNode(s.parent[n]) && j < |s.children[s.parent[n]]| && s.children[s.parent[n]][j] == n
  {
    s.Family(s.parent[n], n);
    var j :| 0 <= j < |s.children[s.parent[n]]| && s.children[s.parent[n]][j] == n;
    j
  }

  /** The state in which the update of the tree reaches node n, if it splits all nodes above. */
  ghost function CallState(s: Shape, st: State, n: int, desired: seq<int>): (u: State)
    requires s.Ok() && s.IsNode(n) && |st.lod| == |desired| == |s.parent|
    ensures |u.lod| == |st.lod|
    decreases s.depth[n]
  {
    s.ParentIsHigher(n);
    if n == 0 then st else
    SplitUpTo(s, CallState(s, st, s.parent[n], desired), s.parent[n], desired, PlaceOf(s, n))
  }

  /** The update gets to node n. */
  ghost predicate Called(s: Shape, st: State, n: int, desired: seq<int>)
    requires s.Ok() && s.IsNode(n) && |st.lod| == |desired| == |s.parent|
    decreases s.depth[n]
  {
    s.ParentIsHigher(n);
    n == 0
    || (&& Called(s, st, s.parent[n], desired)
        && Splits(s, CallState(s, st, s.parent[n], desired), s.parent[n], desired))
  }

  /** The state when the update of node n is done. */
  ghost function DoneState(s: Shape, st: State, n: int, desired: seq<int>): (u: State)
    requires s.Ok() && s.IsNode(n) && |st.lod| == |desired| == |s.parent|
    ensures |u.lod| == |st.lod|
  {
    Updated(s, CallState(s, st, n, desired), n, desired, true)
  }

  /** Below node n nothing happens before the update gets there, except that n itself is
      clamped when its parent is split. */
  lemma {:induction false} UntilCalled(s: Shape, st: State, n: int, desired: seq<int>, m: int)
    requires s.Ok() && s.IsNode(n) && |st.lod| == |desired| == |s.parent| && st.split == {}
    requires Called(s, st, n, desired) && s.IsNode(m) && Below(s, m, n)
    ensures var u := CallState(s, st, n, desired);
            && (m in st.mesh ==> m in u.mesh) && m !in u.split
            && u.lod[m] == if m == n && n > 0 then Clamp(st.lod[m], desired[m]) else st.lod[m]
    ensures n > 0 ==> s.parent[n] in CallState(s, st, n, desired).split
    decreases s.depth[n]
  {
    hide Req, Clamp, Splits, SplitUpTo;
    s.ParentIsHigher(n);
    if n > 0 {
      var p, j := s.parent[n], PlaceOf(s, n);
      ChildIsNode(s, p, j);
      BelowTwice(s, m, n, p);
      UntilCalled(s, st, p, desired, m);
      UntilCalled(s, st, p, desired, p);
      CalledParent(s, st, p, desired);
      var at := CallState(s, st, p, desired);
      FirstSplit(s, at, p, desired, m);
      forall i | 0 <= i < j
        ensures s.IsNode(s.children[p][i]) && !Below(s, m, s.children[p][i])
      {
        ChildIsNode(s, p, i);
        ChildrenApart(s, p, j, i, m);
      }
      OthersKeep(s, at, p, desired, m, 0, j);
      ChildOnly(s, m, n, p);
    }
  }

  lemma CalledParent(s: Shape, st: State, n: int, desired: seq<int>)
    requires s.Ok() && s.IsNode(n) && |st.lod| == |desired| == |s.parent| && st.split == {} && Called(s, st, n, desired)
    requires n > 0 ==> s.parent[n] in CallState(s, st, n, desired).split
    ensures s.parent[n] == -1 || s.parent[n] in CallState(s, st, n, desired).split
  {
    s.ParentIsHigher(n);
  }

  /** Splitting p flags p and clamps its children. */
  lemma FirstSplit(s: Shape, st: State, p: int, desired: seq<int>, m: int)
    requires s.Ok() && s.IsNode(p) && |st.lod| == |desired| == |s.parent| && s.IsNode(m) && m != p
    requires s.parent[p] == -1 || s.parent[p] in st.split
    requires p !in st.split
    ensures var u := SplitUpTo(s, st, p, desired, 0);
            && (m in st.mesh ==> m in u.mesh) && (m in u.split <==> m in st.split)
            && u.lod[m] == if s.parent[m] == p then Clamp(st.lod[m], desired[m]) else st.lod[m]
  {
    hide Req, Clamp, Below;
    UpUnderSplit(s, st.split, p);
    UpHas(s, st.split, p);
  }

  /** Of the nodes below n only n is a child of its parent. */
  lemma ChildOnly(s: Shape, m: int, n: int, p: int)
    requires s.Ok() && s.IsNode(m) && s.IsNode(n) && n > 0 && s.parent[n] == p && Below(s, m, n)
    ensures s.parent[m] == p <==> m == n
  {
    s.ParentIsHigher(m);
    s.ParentIsHigher(n);
    BelowIsDeeper(s, m, n);
  }

  /** What happens below node n is over when its update is done: flags stay as they are then,
      and no mesh goes any more. */
  lemma {:induction false} AfterDone(s: Shape, st: State, n: int, desired: seq<int>, m: int)
    requires s.Ok() && s.IsNode(n) && |st.lod| == |desired| == |s.parent|
    requires Called(s, st, n, desired) && s.IsNode(m) && Below(s, m, n)
    ensures Keeps(DoneState(s, st, n, desired), Updated(s, st, 0, desired, true), m)
    decreases s.depth[n]
  {
    hide Req, Splits, SplitUpTo, Updated;
    s.ParentIsHigher(n);
    if n > 0 {
      var p, j := s.parent[n], PlaceOf(s, n);
      ChildIsNode(s, p, j);
      BelowTwice(s, m, n, p);
      AfterDone(s, st, p, desired, m);
      var at := CallState(s, st, p, desired);
      UpdatedIs(s, at, p, desired);
      NextChild(s, at, p, desired, j);
      forall i | j + 1 <= i < |s.children[p]|
        ensures s.IsNode(s.children[p][i]) && !Below(s, m, s.children[p][i])
      {
        ChildIsNode(s, p, i);
        ChildrenApart(s, p, j, i, m);
      }
      OthersKeep(s, at, p, desired, m, j + 1, |s.children[p]|);
    }
  }

  // ----- which nodes a frame splits

  /** A node the update gets to is split by the frame exactly if it is split at that point. */
  lemma CalledIsSplit(s: Shape, st: State, n: int, desired: seq<int>)
    requires s.Ok() && s.IsNode(n) && |st.lod| == |desired| == |s.parent| && st.split == {} && Called(s, st, n, desired)
    ensures n in Updated(s, st, 0, desired, true).split <==> Splits(s, CallState(s, st, n, desired), n, desired)
  {
    hide Req, Splits, SplitUpTo, Updated, Settled;
    UntilCalled(s, st, n, desired, n);
    AfterDone(s, st, n, desired, n);
    var at := CallState(s, st, n, desired);
    UpdatedIs(s, at, n, desired);
    FlaggedUpTo(s, at, n, desired, |s.children[n]|);
    SettledSameSplit(s, at, n, desired[n]);
    SettledSameSplit(s, Asked(s, at, n), n, desired[n]);
  }

  lemma SettledSameSplit(s: Shape, st: State, n: int, desiredLod: int)
    requires s.Ok() && s.IsNode(n) && |st.lod| == |s.parent|
    ensures Settled(s, st, n, desiredLod).split == st.split
  {
  }

  /** Nothing is split below a node that is not split, or that the update does not get to. */
  lemma {:induction false} NotSplitBelow(s: Shape, st: State, n: int, desired: seq<int>, m: int)
    requires s.Ok() && s.IsNode(n) && |st.lod| == |desired| == |s.parent| && st.split == {}
    requires s.IsNode(m) && Below(s, m, n) && m != n
    requires !(Called(s, st, n, desired) && Splits(s, CallState(s, st, n, desired), n, desired))
    ensures m !in Updated(s, st, 0, desired, true).split
    decreases s.depth[n]
  {
    hide Req, Splits, SplitUpTo, Updated, Settled;
    s.ParentIsHigher(n);
    if Called(s, st, n, desired) {
      UntilCalled(s, st, n, desired, m);
      AfterDone(s, st, n, desired, m);
      var at := CallState(s, st, n, desired);
      UpdatedIs(s, at, n, desired);
      SettledSameSplit(s, at, n, desired[n]);
      SettledSameSplit(s, Asked(s, at, n), n, desired[n]);
    } else {
      var p := s.parent[n];
      ChildIsNode(s, p, PlaceOf(s, n));
      BelowTwice(s, m, n, p);
      NotSplitBelow(s, st, p, desired, m);
    }
  }

  /** Main result on splitting. A frame gets to the root and to the children of the nodes it
      splits, and of the nodes it gets to it splits those that want a finer lod when all they
      ask for is loaded at that point. */
  lemma FrameSplits(s: Shape, st: State, n: int, desired: seq<int>)
    requires s.Ok() && s.IsNode(n) && |st.lod| == |desired| == |s.parent| && st.split == {}
    ensures var split := Updated(s, st, 0, desired, true).split;
            && (Called(s, st, n, desired) <==> n == 0 || s.parent[n] in split)
            && (n in split <==> Called(s, st, n, desired) && Splits(s, CallState(s, st, n, desired), n, desired))
    decreases s.depth[n]
  {
    hide Req, Splits, SplitUpTo, Updated, CallState;
    s.ParentIsHigher(n);
    if n > 0 {
      var p := s.parent[n];
      ChildIsNode(s, p, PlaceOf(s, n));
      FrameSplits(s, st, p, desired);
      if !Called(s, st, n, desired) {
        NotSplitBelow(s, st, p, desired, n);
      }
    }
    if Called(s, st, n, desired) {
      CalledIsSplit(s, st, n, desired);
    }
  }

  // ----- progress from one frame to the next

  /** The node wants a finer lod than its level offers. */
  predicate Wants(s: Shape, n: int, desired: seq<int>)
    requires s.Ok() && s.IsNode(n) && |desired| == |s.parent|
  {
    s.HasChildren(n) && desired[n] > s.depth[n] % 256 * 256 + 255
  }

  /** The level of every node is that of its lod. */
  predicate LevelsOk(s: Shape, lod: seq<int>)
    requires s.Ok()
  {
    |lod| == |s.parent| && forall n :: 0 <= n < |lod| ==> lod[n] >= 0 && lod[n] / 256 == s.depth[n] % 256
  }

  lemma {:induction false} UpdateKeepsLevels(s: Shape, st: State, n: int, desired: seq<int>)
    requires s.Ok() && s.IsNode(n) && |st.lod| == |desired| == |s.parent| && LevelsOk(s, st.lod)
    ensures LevelsOk(s, Updated(s, st, n, desired, true).lod)
    decreases NodeHeight(s, n), 1, 0
  {
    hide Req, SettledMesh, Up, Clamp, MaySplit, UpdatedChildren, Updated;
    UpdatedIs(s, st, n, desired);
    if Splits(s, st, n, desired) {
      SplitKeepsLevels(s, st, n, desired, |s.children[n]|);
    }
  }

  lemma {:induction false} SplitKeepsLevels(s: Shape, st: State, n: int, desired: seq<int>, k: nat)
    requires s.Ok() && s.IsNode(n) && |st.lod| == |desired| == |s.parent| && LevelsOk(s, st.lod)
    requires k <= |s.children[n]|
    ensures LevelsOk(s, SplitUpTo(s, st, n, desired, k).lod)
    decreases NodeHeight(s, n), 0, k
  {
    hide Req, Up, Clamp, Updated;
    if k > 0 {
      ChildIsNode(s, n, k - 1);
      SplitKeepsLevels(s, st, n, desired, k - 1);
      NextChild(s, st, n, desired, k - 1);
      UpdateKeepsLevels(s, SplitUpTo(s, st, n, desired, k - 1), s.children[n][k - 1], desired);
    }
  }

  /** When the update gets to a node, whether it refines it is up to the wish alone; and then
      the node has the finest lod of its level. */
  lemma CalledRefines(s: Shape, st: State, n: int, desired: seq<int>)
    requires s.Ok() && s.IsNode(n) && |desired| == |s.parent| && LevelsOk(s, st.lod) && st.split == {}
    requires Called(s, st, n, desired)
    ensures var u := CallState(s, st, n, desired);
            && (Refines(s, u, n, desired) <==> Wants(s, n, desired))
            && (Wants(s, n, desired) ==> HighPriority(Morphed(u.lod[n], desired[n]), desired[n]))
  {
    hide Shape.Ok, CallState, Called;
    UntilCalled(s, st, n, desired, n);
    assert Below(s, n, n);
    assert n == 0 ==> s.depth[n] == 0 by {
      RootDepth(s);
    }
  }

  lemma RootDepth(s: Shape)
    requires s.Ok()
    ensures s.depth[0] == 0
  {
  }

  /** What is asked for, apart from the data of the node's own children: the nodes two levels
      above its neighbours, as long as they are not split. */
  function ReqElsewhere(s: Shape, split: set<int>, n: int): set<int>
    requires s.Ok() && s.IsNode(n)
  {
    ReqOfNeighbours(s, split, n, 4)
  }

  lemma ReqIs(s: Shape, split: set<int>, n: int)
    requires s.Ok() && s.IsNode(n) && n !in split && s.HasChildren(n) && (n > 0 ==> s.parent[n] in split)
    ensures Req(s, split, n) == Children(s, n) + ReqElsewhere(s, split, n)
  {
    hide ReqOfNeighbours;
    s.ParentIsHigher(n);
    assert Req(s, split, s.parent[n]) == {};
  }

  /** After a frame that gets to a node that wants a finer lod, its children have data,
      whether or not it could be split. */
  lemma ChildrenPrepared(s: Shape, st: State, n: int, desired: seq<int>)
    requires s.Ok() && s.IsNode(n) && |desired| == |s.parent| && LevelsOk(s, st.lod) && st.split == {}
    requires Called(s, st, n, desired) && Wants(s, n, desired)
    ensures Children(s, n) <= Updated(s, st, 0, desired, true).mesh
  {
    hide SettledMesh, Updated, SplitUpTo, Up, Clamped, CallState, Called, ReqElsewhere, Req;
    UntilCalled(s, st, n, desired, n);
    CalledRefines(s, st, n, desired);
    var at := CallState(s, st, n, desired);
    ReqIs(s, at.split, n);
    UpdatedIs(s, at, n, desired);
    if !Splits(s, at, n, desired) {
      SettledKeepsChildren(s, at.mesh + Req(s, at.split, n), n, |s.children[n]|);
    }
    forall c | c in Children(s, n)
      ensures c in Updated(s, st, 0, desired, true).mesh
    {
      s.Family(n, c);
      if Splits(s, at, n, desired) {
        ChildKept(s, at, n, desired, c, |s.children[n]|);
      }
      assert Below(s, c, n);
      AfterDone(s, st, n, desired, c);
    }
  }

  /** Updating the children of a node that was split takes no data from any of them. */
  lemma {:induction false} ChildKept(s: Shape, st: State, n: int, desired: seq<int>, c: int, k: nat)
    requires s.Ok() && s.IsNode(n) && |st.lod| == |desired| == |s.parent| && k <= |s.children[n]|
    requires c in Children(s, n) && c in st.mesh
    ensures c in SplitUpTo(s, st, n, desired, k).mesh
    decreases k
  {
    hide Req, Up, Clamped, Updated;
    if k > 0 {
      ChildKept(s, st, n, desired, c, k - 1);
      NextChild(s, st, n, desired, k - 1);
      FlaggedUpTo(s, st, n, desired, k - 1);
      ChildIsNode(s, n, k - 1);
      s.Family(n, c);
      var d, u := s.children[n][k - 1], SplitUpTo(s, st, n, desired, k - 1);
      if c == d {
        UpdateKeepsItself(s, u, d, desired);
      } else {
        SiblingApart(s, n, c, d);
        UpdateKeeps(s, u, d, desired, c);
      }
    }
  }

  lemma SiblingApart(s: Shape, n: int, c: int, d: int)
    requires s.Ok() && s.IsNode(n) && c in s.children[n] && d in s.children[n] && c != d
    ensures s.IsNode(c) && s.IsNode(d) && !Below(s, c, d)
  {
    s.Family(n, c);
    s.Family(n, d);
    if Below(s, c, d) {
      BelowIsDeeper(s, c, d);
    }
  }

  /** Updating a node does not take its own data. */
  lemma UpdateKeepsItself(s: Shape, st: State, n: int, desired: seq<int>)
    requires s.Ok() && s.IsNode(n) && |st.lod| == |desired| == |s.parent| && n in st.mesh
    ensures n in Updated(s, st, n, desired, true).mesh
    decreases NodeHeight(s, n), 1, 0
  {
    hide Req, SettledMesh, Updated, MaySplit, Up, Clamped;
    UpdatedIs(s, st, n, desired);
    var u := if Refines(s, st, n, desired) then Asked(s, st, n) else st;
    SettledKeeps(s, u.mesh, n, HighPriority(Morphed(u.lod[n], desired[n]), desired[n]), |s.children[n]|, n);
    if Splits(s, st, n, desired) {
      ItselfKept(s, st, n, desired, |s.children[n]|);
    }
  }

  lemma {:induction false} ItselfKept(s: Shape, st: State, n: int, desired: seq<int>, k: nat)
    requires s.Ok() && s.IsNode(n) && |st.lod| == |desired| == |s.parent| && k <= |s.children[n]| && n in st.mesh
    ensures n in SplitUpTo(s, st, n, desired, k).mesh
    decreases k
  {
    hide Req, Up, Clamped, Updated;
    if k > 0 {
      ItselfKept(s, st, n, desired, k - 1);
      NextChild(s, st, n, desired, k - 1);
      FlaggedUpTo(s, st, n, desired, k - 1);
      ChildIsNode(s, n, k - 1);
      UpdateKeeps(s, SplitUpTo(s, st, n, desired, k - 1), s.children[n][k - 1], desired, n);
    }
  }

  /** The state after a frame. */
  function AfterFrame(s: Shape, st: State, desired: seq<int>): (u: State)
    requires s.Ok() && |st.lod| == |desired| == |s.parent|
    ensures |u.lod| == |st.lod|
  {
    Updated(s, FrameStart(st), 0, desired, true)
  }

  /** Main result on progress. A node that wants a finer lod in two frames in a row, with its
      parent split in both, is split in the second one exactly if what it asks for around
      its neighbours is loaded when the update gets to it: its own children are. */
  lemma NodeSplitsNext(s: Shape, st: State, n: int, first: seq<int>, second: seq<int>)
    requires s.Ok() && s.IsNode(n) && |first| == |second| == |s.parent| && LodOk(s, st.lod)
    requires Wants(s, n, first) && Wants(s, n, second)
    requires n > 0 ==> && s.parent[n] in AfterFrame(s, st, first).split
                       && s.parent[n] in AfterFrame(s, AfterFrame(s, st, first), second).split
    ensures var between := AfterFrame(s, st, first);
            var at := CallState(s, FrameStart(between), n, second);
            n in AfterFrame(s, between, second).split <==> ReqElsewhere(s, at.split, n) <= at.mesh
  {
    hide Req, ReqElsewhere, CallState, Called, Updated;
    var start, between := FrameStart(st), AfterFrame(s, st, first);
    FrameSplits(s, start, n, first);
    ChildrenPrepared(s, start, n, first);
    UpdateKeepsLevels(s, start, 0, first);
    var again := FrameStart(between);
    FrameSplits(s, again, n, second);
    CalledRefines(s, again, n, second);
    UntilCalled(s, again, n, second, n);
    var at := CallState(s, again, n, second);
    ReqIs(s, at.split, n);
    forall c | c in Children(s, n)
      ensures c in at.mesh
    {
      s.Family(n, c);
      assert Below(s, c, n);
      UntilCalled(s, again, n, second, c);
    }
  }

  /** It is certain to be split then if each node two levels above a neighbour is split by
      that time, or is a leaf; and so is the root, which has no such nodes. */
  lemma NeighboursReady(s: Shape, split: set<int>, n: int)
    requires s.Ok() && s.IsNode(n)
    requires forall k :: 0 <= k < 4 && s.TwoUp(s.neighbour[n][k]) != -1 ==>
               s.TwoUp(s.neighbour[n][k]) in split || !s.HasChildren(s.TwoUp(s.neighbour[n][k]))
    ensures ReqElsewhere(s, split, n) == {}
  {
    for k := 0 to 4
      invariant ReqOfNeighbours(s, split, n, k) == {}
    {
      s.TwoUpIsHigher(n, k);
      assert Req(s, split, s.TwoUp(s.neighbour[n][k])) == {};
    }
  }

  lemma RootSplitsNext(s: Shape, st: State, first: seq<int>, second: seq<int>)
    requires s.Ok() && |first| == |second| == |s.parent| && LodOk(s, st.lod)
    requires Wants(s, 0, first) && Wants(s, 0, second)
    ensures 0 in AfterFrame(s, AfterFrame(s, st, first), second).split
  {
    hide Req, ReqElsewhere, CallState, AfterFrame;
    NodeSplitsNext(s, st, 0, first, second);
    forall k | 0 <= k < 4
      ensures s.TwoUp(s.neighbour[0][k]) == -1
    {
      s.TwoUpIsHigher(0, k);
      RootDepth(s);
    }
    NeighboursReady(s, CallState(s, FrameStart(AfterFrame(s, st, first)), 0, second).split, 0);
  }
}
