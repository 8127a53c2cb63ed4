/** What a frame leaves behind, written out: the lod of every node, the data below a node
    that stays unsplit, and what a node asks for before it is split. As in ChunkProgress, the
    test is the one for data. */
module ChunkLods {
  import opened ChunkModel
  import opened ChunkProgress

  // ----- lods

  /** lod is the value of this level that comes nearest to what is desired. */
  predicate Nearest(lod: int, level: int, desired: int) {
    && 256 * level <= lod <= 256 * level + 255
    && (256 * level <= desired <= 256 * level + 255 ==> lod == desired)
    && (desired < 256 * level ==> lod == 256 * level)
    && (desired > 256 * level + 255 ==> lod == 256 * level + 255)
  }

  lemma NearestIs(lod: int, level: int, desired: int)
    requires Nearest(lod, level, desired)
    ensures forall x: int :: 256 * level <= x <= 256 * level + 255 ==> Distance(lod, desired) <= Distance(x, desired)
  {
  }

  function Distance(a: int, b: int): nat { if a < b then b - a else a - b }

  lemma ClampIsNearest(lod: int, level: int, desired: int)
    requires lod / 256 == level
    ensures Nearest(Clamp(lod, desired), level, desired)
  {
  }

  /** A node that is settled keeps its lod, unless it is the root. */
  lemma SettledLod(s: Shape, st: State, n: int, desired: seq<int>)
    requires s.Ok() && s.IsNode(n) && |desired| == |s.parent| && LevelsOk(s, st.lod)
    requires n > 0 ==> Nearest(st.lod[n], s.depth[n] % 256, desired[n])
    ensures Nearest(Settled(s, st, n, desired[n]).lod[n], s.depth[n] % 256, desired[n])
    ensures forall m :: 0 <= m < |st.lod| && m != n ==> Settled(s, st, n, desired[n]).lod[m] == st.lod[m]
  {
    hide SettledMesh, Shape.Ok;
    ClampIsNearest(st.lod[n], s.depth[n] % 256, desired[n]);
    if n == 0 {
      RootDepth(s);
    }
  }

  /** Splitting a node and updating its children does not change its own lod. */
  lemma SplitLod(s: Shape, st: State, n: int, desired: seq<int>)
    requires s.Ok() && s.IsNode(n) && |st.lod| == |desired| == |s.parent|
    requires s.parent[n] == -1 || s.parent[n] in st.split
    ensures SplitUpTo(s, st, n, desired, |s.children[n]|).lod[n] == st.lod[n]
  {
    hide Req, Below, UpdatedChildren, Updated, Up;
    UpUnderSplit(s, st.split, n);
    s.ParentIsHigher(n);
    forall i | 0 <= i < |s.children[n]|
      ensures s.IsNode(s.children[n][i]) && !Below(s, n, s.children[n][i])
    {
      ChildIsNode(s, n, i);
    }
    OthersKeep(s, st, n, desired, n, 0, |s.children[n]|);
    NothingUpdated(s, st, n, desired);
  }

  lemma NothingUpdated(s: Shape, st: State, n: int, desired: seq<int>)
    requires s.Ok() && s.IsNode(n) && |st.lod| == |desired| == |s.parent|
    requires Up(s, st.split, n) <= {n} && s.parent[n] != n
    ensures SplitUpTo(s, st, n, desired, 0).lod[n] == st.lod[n]
  {
    hide Req, Up, Clamp;
  }

  /** The lod of a node that the update gets to. */
  lemma CalledLod(s: Shape, st: State, n: int, desired: seq<int>)
    requires s.Ok() && s.IsNode(n) && |desired| == |s.parent| && LevelsOk(s, st.lod) && st.split == {}
    requires Called(s, st, n, desired)
    ensures var u := Updated(s, st, 0, desired, true);
            if n == 0 && 0 in u.split then u.lod[n] == st.lod[n]
            else Nearest(u.lod[n], s.depth[n] % 256, desired[n])
  {
    hide Req, Below, Splits, SplitUpTo, Updated, Settled, CallState, Called, Clamp, Nearest;
    ItselfBelow(s, n);
    UntilCalled(s, st, n, desired, n);
    AfterDone(s, st, n, desired, n);
    CalledIsSplit(s, st, n, desired);
    var at := CallState(s, st, n, desired);
    UpdatedIs(s, at, n, desired);
    ClampIsNearest(st.lod[n], s.depth[n] % 256, desired[n]);
    CallLevels(s, st, n, desired);
    s.ParentIsHigher(n);
    if Splits(s, at, n, desired) {
      SplitLod(s, at, n, desired);
    } else {
      SettledLod(s, at, n, desired);
      SettledLod(s, Asked(s, at, n), n, desired);
    }
  }

  lemma ItselfBelow(s: Shape, n: int)
    requires s.Ok() && s.IsNode(n)
    ensures Below(s, n, n)
  {
  }

  /** The levels are right whenever the update gets somewhere. */
  lemma {:induction false} CallLevels(s: Shape, st: State, n: int, desired: seq<int>)
    requires s.Ok() && s.IsNode(n) && |st.lod| == |desired| == |s.parent| && LevelsOk(s, st.lod)
    ensures LevelsOk(s, CallState(s, st, n, desired).lod)
    decreases s.depth[n]
  {
    hide Updated, SplitUpTo, LevelsOk;
    s.ParentIsHigher(n);
    if n > 0 {
      CallLevels(s, st, s.parent[n], desired);
      SplitKeepsLevels(s, CallState(s, st, s.parent[n], desired), s.parent[n], desired, PlaceOf(s, n));
    }
  }

  /** Nothing below a node changes its lod if the update does not split the node. */
  lemma {:induction false} SameLodBelow(s: Shape, st: State, n: int, desired: seq<int>, m: int)
    requires s.Ok() && s.IsNode(n) && |st.lod| == |desired| == |s.parent| && st.split == {}
    requires s.IsNode(m) && Below(s, m, n) && m != n
    requires !(Called(s, st, n, desired) && Splits(s, CallState(s, st, n, desired), n, desired))
    ensures Updated(s, st, 0, desired, true).lod[m] == st.lod[m]
    decreases s.depth[n]
  {
    hide Req, Splits, SplitUpTo, Updated, SettledMesh, Morphed;
    s.ParentIsHigher(n);
    if Called(s, st, n, desired) {
      UntilCalled(s, st, n, desired, m);
      AfterDone(s, st, n, desired, m);
      UpdatedIs(s, CallState(s, st, n, desired), n, desired);
    } else {
      var p := s.parent[n];
      ChildIsNode(s, p, PlaceOf(s, n));
      BelowTwice(s, m, n, p);
      SameLodBelow(s, st, p, desired, m);
    }
  }

  /** Main result on lods. After a frame, the root, if it is not split, and the children of
      the nodes that are, have the lod of their level that comes nearest to the one desired;
      no other lod has changed. */
  lemma LodAfterFrame(s: Shape, st: State, n: int, desired: seq<int>)
    requires s.Ok() && s.IsNode(n) && |desired| == |s.parent| && LodOk(s, st.lod)
    ensures var u := AfterFrame(s, st, desired);
            if (n == 0 && 0 !in u.split) || (n > 0 && s.parent[n] in u.split) then
              Nearest(u.lod[n], s.depth[n] % 256, desired[n])
            else u.lod[n] == st.lod[n]
  {
    hide Updated, CallState, Called, Splits, Nearest;
    var start := FrameStart(st);
    FrameSplits(s, start, n, desired);
    if Called(s, start, n, desired) {
      CalledLod(s, start, n, desired);
    } else {
      s.ParentIsHigher(n);
      var p := s.parent[n];
      FrameSplits(s, start, p, desired);
      ChildIsNode(s, p, PlaceOf(s, n));
      SameLodBelow(s, start, p, desired, n);
    }
  }

  // ----- data below a node that stays unsplit

  /** Child j of n, and a node m below it. */
  predicate Under(s: Shape, n: int, j: nat, m: int)
    requires s.Ok() && s.IsNode(n) && j < |s.children[n]|
  {
    s.IsNode(m) && s.IsNode(s.children[n][j]) && Below(s, m, s.children[n][j])
  }

  lemma {:induction false} LowMesh(s: Shape, mesh: set<int>, n: int, k: nat, j: nat, m: int)
    requires s.Ok() && s.IsNode(n) && j < k <= |s.children[n]| && Under(s, n, j, m)
    ensures m !in SettledMesh(s, mesh, n, false, k)
  {
    hide Below, Shape.Ok;
    ChildIsNode(s, n, k - 1);
    if j < k - 1 {
      LowMesh(s, mesh, n, k - 1, j, m);
    }
  }

  lemma {:induction false} HighMesh(s: Shape, mesh: set<int>, n: int, k: nat, j: nat, m: int)
    requires s.Ok() && s.IsNode(n) && k <= |s.children[n]| && j < |s.children[n]| && Under(s, n, j, m)
    ensures m in SettledMesh(s, mesh, n, true, k)
            <==> if j < k then m == s.children[n][j] || (m in mesh && s.depth[m] < s.depth[n] + 3) else m in mesh
  {
    hide Below, Shape.Ok, GrandSubtrees;
    if k > 0 {
      var c := s.children[n][k - 1];
      ChildIsNode(s, n, k - 1);
      HighMesh(s, mesh, n, k - 1, j, m);
      GrandSubtreesMean(s, c, m);
      if j != k - 1 {
        ChildrenApart(s, n, j, k - 1, m);
        OnlyItself(s, c, m);
      }
    }
  }

  lemma OnlyItself(s: Shape, c: int, m: int)
    requires s.Ok() && s.IsNode(c) && s.IsNode(m) && !Below(s, m, c)
    ensures m != c
  {
  }

  /** Main result on data. When a node stays unsplit, then below it, if it is at least half
      way to being split, its children have data, its grandchildren keep what they had or
      were asked for, and nothing further down has any; otherwise nothing below it has. */
  lemma DataBelowUnsplit(s: Shape, st: State, n: int, desired: seq<int>, m: int)
    requires s.Ok() && s.IsNode(n) && |st.lod| == |desired| == |s.parent| && !Splits(s, st, n, desired)
    requires s.IsNode(m) && Below(s, m, n) && m != n
    ensures var u := Updated(s, st, n, desired, true);
            var asked := if s.HasChildren(n) && desired[n] > st.lod[n] / 256 * 256 + 255 then Req(s, st.split, n)
                         else {};
            m in u.mesh
            <==> desired[n] > u.lod[n] / 256 * 256 && u.lod[n] % 256 >= 128
                 && (s.depth[m] == s.depth[n] + 1 || (s.depth[m] == s.depth[n] + 2 && m in st.mesh + asked))
  {
    hide Req, Below, Splits, SettledMesh, Morphed, Updated;
    UpdatedIs(s, st, n, desired);
    var c := BelowViaChild(s, m, n);
    var j :| 0 <= j < |s.children[n]| && s.children[n][j] == c;
    ChildIsNode(s, n, j);
    BelowIsDeeper(s, m, c);
    var before := if Refines(s, st, n, desired) then Asked(s, st, n) else st;
    LowMesh(s, before.mesh, n, |s.children[n]|, j, m);
    HighMesh(s, before.mesh, n, |s.children[n]|, j, m);
  }

  // ----- what a node asks for

  /** An inner node that is not split yet asks for its children. */
  predicate Asks(s: Shape, split: set<int>, n: int)
    requires s.Ok()
  {
    s.IsNode(n) && n !in split && s.HasChildren(n)
  }

  /** And it passes the question on to its parent, and to the node two levels above each of
      its neighbours. */
  predicate PassesOn(s: Shape, a: int, b: int)
    requires s.Ok() && s.IsNode(a) && s.IsNode(b)
  {
    b == s.parent[a] || exists k :: 0 <= k < 4 && TwoAbove(s, s.neighbour[a][k], b)
  }

  predicate TwoAbove(s: Shape, n: int, b: int)
    requires s.Ok() && s.IsNode(b)
  {
    s.IsNode(n) && s.IsNode(s.parent[n]) && s.parent[s.parent[n]] == b
  }

  /** Each of these nodes asks, and passes the question on to the next. */
  ghost predicate Chain(s: Shape, split: set<int>, path: seq<int>)
    requires s.Ok()
  {
    && path != [] && (forall i :: 0 <= i < |path| ==> Asks(s, split, path[i]))
    && forall i :: 0 <= i < |path| - 1 ==> PassesOn(s, path[i], path[i + 1])
  }

  lemma {:induction false} AskedByChain(s: Shape, split: set<int>, n: int, c: int) returns (path: seq<int>)
    requires s.Ok() && s.IsNode(n) && c in Req(s, split, n)
    ensures Chain(s, split, path) && path != [] && path[0] == n
    ensures s.IsNode(path[|path| - 1]) && c in s.children[path[|path| - 1]]
    decreases s.depth[n]
  {
    hide PassesOn, Chain;
    s.ParentIsHigher(n);
    if c in Children(s, n) {
      path := [n];
      ChainOfOne(s, split, n);
    } else if s.parent[n] != -1 && c in Req(s, split, s.parent[n]) {
      path := AskedByChain(s, split, s.parent[n], c);
      ParentNext(s, n);
      LongerChain(s, split, n, path);
      path := [n] + path;
    } else {
      var k := NeighbourAsks(s, split, n, 4, c);
      s.TwoUpIsHigher(n, k);
      var b := s.TwoUp(s.neighbour[n][k]);
      path := AskedByChain(s, split, b, c);
      NeighbourNext(s, n, k);
      LongerChain(s, split, n, path);
      path := [n] + path;
    }
  }

  lemma ChainOfOne(s: Shape, split: set<int>, n: int)
    requires s.Ok() && Asks(s, split, n)
    ensures Chain(s, split, [n])
  {
  }

  lemma LongerChain(s: Shape, split: set<int>, n: int, path: seq<int>)
    requires s.Ok() && Asks(s, split, n) && Chain(s, split, path) && PassesOn(s, n, path[0])
    ensures var longer := [n] + path;
            Chain(s, split, longer) && longer[0] == n && longer[|longer| - 1] == path[|path| - 1]
  {
    hide PassesOn;
    var longer := [n] + path;
    forall i | 0 <= i < |longer|
      ensures Asks(s, split, longer[i]) && (i < |path| ==> longer[i + 1] == path[i])
    {
      assert i > 0 ==> longer[i] == path[i - 1];
    }
    forall i | 0 <= i < |longer| - 1
      ensures PassesOn(s, longer[i], longer[i + 1])
    {
      assert i > 0 ==> longer[i] == path[i - 1] && PassesOn(s, path[i - 1], path[i - 1 + 1]);
    }
  }

  lemma ParentNext(s: Shape, n: int)
    requires s.Ok() && s.IsNode(n) && s.parent[n] != -1
    ensures s.IsNode(s.parent[n]) && PassesOn(s, n, s.parent[n])
  {
    s.ParentIsHigher(n);
  }

  lemma NeighbourNext(s: Shape, n: int, k: nat)
    requires s.Ok() && s.IsNode(n) && k < 4 && s.TwoUp(s.neighbour[n][k]) != -1
    ensures PassesOn(s, n, s.TwoUp(s.neighbour[n][k]))
  {
    assert TwoAbove(s, s.neighbour[n][k], s.TwoUp(s.neighbour[n][k]));
  }

  lemma {:induction false} NeighbourAsks(s: Shape, split: set<int>, n: int, k: nat, c: int) returns (j: nat)
    requires s.Ok() && s.IsNode(n) && k <= 4 && c in ReqOfNeighbours(s, split, n, k)
    ensures j < k && s.TwoUp(s.neighbour[n][j]) != -1 && c in Req(s, split, s.TwoUp(s.neighbour[n][j]))
  {
    hide Req;
    s.TwoUpIsHigher(n, k - 1);
    ReqUpwards(s, split, s.TwoUp(s.neighbour[n][k - 1]));
    if c in Req(s, split, s.TwoUp(s.neighbour[n][k - 1])) {
      j := k - 1;
    } else {
      j := NeighbourAsks(s, split, n, k - 1, c);
    }
  }

  lemma {:induction false} NeighbourIncluded(s: Shape, split: set<int>, n: int, j: nat, k: nat)
    requires s.Ok() && s.IsNode(n) && j < k <= 4
    ensures Req(s, split, s.TwoUp(s.neighbour[n][j])) <= ReqOfNeighbours(s, split, n, k)
  {
    hide Req;
    s.TwoUpIsHigher(n, k - 1);
    if j < k - 1 {
      NeighbourIncluded(s, split, n, j, k - 1);
    }
  }

  lemma NextIncluded(s: Shape, split: set<int>, a: int, b: int)
    requires s.Ok() && Asks(s, split, a) && s.IsNode(b) && PassesOn(s, a, b)
    ensures Req(s, split, b) <= Req(s, split, a)
  {
    s.ParentIsHigher(a);
    if b != s.parent[a] {
      var k :| 0 <= k < 4 && TwoAbove(s, s.neighbour[a][k], b);
      NeighbourIncluded(s, split, a, k, 4);
    }
  }

  lemma {:induction false} ChainAsksFor(s: Shape, split: set<int>, path: seq<int>, c: int)
    requires s.Ok() && Chain(s, split, path) && c in s.children[path[|path| - 1]]
    ensures c in Req(s, split, path[0])
    decreases |path|
  {
    hide Req, PassesOn;
    if |path| == 1 {
      ChildrenAsked(s, split, path[0]);
    } else {
      var more := path[1..];
      assert forall i :: 0 <= i < |more| ==> more[i] == path[i + 1];
      ChainAsksFor(s, split, more, c);
      NextIncluded(s, split, path[0], path[1]);
    }
  }

  lemma ChildrenAsked(s: Shape, split: set<int>, n: int)
    requires s.Ok() && Asks(s, split, n)
    ensures Children(s, n) <= Req(s, split, n)
  {
  }

  /** Main result on requests: what CanSplit loads for a node are the children of the nodes
      that the question is passed on to, as far as it gets, and nothing else. */
  lemma AskedForIff(s: Shape, split: set<int>, n: int, c: int)
    requires s.Ok() && s.IsNode(n)
    ensures c in Req(s, split, n)
            <==> exists path :: Chain(s, split, path) && path[0] == n && c in s.children[path[|path| - 1]]
  {
    hide Req, PassesOn;
    if c in Req(s, split, n) {
      var path := AskedByChain(s, split, n, c);
    }
    if path :| Chain(s, split, path) && path[0] == n && c in s.children[path[|path| - 1]] {
      ChainAsksFor(s, split, path, c);
    }
  }
}
