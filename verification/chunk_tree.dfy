/** ChunkLodNode and ChunkLodTree: splitting and loading, node by node. A node is named by
    its index in the pool of the tree. */
module ChunkTree {
  import opened ChunkModel
  import opened ChunkPlaces

  class ChunkLodNode {
    var parent: int
    var children: seq<int>
    var neighbour: seq<Link>
    var level: int
    var split: bool
    var lod: int
    var hasMesh: bool

    constructor ()
      ensures parent == -1 && children == [] && !split && !hasMesh && lod == 0
      ensures neighbour == [Label(-1), Label(-1), Label(-1), Label(-1)]
    {
      parent, children, neighbour := -1, [], [Label(-1), Label(-1), Label(-1), Label(-1)];
      level, split, lod, hasMesh := 0, false, 0, false;
    }
  }

  lemma FinishedFields(records: seq<Record>, k: int, m: int)
    requires |records| == TreeSize(k) && FileOk(records, k) && 0 <= m < |records|
    ensures var s, d := LoadedShape(records, k), Finished(records, k, m);
            && d.parent == s.parent[m] && d.children == s.children[m] && Linked(d.neighbour, s.neighbour[m])
            && d.level == s.depth[m] % 256 && 0 <= d.lod < 0x1_0000 && d.lod / 256 == s.depth[m] % 256
  {
    hide PlaceOf, Labelled, TreeSize, Neighbours;
  }

  predicate Linked(links: seq<Link>, nodes: seq<int>) {
    |links| == |nodes| && forall j :: 0 <= j < |nodes| ==> links[j] == Node(nodes[j])
  }

  class BinaryReader {
    const records: seq<Record>
    var pos: nat

    constructor (records: seq<Record>)
      ensures this.records == records && pos == 0
    {
      this.records := records;
      pos := 0;
    }

    method Read() returns (r: Record)
      requires pos < |records|
      modifies this`pos
      ensures r == records[old(pos)] && pos == old(pos) + 1
    {
      r := records[pos];
      pos := pos + 1;
    }
  }

  class ChunkLodTree {
    var chunks: seq<ChunkLodNode>
    var chunkTable: seq<int>
    var chunksAllocated: nat
    var numMeshesAllocated: int

    /** Whether CanSplit asks if a child has no data, as its comments say. The program asks
        if there is a child at all. */
    const testsData: bool

    ghost var shape: Shape
    ghost var state: State
    ghost var pool: seq<NodeData>

    ghost predicate Valid()
      reads this, chunks
      ensures Valid() ==> shape.Ok() && |state.lod| == |shape.parent|
    {
      && shape.Ok()
      && |chunks| == |shape.parent| == |state.lod|
      && (forall i, j :: 0 <= i < j < |chunks| ==> chunks[i] != chunks[j])
      && (forall i :: 0 <= i < |chunks| ==> Fits(chunks[i], i))
      && (forall i :: i in state.split || i in state.mesh ==> 0 <= i < |chunks|)
      && numMeshesAllocated == |state.mesh|
    }

    /** The node object holds what shape and state say about node i. */
    ghost predicate Fits(node: ChunkLodNode, i: int)
      requires shape.Ok() && 0 <= i < |shape.parent| == |state.lod|
      reads this, node
    {
      && node.parent == shape.parent[i]
      && node.children == shape.children[i]
      && Linked(node.neighbour, shape.neighbour[i])
      && (node.split <==> i in state.split)
      && (node.hasMesh <==> i in state.mesh)
      && node.lod == state.lod[i]
      && node.level == shape.depth[i] % 256
    }

    lemma At(n: int)
      requires Valid() && shape.IsNode(n)
      ensures n < |chunks| == |shape.parent| && chunks[n].parent == shape.parent[n]
      ensures chunks[n].children == shape.children[n]
      ensures chunks[n].split <==> n in state.split
      ensures chunks[n].hasMesh <==> n in state.mesh
      ensures chunks[n].lod == state.lod[n] && chunks[n].level == shape.depth[n] % 256
      ensures shape.depth[n] <= shape.height
    {
      assert Fits(chunks[n], n);
      shape.NodeIsOk(n);
    }

    lemma LinkAt(n: int, j: int)
      requires Valid() && shape.IsNode(n) && 0 <= j < 4
      ensures n < |chunks| && |chunks[n].neighbour| == 4 && chunks[n].neighbour[j] == Node(shape.neighbour[n][j])
      ensures -1 <= shape.neighbour[n][j] < |shape.parent|
    {
      assert Fits(chunks[n], n);
      shape.NodeIsOk(n);
    }

    // ----- one node

    method FlagSplit(n: nat)
      requires Valid() && shape.IsNode(n)
      modifies this`state, chunks`split
      ensures Valid() && state == old(state).(split := old(state.split) + {n})
    {
      hide Linked, Shape.Ok;
      chunks[n].split := true;
      state := state.(split := state.split + {n});
    }

    method UnflagSplit(n: nat)
      requires Valid() && shape.IsNode(n)
      modifies this`state, chunks`split
      ensures Valid() && state == old(state).(split := old(state.split) - {n})
    {
      hide Linked, Shape.Ok;
      chunks[n].split := false;
      state := state.(split := state.split - {n});
    }

    method SetLod(n: nat, lod: int)
      requires Valid() && shape.IsNode(n)
      modifies this`state, chunks`lod
      ensures Valid() && state == old(state).(lod := old(state.lod)[n := lod])
    {
      hide Linked, Shape.Ok;
      chunks[n].lod := lod;
      state := state.(lod := state.lod[n := lod]);
    }

    method RequestLoadData(n: nat)
      requires Valid() && shape.IsNode(n)
      modifies this`state, this`numMeshesAllocated, chunks`hasMesh
      ensures Valid() && state == old(state).(mesh := old(state.mesh) + {n})
    {
      hide Valid;
      At(n);
      if chunks[n].hasMesh {
        assert state.mesh + {n} == state.mesh;
        return;
      }
      CreateMesh(n);
    }

    method CreateMesh(n: nat)
      requires Valid() && shape.IsNode(n) && n !in state.mesh
      modifies this`state, this`numMeshesAllocated, chunks`hasMesh
      ensures Valid() && state == old(state).(mesh := old(state.mesh) + {n})
    {
      hide Linked, Shape.Ok;
      chunks[n].hasMesh := true;
      state := state.(mesh := state.mesh + {n});
      numMeshesAllocated := numMeshesAllocated + 1;
    }

    method RequestUnloadData(n: nat)
      requires Valid() && shape.IsNode(n) && n in state.mesh
      modifies this`state, this`numMeshesAllocated, chunks`hasMesh
      ensures Valid() && state == old(state).(mesh := old(state.mesh) - {n})
    {
      hide Linked, Shape.Ok;
      chunks[n].hasMesh := false;
      state := state.(mesh := state.mesh - {n});
      numMeshesAllocated := numMeshesAllocated - 1;
    }

    // ----- whole subtrees

    /** RequestUnloadSubtree stops at a node without data. When data is closed, no node of
        the subtree keeps any. */
    method RequestUnloadSubtree(n: nat)
      requires Valid() && shape.IsNode(n) && MeshClosed(shape, state.mesh)
      modifies this`state, this`numMeshesAllocated, chunks`hasMesh
      ensures Valid() && state == old(state).(mesh := old(state.mesh) - Subtree(shape, n))
      decreases shape.height - shape.depth[n], 1
    {
      hide Valid, Subtree, Subtrees, MeshClosed;
      At(n);
      SubtreeSplits(shape, n);
      if chunks[n].hasMesh {
        UnloadChildren(n);
        RequestUnloadData(n);
      } else {
        NothingToUnload(shape, state.mesh, n);
      }
    }

    method UnloadChildren(n: nat)
      requires Valid() && shape.IsNode(n) && MeshClosed(shape, state.mesh)
      modifies this`state, this`numMeshesAllocated, chunks`hasMesh
      ensures Valid() && state == old(state).(mesh := old(state.mesh) - Subtrees(shape, n, |shape.children[n]|))
      ensures MeshClosed(shape, state.mesh)
      decreases shape.height - shape.depth[n], 0
    {
      hide Valid, Subtree, Subtrees, MeshClosed;
      At(n);
      var children := chunks[n].children;
      NoSubtrees(shape, n);
      for i := 0 to |children|
        invariant Valid() && MeshClosed(shape, state.mesh)
        invariant state == old(state).(mesh := old(state.mesh) - Subtrees(shape, n, i))
      {
        ChildIsNode(shape, n, i);
        SubtreesNext(shape, n, i);
        UnloadedClosed(shape, state.mesh, children[i]);
        RequestUnloadSubtree(children[i]);
      }
    }

    /** ClearSplits stops at an unsplit node. When split flags are closed, no node of the
        subtree stays split. */
    method ClearSplits(n: nat)
      requires Valid() && shape.IsNode(n) && ClosedWithin(shape, state.split, n)
      modifies this`state, chunks`split
      ensures Valid() && state == old(state).(split := old(state.split) - Subtree(shape, n))
      decreases shape.height - shape.depth[n]
    {
      hide Valid, Subtree, Subtrees, ClosedWithin;
      At(n);
      SubtreeSplits(shape, n);
      if chunks[n].split {
        UnflagSplit(n);
        var children := chunks[n].children;
        NoSubtrees(shape, n);
        for i := 0 to |children|
          invariant Valid()
          invariant state == old(state).(split := (old(state.split) - {n}) - Subtrees(shape, n, i))
        {
          ChildIsNode(shape, n, i);
          SubtreesNext(shape, n, i);
          ClosedWithinChild(shape, old(state.split), n, i);
          ClearSplits(children[i]);
        }
      } else {
        NothingToClear(shape, state.split, n);
      }
    }

    // ----- splitting

    /** Whether the node can be split; asks for the data that takes. */
    method CanSplit(n: nat) returns (canSplit: bool)
      requires Valid() && shape.IsNode(n)
      modifies this`state, this`numMeshesAllocated, chunks`hasMesh
      ensures Valid() && state == old(state).(mesh := old(state.mesh) + Req(shape, state.split, n))
      ensures canSplit <==> MaySplit(shape, old(state), n, testsData)
      decreases shape.depth[n], 1
    {
      hide Valid;
      At(n);
      shape.ParentIsHigher(n);
      if chunks[n].split {
        return true;
      }
      if chunks[n].children == [] {
        return false;
      }
      var a := RequestChildren(n);
      var b := AskAncestors(n);
      var c := AskNeighbours(n);
      canSplit := a && b && c;
    }

    method RequestChildren(n: nat) returns (canSplit: bool)
      requires Valid() && shape.IsNode(n) && shape.HasChildren(n)
      modifies this`state, this`numMeshesAllocated, chunks`hasMesh
      ensures Valid() && state == old(state).(mesh := old(state.mesh) + Children(shape, n))
      ensures canSplit <==> testsData && Children(shape, n) <= old(state.mesh)
    {
      hide Valid, FirstChildren, Children;
      canSplit := true;
      At(n);
      var children := chunks[n].children;
      FirstChildrenNext(shape, n, 0);
      for i := 0 to |children|
        invariant Valid()
        invariant state == old(state).(mesh := old(state.mesh) + FirstChildren(shape, n, i))
        invariant canSplit <==> i == 0 || (testsData && FirstChildren(shape, n, i) <= old(state.mesh))
      {
        ChildIsNode(shape, n, i);
        FirstChildrenNext(shape, n, i);
        var asked := RequestChild(children[i]);
        if asked {
          canSplit := false;
        }
      }
      FirstChildrenNext(shape, n, |children|);
    }

    method RequestChild(child: nat) returns (asked: bool)
      requires Valid() && shape.IsNode(child)
      modifies this`state, this`numMeshesAllocated, chunks`hasMesh
      ensures Valid() && state == old(state).(mesh := old(state.mesh) + {child})
      ensures asked <==> !(testsData && child in old(state.mesh))
    {
      hide Valid;
      At(child);
      asked := !testsData || !chunks[child].hasMesh;
      if asked {
        RequestLoadData(child);
      }
      assert !asked ==> state.mesh + {child} == state.mesh;
    }

    /** Every unsplit ancestor is asked, nearest first. */
    method AskAncestors(n: nat) returns (canSplit: bool)
      requires Valid() && shape.IsNode(n)
      modifies this`state, this`numMeshesAllocated, chunks`hasMesh
      ensures Valid() && state == old(state).(mesh := old(state.mesh) + Req(shape, state.split, shape.parent[n]))
      ensures testsData ==> (canSplit <==> Req(shape, state.split, shape.parent[n]) <= old(state.mesh))
      decreases shape.depth[n], 0
    {
      hide Valid, Req, ReqOfNeighbours;
      At(n);
      shape.ParentIsHigher(n);
      canSplit := true;
      var p := chunks[n].parent;
      ghost var st, asked := state, Req(shape, state.split, shape.parent[n]);
      ghost var started := false;
      var open := IsOpen(p);
      while open
        invariant Valid() && -1 <= p < |shape.parent| && (p != -1 ==> shape.depth[p] < shape.depth[n])
        invariant open <==> p != -1 && p !in st.split
        invariant p != -1 ==> shape.HasChildren(p)
        invariant state == if started then st.(mesh := st.mesh + asked) else st
        invariant !started ==> p == shape.parent[n] && canSplit
        invariant Req(shape, st.split, p) <= asked
        invariant started && testsData ==> (canSplit <==> asked <= st.mesh)
        decreases if p == -1 then 0 else shape.depth[p] + 1
      {
        ReqUpwards(shape, st.split, p);
        shape.ParentIsHigher(p);
        assert state.mesh + Req(shape, st.split, p) == st.mesh + asked;
        var can := CanSplit(p);
        if !can {
          canSplit := false;
        }
        At(p);
        started, p := true, chunks[p].parent;
        open := IsOpen(p);
      }
      ReqUpwards(shape, st.split, p);
      assert !started ==> st.mesh + asked == st.mesh;
    }

    /** There is such a node, and it is not split. */
    method IsOpen(p: int) returns (open: bool)
      requires Valid() && -1 <= p < |shape.parent|
      ensures open <==> p != -1 && p !in state.split
    {
      hide Valid;
      if p != -1 {
        At(p);
      }
      open := p != -1 && !chunks[p].split;
    }

    /** The nodes two levels above the neighbours are asked. */
    method AskNeighbours(n: nat) returns (canSplit: bool)
      requires Valid() && shape.IsNode(n)
      modifies this`state, this`numMeshesAllocated, chunks`hasMesh
      ensures Valid() && state == old(state).(mesh := old(state.mesh) + ReqOfNeighbours(shape, state.split, n, 4))
      ensures testsData ==> (canSplit <==> ReqOfNeighbours(shape, state.split, n, 4) <= old(state.mesh))
      decreases shape.depth[n], 0
    {
      hide Valid;
      canSplit := true;
      for i := 0 to 4
        invariant Valid()
        invariant state == old(state).(mesh := old(state.mesh) + ReqOfNeighbours(shape, state.split, n, i))
        invariant testsData ==> (canSplit <==> ReqOfNeighbours(shape, state.split, n, i) <= old(state.mesh))
      {
        LinkAt(n, i);
        shape.TwoUpIsHigher(n, i);
        var m := TwoUp(chunks[n].neighbour[i].node);
        if m != -1 {
          var can := CanSplit(m);
          if !can {
            canSplit := false;
          }
        }
      }
    }

    /** The node up to two levels above. */
    method TwoUp(n: int) returns (m: int)
      requires Valid() && -1 <= n < |shape.parent|
      ensures m == shape.TwoUp(n)
    {
      hide Valid;
      m := n;
      var count := 0;
      while m != -1 && count < 2
        invariant 0 <= count <= 2 && -1 <= m < |shape.parent|
        invariant count > 0 ==> n != -1
        invariant count > 1 ==> shape.parent[n] != -1
        invariant m == if count == 0 then n else if count == 1 then shape.parent[n] else shape.TwoUp(n)
        decreases 2 - count
      {
        At(m);
        m := chunks[m].parent;
        count := count + 1;
      }
    }

    /** The children of a node that was just split get a lod of their own depth. */
    method ClampChildren(n: nat, desired: seq<int>)
      requires Valid() && shape.IsNode(n) && |desired| == |shape.parent|
      modifies this`state, chunks`lod
      ensures Valid() && state == old(state).(lod := Clamped(shape, old(state.lod), desired, {n}))
    {
      hide Valid, Clamp;
      At(n);
      var children := chunks[n].children;
      for i := 0 to |children|
        invariant Valid()
        invariant state == old(state).(lod := ClampedUpTo(shape, old(state.lod), desired, n, i))
      {
        ChildIsNode(shape, n, i);
        At(children[i]);
        ClampedNext(shape, old(state.lod), desired, n, i);
        SetLod(children[i], Clamp(chunks[children[i]].lod, desired[children[i]]));
      }
      ClampedAll(shape, old(state.lod), desired, n);
    }

    /** Flags the node and its unsplit ancestors, the node itself first. */
    method DoSplit(n: nat, desired: seq<int>)
      requires Valid() && shape.IsNode(n) && Splittable(shape, state, n, testsData) && |desired| == |shape.parent|
      modifies this`state, this`numMeshesAllocated, chunks`hasMesh, chunks`split, chunks`lod
      ensures Valid()
      ensures state == old(state).(split := old(state.split) + Up(shape, old(state.split), n),
                                   lod := Clamped(shape, old(state.lod), desired, Up(shape, old(state.split), n)))
      ensures SplitClosed(shape, state.split)
      decreases shape.depth[n], 1
    {
      hide Valid, Up, Splittable, Clamped, Req, MaySplit, SplitClosedBut;
      At(n);
      SplittableIs(shape, state, n, testsData);
      if !chunks[n].split {
        SplittableMaySplit(shape, state, n, testsData);
        var can := CanSplit(n);
        At(n);
        assert can && chunks[n].hasMesh;
        FlaggedFirst(shape, state, n, testsData);
        SplitThenUp(shape, state, n, desired);
        FlagSplit(n);
        ClampChildren(n, desired);
        SplitAncestors(n, desired);
      } else {
        NothingToSplit(shape, state, n, desired);
      }
    }

    /** The loop over the ancestors; the first round does all the work. */
    method SplitAncestors(n: nat, desired: seq<int>)
      requires Valid() && shape.IsNode(n) && |desired| == |shape.parent|
      requires SplitClosedBut(shape, state.split, shape.parent[n])
      requires shape.parent[n] != -1 ==> Splittable(shape, state, shape.parent[n], testsData)
      modifies this`state, this`numMeshesAllocated, chunks`hasMesh, chunks`split, chunks`lod
      ensures Valid() && SplitClosed(shape, state.split)
      ensures state == old(state).(split := old(state.split) + Up(shape, old(state.split), shape.parent[n]),
                                   lod := Clamped(shape, old(state.lod), desired,
                                     Up(shape, old(state.split), shape.parent[n])))
      decreases shape.depth[n], 0
    {
      hide Valid, Up, Splittable, Clamped, Req, MaySplit, SplitClosedBut;
      At(n);
      shape.ParentIsHigher(n);
      var p := chunks[n].parent;
      ghost var st, up := state, Up(shape, state.split, shape.parent[n]);
      ghost var started := false;
      var open := IsOpen(p);
      if !open {
        NothingToSplit(shape, st, p, desired);
      }
      while open
        invariant Valid() && -1 <= p < |shape.parent| && (open <==> p != -1 && p !in state.split)
        invariant started ==> !open && SplitClosed(shape, state.split)
        invariant !started ==> p == shape.parent[n] && state == st
        invariant started ==> state == st.(split := st.split + up, lod := Clamped(shape, st.lod, desired, up))
        decreases if open then 1 else 0
      {
        UpHas(shape, st.split, p);
        shape.ParentIsHigher(p);
        DoSplit(p, desired);
        At(p);
        AboveSplit(shape, state.split, p);
        started, p := true, chunks[p].parent;
        open := IsOpen(p);
      }
    }

    // ----- updating

    /** Loads the node, and unloads what lies below it; with high priority the children
        keep their data. */
    method WarmUpData(n: nat, high: bool)
      requires Valid() && shape.IsNode(n) && n > 0 && Inv(shape, state)
      requires shape.parent[n] in state.mesh && n !in state.split
      modifies this`state, this`numMeshesAllocated, chunks`hasMesh
      ensures Valid() && Inv(shape, state) && state == old(state).(mesh := Warmed(shape, old(state.mesh), n, high))
    {
      hide Valid, Inv, Subtrees, GrandSubtrees, MeshClosed, SplitClosedBut, LodOk;
      WarmKeepsInv(shape, state, n, high);
      At(n);
      if !chunks[n].hasMesh {
        RequestLoadData(n);
      }
      assert state.mesh == old(state.mesh) + {n};
      if high {
        UnloadGrandchildren(n);
      } else {
        InvGives(shape, state);
        UnloadChildren(n);
      }
    }

    method UnloadGrandchildren(n: nat)
      requires Valid() && shape.IsNode(n) && Inv(shape, state) && n !in state.split
      modifies this`state, this`numMeshesAllocated, chunks`hasMesh
      ensures Valid()
      ensures state == old(state).(mesh := old(state.mesh) - GrandSubtrees(shape, n, |shape.children[n]|))
    {
      hide Valid, Inv, Subtrees, MeshClosed, SplitClosedBut, LodOk;
      At(n);
      var children := chunks[n].children;
      for i := 0 to |children|
        invariant Valid()
        invariant state == old(state).(mesh := old(state.mesh) - GrandSubtrees(shape, n, i))
      {
        ChildIsNode(shape, n, i);
        UnloadGrandKeepsInv(shape, old(state), n, i);
        InvGives(shape, state);
        UnloadChildren(children[i]);
      }
    }

    /** The branch of Update for a node that stays unsplit. */
    method Settle(n: nat, desiredLod: int)
      requires Valid() && shape.IsNode(n) && Inv(shape, state) && n in state.mesh && n !in state.split
      requires 0 <= desiredLod < 0x1_0000
      modifies this`state, this`numMeshesAllocated, chunks`hasMesh, chunks`lod
      ensures Valid() && Inv(shape, state) && state == Settled(shape, old(state), n, desiredLod)
    {
      hide Valid, Inv, Subtree, Warmed, Clamp, MeshClosed, SplitClosedBut, LodOk, Shape.Ok, SplitData;
      MorphRoot(n, desiredLod);
      At(n);
      var children := chunks[n].children;
      if children != [] {
        var lod := chunks[n].lod;
        var high := HighPriority(lod, desiredLod);
        ghost var morphed := state;
        for i := 0 to |children|
          invariant Valid() && Inv(shape, state) && n in state.mesh
          invariant state == morphed.(mesh := SettledMesh(shape, morphed.mesh, n, high, i))
        {
          ChildIsNode(shape, n, i);
          ChildUnsplit(shape, state, n, i);
          InvGives(shape, state);
          if !high {
            UnloadKeepsInv(shape, state, children[i]);
            NotBelowChild(shape, n, i);
            RequestUnloadSubtree(children[i]);
          } else {
            NotBelowChild(shape, n, i);
            WarmedKeepsParent(shape, state.mesh, n, i, high);
            WarmUpData(children[i], high);
          }
        }
      }
    }

    /** A node with high byte 0, the root, gets a valid morph value. */
    method MorphRoot(n: nat, desiredLod: int)
      requires Valid() && shape.IsNode(n) && Inv(shape, state) && 0 <= desiredLod < 0x1_0000
      modifies this`state, chunks`lod
      ensures Valid() && Inv(shape, state)
      ensures state == old(state).(lod := old(state.lod)[n := Morphed(old(state.lod[n]), desiredLod)])
    {
      hide Valid, MeshClosed, SplitClosedBut;
      At(n);
      if chunks[n].lod / 256 == 0 {
        SetLod(n, Clamp(chunks[n].lod, desiredLod));
        At(n);
        assert chunks[n].lod / 256 == chunks[n].level;
      }
    }

    /** Splits the subtree as far as the desired lods ask and the data allows. */
    method Update(n: nat, desired: seq<int>)
      requires Valid() && shape.IsNode(n) && Inv(shape, state) && n in state.mesh && n !in state.split
      requires n == 0 || shape.parent[n] in state.split
      requires |desired| == |shape.parent| && forall c :: 0 <= c < |desired| ==> 0 <= desired[c] < 0x1_0000
      modifies this`state, this`numMeshesAllocated, chunks`hasMesh, chunks`split, chunks`lod
      ensures Valid() && Inv(shape, state) && state == Updated(shape, old(state), n, desired, testsData)
      ensures old(state.split) <= state.split
      ensures forall m :: m in state.split && m !in old(state.split) ==> Wanted(shape, m, n, desired)
      ensures !testsData ==> state.split == old(state.split)
      decreases shape.height - shape.depth[n], 1
    {
      hide Valid, Inv, MeshClosed, SplitClosedBut, MaySplit, Req, Up, Splittable, Clamped, Settled, UpdatedChildren;
      At(n);
      InvGives(shape, state);
      var can := false;
      if chunks[n].children != [] && desired[n] > chunks[n].lod / 256 * 256 + 255 {
        RequestKeepsInv(shape, state, n);
        can := CanSplit(n);
      }
      if can {
        SplittableFromInv(shape, old(state), n, testsData);
        assert state == old(state);
        SplitKeepsInv(shape, state, n, desired);
        DoSplit(n, desired);
        UpdateChildren(n, desired, old(state));
      } else {
        Settle(n, desired[n]);
      }
    }

    /** The recursion of Update, after the node was split. */
    method UpdateChildren(n: nat, desired: seq<int>, ghost before: State)
      requires Valid() && shape.IsNode(n) && Inv(shape, state) && testsData
      requires Inv(shape, before) && n !in before.split && state.split == before.split + {n}
      requires |desired| == |shape.parent| && forall c :: 0 <= c < |desired| ==> 0 <= desired[c] < 0x1_0000
      requires Wanted(shape, n, n, desired)
      modifies this`state, this`numMeshesAllocated, chunks`hasMesh, chunks`split, chunks`lod
      ensures Valid() && Inv(shape, state)
      ensures state == UpdatedChildren(shape, old(state), n, desired, testsData, |shape.children[n]|)
      ensures before.split <= state.split
      ensures forall m :: m in state.split && m !in before.split ==> Wanted(shape, m, n, desired)
      decreases shape.height - shape.depth[n], 0
    {
      hide Valid, Inv, MeshClosed, SplitClosedBut, LodOk, Wanted, Subtree, Subtrees, Updated, Shape.Ok;
      At(n);
      var children := chunks[n].children;
      NoSubtrees(shape, n);
      for i := 0 to |children|
        invariant Valid() && Inv(shape, state) && n in state.split && before.split <= state.split
        invariant state == UpdatedChildren(shape, old(state), n, desired, testsData, i)
        invariant forall m :: m in state.split ==> m in before.split || m == n || m in Subtrees(shape, n, i)
        invariant forall m :: m in state.split && m !in before.split ==> Wanted(shape, m, n, desired)
      {
        ghost var split := state.split;
        ChildIsNode(shape, n, i);
        ChildReady(shape, before, state, n, i);
        Update(children[i], desired);
        SubtreesNext(shape, n, i);
        forall m | m in state.split && m !in split
          ensures Wanted(shape, m, n, desired) && m in Subtrees(shape, n, i + 1)
        {
          WantedAbove(shape, m, n, i, desired);
        }
      }
    }

    // ----- the tree

    /** ChunkLodTree::Update: the root gets data, and nothing stays split. */
    method PrepareUpdate()
      requires Valid() && SplitClosed(shape, state.split)
      modifies this`state, this`numMeshesAllocated, chunks`hasMesh, chunks`split
      ensures Valid() && state == old(state).(split := {}, mesh := old(state.mesh) + {0})
    {
      hide Valid, Subtree;
      At(0);
      RequestLoadData(0);
      At(0);
      ClosedEverywhere(shape, state.split, 0);
      ClearedAll(shape, state.split);
      if chunks[0].split {
        ClearSplits(0);
      } else {
        NothingToClear(shape, state.split, 0);
      }
    }

    /** One frame: the update of the tree, and the update of the geometry that belongs to it.
        Between frames only closed data and split flags are needed. */
    method Frame(desired: seq<int>)
      requires Valid() && SplitClosed(shape, state.split) && MeshClosed(shape, state.mesh) && LodOk(shape, state.lod)
      requires |desired| == |shape.parent| && forall c :: 0 <= c < |desired| ==> 0 <= desired[c] < 0x1_0000
      modifies this`state, this`numMeshesAllocated, chunks`hasMesh, chunks`split, chunks`lod
      ensures Valid() && Inv(shape, state)
      ensures state == Updated(shape, FrameStart(old(state)), 0, desired, testsData)
      ensures SplitClosed(shape, state.split) && MeshClosed(shape, state.mesh) && LodOk(shape, state.lod)
      ensures forall m :: m in state.split ==> Wanted(shape, m, 0, desired)
      ensures !testsData ==> state.split == {}
    {
      hide Valid, Wanted;
      PrepareUpdate();
      ClearedIsInv(shape, state);
      Update(0, desired);
    }

    /** Draws the unsplit nodes below n that split nodes lead to; with nothing outside the
        view. The asserts of the program hold on the way. */
    method Render(n: nat) returns (drawn: seq<int>)
      requires Valid() && shape.IsNode(n) && Inv(shape, state)
      requires n == 0 || shape.parent[n] in state.split
      ensures forall m :: m in drawn <==> shape.IsNode(m) && Drawn(shape, state.split, m, n)
      ensures forall i, j :: 0 <= i < j < |drawn| ==> drawn[i] != drawn[j]
      decreases shape.height - shape.depth[n]
    {
      hide Valid, Drawn;
      At(n);
      if chunks[n].split {
        DrawnViaChildren(shape, state, n);
        var children := chunks[n].children;
        assert children != [];
        drawn := [];
        for i := 0 to |children|
          invariant forall m :: m in drawn <==> DrawnFirst(shape, state.split, m, n, i)
          invariant forall j, k :: 0 <= j < k < |drawn| ==> drawn[j] != drawn[k]
        {
          ChildIsNode(shape, n, i);
          var more := Render(children[i]);
          DrawnApart(shape, state.split, n, i);
          assert forall j :: 0 <= j < |drawn| ==> drawn[j] in drawn;
          assert forall j :: 0 <= j < |more| ==> more[j] in more;
          drawn := drawn + more;
        }
      } else {
        DrawnItself(shape, state, n);
        assert chunks[n].hasMesh;
        drawn := [n];
      }
    }

    // ----- loading

    /** The fields from the file, node by node. */
    ghost predicate PoolOk()
      reads this`chunks, this`pool, chunks
      ensures PoolOk() ==> |chunks| == |pool|
    {
      && |chunks| == |pool|
      && (forall i, j :: 0 <= i < j < |chunks| ==> chunks[i] != chunks[j])
      && forall i :: 0 <= i < |chunks| ==> HasData(chunks[i], pool[i])
    }

    ghost predicate HasData(node: ChunkLodNode, d: NodeData)
      reads node
    {
      && node.parent == d.parent && node.children == d.children && node.neighbour == d.neighbour
      && node.level == d.level && node.lod == d.lod
    }

    method ReadHeader(n: nat, reader: BinaryReader)
      requires PoolOk() && n < |pool| && reader.pos == n < |reader.records|
      requires forall m :: 0 <= m < |reader.records| ==> 0 <= reader.records[m].id < |chunkTable|
      requires chunkTable == Labelled(reader.records, |chunkTable|, n)
      modifies reader`pos, this`chunkTable, this`pool, chunks`neighbour, chunks`level
      ensures PoolOk() && reader.pos == n + 1 && |chunkTable| == |old(chunkTable)|
      ensures chunkTable == Labelled(reader.records, |chunkTable|, n + 1)
      ensures pool == WithHeader(old(pool), n, reader.records[n])
    {
      var r := reader.Read();
      chunkTable := chunkTable[r.id := n];
      chunks[n].neighbour := Labels(r.neighbours);
      chunks[n].level := r.level;
      pool := WithHeader(pool, n, r);
    }

    method Adopt(n: nat, c: nat)
      requires PoolOk() && n < |pool| && c < |pool| && n != c
      modifies this`pool, chunks`parent, chunks`children, chunks`lod
      ensures PoolOk() && pool == Adopted(old(pool), n, c)
    {
      chunks[n].children := chunks[n].children + [c];
      chunks[c].parent := n;
      chunks[c].lod := (chunks[n].lod + 256) % 0x1_0000;
      pool := Adopted(pool, n, c);
    }

    /** Reads the node and, with recurseCount levels to go, its subtree; the nodes are taken
        from the pool in the order they are read. */
    method LoadParams(n: nat, recurseCount: int, reader: BinaryReader, ghost parent: int, ghost depth: nat)
      requires PoolOk() && reader.pos == n && chunksAllocated == n + 1
      requires n + TreeSize(recurseCount) <= |pool| && n + TreeSize(recurseCount) <= |reader.records|
      requires forall m :: 0 <= m < |reader.records| ==> 0 <= reader.records[m].id < |chunkTable|
      requires chunkTable == Labelled(reader.records, |chunkTable|, n)
      requires Placed(pool[n], parent, depth) && Untouched(pool, n, n + TreeSize(recurseCount))
      modifies reader`pos, this`chunkTable, this`chunksAllocated, this`pool,
               chunks`parent, chunks`children, chunks`neighbour, chunks`level, chunks`lod
      ensures PoolOk() && reader.pos == n + TreeSize(recurseCount) == chunksAllocated
      ensures |chunkTable| == |old(chunkTable)| && chunkTable == Labelled(reader.records, |chunkTable|, reader.pos)
      ensures pool == WithSubtree(old(pool), reader.records, n, recurseCount, parent, depth)
      decreases recurseCount
    {
      hide PoolOk, WithSubtree, WithChildren, WithHeader, Adopted, Untouched, Placed, ChildAt, Labelled;
      HeaderIs(pool, reader.records, n, recurseCount, parent, depth);
      ReadHeader(n, reader);
      if recurseCount > 0 {
        AllChildren(old(pool), reader.records, n, recurseCount, parent, depth);
        for i := 0 to 4
          invariant PoolOk() && reader.pos == ChildAt(n, recurseCount, i) == chunksAllocated <= |reader.records|
          invariant |chunkTable| == |old(chunkTable)|
                    && chunkTable == Labelled(reader.records, |chunkTable|, reader.pos)
          invariant pool == WithChildren(old(pool), reader.records, n, recurseCount, parent, depth, i)
        {
          NextChild(old(pool), reader.records, n, recurseCount, parent, depth, i);
          var child := chunksAllocated;
          chunksAllocated := chunksAllocated + 1;
          Adopt(n, child);
          LoadParams(child, recurseCount - 1, reader, n, depth + 1);
        }
      }
    }

    method SetLink(n: nat, i: nat, target: int)
      requires PoolOk() && n < |pool| && i < |pool[n].neighbour|
      modifies this`pool, chunks`neighbour
      ensures PoolOk() && pool == old(pool)[n := old(pool[n]).(neighbour := old(pool[n]).neighbour[i := Node(target)])]
    {
      chunks[n].neighbour := chunks[n].neighbour[i := Node(target)];
      pool := pool[n := pool[n].(neighbour := pool[n].neighbour[i := Node(target)])];
    }

    /** The labels of one node become nodes. */
    method ConvertLinks(n: nat)
      requires PoolOk() && n < |pool| && AllLabels(pool[n].neighbour, |chunkTable|)
      modifies this`pool, chunks`neighbour
      ensures PoolOk() && pool == ConvertedNodes(old(pool), chunkTable, n, n + 1)
    {
      hide Resolve;
      ghost var links := pool[n].neighbour;
      ConvertedFirst(pool, chunkTable, n);
      for i := 0 to 4
        invariant PoolOk() && |pool| == |old(pool)|
        invariant pool == old(pool)[n := old(pool[n]).(neighbour := Converted(chunkTable, links, i))]
      {
        assert Converted(chunkTable, links, i)[i := Node(Resolve(chunkTable, links[i].id))]
               == Converted(chunkTable, links, i + 1);
        var l := LabelAt(n, i);
        SetLink(n, i, Resolve(chunkTable, l));
      }
    }

    method LabelAt(n: nat, i: nat) returns (l: int)
      requires PoolOk() && n < |pool| && i < |pool[n].neighbour| && pool[n].neighbour[i].Label?
      ensures l == pool[n].neighbour[i].id
    {
      assert HasData(chunks[n], pool[n]);
      l := chunks[n].neighbour[i].id;
    }

    /** Converts the links of a whole subtree, each of them once. */
    method LookupNeighbours(n: nat, ghost k: int, ghost parent: int, ghost depth: nat)
      requires PoolOk() && n + TreeSize(k) <= |pool| && ChildrenPlaced(pool, n, k, parent, depth)
      requires forall m :: n <= m < n + TreeSize(k) ==> AllLabels(pool[m].neighbour, |chunkTable|)
      modifies this`pool, chunks`neighbour
      ensures PoolOk() && pool == ConvertedNodes(old(pool), chunkTable, n, n + TreeSize(k))
      decreases k
    {
      hide PoolOk, ChildAt, Resolve, TreeSize, AllLabels, Converted, PlaceOf, ChildrenPlaced;
      ghost var before := pool;
      ChildrenOfNode(n, k, parent, depth);
      ConvertLinks(n);
      var children := chunks[n].children;
      if children != [] {
        for i := 0 to 4
          invariant ChildAt(n, k, i) <= n + TreeSize(k)
          invariant PoolOk() && pool == ConvertedNodes(before, chunkTable, n, ChildAt(n, k, i))
        {
          ChildrenPlacedIn(before, pool, n, k, parent, depth, i);
          ChildrenFrom(n, k, i);
          ConvertedNext(before, chunkTable, n, ChildAt(n, k, i), ChildAt(n, k, i + 1));
          LookupNeighbours(children[i], k - 1, n, depth + 1);
        }
      }
    }

    lemma ChildrenOfNode(n: nat, k: int, parent: int, depth: nat)
      requires PoolOk() && n + TreeSize(k) <= |pool| && ChildrenPlaced(pool, n, k, parent, depth)
      ensures n < |chunks| && chunks[n].children == ChildrenOf(n, k)
      ensures k > 0 ==> ChildAt(n, k, 0) == n + 1 && ChildAt(n, k, 4) == n + TreeSize(k)
      ensures k <= 0 ==> TreeSize(k) == 1
    {
      hide PlaceOf, TreeSize, ChildAt, ChildrenOf;
      assert HasData(chunks[n], pool[n]);
      PlaceOfRoot(n, k, parent, depth);
      FirstAndLast(n, k);
    }

    lemma FirstAndLast(n: nat, k: int)
      ensures k > 0 ==> ChildAt(n, k, 0) == n + 1 && ChildAt(n, k, 4) == n + TreeSize(k)
      ensures k <= 0 ==> TreeSize(k) == 1
    {
    }

    lemma ChildrenFrom(n: nat, k: int, i: nat)
      requires k > 0 && i < 4
      ensures ChildrenOf(n, k)[i] == ChildAt(n, k, i)
    {
    }

    constructor (testsData: bool)
      ensures chunks == [] && numMeshesAllocated == 0 && this.testsData == testsData
    {
      this.testsData := testsData;
      chunks, chunkTable, chunksAllocated, numMeshesAllocated := [], [], 0, 0;
      pool := [];
    }

    /** A node that has just been created. */
    ghost predicate AllBlank()
      reads this`chunks, chunks`split, chunks`hasMesh
    {
      forall i :: 0 <= i < |chunks| ==> !chunks[i].split && !chunks[i].hasMesh
    }

    method FillPool(chunkCount: nat)
      requires chunks == []
      modifies this`chunks, this`pool
      ensures PoolOk() && AllBlank() && |pool| == chunkCount && fresh(chunks)
      ensures forall i :: 0 <= i < |pool| ==> pool[i].parent == -1 && pool[i].children == [] && pool[i].lod == 0
    {
      pool := [];
      for index := 0 to chunkCount
        invariant PoolOk() && AllBlank() && |pool| == index && fresh(chunks)
        invariant forall i :: 0 <= i < |pool| ==> pool[i].parent == -1 && pool[i].children == [] && pool[i].lod == 0
      {
        var treeNode := new ChunkLodNode();
        chunks := chunks + [treeNode];
        pool := pool + [NodeData(-1, [], treeNode.neighbour, treeNode.level, 0)];
      }
    }

    lemma FinishedIsValid(records: seq<Record>, k: int)
      requires PoolOk() && AllBlank() && |pool| == |records| == TreeSize(k) && FileOk(records, k)
      requires forall m :: 0 <= m < |pool| ==> pool[m] == Finished(records, k, m)
      requires shape == LoadedShape(records, k) && state == State({}, {}, Lods(pool)) && numMeshesAllocated == 0
      ensures Valid() && LodOk(shape, state.lod)
    {
      hide PlaceOf, Labelled, TreeSize, LoadedShape, Finished, Shape.Ok, FileOk, Linked;
      LoadedIsTree(records, k);
      forall i | 0 <= i < |chunks|
        ensures Fits(chunks[i], i) && 0 <= state.lod[i] < 0x1_0000 && state.lod[i] / 256 == shape.depth[i] % 256
      {
        assert HasData(chunks[i], pool[i]);
        FinishedFields(records, k, i);
      }
    }

    /** Reads the tree. The program stops here unless the file has as many chunks as a
        complete quadtree of this depth. */
    method Setup(treeDepth: int, chunkCount: nat, reader: BinaryReader) returns (complete: bool)
      requires chunks == [] && numMeshesAllocated == 0 && reader.pos == 0
      requires |reader.records| == TreeSize(treeDepth - 1) <= chunkCount && LabelsOk(reader.records, chunkCount)
      modifies this, reader
      ensures complete <==> chunkCount == TreeSize(treeDepth - 1)
      ensures complete && FileOk(reader.records, treeDepth - 1) ==>
                && Valid() && shape == LoadedShape(reader.records, treeDepth - 1)
                && state.split == {} && state.mesh == {} && LodOk(shape, state.lod)
    {
      hide PoolOk, Valid, FileOk, WithSubtree, ConvertedNodes, ChildrenPlaced, AllLabels, TreeSize, Untouched, LabelsOk,
           Labelled, Finished, LoadedShape, LodOk, Shape.Ok, AllBlank;
      FillPool(chunkCount);
      chunkTable := seq(chunkCount, _ => -1);
      chunksAllocated := 1;
      StartsEmpty(reader.records, chunkCount);
      ghost var blank := pool;
      BlankUntouched(blank, treeDepth - 1);
      LoadParams(0, treeDepth - 1, reader, -1, 0);
      complete := chunksAllocated == chunkCount;
      if complete {
        LoadedThenConverted(blank, reader.records, treeDepth - 1);
        LookupNeighbours(0, treeDepth - 1, -1, 0);
        shape := LoadedShape(reader.records, treeDepth - 1);
        state := State({}, {}, Lods(pool));
        if FileOk(reader.records, treeDepth - 1) {
          FinishedIsValid(reader.records, treeDepth - 1);
        }
      }
    }
  }

  function Lods(pool: seq<NodeData>): (lods: seq<int>)
    ensures |lods| == |pool|
  {
    seq(|pool|, i requires 0 <= i < |pool| => pool[i].lod)
  }

  lemma StartsEmpty(records: seq<Record>, size: nat)
    requires LabelsOk(records, size)
    ensures forall m :: 0 <= m < |records| ==> 0 <= records[m].id < size
    ensures Labelled(records, size, 0) == seq(size, _ => -1)
  {
  }

  lemma BlankUntouched(pool: seq<NodeData>, k: int)
    requires TreeSize(k) <= |pool|
    requires forall i :: 0 <= i < |pool| ==> pool[i].parent == -1 && pool[i].children == [] && pool[i].lod == 0
    ensures Placed(pool[0], -1, 0) && Untouched(pool, 0, TreeSize(k))
  {
  }
}
