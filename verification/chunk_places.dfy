/** How the chunk file lays out the quadtree: nodes in preorder, every subtree one interval
    of pool indices. */
module ChunkPlaces {
  import opened ChunkModel

  /** One chunk of the file. */
  datatype Record = Record(id: int, neighbours: seq<int>, level: int)

  /** The number of nodes of a complete quadtree with k levels below its root. */
  function TreeSize(k: int): (n: nat)
    ensures n > 0
    decreases k
  {
    if k <= 0 then 1 else 1 + 4 * TreeSize(k - 1)
  }

  function Pow4(k: nat): nat {
    if k == 0 then 1 else 4 * Pow4(k - 1)
  }

  lemma {:induction false} TreeSizeIs(k: nat)
    ensures 3 * TreeSize(k) == Pow4(k + 1) - 1
  {
    if k > 0 {
      TreeSizeIs(k - 1);
    }
  }

  /** Where a node belongs. */
  datatype Place = Place(parent: int, children: seq<int>, depth: nat)

  /** Child j of node n, with k levels below n. */
  function ChildAt(n: int, k: int, j: nat): int
    requires j <= 4
  {
    n + 1 + (if j == 0 then 0 else if j == 1 then TreeSize(k - 1) else if j == 2 then 2 * TreeSize(k - 1)
             else if j == 3 then 3 * TreeSize(k - 1) else 4 * TreeSize(k - 1))
  }

  /** Which child of n has node m in its subtree. */
  function ChildWith(m: int, n: int, k: int): (j: nat)
    requires n < m < n + TreeSize(k)
    ensures k > 0 && j < 4 && ChildAt(n, k, j) <= m < ChildAt(n, k, j + 1)
    ensures ChildAt(n, k, j + 1) == ChildAt(n, k, j) + TreeSize(k - 1)
  {
    if m < ChildAt(n, k, 1) then 0 else if m < ChildAt(n, k, 2) then 1 else if m < ChildAt(n, k, 3) then 2 else 3
  }

  function ChildrenOf(n: int, k: int): (children: seq<int>)
    ensures |children| == if k <= 0 then 0 else 4
  {
    if k <= 0 then [] else [ChildAt(n, k, 0), ChildAt(n, k, 1), ChildAt(n, k, 2), ChildAt(n, k, 3)]
  }

  /** The place of node m in the subtree of n, which has k levels below it, the given
      parent and the given depth. */
  function PlaceOf(m: int, n: int, k: int, parent: int, depth: nat): Place
    requires n <= m < n + TreeSize(k)
    decreases k
  {
    if m == n then
      Place(parent, ChildrenOf(n, k), depth)
    else
      PlaceOf(m, ChildAt(n, k, ChildWith(m, n, k)), k - 1, n, depth + 1)
  }

  /** A node in a child's interval has the same place there. */
  lemma PlaceInChild(m: int, n: int, k: int, parent: int, depth: nat, j: nat)
    requires k > 0 && j < 4 && ChildAt(n, k, j) <= m < ChildAt(n, k, j) + TreeSize(k - 1)
    ensures n < m < n + TreeSize(k)
    ensures n < ChildAt(n, k, j) && ChildAt(n, k, j) + TreeSize(k - 1) <= n + TreeSize(k)
    ensures PlaceOf(m, n, k, parent, depth) == PlaceOf(m, ChildAt(n, k, j), k - 1, n, depth + 1)
  {
    assert ChildWith(m, n, k) == j;
  }

  /** Every place agrees with those of its parent and its children. */
  lemma {:induction false} PlacesAgree(m: int, n: int, k: int, parent: int, depth: nat)
    requires n <= m < n + TreeSize(k)
    ensures var p := PlaceOf(m, n, k, parent, depth);
            && p.depth <= depth + (if k <= 0 then 0 else k)
            && (m == n ==> p.parent == parent && p.depth == depth)
            && (m > n ==> n <= p.parent < m
                          && p.depth == PlaceOf(p.parent, n, k, parent, depth).depth + 1
                          && m in PlaceOf(p.parent, n, k, parent, depth).children)
    decreases k
  {
    if m > n {
      var j := ChildWith(m, n, k);
      PlacesAgree(m, ChildAt(n, k, j), k - 1, n, depth + 1);
      PlaceInChild(m, n, k, parent, depth, j);
      var p := PlaceOf(m, n, k, parent, depth).parent;
      if m == ChildAt(n, k, j) {
        assert ChildAt(n, k, j) in PlaceOf(n, n, k, parent, depth).children;
      } else {
        PlaceInChild(p, n, k, parent, depth, j);
      }
    }
  }

  /** The children of a place come in order, in the interval, and have it as parent. */
  ghost predicate ChildrenOk(m: int, p: Place, n: int, k: int, parent: int, depth: nat)
    requires n <= m < n + TreeSize(k)
  {
    && (p.children == [] || |p.children| == 4)
    && (forall i, j :: 0 <= i < j < |p.children| ==> p.children[i] < p.children[j])
    && forall j :: 0 <= j < |p.children| ==>
         m < p.children[j] < n + TreeSize(k) && PlaceOf(p.children[j], n, k, parent, depth).parent == m
  }

  lemma PlaceOfRoot(n: int, k: int, parent: int, depth: nat)
    ensures PlaceOf(n, n, k, parent, depth).parent == parent && PlaceOf(n, n, k, parent, depth).depth == depth
    ensures PlaceOf(n, n, k, parent, depth).children == ChildrenOf(n, k)
  {
  }

  lemma RootChildrenAgree(n: int, k: int, parent: int, depth: nat)
    ensures ChildrenOk(n, PlaceOf(n, n, k, parent, depth), n, k, parent, depth)
  {
    hide PlaceOf, TreeSize, ChildAt;
    PlaceOfRoot(n, k, parent, depth);
    if k > 0 {
      forall j: nat | j < 4
        ensures n < ChildAt(n, k, j) < n + TreeSize(k) && PlaceOf(ChildAt(n, k, j), n, k, parent, depth).parent == n
      {
        PlaceInChild(ChildAt(n, k, j), n, k, parent, depth, j);
        PlaceOfRoot(ChildAt(n, k, j), k - 1, n, depth + 1);
      }
      ChildrenInOrder(n, k);
    }
  }

  lemma ChildrenInOrder(n: int, k: int)
    ensures ChildAt(n, k, 0) < ChildAt(n, k, 1) < ChildAt(n, k, 2) < ChildAt(n, k, 3)
  {
  }

  lemma {:induction false} ChildrenAgree(m: int, n: int, k: int, parent: int, depth: nat)
    requires n <= m < n + TreeSize(k)
    ensures ChildrenOk(m, PlaceOf(m, n, k, parent, depth), n, k, parent, depth)
    decreases k
  {
    hide PlaceOf, ChildAt, TreeSize, ChildWith;
    if m == n {
      RootChildrenAgree(n, k, parent, depth);
    } else {
      var i := ChildWith(m, n, k);
      ChildrenAgree(m, ChildAt(n, k, i), k - 1, n, depth + 1);
      PlaceInChild(m, n, k, parent, depth, i);
      var p := PlaceOf(m, n, k, parent, depth);
      forall j | 0 <= j < |p.children|
        ensures m < p.children[j] < n + TreeSize(k) && PlaceOf(p.children[j], n, k, parent, depth).parent == m
      {
        PlaceInChild(p.children[j], n, k, parent, depth, i);
      }
    }
  }

  // ----- the shape of a loaded tree

  function PlaceIn(m: int, k: int): Place
    requires 0 <= m < TreeSize(k)
  {
    PlaceOf(m, 0, k, -1, 0)
  }

  /** The label table after the first n chunks: a label stands for the last chunk with it. */
  function Labelled(records: seq<Record>, size: nat, n: nat): (table: seq<int>)
    requires n <= |records| && forall m :: 0 <= m < |records| ==> 0 <= records[m].id < size
    ensures |table| == size
    ensures forall l :: 0 <= l < size ==> -1 <= table[l] < n
  {
    if n == 0 then seq(size, _ => -1) else Labelled(records, size, n - 1)[records[n - 1].id := n - 1]
  }

  /** The last chunk with this label, if there is one. */
  predicate LastWith(records: seq<Record>, n: nat, l: int, m: int)
    requires n <= |records|
  {
    if m == -1 then forall i :: 0 <= i < n ==> records[i].id != l
    else 0 <= m < n && records[m].id == l && forall i :: m < i < n ==> records[i].id != l
  }

  lemma {:induction false} LabelledIs(records: seq<Record>, size: nat, n: nat, l: nat)
    requires n <= |records| && l < size && forall m :: 0 <= m < |records| ==> 0 <= records[m].id < size
    ensures LastWith(records, n, l, Labelled(records, size, n)[l])
  {
    if n > 0 {
      LabelledIs(records, size, n - 1, l);
    }
  }

  /** A neighbour of a chunk is the chunk with the label it is given, or none if there is no
      label. */
  lemma NeighboursAre(records: seq<Record>, m: int, j: nat)
    requires LabelsOk(records, |records|) && 0 <= m < |records| && j < 4
    ensures var l, nb := records[m].neighbours[j], Neighbours(records, |records|, |records|, m)[j];
            if l == -1 then nb == -1 else LastWith(records, |records|, l, nb)
  {
    hide Labelled, LastWith;
    if records[m].neighbours[j] != -1 {
      LabelledIs(records, |records|, |records|, records[m].neighbours[j]);
    }
  }

  /** The node a neighbour label stands for. */
  function Resolve(table: seq<int>, l: int): (m: int)
    requires l == -1 || 0 <= l < |table|
  {
    if l == -1 then -1 else table[l]
  }

  /** A file whose labels are in range, with four neighbours for each chunk. */
  predicate LabelsOk(records: seq<Record>, size: nat) {
    forall m :: 0 <= m < |records| ==>
      && 0 <= records[m].id < size && |records[m].neighbours| == 4
      && forall j :: 0 <= j < 4 ==> records[m].neighbours[j] == -1 || 0 <= records[m].neighbours[j] < size
  }

  function Neighbours(records: seq<Record>, size: nat, n: nat, m: int): (nodes: seq<int>)
    requires LabelsOk(records, size) && n <= |records| && 0 <= m < |records|
    ensures |nodes| == 4
  {
    var table := Labelled(records, size, n);
    seq(4, j requires 0 <= j < 4 => Resolve(table, records[m].neighbours[j]))
  }

  /** The levels of the file are the depths, and no neighbour is more than one level
      deeper. */
  ghost predicate FileOk(records: seq<Record>, k: int)
    requires |records| == TreeSize(k)
  {
    && LabelsOk(records, |records|)
    && forall m :: 0 <= m < |records| ==>
         && records[m].level == PlaceIn(m, k).depth % 256
         && forall j :: 0 <= j < 4 ==>
              var nb := Neighbours(records, |records|, |records|, m)[j];
              nb == -1 || (0 <= nb < |records| && PlaceIn(nb, k).depth <= PlaceIn(m, k).depth + 1)
  }

  function LoadedShape(records: seq<Record>, k: int): (s: Shape)
    requires |records| == TreeSize(k) && LabelsOk(records, |records|)
    ensures |s.parent| == |s.children| == |s.neighbour| == |s.depth| == |records|
  {
    Shape(seq(|records|, m requires 0 <= m < |records| => PlaceIn(m, k).parent),
          seq(|records|, m requires 0 <= m < |records| => PlaceIn(m, k).children),
          seq(|records|, m requires 0 <= m < |records| => Neighbours(records, |records|, |records|, m)),
          seq(|records|, m requires 0 <= m < |records| => PlaceIn(m, k).depth),
          if k <= 0 then 0 else k)
  }

  /** What is loaded is a tree. */
  lemma LoadedIsTree(records: seq<Record>, k: int)
    requires |records| == TreeSize(k) && FileOk(records, k)
    ensures LoadedShape(records, k).Ok()
  {
    var s := LoadedShape(records, k);
    forall m | 0 <= m < |records|
      ensures s.NodeOk(m) && -1 <= s.parent[m] < |s.parent| && |s.neighbour[m]| == 4
    {
      PlacesAgree(m, 0, k, -1, 0);
      ChildrenAgree(m, 0, k, -1, 0);
    }
  }

  // ----- the nodes while they are loaded

  /** A label from the file, and later the node it stands for. */
  datatype Link = Label(id: int) | Node(node: int)

  /** The fields of a node that the file determines. */
  datatype NodeData = NodeData(parent: int, children: seq<int>, neighbour: seq<Link>, level: int, lod: int)

  function Labels(ids: seq<int>): (links: seq<Link>)
    ensures |links| == |ids|
  {
    seq(|ids|, j requires 0 <= j < |ids| => Label(ids[j]))
  }

  function Nodes(ids: seq<int>): (links: seq<Link>)
    ensures |links| == |ids|
  {
    seq(|ids|, j requires 0 <= j < |ids| => Node(ids[j]))
  }

  /** A chunk of the file put in its place. */
  function Loaded(r: Record, p: Place): NodeData {
    NodeData(p.parent, p.children, Labels(r.neighbours), r.level, p.depth * 256 % 0x1_0000)
  }

  /** The subtree of n, with k levels below n, as LoadParams leaves it; the other nodes are
      as they were. */
  function WithSubtree(pool: seq<NodeData>, records: seq<Record>, n: nat, k: int, parent: int, depth: nat)
    : (pool': seq<NodeData>)
    requires n + TreeSize(k) <= |pool| && n + TreeSize(k) <= |records|
    ensures |pool'| == |pool|
  {
    seq(|pool|, m requires 0 <= m < |pool| =>
      if n <= m < n + TreeSize(k) then Loaded(records[m], PlaceOf(m, n, k, parent, depth)) else pool[m])
  }

  /** The same with only the first i children of n. */
  function WithChildren(pool: seq<NodeData>, records: seq<Record>, n: nat, k: int, parent: int, depth: nat, i: nat)
    : (pool': seq<NodeData>)
    requires n + TreeSize(k) <= |pool| && n + TreeSize(k) <= |records| && k > 0 && i <= 4
    ensures |pool'| == |pool|
  {
    seq(|pool|, m requires 0 <= m < |pool| =>
      if m == n then Loaded(records[m], Place(parent, ChildrenOf(n, k)[..i], depth))
      else if n < m < ChildAt(n, k, i) && m < n + TreeSize(k) then Loaded(records[m], PlaceOf(m, n, k, parent, depth))
      else pool[m])
  }

  /** A child is linked to its parent and gets the next level's lod. */
  function Adopted(pool: seq<NodeData>, n: nat, c: nat): (pool': seq<NodeData>)
    requires n < |pool| && c < |pool| && n != c
    ensures |pool'| == |pool|
  {
    pool[n := pool[n].(children := pool[n].children + [c])]
        [c := pool[c].(parent := n, lod := (pool[n].lod + 256) % 0x1_0000)]
  }

  function WithHeader(pool: seq<NodeData>, n: nat, r: Record): (pool': seq<NodeData>)
    requires n < |pool|
    ensures |pool'| == |pool|
  {
    pool[n := pool[n].(neighbour := Labels(r.neighbours), level := r.level)]
  }

  /** The nodes from n on have not been loaded. */
  predicate Untouched(pool: seq<NodeData>, n: int, hi: int)
    requires hi <= |pool|
  {
    forall m :: 0 <= n <= m < hi ==> pool[m].children == []
  }

  predicate Placed(d: NodeData, parent: int, depth: nat) {
    d.parent == parent && d.lod == depth * 256 % 0x1_0000
  }

  lemma HeaderIs(pool: seq<NodeData>, records: seq<Record>, n: nat, k: int, parent: int, depth: nat)
    requires n + TreeSize(k) <= |pool| && n + TreeSize(k) <= |records|
    requires Placed(pool[n], parent, depth) && Untouched(pool, n, n + TreeSize(k))
    ensures k <= 0 ==> WithHeader(pool, n, records[n]) == WithSubtree(pool, records, n, k, parent, depth)
    ensures k > 0 ==> WithHeader(pool, n, records[n]) == WithChildren(pool, records, n, k, parent, depth, 0)
  {
    PlaceOfRoot(n, k, parent, depth);
    assert pool[n].children == [];
    assert ChildrenOf(n, k)[..0] == [];
  }

  lemma ChildInterval(n: nat, k: int, j: nat)
    requires k > 0 && j < 4
    ensures n < ChildAt(n, k, j) && ChildAt(n, k, j) + TreeSize(k - 1) == ChildAt(n, k, j + 1) <= n + TreeSize(k)
    ensures ChildrenOf(n, k)[..j + 1] == ChildrenOf(n, k)[..j] + [ChildAt(n, k, j)]
  {
  }

  lemma NextChild(pool: seq<NodeData>, records: seq<Record>, n: nat, k: int, parent: int, depth: nat, i: nat)
    requires n + TreeSize(k) <= |pool| && n + TreeSize(k) <= |records| && k > 0 && i < 4
    requires Untouched(pool, n, n + TreeSize(k))
    ensures var c := ChildAt(n, k, i);
            && n < c && c + TreeSize(k - 1) == ChildAt(n, k, i + 1) <= n + TreeSize(k)
            && var u := Adopted(WithChildren(pool, records, n, k, parent, depth, i), n, c);
            && Placed(u[c], n, depth + 1) && Untouched(u, c, c + TreeSize(k - 1))
            && WithSubtree(u, records, c, k - 1, n, depth + 1)
               == WithChildren(pool, records, n, k, parent, depth, i + 1)
  {
    hide PlaceOf, TreeSize, ChildAt, ChildrenOf, WithSubtree;
    ChildInterval(n, k, i);
    ChildFills(pool, records, n, k, parent, depth, i);
  }

  /** The interval of the child is filled as it is in the whole. */
  lemma ChildFills(pool: seq<NodeData>, records: seq<Record>, n: nat, k: int, parent: int, depth: nat, i: nat)
    requires n + TreeSize(k) <= |pool| && n + TreeSize(k) <= |records| && k > 0 && i < 4
    ensures var c := ChildAt(n, k, i);
            && n < c && c + TreeSize(k - 1) == ChildAt(n, k, i + 1) <= n + TreeSize(k)
            && var u := Adopted(WithChildren(pool, records, n, k, parent, depth, i), n, c);
            WithSubtree(u, records, c, k - 1, n, depth + 1) == WithChildren(pool, records, n, k, parent, depth, i + 1)
  {
    hide PlaceOf, TreeSize, ChildAt, ChildrenOf;
    ChildInterval(n, k, i);
    var c := ChildAt(n, k, i);
    forall m | c <= m < c + TreeSize(k - 1)
      ensures PlaceOf(m, n, k, parent, depth) == PlaceOf(m, c, k - 1, n, depth + 1)
    {
      PlaceInChild(m, n, k, parent, depth, i);
    }
    var u := Adopted(WithChildren(pool, records, n, k, parent, depth, i), n, c);
    assert u[n] == Loaded(records[n], Place(parent, ChildrenOf(n, k)[..i + 1], depth));
  }

  lemma AllChildren(pool: seq<NodeData>, records: seq<Record>, n: nat, k: int, parent: int, depth: nat)
    requires n + TreeSize(k) <= |pool| && n + TreeSize(k) <= |records| && k > 0
    ensures WithChildren(pool, records, n, k, parent, depth, 4) == WithSubtree(pool, records, n, k, parent, depth)
    ensures ChildAt(n, k, 0) == n + 1 && ChildAt(n, k, 4) == n + TreeSize(k)
  {
    PlaceOfRoot(n, k, parent, depth);
    assert ChildrenOf(n, k)[..4] == ChildrenOf(n, k);
  }

  // ----- labels become nodes

  /** Four labels that have not been converted yet, in range of the table. */
  predicate AllLabels(links: seq<Link>, size: nat) {
    |links| == 4 && forall j :: 0 <= j < 4 ==> links[j].Label? && (links[j].id == -1 || 0 <= links[j].id < size)
  }

  /** The links with the first i converted. */
  function Converted(table: seq<int>, links: seq<Link>, i: nat): (links': seq<Link>)
    requires AllLabels(links, |table|) && i <= 4
    ensures |links'| == 4
  {
    seq(4, j requires 0 <= j < 4 => if j < i then Node(Resolve(table, links[j].id)) else links[j])
  }

  /** The nodes from lo up to hi with their links converted. */
  function ConvertedNodes(pool: seq<NodeData>, table: seq<int>, lo: int, hi: int): (pool': seq<NodeData>)
    requires forall m :: 0 <= lo <= m < hi && m < |pool| ==> AllLabels(pool[m].neighbour, |table|)
    ensures |pool'| == |pool|
  {
    seq(|pool|, m requires 0 <= m < |pool| =>
      if 0 <= lo <= m < hi then pool[m].(neighbour := Converted(table, pool[m].neighbour, 4)) else pool[m])
  }

  lemma ConvertedFirst(pool: seq<NodeData>, table: seq<int>, n: nat)
    requires n < |pool| && AllLabels(pool[n].neighbour, |table|)
    ensures pool[n := pool[n].(neighbour := Converted(table, pool[n].neighbour, 4))]
            == ConvertedNodes(pool, table, n, n + 1)
    ensures Converted(table, pool[n].neighbour, 0) == pool[n].neighbour
  {
  }

  lemma ConvertedNext(pool: seq<NodeData>, table: seq<int>, lo: nat, mid: nat, hi: nat)
    requires lo <= mid <= hi && forall m :: lo <= m < hi && m < |pool| ==> AllLabels(pool[m].neighbour, |table|)
    ensures forall m :: mid <= m < hi && m < |pool| ==> ConvertedNodes(pool, table, lo, mid)[m] == pool[m]
    ensures ConvertedNodes(ConvertedNodes(pool, table, lo, mid), table, mid, hi) == ConvertedNodes(pool, table, lo, hi)
  {
  }

  /** The children in the pool are those of the places. */
  ghost predicate ChildrenPlaced(pool: seq<NodeData>, n: nat, k: int, parent: int, depth: nat)
    requires n + TreeSize(k) <= |pool|
  {
    forall m :: n <= m < n + TreeSize(k) ==> pool[m].children == PlaceOf(m, n, k, parent, depth).children
  }

  lemma ChildrenPlacedIn(pool: seq<NodeData>, pool': seq<NodeData>, n: nat, k: int, parent: int, depth: nat, j: nat)
    requires n + TreeSize(k) <= |pool| == |pool'| && ChildrenPlaced(pool, n, k, parent, depth) && k > 0 && j < 4
    requires forall m :: 0 <= m < |pool| ==> pool'[m].children == pool[m].children
    ensures n < ChildAt(n, k, j) && ChildAt(n, k, j) + TreeSize(k - 1) == ChildAt(n, k, j + 1) <= n + TreeSize(k)
    ensures ChildrenPlaced(pool', ChildAt(n, k, j), k - 1, n, depth + 1)
  {
    ChildInterval(n, k, j);
    forall m | ChildAt(n, k, j) <= m < ChildAt(n, k, j) + TreeSize(k - 1)
      ensures pool'[m].children == PlaceOf(m, ChildAt(n, k, j), k - 1, n, depth + 1).children
    {
      PlaceInChild(m, n, k, parent, depth, j);
    }
  }

  /** What a node of the loaded tree holds. */
  function Finished(records: seq<Record>, k: int, m: int): NodeData
    requires |records| == TreeSize(k) && LabelsOk(records, |records|) && 0 <= m < |records|
  {
    var s := LoadedShape(records, k);
    NodeData(s.parent[m], s.children[m], Nodes(s.neighbour[m]), records[m].level, s.depth[m] * 256 % 0x1_0000)
  }

  /** Loading and then converting the labels puts every node in its final state. */
  lemma LoadedThenConverted(pool: seq<NodeData>, records: seq<Record>, k: int)
    requires |pool| == |records| == TreeSize(k) && LabelsOk(records, |records|)
    ensures var loaded := WithSubtree(pool, records, 0, k, -1, 0);
            && ChildrenPlaced(loaded, 0, k, -1, 0)
            && (forall m :: 0 <= m < |pool| ==> AllLabels(loaded[m].neighbour, |records|))
            && forall m :: 0 <= m < |pool| ==>
                 ConvertedNodes(loaded, Labelled(records, |records|, |records|), 0, |records|)[m]
                   == Finished(records, k, m)
  {
    hide PlaceOf, TreeSize, Labelled;
    var loaded := WithSubtree(pool, records, 0, k, -1, 0);
    var table := Labelled(records, |records|, |records|);
    forall m | 0 <= m < |pool|
      ensures AllLabels(loaded[m].neighbour, |records|)
      ensures Converted(table, loaded[m].neighbour, 4) == Nodes(Neighbours(records, |records|, |records|, m))
    {
    }
  }
}
