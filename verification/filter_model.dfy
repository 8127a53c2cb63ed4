/** Condition trees of Db::FilterSet: building them at a cursor, writing them as SQL, and
    what they mean. */
module FilterModel {
  import opened Wrappers

  datatype Type = Equal | NotEqual | Greater | Less | GreaterEqual | LessEqual | And | Or | Not | Block | Root

  predicate IsCheck(t: Type) {
    t.Equal? || t.NotEqual? || t.Greater? || t.Less? || t.GreaterEqual? || t.LessEqual?
  }

  /** An attribute: a column and the value to check against. */
  datatype Attribute = Attribute(name: string, value: int)

  datatype Token = Token(typ: Type, attr: Attribute)

  const NO_ATTR := Attribute("", 0)

  datatype Node = Node(token: Token, children: seq<Node>)

  function Leaf(t: Type, attr: Attribute): Node { Node(Token(t, attr), []) }

  const EMPTY_ROOT := Leaf(Root, NO_ATTR)

  // ----- the cursor

  /** The path leads along last children, all of them blocks: everything that is appended at
      its end comes last in the tree. */
  predicate OnSpine(t: Node, path: seq<nat>) {
    path == [] ||
    (t.children != [] && path[0] == |t.children| - 1 && t.children[path[0]].token.typ.Block?
     && OnSpine(t.children[path[0]], path[1..]))
  }

  function At(t: Node, path: seq<nat>): Node
    requires OnSpine(t, path)
  {
    if path == [] then t else At(t.children[path[0]], path[1..])
  }

  function AppendAt(t: Node, path: seq<nat>, n: Node): (u: Node)
    requires OnSpine(t, path)
    ensures u.token == t.token
  {
    if path == [] then Node(t.token, t.children + [n])
    else Node(t.token, t.children[path[0] := AppendAt(t.children[path[0]], path[1..], n)])
  }

  lemma {:induction false} StillOnSpine(t: Node, path: seq<nat>, n: Node)
    requires OnSpine(t, path)
    ensures OnSpine(AppendAt(t, path, n), path)
    ensures At(AppendAt(t, path, n), path) == Node(At(t, path).token, At(t, path).children + [n])
    decreases path
  {
    if path != [] {
      StillOnSpine(t.children[path[0]], path[1..], n);
    }
  }

  /** The cursor moves into the block that was appended. */
  lemma {:induction false} IntoBlock(t: Node, path: seq<nat>, n: Node)
    requires OnSpine(t, path) && n.token.typ.Block?
    ensures OnSpine(AppendAt(t, path, n), path + [|At(t, path).children|])
    ensures At(AppendAt(t, path, n), path + [|At(t, path).children|]) == n
    decreases path
  {
    var p := path + [|At(t, path).children|];
    if path == [] {
      assert p[1..] == [];
    } else {
      IntoBlock(t.children[path[0]], path[1..], n);
      assert p[1..] == path[1..] + [|At(t, path).children|];
    }
  }

  /** The cursor moves out of a block. */
  lemma {:induction false} OutOfBlock(t: Node, path: seq<nat>)
    requires OnSpine(t, path) && path != []
    ensures OnSpine(t, path[..|path| - 1])
    ensures At(t, path).token.typ.Block?
    decreases path
  {
    var p := path[..|path| - 1];
    if |path| > 1 {
      OutOfBlock(t.children[path[0]], path[1..]);
      assert p[1..] == path[1..][..|path| - 2];
    }
  }

  // ----- attributes, left to right

  function Attrs(t: Node): seq<Attribute> {
    if IsCheck(t.token.typ) then [t.token.attr] else if Inner(t) then AttrsOf(t.children) else []
  }

  function AttrsOf(ts: seq<Node>): seq<Attribute> {
    if ts == [] then [] else AttrsOf(ts[..|ts| - 1]) + Attrs(ts[|ts| - 1])
  }

  // ----- SQL

  /** The fragments of a WHERE clause; a comparison ends with a wildcard. */
  datatype Fragment = OpenBracket | CloseBracket | AndFrag | OrFrag | NotFrag | Compare(name: string, operator: string)

  function Operator(t: Type): string
    requires IsCheck(t)
  {
    match t
    case Equal => "=="
    case NotEqual => "!="
    case Greater => ">"
    case Less => "<"
    case GreaterEqual => ">="
    case LessEqual => "<="
  }

  /** RecurseBuildWhere. */
  function Where(t: Node): seq<Fragment> {
    match t.token.typ
    case Root => WhereOf(t.children)
    case Block => [OpenBracket] + WhereOf(t.children) + [CloseBracket]
    case And => [AndFrag]
    case Or => [OrFrag]
    case Not => [NotFrag]
    case _ => [Compare(t.token.attr.name, Operator(t.token.typ))]
  }

  function WhereOf(ts: seq<Node>): seq<Fragment> {
    if ts == [] then [] else WhereOf(ts[..|ts| - 1]) + Where(ts[|ts| - 1])
  }

  predicate Inner(t: Node) { t.token.typ.Root? || t.token.typ.Block? }

  function Opening(t: Node): seq<Fragment> {
    if t.token.typ.Block? then [OpenBracket] else []
  }

  /** The same text with the blocks along the path still open. */
  function WhereOpen(t: Node, path: seq<nat>): seq<Fragment>
    requires OnSpine(t, path)
  {
    if path == [] then Opening(t) + WhereOf(t.children)
    else Opening(t) + WhereOf(t.children[..path[0]]) + WhereOpen(t.children[path[0]], path[1..])
  }

  lemma WhereOfMore(ts: seq<Node>, n: Node)
    ensures WhereOf(ts + [n]) == WhereOf(ts) + Where(n) && AttrsOf(ts + [n]) == AttrsOf(ts) + Attrs(n)
  {
    assert (ts + [n])[..|ts|] == ts;
  }

  /** What is appended at the cursor comes behind everything else, in the SQL text as in the
      list of attributes. */
  lemma {:induction false} AppendedLast(t: Node, path: seq<nat>, n: Node)
    requires OnSpine(t, path) && Inner(t)
    ensures OnSpine(AppendAt(t, path, n), path)
    ensures WhereOpen(AppendAt(t, path, n), path) == WhereOpen(t, path) + Where(n)
    ensures Attrs(AppendAt(t, path, n)) == Attrs(t) + Attrs(n)
    decreases path
  {
    hide Where, WhereOf, AttrsOf;
    StillOnSpine(t, path, n);
    if path == [] {
      WhereOfMore(t.children, n);
    } else {
      var k, c := path[0], t.children[path[0]];
      AppendedLast(c, path[1..], n);
      assert t.children == t.children[..k] + [c];
      WhereOfMore(t.children[..k], c);
      WhereOfMore(t.children[..k], AppendAt(c, path[1..], n));
      assert AppendAt(t, path, n).children == t.children[..k] + [AppendAt(c, path[1..], n)];
      assert AppendAt(t, path, n).children[..k] == t.children[..k];
    }
  }

  /** Opening a block. */
  lemma {:induction false} OpenedLast(t: Node, path: seq<nat>, n: Node)
    requires OnSpine(t, path) && Inner(t) && n == Leaf(Block, NO_ATTR)
    ensures var p := path + [|At(t, path).children|];
            && OnSpine(AppendAt(t, path, n), p)
            && WhereOpen(AppendAt(t, path, n), p) == WhereOpen(t, path) + [OpenBracket]
    decreases path
  {
    IntoBlock(t, path, n);
    var p := path + [|At(t, path).children|];
    if path == [] {
      assert p[1..] == [];
      assert AppendAt(t, path, n).children[..p[0]] == t.children;
      assert WhereOpen(n, []) == [OpenBracket] + [];
    } else {
      var k, c := path[0], t.children[path[0]];
      OpenedLast(c, path[1..], n);
      assert p[1..] == path[1..] + [|At(t, path).children|];
      assert AppendAt(t, path, n).children[..k] == t.children[..k];
    }
  }

  /** Closing a block. */
  lemma {:induction false} ClosedLast(t: Node, path: seq<nat>)
    requires OnSpine(t, path) && Inner(t) && path != []
    ensures OnSpine(t, path[..|path| - 1])
    ensures WhereOpen(t, path[..|path| - 1]) == WhereOpen(t, path) + [CloseBracket]
    decreases path
  {
    hide WhereOf;
    OutOfBlock(t, path);
    var p, k, c := path[..|path| - 1], path[0], t.children[path[0]];
    if |path| == 1 {
      assert t.children == t.children[..k] + [c];
      WhereOfMore(t.children[..k], c);
      assert path[1..] == [];
    } else {
      ClosedLast(c, path[1..]);
      assert p[1..] == path[1..][..|path| - 2];
    }
  }

  /** With every block closed, the text is complete. */
  lemma NothingOpen(t: Node)
    requires t.token.typ.Root?
    ensures WhereOpen(t, []) == Where(t)
  {
  }

  /** The columns that are compared with a wildcard, in order. */
  function Wildcards(text: seq<Fragment>): seq<string> {
    if text == [] then [] else
    Wildcards(text[..|text| - 1]) + if text[|text| - 1].Compare? then [text[|text| - 1].name] else []
  }

  function Names(attrs: seq<Attribute>): (names: seq<string>)
    ensures |names| == |attrs|
  {
    seq(|attrs|, i requires 0 <= i < |attrs| => attrs[i].name)
  }

  lemma {:induction false} WildcardsOfBoth(a: seq<Fragment>, b: seq<Fragment>)
    ensures Wildcards(a + b) == Wildcards(a) + Wildcards(b)
  {
    if b == [] {
      assert a + b == a;
    } else {
      assert (a + b)[..|a + b| - 1] == a + b[..|b| - 1];
      WildcardsOfBoth(a, b[..|b| - 1]);
    }
  }

  lemma NoWildcard(f: Fragment)
    ensures Wildcards([f]) == if f.Compare? then [f.name] else []
  {
    assert [f][..0] == [];
  }

  /** The k-th wildcard of the SQL text belongs to the k-th attribute. */
  lemma {:induction false} WildcardsAreAttrs(t: Node)
    ensures Wildcards(Where(t)) == Names(Attrs(t))
    decreases t, 1
  {
    hide Wildcards;
    if Inner(t) {
      WildcardsAreAttrsOf(t, |t.children|);
      assert t.children[..|t.children|] == t.children;
      var inner := WhereOf(t.children);
      if t.token.typ.Block? {
        WildcardsOfBoth([OpenBracket] + inner, [CloseBracket]);
        WildcardsOfBoth([OpenBracket], inner);
        NoWildcard(OpenBracket);
        NoWildcard(CloseBracket);
      }
    } else {
      NoWildcard(Where(t)[0]);
    }
  }

  lemma {:induction false} WildcardsAreAttrsOf(t: Node, n: nat)
    requires n <= |t.children|
    ensures Wildcards(WhereOf(t.children[..n])) == Names(AttrsOf(t.children[..n]))
    decreases t, 0, n
  {
    hide Wildcards;
    if n > 0 {
      WildcardsAreAttrsOf(t, n - 1);
      WildcardsAreAttrs(t.children[n - 1]);
      assert t.children[..n][..n - 1] == t.children[..n - 1];
      WildcardsOfBoth(WhereOf(t.children[..n - 1]), Where(t.children[n - 1]));
    } else {
      NoWildcards();
    }
  }

  lemma NoWildcards()
    ensures Wildcards([]) == []
  {
  }

  // ----- closed blocks

  /** What EndBlock asserts about the block it closes. */
  predicate Closable(t: Node) {
    && t.children != []
    && !t.children[0].token.typ.And? && !t.children[0].token.typ.Or?
    && !t.children[|t.children| - 1].token.typ.And? && !t.children[|t.children| - 1].token.typ.Or?
    && !t.children[|t.children| - 1].token.typ.Not?
  }

  /** Every block of the tree is closable. */
  predicate AllClosed(t: Node) {
    && (t.token.typ.Block? ==> Closable(t))
    && forall i :: 0 <= i < |t.children| ==> AllClosed(t.children[i])
  }

  /** Every block except those along the path, which are still open. */
  predicate ClosedBut(t: Node, path: seq<nat>)
    requires OnSpine(t, path)
  {
    if path == [] then forall i :: 0 <= i < |t.children| ==> AllClosed(t.children[i])
    else (forall i :: 0 <= i < path[0] ==> AllClosed(t.children[i])) && ClosedBut(t.children[path[0]], path[1..])
  }

  lemma {:induction false} AppendKeepsClosed(t: Node, path: seq<nat>, n: Node)
    requires OnSpine(t, path) && ClosedBut(t, path) && AllClosed(n)
    ensures OnSpine(AppendAt(t, path, n), path) && ClosedBut(AppendAt(t, path, n), path)
    decreases path
  {
    StillOnSpine(t, path, n);
    if path != [] {
      AppendKeepsClosed(t.children[path[0]], path[1..], n);
    }
  }

  lemma {:induction false} OpenKeepsClosed(t: Node, path: seq<nat>, n: Node)
    requires OnSpine(t, path) && ClosedBut(t, path) && n == Leaf(Block, NO_ATTR)
    ensures var p := path + [|At(t, path).children|];
            OnSpine(AppendAt(t, path, n), p) && ClosedBut(AppendAt(t, path, n), p)
    decreases path
  {
    IntoBlock(t, path, n);
    var p := path + [|At(t, path).children|];
    if path == [] {
      assert p[1..] == [];
    } else {
      OpenKeepsClosed(t.children[path[0]], path[1..], n);
      assert p[1..] == path[1..] + [|At(t, path).children|];
    }
  }

  lemma {:induction false} CloseKeepsClosed(t: Node, path: seq<nat>)
    requires OnSpine(t, path) && path != [] && ClosedBut(t, path) && Closable(At(t, path))
    ensures OnSpine(t, path[..|path| - 1]) && ClosedBut(t, path[..|path| - 1])
    decreases path
  {
    OutOfBlock(t, path);
    var p := path[..|path| - 1];
    if |path| == 1 {
      assert path[1..] == [] && p == [];
    } else {
      CloseKeepsClosed(t.children[path[0]], path[1..]);
      assert p[1..] == path[1..][..|path| - 2];
    }
  }

  // ----- what a condition means

  /** Which comparisons are true of a row. */
  type Row = (Type, Attribute) -> bool

  function Both(a: Option<bool>, b: Option<bool>): Option<bool> {
    if a.Some? && b.Some? then Some(a.value && b.value) else None
  }

  function Either(a: Option<bool>, b: Option<bool>): Option<bool> {
    if a.Some? && b.Some? then Some(a.value || b.value) else None
  }

  /** The first token of this type, or the number of tokens. */
  function FirstOf(ts: seq<Node>, t: Type): (i: nat)
    ensures i <= |ts|
    ensures i < |ts| ==> ts[i].token.typ == t
    ensures forall j :: 0 <= j < i ==> ts[j].token.typ != t
  {
    if ts == [] then 0 else if ts[0].token.typ == t then 0 else 1 + FirstOf(ts[1..], t)
  }

  /** A condition without brackets around it: Or binds weakest, then And, then Not. None if
      it is not made of comparisons and blocks in that way. */
  function Meaning(ts: seq<Node>, row: Row): Option<bool>
    decreases ts, 2
  {
    var i := FirstOf(ts, Or);
    if i < |ts| then
      Either(AndMeaning(ts[..i], row), Meaning(ts[i + 1..], row))
    else AndMeaning(ts, row)
  }

  function AndMeaning(ts: seq<Node>, row: Row): Option<bool>
    decreases ts, 1
  {
    var i := FirstOf(ts, And);
    if i < |ts| then Both(NotMeaning(ts[..i], row), AndMeaning(ts[i + 1..], row)) else NotMeaning(ts, row)
  }

  function NotMeaning(ts: seq<Node>, row: Row): Option<bool>
    decreases ts, 0
  {
    if ts == [] then None
    else if ts[0].token.typ.Not? then
      var m := NotMeaning(ts[1..], row);
      if m.Some? then Some(!m.value) else None
    else if |ts| > 1 then None
    else if ts[0].token.typ.Block? then Meaning(ts[0].children, row)
    else if IsCheck(ts[0].token.typ) then Some(row(ts[0].token.typ, ts[0].token.attr))
    else None
  }

  // ----- which conditions have a meaning

  predicate IsOperand(t: Node) { IsCheck(t.token.typ) || t.token.typ.Block? }

  predicate IsJoiner(t: Node) { t.token.typ.And? || t.token.typ.Or? }

  /** Tokens that follow each other properly: And and Or stand exactly between an operand
      and what comes next, Not comes before an operand, and so it is inside every block. */
  predicate WellFormed(ts: seq<Node>) {
    && ts != [] && !IsJoiner(ts[0]) && IsOperand(ts[|ts| - 1])
    && (forall i :: 0 <= i < |ts| - 1 ==> (IsOperand(ts[i]) <==> IsJoiner(ts[i + 1])))
    && (forall i :: 0 <= i < |ts| ==> !ts[i].token.typ.Root? && (ts[i].token.typ.Block? ==> WellFormed(ts[i].children)))
  }

  /** A condition falls apart at any And or Or. */
  lemma SplitAtJoiner(ts: seq<Node>, i: nat)
    requires i < |ts| && IsJoiner(ts[i])
    ensures WellFormed(ts) <==> WellFormed(ts[..i]) && WellFormed(ts[i + 1..])
  {
    hide WellFormed;
    if WellFormed(ts) {
      PartsWellFormed(ts, i);
    }
    if WellFormed(ts[..i]) && WellFormed(ts[i + 1..]) {
      JoinedWellFormed(ts, i);
    }
  }

  lemma PartsWellFormed(ts: seq<Node>, i: nat)
    requires i < |ts| && IsJoiner(ts[i]) && WellFormed(ts)
    ensures WellFormed(ts[..i]) && WellFormed(ts[i + 1..])
  {
    var a, b := ts[..i], ts[i + 1..];
    assert forall k :: 0 <= k < |a| ==> a[k] == ts[k];
    assert forall k :: 0 <= k < |b| ==> b[k] == ts[i + 1 + k];
    if i > 0 {
      assert IsOperand(ts[i - 1]) <==> IsJoiner(ts[i - 1 + 1]);
      assert IsOperand(ts[i]) <==> IsJoiner(ts[i + 1]);
      forall k | 0 <= k < |b| - 1
        ensures IsOperand(b[k]) <==> IsJoiner(b[k + 1])
      {
        assert IsOperand(ts[i + 1 + k]) <==> IsJoiner(ts[i + 1 + k + 1]);
      }
    }
  }

  lemma JoinedWellFormed(ts: seq<Node>, i: nat)
    requires i < |ts| && IsJoiner(ts[i]) && WellFormed(ts[..i]) && WellFormed(ts[i + 1..])
    ensures WellFormed(ts)
  {
    var a, b := ts[..i], ts[i + 1..];
    assert forall k :: 0 <= k < |a| ==> a[k] == ts[k];
    assert forall k :: 0 <= k < |b| ==> b[k] == ts[i + 1 + k];
    forall k | 0 <= k < |ts| - 1
      ensures IsOperand(ts[k]) <==> IsJoiner(ts[k + 1])
    {
      if k < i - 1 {
        assert IsOperand(a[k]) <==> IsJoiner(a[k + 1]);
      } else if k > i {
        assert IsOperand(b[k - i - 1]) <==> IsJoiner(b[k - i - 1 + 1]);
      }
    }
    forall k | 0 <= k < |ts|
      ensures !ts[k].token.typ.Root? && (ts[k].token.typ.Block? ==> WellFormed(ts[k].children))
    {
      assert k != i ==> ts[k] == if k < i then a[k] else b[k - i - 1];
    }
  }

  /** A Not in front changes nothing, as long as something follows. */
  lemma NotInFront(ts: seq<Node>)
    requires ts != [] && ts[0].token.typ.Not?
    ensures WellFormed(ts) <==> WellFormed(ts[1..])
  {
    var b := ts[1..];
    assert forall k :: 0 <= k < |b| ==> b[k] == ts[k + 1];
    if WellFormed(ts) {
      assert IsOperand(ts[0]) <==> IsJoiner(ts[0 + 1]);
      forall k | 0 <= k < |b| - 1
        ensures IsOperand(b[k]) <==> IsJoiner(b[k + 1])
      {
        assert IsOperand(ts[k + 1]) <==> IsJoiner(ts[k + 1 + 1]);
      }
    }
    if WellFormed(b) {
      forall k | 0 <= k < |ts| - 1
        ensures IsOperand(ts[k]) <==> IsJoiner(ts[k + 1])
      {
        if k > 0 {
          assert IsOperand(b[k - 1]) <==> IsJoiner(b[k - 1 + 1]);
        }
      }
      forall k | 0 <= k < |ts|
        ensures !ts[k].token.typ.Root? && (ts[k].token.typ.Block? ==> WellFormed(ts[k].children))
      {
        assert k > 0 ==> ts[k] == b[k - 1];
      }
    }
  }

  /** Main result on conditions: a condition has a meaning, for any row, exactly if its
      tokens follow each other properly. */
  lemma {:induction false} MeaningfulIff(ts: seq<Node>, row: Row)
    ensures Meaning(ts, row).Some? <==> WellFormed(ts)
    decreases ts, 2
  {
    hide WellFormed;
    var i := FirstOf(ts, Or);
    if i < |ts| {
      SplitAtJoiner(ts, i);
      AndMeaningfulIff(ts[..i], row);
      MeaningfulIff(ts[i + 1..], row);
    } else {
      AndMeaningfulIff(ts, row);
    }
  }

  lemma {:induction false} AndMeaningfulIff(ts: seq<Node>, row: Row)
    requires forall k :: 0 <= k < |ts| ==> !ts[k].token.typ.Or?
    ensures AndMeaning(ts, row).Some? <==> WellFormed(ts)
    decreases ts, 1
  {
    hide WellFormed;
    var i := FirstOf(ts, And);
    if i < |ts| {
      SplitAtJoiner(ts, i);
      NotMeaningfulIff(ts[..i], row);
      AndMeaningfulIff(ts[i + 1..], row);
    } else {
      NotMeaningfulIff(ts, row);
    }
  }

  lemma NeedsJoiner(ts: seq<Node>)
    requires |ts| > 1 && WellFormed(ts) && !ts[0].token.typ.Not?
    ensures IsJoiner(ts[1])
  {
    assert IsOperand(ts[0]) <==> IsJoiner(ts[0 + 1]);
  }

  lemma {:induction false} NotMeaningfulIff(ts: seq<Node>, row: Row)
    requires forall k :: 0 <= k < |ts| ==> !IsJoiner(ts[k])
    ensures NotMeaning(ts, row).Some? <==> WellFormed(ts)
    decreases ts, 0
  {
    if ts != [] {
      if ts[0].token.typ.Not? {
        NotInFront(ts);
        NotMeaningfulIff(ts[1..], row);
      } else if |ts| > 1 {
        if WellFormed(ts) {
          NeedsJoiner(ts);
        }
      } else if ts[0].token.typ.Block? {
        MeaningfulIff(ts[0].children, row);
      }
    }
  }

  /** The asserts of EndBlock are necessary for a meaning. */
  lemma WellFormedIsClosable(t: Node)
    requires WellFormed(t.children)
    ensures Closable(t)
  {
  }

  /** A block that EndBlock closes has a meaning exactly if it is well-formed inside. */
  lemma BlockMeaningful(t: Node, row: Row)
    requires t.token.typ.Block?
    ensures Meaning([t], row).Some? <==> WellFormed(t.children)
  {
    MeaningfulIff([t], row);
    assert [t][0] == t;
  }

  // ----- a conjunction

  /** Equal checks joined by And, as Reader::Open adds them. */
  function Conjunction(attrs: seq<Attribute>): (ts: seq<Node>)
    ensures |ts| == if attrs == [] then 0 else 2 * |attrs| - 1
  {
    if attrs == [] then []
    else if |attrs| == 1 then [Leaf(Equal, attrs[0])]
    else Conjunction(attrs[..|attrs| - 1]) + [Leaf(And, NO_ATTR), Leaf(Equal, attrs[|attrs| - 1])]
  }

  lemma {:induction false} ConjunctionFromFront(attrs: seq<Attribute>)
    requires |attrs| > 1
    ensures Conjunction(attrs) == [Leaf(Equal, attrs[0]), Leaf(And, NO_ATTR)] + Conjunction(attrs[1..])
  {
    var n := |attrs| - 1;
    if n > 1 {
      ConjunctionFromFront(attrs[..n]);
      assert attrs[1..][..n - 1] == attrs[..n][1..];
      assert attrs[1..][n - 1] == attrs[n];
    }
  }

  lemma {:induction false} NoOr(attrs: seq<Attribute>)
    ensures FirstOf(Conjunction(attrs), Or) == |Conjunction(attrs)|
  {
    ConjunctionTokens(attrs);
  }

  lemma {:induction false} ConjunctionTokens(attrs: seq<Attribute>)
    ensures forall i :: 0 <= i < |Conjunction(attrs)| ==>
              Conjunction(attrs)[i].token.typ.Equal? || Conjunction(attrs)[i].token.typ.And?
  {
    if |attrs| > 1 {
      ConjunctionTokens(attrs[..|attrs| - 1]);
    }
  }

  /** The filter a reader builds is true of exactly the rows for which every single check
      is. */
  lemma {:induction false} ConjunctionMeans(attrs: seq<Attribute>, row: Row)
    requires attrs != []
    ensures AndMeaning(Conjunction(attrs), row) == Some(forall k :: 0 <= k < |attrs| ==> row(Equal, attrs[k]))
    ensures Meaning(Conjunction(attrs), row) == AndMeaning(Conjunction(attrs), row)
  {
    hide AndMeaning, FirstOf;
    NoOr(attrs);
    if |attrs| > 1 {
      ConjunctionFromFront(attrs);
      ConjunctionMeans(attrs[1..], row);
      AndOfCheck(attrs[0], Conjunction(attrs[1..]), row);
      assert forall k :: 0 < k < |attrs| ==> attrs[k] == attrs[1..][k - 1];
      assert forall k :: 0 <= k < |attrs[1..]| ==> attrs[1..][k] == attrs[k + 1];
    } else {
      OneCheck(attrs[0], row);
    }
  }

  lemma OneCheck(attr: Attribute, row: Row)
    ensures AndMeaning([Leaf(Equal, attr)], row) == Some(row(Equal, attr))
  {
    assert FirstOf([Leaf(Equal, attr)], And) == 1;
  }

  lemma AndOfCheck(attr: Attribute, rest: seq<Node>, row: Row)
    ensures AndMeaning([Leaf(Equal, attr), Leaf(And, NO_ATTR)] + rest, row)
            == Both(Some(row(Equal, attr)), AndMeaning(rest, row))
  {
    var ts := [Leaf(Equal, attr), Leaf(And, NO_ATTR)] + rest;
    assert FirstOf(ts, And) == 1;
    assert ts[..1] == [Leaf(Equal, attr)] && ts[2..] == rest;
  }

  /** The asserts of EndBlock do not make a condition well-formed: two comparisons with
      nothing between them pass. */
  lemma ClosableWithoutMeaning(a: Attribute, b: Attribute, row: Row)
    ensures var t := Node(Token(Block, NO_ATTR), [Leaf(Equal, a), Leaf(Equal, b)]);
            AllClosed(t) && Meaning([t], row).None?
  {
    var ts := [Leaf(Equal, a), Leaf(Equal, b)];
    assert FirstOf(ts, Or) == 2 && FirstOf(ts, And) == 2;
    assert NotMeaning(ts, row).None?;
    var t := Node(Token(Block, NO_ATTR), ts);
    assert Meaning(ts, row).None?;
    assert FirstOf([t], Or) == 1 && FirstOf([t], And) == 1;
    assert NotMeaning([t], row) == Meaning(t.children, row);
    assert AndMeaning([t], row) == NotMeaning([t], row);
  }

  predicate InBounds(attrs: seq<Attribute>, i: int) {
    0 <= i < |attrs|
  }

  /** BindValuesToCommand reads the attributes at the wildcard positions: that stays in
      bounds exactly if the wildcards start at 0, or there is nothing to bind. */
  lemma BindOnlyFromZero(attrs: seq<Attribute>, wildcardStartIndex: nat)
    ensures (forall i :: InBounds(attrs, i) ==> InBounds(attrs, i + wildcardStartIndex))
            <==> wildcardStartIndex == 0 || attrs == []
  {
    var start := wildcardStartIndex;
    if attrs != [] && start != 0 {
      assert InBounds(attrs, |attrs| - 1) && !InBounds(attrs, |attrs| - 1 + start);
    } else {
      forall i | InBounds(attrs, i)
        ensures InBounds(attrs, i + start)
      {
      }
    }
  }
}
