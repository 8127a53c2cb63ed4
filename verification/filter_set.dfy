/** Db::FilterSet with its cursor, the SQL it compiles to, and Db::Reader::Open. */
module FilterSets {
  import opened FilterModel
  import opened FilterText

  /** A compiled command: which value is bound to which wildcard. */
  class Command {
    var bound: map<int, Attribute>

    constructor ()
      ensures bound == map[]
    {
      bound := map[];
    }

    method Bind(index: int, attr: Attribute)
      modifies this
      ensures bound == old(bound)[index := attr]
    {
      bound := bound[index := attr];
    }
  }

  class FilterSet {
    var tokens: Node
    var curToken: seq<nat>
    var bindAttrs: seq<Attribute>
    var isDirty: bool
    /** The builder calls so far, as the fragments they stand for. */
    ghost var callsLog: seq<Fragment>

    /** The cursor is on the rightmost spine, the attributes to bind are those of the tree
        from left to right, every block that was closed is closable, and the SQL text of
        the tree is the sequence of builder calls; and only the tree itself is a root. */
    ghost predicate Valid()
      reads this
    {
      && tokens.token.typ.Root? && Rootless(tokens.children) && OnSpine(tokens, curToken)
      && bindAttrs == Attrs(tokens)
      && ClosedBut(tokens, curToken)
      && WhereOpen(tokens, curToken) == callsLog
    }

    constructor ()
      ensures Valid() && callsLog == [] && tokens == EMPTY_ROOT && curToken == [] && !isDirty
    {
      tokens, curToken, bindAttrs, isDirty := EMPTY_ROOT, [], [], false;
      callsLog := [];
    }

    method Clear()
      requires Valid()
      modifies this
      ensures Valid() && callsLog == [] && tokens == EMPTY_ROOT && curToken == [] && isDirty
    {
      tokens := Node(tokens.token, []).(token := Token(Root, NO_ATTR));
      bindAttrs, curToken, isDirty := [], [], true;
      callsLog := [];
    }

    method BeginBlock()
      requires Valid()
      modifies this
      ensures Valid() && callsLog == old(callsLog) + [OpenBracket] && bindAttrs == old(bindAttrs) && isDirty
      ensures OnSpine(old(tokens), old(curToken))
              && tokens == AppendAt(old(tokens), old(curToken), Leaf(Block, NO_ATTR))
      ensures curToken == old(curToken) + [|At(old(tokens), old(curToken)).children|]
    {
      var n := Leaf(Block, NO_ATTR);
      OpenedLast(tokens, curToken, n);
      OpenKeepsClosed(tokens, curToken, n);
      AppendKeepsRootless(tokens, curToken, n);
      AppendedLast(tokens, curToken, n);
      var last := |At(tokens, curToken).children|;
      tokens := AppendAt(tokens, curToken, n);
      curToken := curToken + [last];
      isDirty := true;
      callsLog := callsLog + [OpenBracket];
    }

    method EndBlock()
      requires Valid() && curToken != [] && Closable(At(tokens, curToken))
      modifies this
      ensures Valid() && callsLog == old(callsLog) + [CloseBracket] && bindAttrs == old(bindAttrs) && isDirty
      ensures OnSpine(old(tokens), old(curToken)) && forall row: Row ::
                Meaning([At(old(tokens), old(curToken))], row).Some? <==>
                WellFormed(At(old(tokens), old(curToken)).children)
      ensures tokens == old(tokens) && curToken == old(curToken)[..|old(curToken)| - 1]
    {
      ClosedLast(tokens, curToken);
      OutOfBlock(tokens, curToken);
      ghost var block := At(tokens, curToken);
      forall row: Row
        ensures Meaning([block], row).Some? <==> WellFormed(block.children)
      {
        BlockMeaningful(block, row);
      }
      CloseKeepsClosed(tokens, curToken);
      curToken := curToken[..|curToken| - 1];
      isDirty := true;
      callsLog := callsLog + [CloseBracket];
    }

    /** The five checks; there is no call for NotEqual. */
    method AddCheck(t: Type, attr: Attribute)
      requires Valid() && IsCheck(t) && !t.NotEqual?
      modifies this
      ensures Valid() && callsLog == old(callsLog) + [Compare(attr.name, Operator(t))]
              && bindAttrs == old(bindAttrs) + [attr]
              && isDirty
      ensures curToken == old(curToken) && OnSpine(old(tokens), old(curToken))
      ensures tokens == AppendAt(old(tokens), old(curToken), Leaf(t, attr))
    {
      hide AppendAt;
      var n := Leaf(t, attr);
      AppendedLast(tokens, curToken, n);
      AppendKeepsClosed(tokens, curToken, n);
      AppendKeepsRootless(tokens, curToken, n);
      tokens := AppendAt(tokens, curToken, n);
      bindAttrs := bindAttrs + [attr];
      isDirty := true;
      callsLog := callsLog + [Compare(attr.name, Operator(t))];
    }

    /** AddAnd, AddOr and AddNot. */
    method AddOperator(t: Type)
      requires Valid() && (t.And? || t.Or? || t.Not?)
      modifies this
      ensures Valid() && bindAttrs == old(bindAttrs) && isDirty
      ensures callsLog == old(callsLog) + [if t.And? then AndFrag else if t.Or? then OrFrag else NotFrag]
      ensures curToken == old(curToken) && OnSpine(old(tokens), old(curToken))
      ensures tokens == AppendAt(old(tokens), old(curToken), Leaf(t, NO_ATTR))
    {
      hide AppendAt;
      var n := Leaf(t, NO_ATTR);
      AppendedLast(tokens, curToken, n);
      AppendKeepsClosed(tokens, curToken, n);
      AppendKeepsRootless(tokens, curToken, n);
      tokens := AppendAt(tokens, curToken, n);
      isDirty := true;
      callsLog := callsLog + [if t.And? then AndFrag else if t.Or? then OrFrag else NotFrag];
    }

    function IsEmpty(): bool
      reads this
    {
      tokens.children == []
    }

    // ----- Sqlite3FilterSet

    /** The WHERE clause. With the attributes to bind it says what the condition means; once
        all blocks are closed it reads like the builder calls. */
    method AsSqlWhere() returns (text: seq<Fragment>)
      requires Valid() && !IsEmpty()
      ensures text == Where(tokens)
      ensures curToken == [] ==> text == callsLog
      ensures Wildcards(text) == Names(bindAttrs)
      ensures forall row: Row :: Says(text, bindAttrs, row) == Meaning(tokens.children, row)
    {
      hide Says, Meaning, Where, WhereOpen;
      text := RecurseBuildWhere(tokens, []);
      assert text == Where(tokens);
      WildcardsAreAttrs(tokens);
      NothingOpen(tokens);
      forall row: Row
        ensures Says(text, bindAttrs, row) == Meaning(tokens.children, row)
      {
        ClauseMeans(tokens, row);
      }
    }

    method RecurseBuildWhere(curNode: Node, before: seq<Fragment>) returns (text: seq<Fragment>)
      ensures text == before + Where(curNode)
      decreases curNode
    {
      text := before;
      match curNode.token.typ {
        case Root =>
          text := RecurseChildren(curNode, text);
        case Block =>
          text := RecurseChildren(curNode, text + [OpenBracket]);
          text := text + [CloseBracket];
        case And => text := text + [AndFrag];
        case Or => text := text + [OrFrag];
        case Not => text := text + [NotFrag];
        case Equal => text := text + [Compare(curNode.token.attr.name, "==")];
        case NotEqual => text := text + [Compare(curNode.token.attr.name, "!=")];
        case Greater => text := text + [Compare(curNode.token.attr.name, ">")];
        case Less => text := text + [Compare(curNode.token.attr.name, "<")];
        case GreaterEqual => text := text + [Compare(curNode.token.attr.name, ">=")];
        case LessEqual => text := text + [Compare(curNode.token.attr.name, "<=")];
      }
    }

    method RecurseChildren(curNode: Node, before: seq<Fragment>) returns (text: seq<Fragment>)
      ensures text == before + WhereOf(curNode.children)
      decreases curNode, 0
    {
      text := before;
      for i := 0 to |curNode.children|
        invariant text == before + WhereOf(curNode.children[..i])
      {
        WhereOfMore(curNode.children[..i], curNode.children[i]);
        assert curNode.children[..i + 1] == curNode.children[..i] + [curNode.children[i]];
        text := RecurseBuildWhere(curNode.children[i], text);
      }
      assert curNode.children[..|curNode.children|] == curNode.children;
    }

    /** Binds the attributes at the wildcard positions themselves. Reading behind the last
        one stops the program: that happens exactly if the wildcards do not start at 0 and
        there is something to bind. */
    method BindValuesToCommand(cmd: Command, wildcardStartIndex: nat) returns (inBounds: bool)
      requires Valid()
      modifies cmd
      ensures inBounds <==> wildcardStartIndex == 0 || bindAttrs == []
      ensures forall i :: wildcardStartIndex <= i < |bindAttrs| ==> i in cmd.bound && cmd.bound[i] == bindAttrs[i]
      ensures forall i :: i in cmd.bound && !(wildcardStartIndex <= i < |bindAttrs|) ==>
                i in old(cmd.bound) && cmd.bound[i] == old(cmd.bound)[i]
    {
      var num := |bindAttrs|;
      for i := 0 to num
        invariant i == 0 || wildcardStartIndex + i <= num
        invariant forall k :: wildcardStartIndex <= k < wildcardStartIndex + i ==>
                  k in cmd.bound && cmd.bound[k] == bindAttrs[k]
        invariant forall k :: k in cmd.bound && !(wildcardStartIndex <= k < wildcardStartIndex + i) ==>
                    k in old(cmd.bound) && cmd.bound[k] == old(cmd.bound)[k]
      {
        var wildCardIndex := i + wildcardStartIndex;
        if wildCardIndex >= num {
          return false;
        }
        cmd.Bind(wildCardIndex, bindAttrs[wildCardIndex]);
      }
      return true;
    }
  }

  class Reader {
    var filterAttrs: seq<Attribute>
    var isOpen: bool

    constructor ()
      ensures filterAttrs == [] && !isOpen
    {
      filterAttrs, isOpen := [], false;
    }

    method AddFilterAttr(attr: Attribute)
      modifies this`filterAttrs
      ensures filterAttrs == old(filterAttrs) + [attr]
    {
      filterAttrs := filterAttrs + [attr];
    }

    /** The filter of the new dataset becomes the conjunction of all filter attributes. */
    method Open(filter: FilterSet)
      requires !isOpen && filter.Valid() && filter.tokens == EMPTY_ROOT && filter.curToken == []
      modifies this`isOpen, filter
      ensures isOpen && filter.Valid() && filter.curToken == []
      ensures filter.tokens.children == Conjunction(filterAttrs) && filter.bindAttrs == filterAttrs
    {
      hide FilterSet.Valid, AppendAt, Conjunction, Joined, OnSpine;
      JoinedAll(filterAttrs);
      NothingBound(filter);
      var num := |filterAttrs|;
      for i := 0 to num
        invariant filter.Valid() && filter.curToken == []
        invariant filter.tokens.children == Joined(filterAttrs, i) && filter.bindAttrs == filterAttrs[..i]
      {
        JoinedNext(filterAttrs, i);
        AtRoot(filter.tokens, Leaf(Equal, filterAttrs[i]));
        filter.AddCheck(Equal, filterAttrs[i]);
        if i < num - 1 {
          AtRoot(filter.tokens, Leaf(And, NO_ATTR));
          filter.AddOperator(And);
        }
      }
      isOpen := true;
    }
  }

  lemma NothingBound(filter: FilterSet)
    requires filter.Valid() && filter.tokens == EMPTY_ROOT
    ensures filter.bindAttrs == []
  {
  }

  lemma AtRoot(t: Node, n: Node)
    ensures OnSpine(t, []) && AppendAt(t, [], n).children == t.children + [n]
  {
  }

  /** The tokens after i rounds of the loop. */
  function Joined(attrs: seq<Attribute>, i: nat): seq<Node>
    requires i <= |attrs|
  {
    Conjunction(attrs[..i]) + if 0 < i < |attrs| then [Leaf(And, NO_ATTR)] else []
  }

  lemma JoinedNext(attrs: seq<Attribute>, i: nat)
    requires i < |attrs|
    ensures Joined(attrs, i + 1)
            == Joined(attrs, i) + [Leaf(Equal, attrs[i])] + if i < |attrs| - 1 then [Leaf(And, NO_ATTR)] else []
    ensures attrs[..i + 1] == attrs[..i] + [attrs[i]]
  {
    assert attrs[..i + 1][..i] == attrs[..i];
  }

  lemma JoinedAll(attrs: seq<Attribute>)
    ensures Joined(attrs, |attrs|) == Conjunction(attrs) && attrs[..|attrs|] == attrs && Joined(attrs, 0) == []
  {
    assert attrs[..|attrs|] == attrs;
  }
}
