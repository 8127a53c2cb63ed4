/** What a WHERE clause says by itself, read from left to right with the values bound to its
    wildcards; and that the clause written for a condition says what the condition means. */
module FilterText {
  import opened Wrappers
  import opened FilterModel

  /** What has been read, and what is left of the clause and of the values. */
  datatype Reading = Reading(holds: bool, text: seq<Fragment>, values: seq<Attribute>)

  function Compares(operator: string): Option<Type> {
    if operator == "==" then Some(Equal)
    else if operator == "!=" then Some(NotEqual)
    else if operator == ">" then Some(Greater)
    else if operator == "<" then Some(Less)
    else if operator == ">=" then Some(GreaterEqual)
    else if operator == "<=" then Some(LessEqual)
    else None
  }

  /** The precedence of SQL: OR binds weakest, then AND, then NOT. */
  function ReadOr(text: seq<Fragment>, values: seq<Attribute>, row: Row): (r: Option<Reading>)
    ensures r.Some? ==> |r.value.text| < |text|
    decreases |text|, 2
  {
    match ReadAnd(text, values, row)
    case None => None
    case Some(left) =>
      if left.text == [] || left.text[0] != OrFrag then Some(left) else
      match ReadOr(left.text[1..], left.values, row)
      case None => None
      case Some(right) => Some(right.(holds := left.holds || right.holds))
  }

  function ReadAnd(text: seq<Fragment>, values: seq<Attribute>, row: Row): (r: Option<Reading>)
    ensures r.Some? ==> |r.value.text| < |text|
    decreases |text|, 1
  {
    match ReadNot(text, values, row)
    case None => None
    case Some(left) =>
      if left.text == [] || left.text[0] != AndFrag then Some(left) else
      match ReadAnd(left.text[1..], left.values, row)
      case None => None
      case Some(right) => Some(right.(holds := left.holds && right.holds))
  }

  function ReadNot(text: seq<Fragment>, values: seq<Attribute>, row: Row): (r: Option<Reading>)
    ensures r.Some? ==> |r.value.text| < |text|
    decreases |text|, 0
  {
    if text == [] then None else
    match text[0]
    case NotFrag =>
      (match ReadNot(text[1..], values, row)
       case None => None
       case Some(r) => Some(r.(holds := !r.holds)))
    case OpenBracket =>
      (match ReadOr(text[1..], values, row)
       case None => None
       case Some(r) => if r.text != [] && r.text[0] == CloseBracket then Some(r.(text := r.text[1..])) else None)
    case Compare(name, operator) =>
      if values != [] && values[0].name == name && Compares(operator).Some? then
        Some(Reading(row(Compares(operator).value, values[0]), text[1..], values[1..]))
      else None
    case _ => None
  }

  /** A clause says something if it can be read to its end, and takes all the values. */
  function Says(text: seq<Fragment>, values: seq<Attribute>, row: Row): Option<bool> {
    match ReadOr(text, values, row)
    case None => None
    case Some(r) => if r.text == [] && r.values == [] then Some(r.holds) else None
  }

  // ----- the same descent over the tokens of a tree

  /** The value of the first n tokens. */
  datatype Taken = Taken(holds: bool, n: nat)

  function TakeOr(ts: seq<Node>, row: Row): (r: Option<Taken>)
    ensures r.Some? ==> 0 < r.value.n <= |ts|
    decreases ts, 2
  {
    match TakeAnd(ts, row)
    case None => None
    case Some(left) =>
      if left.n == |ts| || !ts[left.n].token.typ.Or? then Some(left) else
      match TakeOr(ts[left.n + 1..], row)
      case None => None
      case Some(right) => Some(Taken(left.holds || right.holds, left.n + 1 + right.n))
  }

  function TakeAnd(ts: seq<Node>, row: Row): (r: Option<Taken>)
    ensures r.Some? ==> 0 < r.value.n <= |ts|
    decreases ts, 1
  {
    match TakeNot(ts, row)
    case None => None
    case Some(left) =>
      if left.n == |ts| || !ts[left.n].token.typ.And? then Some(left) else
      match TakeAnd(ts[left.n + 1..], row)
      case None => None
      case Some(right) => Some(Taken(left.holds && right.holds, left.n + 1 + right.n))
  }

  function TakeNot(ts: seq<Node>, row: Row): (r: Option<Taken>)
    ensures r.Some? ==> 0 < r.value.n <= |ts|
    decreases ts, 0
  {
    if ts == [] then None
    else if ts[0].token.typ.Not? then
      match TakeNot(ts[1..], row)
      case None => None
      case Some(r) => Some(Taken(!r.holds, 1 + r.n))
    else if ts[0].token.typ.Block? then
      match TakeOr(ts[0].children, row)
      case None => None
      case Some(r) => if r.n == |ts[0].children| then Some(Taken(r.holds, 1)) else None
    else if IsCheck(ts[0].token.typ) then Some(Taken(row(ts[0].token.typ, ts[0].token.attr), 1))
    else None
  }

  // ----- reading the clause is descending the tree

  /** No root among the tokens, nor inside their blocks. */
  predicate Rootless(ts: seq<Node>) {
    forall i :: 0 <= i < |ts| ==> !ts[i].token.typ.Root? && (ts[i].token.typ.Block? ==> Rootless(ts[i].children))
  }

  function Clause(ts: seq<Node>, suffix: seq<Fragment>): seq<Fragment> { WhereOf(ts) + suffix }

  function Values(ts: seq<Node>, suffix: seq<Attribute>): seq<Attribute> { AttrsOf(ts) + suffix }

  /** What stands behind a condition: nothing, or the end of the block around it. */
  predicate Ends(suffix: seq<Fragment>) {
    suffix == [] || suffix[0] == CloseBracket
  }

  lemma {:induction false} FromFront(ts: seq<Node>)
    requires ts != []
    ensures WhereOf(ts) == Where(ts[0]) + WhereOf(ts[1..]) && AttrsOf(ts) == Attrs(ts[0]) + AttrsOf(ts[1..])
  {
    hide Where, Attrs, WhereOf, AttrsOf;
    var n := |ts| - 1;
    assert ts == ts[..n] + [ts[n]];
    WhereOfMore(ts[..n], ts[n]);
    if n == 0 {
      assert ts[..0] == [] && ts[1..] == [];
      NothingWritten();
    } else {
      FromFront(ts[..n]);
      assert ts[..n][1..] == ts[1..n] && ts[1..] == ts[1..n] + [ts[n]];
      WhereOfMore(ts[1..n], ts[n]);
    }
  }

  lemma NothingWritten()
    ensures WhereOf([]) == [] && AttrsOf([]) == []
  {
  }

  lemma ClauseFront(ts: seq<Node>, suffix: seq<Fragment>, values: seq<Attribute>)
    requires ts != []
    ensures Clause(ts, suffix) == Where(ts[0]) + Clause(ts[1..], suffix)
    ensures Values(ts, values) == Attrs(ts[0]) + Values(ts[1..], values)
  {
    hide Where, Attrs, WhereOf, AttrsOf;
    FromFront(ts);
  }

  /** An operator at the front. */
  lemma OperatorFront(ts: seq<Node>, suffix: seq<Fragment>, values: seq<Attribute>)
    requires ts != [] && (IsJoiner(ts[0]) || ts[0].token.typ.Not?)
    ensures Clause(ts, suffix) != [] && Clause(ts, suffix)[1..] == Clause(ts[1..], suffix)
    ensures Values(ts, values) == Values(ts[1..], values)
  {
    hide WhereOf, AttrsOf;
    ClauseFront(ts, suffix, values);
  }

  /** A comparison at the front. */
  lemma CheckFront(ts: seq<Node>, suffix: seq<Fragment>, values: seq<Attribute>)
    requires ts != [] && IsCheck(ts[0].token.typ)
    ensures var text, vs := Clause(ts, suffix), Values(ts, values);
            && text != [] && vs != [] && text[0] == Compare(ts[0].token.attr.name, Operator(ts[0].token.typ))
            && vs[0] == ts[0].token.attr && text[1..] == Clause(ts[1..], suffix) && vs[1..] == Values(ts[1..], values)
  {
    hide WhereOf, AttrsOf, Operator;
    ClauseFront(ts, suffix, values);
  }

  /** A block at the front. */
  lemma BlockFront(t: Node, text: seq<Fragment>, values: seq<Attribute>)
    requires t.token.typ.Block?
    ensures Where(t) + text == [OpenBracket] + Clause(t.children, [CloseBracket] + text)
    ensures Attrs(t) + values == Values(t.children, values)
  {
    hide WhereOf, AttrsOf;
  }

  /** The first fragment tells a joiner from anything else, and is no close bracket unless
      the tokens have come to an end. */
  lemma FirstFragment(ts: seq<Node>, suffix: seq<Fragment>)
    requires Rootless(ts) && Ends(suffix)
    ensures var text := Clause(ts, suffix);
            && (text != [] && text[0] == OrFrag <==> ts != [] && ts[0].token.typ.Or?)
            && (text != [] && text[0] == AndFrag <==> ts != [] && ts[0].token.typ.And?)
            && (text != [] && text[0] == CloseBracket <==> ts == [] && suffix != [])
  {
    hide WhereOf;
    if ts == [] {
      NoTokens(suffix);
    } else {
      ClauseFront(ts, suffix, []);
    }
  }

  lemma NoTokens(suffix: seq<Fragment>)
    ensures Clause([], suffix) == suffix && WhereOf([]) == [] && AttrsOf([]) == []
  {
  }

  lemma RootlessRest(ts: seq<Node>, n: nat)
    requires Rootless(ts) && n <= |ts|
    ensures Rootless(ts[n..])
  {
  }

  lemma Operators(t: Type)
    requires IsCheck(t)
    ensures Compares(Operator(t)) == Some(t)
  {
  }

  function ReadingOf(ts: seq<Node>, suffix: seq<Fragment>, values: seq<Attribute>, t: Option<Taken>): Option<Reading>
    requires t.Some? ==> t.value.n <= |ts|
  {
    match t
    case None => None
    case Some(t) => Some(Reading(t.holds, Clause(ts[t.n..], suffix), Values(ts[t.n..], values)))
  }

  lemma {:induction false} ReadsOr(ts: seq<Node>, suffix: seq<Fragment>, values: seq<Attribute>, row: Row)
    requires Rootless(ts) && Ends(suffix)
    ensures ReadOr(Clause(ts, suffix), Values(ts, values), row) == ReadingOf(ts, suffix, values, TakeOr(ts, row))
    decreases ts, 2
  {
    hide Clause, Values, ReadAnd, TakeAnd, Rootless;
    ReadsAnd(ts, suffix, values, row);
    if TakeAnd(ts, row).Some? {
      var n := TakeAnd(ts, row).value.n;
      RootlessRest(ts, n);
      FirstFragment(ts[n..], suffix);
      if n < |ts| && ts[n].token.typ.Or? {
        OperatorFront(ts[n..], suffix, values);
        assert ts[n..][1..] == ts[n + 1..];
        RootlessRest(ts, n + 1);
        ReadsOr(ts[n + 1..], suffix, values, row);
        if TakeOr(ts[n + 1..], row).Some? {
          var m := TakeOr(ts[n + 1..], row).value.n;
          assert ts[n + 1..][m..] == ts[n + 1 + m..];
        }
      }
    }
  }

  lemma {:induction false} ReadsAnd(ts: seq<Node>, suffix: seq<Fragment>, values: seq<Attribute>, row: Row)
    requires Rootless(ts) && Ends(suffix)
    ensures ReadAnd(Clause(ts, suffix), Values(ts, values), row) == ReadingOf(ts, suffix, values, TakeAnd(ts, row))
    decreases ts, 1
  {
    hide Clause, Values, ReadNot, TakeNot, Rootless;
    ReadsNot(ts, suffix, values, row);
    if TakeNot(ts, row).Some? {
      var n := TakeNot(ts, row).value.n;
      RootlessRest(ts, n);
      FirstFragment(ts[n..], suffix);
      if n < |ts| && ts[n].token.typ.And? {
        OperatorFront(ts[n..], suffix, values);
        assert ts[n..][1..] == ts[n + 1..];
        RootlessRest(ts, n + 1);
        ReadsAnd(ts[n + 1..], suffix, values, row);
        if TakeAnd(ts[n + 1..], row).Some? {
          var m := TakeAnd(ts[n + 1..], row).value.n;
          assert ts[n + 1..][m..] == ts[n + 1 + m..];
        }
      }
    }
  }

  lemma {:induction false} ReadsNot(ts: seq<Node>, suffix: seq<Fragment>, values: seq<Attribute>, row: Row)
    requires Rootless(ts) && Ends(suffix)
    ensures ReadNot(Clause(ts, suffix), Values(ts, values), row) == ReadingOf(ts, suffix, values, TakeNot(ts, row))
    decreases ts, 0
  {
    hide Clause, Values, ReadOr, TakeOr, Rootless, Compares, Operator;
    FirstFragment(ts, suffix);
    if ts == [] {
      NoTokens(suffix);
    } else {
      var t, more := ts[0], ts[1..];
      ClauseFront(ts, suffix, values);
      RootlessRest(ts, 1);
      RootlessFirst(ts);
      if t.token.typ.Not? {
        OperatorFront(ts, suffix, values);
        ReadsNot(more, suffix, values, row);
        if TakeNot(more, row).Some? {
          var m := TakeNot(more, row).value.n;
          assert more[m..] == ts[1 + m..];
        }
      } else if t.token.typ.Block? {
        BlockFront(t, Clause(more, suffix), Values(more, values));
        var behind := [CloseBracket] + Clause(more, suffix);
        ReadsOr(t.children, behind, Values(more, values), row);
        if TakeOr(t.children, row).Some? {
          var m := TakeOr(t.children, row).value.n;
          RootlessRest(t.children, m);
          FirstFragment(t.children[m..], behind);
          if m == |t.children| {
            assert t.children[m..] == [];
            NothingLeft(behind, Values(more, values));
          }
        }
      } else if IsCheck(t.token.typ) {
        ReadsCheck(ts, suffix, values, row);
      }
    }
  }

  lemma {:induction false} ReadsCheck(ts: seq<Node>, suffix: seq<Fragment>, values: seq<Attribute>, row: Row)
    requires ts != [] && IsCheck(ts[0].token.typ)
    ensures ReadNot(Clause(ts, suffix), Values(ts, values), row)
            == Some(Reading(row(ts[0].token.typ, ts[0].token.attr), Clause(ts[1..], suffix), Values(ts[1..], values)))
  {
    hide Clause, Values, Compares, Operator;
    Operators(ts[0].token.typ);
    CheckFront(ts, suffix, values);
  }

  lemma RootlessFirst(ts: seq<Node>)
    requires Rootless(ts) && ts != []
    ensures !ts[0].token.typ.Root? && (ts[0].token.typ.Block? ==> Rootless(ts[0].children))
  {
  }

  lemma NothingLeft(text: seq<Fragment>, values: seq<Attribute>)
    ensures Clause([], text) == text && Values([], values) == values
  {
  }

  // ----- and the descent finds the meaning

  lemma {:induction false} NotTaken(a: seq<Node>, rest: seq<Node>, row: Row)
    requires NotMeaning(a, row).Some?
    ensures TakeNot(a + rest, row) == Some(Taken(NotMeaning(a, row).value, |a|))
    decreases a, 0
  {
    hide TakeOr, Meaning;
    assert (a + rest)[0] == a[0] && (a + rest)[1..] == a[1..] + rest;
    if a[0].token.typ.Not? {
      NotTaken(a[1..], rest, row);
    } else if a[0].token.typ.Block? {
      OrTaken(a[0].children, [], row);
      assert a[0].children + [] == a[0].children;
    }
  }

  lemma {:induction false} AndTaken(a: seq<Node>, rest: seq<Node>, row: Row)
    requires AndMeaning(a, row).Some? && (rest == [] || !rest[0].token.typ.And?)
    ensures TakeAnd(a + rest, row) == Some(Taken(AndMeaning(a, row).value, |a|))
    decreases a, 1
  {
    hide TakeNot, NotMeaning, TakeAnd;
    var i := FirstOf(a, And);
    if i < |a| {
      var left, right := a[..i], a[i + 1..];
      NotTaken(left, [a[i]] + (right + rest), row);
      AndTaken(right, rest, row);
      Around(a, i, rest);
      TakeAndBoth(left, a[i], right + rest, row);
    } else {
      NotTaken(a, rest, row);
      TakeAndOne(a, rest, row);
    }
  }

  lemma {:induction false} TakeAndBoth(left: seq<Node>, joiner: Node, more: seq<Node>, row: Row)
    requires joiner.token.typ.And? && TakeAnd(more, row).Some?
    requires TakeNot(left + ([joiner] + more), row).Some? && TakeNot(left + ([joiner] + more), row).value.n == |left|
    ensures TakeAnd(left + ([joiner] + more), row)
            == Some(Taken(TakeNot(left + ([joiner] + more), row).value.holds && TakeAnd(more, row).value.holds,
                          |left| + 1 + TakeAnd(more, row).value.n))
  {
    hide TakeNot;
    var ts := left + ([joiner] + more);
    assert ts[|left|] == joiner && ts[|left| + 1..] == more;
  }

  lemma {:induction false} TakeAndOne(a: seq<Node>, rest: seq<Node>, row: Row)
    requires rest == [] || !rest[0].token.typ.And?
    requires TakeNot(a + rest, row).Some? && TakeNot(a + rest, row).value.n == |a|
    ensures TakeAnd(a + rest, row) == TakeNot(a + rest, row)
  {
    hide TakeNot;
    assert rest != [] ==> (a + rest)[|a|] == rest[0];
  }

  lemma {:induction false} OrTaken(a: seq<Node>, rest: seq<Node>, row: Row)
    requires Meaning(a, row).Some? && (rest == [] || !IsJoiner(rest[0]))
    ensures TakeOr(a + rest, row) == Some(Taken(Meaning(a, row).value, |a|))
    decreases a, 2
  {
    hide TakeAnd, AndMeaning, TakeOr;
    var i := FirstOf(a, Or);
    if i < |a| {
      var left, right := a[..i], a[i + 1..];
      AndTaken(left, [a[i]] + (right + rest), row);
      OrTaken(right, rest, row);
      Around(a, i, rest);
      TakeOrBoth(left, a[i], right + rest, row);
    } else {
      AndTaken(a, rest, row);
      TakeOrOne(a, rest, row);
    }
  }

  lemma {:induction false} TakeOrBoth(left: seq<Node>, joiner: Node, more: seq<Node>, row: Row)
    requires joiner.token.typ.Or? && TakeOr(more, row).Some?
    requires TakeAnd(left + ([joiner] + more), row).Some? && TakeAnd(left + ([joiner] + more), row).value.n == |left|
    ensures TakeOr(left + ([joiner] + more), row)
            == Some(Taken(TakeAnd(left + ([joiner] + more), row).value.holds || TakeOr(more, row).value.holds,
                          |left| + 1 + TakeOr(more, row).value.n))
  {
    hide TakeAnd;
    var ts := left + ([joiner] + more);
    assert ts[|left|] == joiner && ts[|left| + 1..] == more;
  }

  lemma {:induction false} TakeOrOne(a: seq<Node>, rest: seq<Node>, row: Row)
    requires rest == [] || !rest[0].token.typ.Or?
    requires TakeAnd(a + rest, row).Some? && TakeAnd(a + rest, row).value.n == |a|
    ensures TakeOr(a + rest, row) == TakeAnd(a + rest, row)
  {
    hide TakeAnd;
    assert rest != [] ==> (a + rest)[|a|] == rest[0];
  }

  lemma Around(a: seq<Node>, i: nat, rest: seq<Node>)
    requires i < |a|
    ensures a[..i] + ([a[i]] + (a[i + 1..] + rest)) == a + rest
  {
  }

  /** What the descent takes is well-formed. */
  lemma {:induction false} TakenNot(ts: seq<Node>, row: Row)
    requires TakeNot(ts, row).Some?
    ensures WellFormed(ts[..TakeNot(ts, row).value.n])
    decreases ts, 0
  {
    hide TakeOr, WellFormed;
    var n := TakeNot(ts, row).value.n;
    if ts[0].token.typ.Not? {
      TakenNot(ts[1..], row);
      assert ts[..n][1..] == ts[1..][..n - 1];
      NotInFront(ts[..n]);
    } else {
      if ts[0].token.typ.Block? {
        TakenOr(ts[0].children, row);
        assert ts[0].children[..|ts[0].children|] == ts[0].children;
      }
      OperandAlone(ts[0]);
      assert ts[..1] == [ts[0]];
    }
  }

  lemma OperandAlone(t: Node)
    requires IsOperand(t) && (t.token.typ.Block? ==> WellFormed(t.children))
    ensures WellFormed([t])
  {
  }

  lemma {:induction false} TakenAnd(ts: seq<Node>, row: Row)
    requires TakeAnd(ts, row).Some?
    ensures WellFormed(ts[..TakeAnd(ts, row).value.n])
    decreases ts, 1
  {
    hide TakeNot, WellFormed;
    TakenNot(ts, row);
    var n, i := TakeAnd(ts, row).value.n, TakeNot(ts, row).value.n;
    if n != i {
      TakenAnd(ts[i + 1..], row);
      PutTogether(ts, i, n);
    }
  }

  lemma {:induction false} TakenOr(ts: seq<Node>, row: Row)
    requires TakeOr(ts, row).Some?
    ensures WellFormed(ts[..TakeOr(ts, row).value.n])
    decreases ts, 2
  {
    hide TakeAnd, WellFormed;
    TakenAnd(ts, row);
    var n, i := TakeOr(ts, row).value.n, TakeAnd(ts, row).value.n;
    if n != i {
      TakenOr(ts[i + 1..], row);
      PutTogether(ts, i, n);
    }
  }

  lemma PutTogether(ts: seq<Node>, i: nat, n: nat)
    requires i < n <= |ts| && IsJoiner(ts[i]) && WellFormed(ts[..i]) && WellFormed(ts[i + 1..][..n - i - 1])
    ensures WellFormed(ts[..n])
  {
    hide WellFormed;
    assert ts[..n][..i] == ts[..i] && ts[..n][i + 1..] == ts[i + 1..][..n - i - 1];
    JoinedWellFormed(ts[..n], i);
  }

  /** Main result on clauses: whatever condition the builder calls have put together, the
      clause written for it, with the attributes bound to its wildcards in order, says for
      every row what the condition means; and it says nothing exactly if the condition means
      nothing. */
  lemma ClauseMeans(t: Node, row: Row)
    requires t.token.typ.Root? && Rootless(t.children)
    ensures Says(Where(t), Attrs(t), row) == Meaning(t.children, row)
  {
    hide TakeOr, Meaning, Rootless, WellFormed;
    var ts := t.children;
    NothingBehind(ts);
    ReadsOr(ts, [], [], row);
    if TakeOr(ts, row).Some? {
      var n := TakeOr(ts, row).value.n;
      ReadsAll(ts, n);
      TakenOr(ts, row);
      assert n == |ts| ==> ts[..n] == ts;
    }
    MeaningfulIff(ts, row);
    if Meaning(ts, row).Some? {
      OrTaken(ts, [], row);
      assert ts + [] == ts;
    }
  }

  lemma NothingBehind(ts: seq<Node>)
    ensures Clause(ts, []) == WhereOf(ts) && Values(ts, []) == AttrsOf(ts)
  {
  }

  /** Every token leaves something in the clause. */
  lemma ReadsAll(ts: seq<Node>, n: nat)
    requires n <= |ts| && Rootless(ts)
    ensures Clause(ts[n..], []) == [] <==> n == |ts|
    ensures n == |ts| ==> Values(ts[n..], []) == []
  {
    hide WhereOf, AttrsOf;
    if n < |ts| {
      ClauseFront(ts[n..], [], []);
    } else {
      assert ts[n..] == [];
      NothingLeft([], []);
    }
  }

  /** The clause of a reader is true of exactly the rows for which every single check is. */
  lemma ConjunctionSays(t: Node, attrs: seq<Attribute>, row: Row)
    requires t.token.typ.Root? && t.children == Conjunction(attrs) && attrs != [] && Attrs(t) == attrs
    ensures Says(Where(t), attrs, row) == Some(forall k :: 0 <= k < |attrs| ==> row(Equal, attrs[k]))
  {
    hide Says, Where, Meaning, AndMeaning, Attrs;
    ConjunctionTokens(attrs);
    ClauseMeans(t, row);
    ConjunctionMeans(attrs, row);
  }

  /** Appending keeps roots out of the tree. */
  lemma {:induction false} AppendKeepsRootless(t: Node, path: seq<nat>, n: Node)
    requires OnSpine(t, path) && Rootless(t.children) && Rootless([n])
    ensures Rootless(AppendAt(t, path, n).children)
    decreases path
  {
    var ts, us := t.children, AppendAt(t, path, n).children;
    if path == [] {
      assert forall i :: 0 <= i < |us| ==> us[i] == if i < |ts| then ts[i] else [n][0];
    } else {
      AppendKeepsRootless(ts[path[0]], path[1..], n);
    }
  }
}
