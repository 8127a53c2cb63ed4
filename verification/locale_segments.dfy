/** Printing a template and rendering the result: what comes out is what the parts of the
    template stand for, and it is a text exactly if every hole fits the arguments. */
module LocaleSegments {
  import opened Wrappers
  import opened LocaleText

  /** A piece of text, or a hole `{index:tail}`, where the tail starts with the type. */
  datatype Segment = Literal(text: string) | Hole(index: string, tail: string)

  predicate Lacks(text: string, c: char) {
    forall k :: 0 <= k < |text| ==> text[k] != c
  }

  predicate Printable(seg: Segment) {
    match seg
    case Literal(text) => Lacks(text, '{')
    case Hole(index, tail) =>
      Lacks(index, '{') && Lacks(index, ':') && Lacks(tail, '{') && Lacks(tail, '}')
  }

  /** The hole, and then the rest. */
  function PrintHole(index: string, tail: string, rest: string): string {
    "{" + (index + (":" + (tail + ("}" + rest))))
  }

  function Print(segs: seq<Segment>): string {
    if segs == [] then "" else
    match segs[0]
    case Literal(text) => text + Print(segs[1..])
    case Hole(index, tail) => PrintHole(index, tail, Print(segs[1..]))
  }

  /** What a hole stands for. A plural hole is `{index:p?choices}`: the character behind the
      type is skipped. */
  function Meaning(env: Env, index: string, tail: string): Piece {
    Replacement(env, index, if tail == "" then '}' else tail[0], if |tail| >= 2 then Some(tail[2..]) else None)
  }

  /** What a template stands for: the parts in order, unless one of them fails. */
  function Value(env: Env, segs: seq<Segment>): Piece {
    if segs == [] then Text("") else
    var rest := Value(env, segs[1..]);
    match segs[0]
    case Literal(text) => if rest.Text? then Text(text + rest.text) else rest
    case Hole(index, tail) =>
      match Meaning(env, index, tail)
      case Text(text) => if rest.Text? then Text(text + rest.text) else rest
      case Bad => Bad
      case Fatal => Fatal
  }

  function ValueOutcome(text: string, p: Piece): Outcome {
    match p
    case Text(t) => Rendered(text + t)
    case Bad => Error
    case Fatal => Aborted
  }

  // ----- where the parts of a printed template are

  /** From position n on, s is t. */
  predicate Suffix(s: string, n: nat, t: string) {
    n <= |s| && s[n..] == t
  }

  predicate NoOpen(s: string, from: nat, to: nat)
    requires to <= |s|
  {
    forall k :: from <= k < to ==> s[k] != '{'
  }

  /** Between n and m, s is t. */
  predicate Slice(s: string, n: nat, m: nat, t: string) {
    n <= m <= |s| && s[n..m] == t
  }

  lemma SuffixSplits(s: string, n: nat, a: string, b: string)
    requires Suffix(s, n, a + b)
    ensures Slice(s, n, n + |a|, a) && Suffix(s, n + |a|, b)
  {
    assert s[n..][..|a|] == a && s[n..][|a|..] == b;
  }

  lemma SuffixOne(s: string, n: nat, c: char, b: string)
    requires Suffix(s, n, [c] + b)
    ensures n < |s| && s[n] == c && Suffix(s, n + 1, b)
  {
    assert s[n..][0] == c && s[n..][1..] == b;
  }

  /** The parts of the hole that starts at n. */
  lemma HoleSplits(s: string, n: nat, index: string, tail: string, rest: string)
    requires Suffix(s, n, PrintHole(index, tail, rest))
    ensures var colon := n + 1 + |index|;
            var close := colon + 1 + |tail|;
            && close < |s| && s[n] == '{' && s[colon] == ':' && s[close] == '}'
            && Slice(s, n + 1, colon, index) && Slice(s, colon + 1, close, tail) && Suffix(s, close + 1, rest)
  {
    hide Suffix, Slice;
    var colon := n + 1 + |index|;
    SuffixOne(s, n, '{', index + (":" + (tail + ("}" + rest))));
    SuffixSplits(s, n + 1, index, ":" + (tail + ("}" + rest)));
    SuffixOne(s, colon, ':', tail + ("}" + rest));
    SuffixSplits(s, colon + 1, tail, "}" + rest);
    SuffixOne(s, colon + 1 + |tail|, '}', rest);
  }

  lemma SliceLacks(s: string, n: nat, m: nat, t: string, c: char, k: nat)
    requires Slice(s, n, m, t) && Lacks(t, c) && n <= k < m
    ensures s[k] != c
  {
    assert s[n..m][k - n] == s[k];
  }

  /** The searches of one round find the brackets and the colon of the hole at n. */
  lemma HoleFound(s: string, at: nat, n: nat, index: string, tail: string, rest: string)
    requires at <= n <= |s| && NoOpen(s, at, n)
    requires Suffix(s, n, PrintHole(index, tail, rest)) && Printable(Hole(index, tail))
    ensures var colon := n + 1 + |index|;
            var close := colon + 1 + |tail|;
            && close < |s| && Slice(s, n + 1, colon, index) && Slice(s, colon + 1, close, tail)
            && Suffix(s, close + 1, rest)
            && FindCharIndex(s, '{', at) == n && FindCharIndex(s, ':', n) == colon
            && FindCharIndex(s, '}', colon) == close
            && CharAt(s, colon + 1) == (if tail == "" then '}' else tail[0])
            && NoOpen(s, colon, close + 1)
  {
    hide FindCharIndex, Suffix, Slice, PrintHole, Lacks;
    var colon := n + 1 + |index|;
    var close := colon + 1 + |tail|;
    HoleSplits(s, n, index, tail, rest);
    forall k | n < k < colon
      ensures s[k] != ':'
    {
      SliceLacks(s, n + 1, colon, index, ':', k);
    }
    forall k | colon < k < close
      ensures s[k] != '}' && s[k] != '{'
    {
      SliceLacks(s, colon + 1, close, tail, '}', k);
      SliceLacks(s, colon + 1, close, tail, '{', k);
    }
    FindIs(s, '{', at, n);
    FindIs(s, ':', n, colon);
    FindIs(s, '}', colon, close);
    FirstOfSlice(s, colon + 1, close, tail);
  }

  lemma FirstOfSlice(s: string, n: nat, m: nat, t: string)
    requires Slice(s, n, m, t)
    ensures t != "" ==> s[n] == t[0]
    ensures |t| == m - n
  {
  }

  lemma SliceIs(s: string, n: nat, m: nat, t: string)
    requires Slice(s, n, m, t)
    ensures n <= m <= |s| && s[n..m] == t
    ensures |t| >= 2 ==> s[n + 2..m] == t[2..]
  {
    assert |t| >= 2 ==> s[n..m][2..] == s[n + 2..m];
  }

  /** One round of the renderer takes the literal text up to the next hole, and the hole. */
  lemma RoundOfHole(env: Env, s: string, at: nat, n: nat, index: string, tail: string, rest: string, text: string)
    requires at <= n < |s| && NoOpen(s, at, n)
    requires Suffix(s, n, PrintHole(index, tail, rest)) && Printable(Hole(index, tail))
    ensures Round(env, s, at, text) == match Meaning(env, index, tail)
              case Text(t) => Going(n + 3 + |index| + |tail|, text + s[at..n] + t)
              case Bad => Failed
              case Fatal => Stopped
  {
    hide Replacement, FindCharIndex, Suffix, Slice, PrintHole, Printable, NoOpen;
    HoleFound(s, at, n, index, tail, rest);
    var colon := n + 1 + |index|;
    SliceIs(s, n + 1, colon, index);
    SliceIs(s, colon + 1, colon + 1 + |tail|, tail);
  }

  lemma HoleEnds(s: string, n: nat, index: string, tail: string, rest: string)
    requires Suffix(s, n, PrintHole(index, tail, rest))
    ensures var after := n + 3 + |index| + |tail|;
            n < after <= |s| && Suffix(s, after, rest) && NoOpen(s, after, after) && s[after..after] == ""
  {
    hide Suffix, Slice, PrintHole;
    HoleSplits(s, n, index, tail, rest);
  }

  lemma LiteralIsClear(s: string, at: nat, n: nat, more: string)
    requires at <= n <= |s| && NoOpen(s, at, n) && Slice(s, n, n + |more|, more) && Lacks(more, '{')
    ensures NoOpen(s, at, n + |more|) && s[at..n] + more == s[at..n + |more|]
  {
    hide Slice, Lacks;
    SliceIs(s, n, n + |more|, more);
    forall k | at <= k < n + |more|
      ensures s[k] != '{'
    {
      if n <= k {
        SliceLacks(s, n, n + |more|, more, '{', k);
      }
    }
    assert s[at..n] + s[n..n + |more|] == s[at..n + |more|];
  }

  /** The value of a part put in front of the value of the rest. */
  function Before(text: string, p: Piece): Piece {
    if p.Text? then Text(text + p.text) else p
  }

  lemma ValueBehind(a: string, b: string, p: Piece)
    ensures ValueOutcome(a + b, p) == ValueOutcome(a, Before(b, p))
    ensures ValueOutcome(a, Bad) == Error && ValueOutcome(a, Fatal) == Aborted
  {
    if p.Text? {
      assert (a + b) + p.text == a + (b + p.text);
    }
  }

  lemma RenderStep(env: Env, s: string, at: nat, text: string)
    requires at < |s|
    ensures Render(env, s, at, text) == match Round(env, s, at, text)
              case Going(next, t) => if next == 0 then Hangs else Render(env, s, next, t)
              case Done(t) => Rendered(t)
              case Failed => Error
              case Stopped => Aborted
  {
  }

  /** Rendering from a point where the literal text up to n is still ahead. */
  lemma {:induction false} RenderRest(env: Env, s: string, at: nat, n: nat, segs: seq<Segment>, text: string)
    requires at <= n <= |s| && NoOpen(s, at, n) && Suffix(s, n, Print(segs))
    requires forall k :: 0 <= k < |segs| ==> Printable(segs[k])
    ensures Render(env, s, at, text) == ValueOutcome(text + s[at..n], Value(env, segs))
    decreases |segs|
  {
    hide Round, Meaning, Suffix, NoOpen, PrintHole, Lacks, Render, ValueOutcome, Slice;
    if segs == [] {
      RenderEnd(env, s, at, n, text);
    } else {
      var more, rest := segs[1..], Print(segs[1..]);
      assert forall k :: 0 <= k < |more| ==> more[k] == segs[k + 1];
      if segs[0].Literal? {
        RenderLiteral(env, s, at, n, segs[0].text, rest, text);
        RenderRest(env, s, at, n + |segs[0].text|, more, text);
        ValueBehind(text + s[at..n], segs[0].text, Value(env, more));
      } else {
        var index, tail := segs[0].index, segs[0].tail;
        var after, p := n + 3 + |index| + |tail|, Meaning(env, index, tail);
        HoleEnds(s, n, index, tail, rest);
        RoundOfHole(env, s, at, n, index, tail, rest, text);
        RenderStep(env, s, at, text);
        ValueBehind(text + s[at..n], if p.Text? then p.text else "", Value(env, more));
        if p.Text? {
          RenderRest(env, s, after, after, more, text + s[at..n] + p.text);
          NothingMore(text + s[at..n] + p.text, s[after..after]);
        }
      }
    }
  }

  lemma NothingMore(a: string, b: string)
    requires b == ""
    ensures a + b == a
  {
  }

  lemma RenderLiteral(env: Env, s: string, at: nat, n: nat, more: string, rest: string, text: string)
    requires at <= n <= |s| && NoOpen(s, at, n) && Suffix(s, n, more + rest) && Lacks(more, '{')
    ensures n + |more| <= |s| && NoOpen(s, at, n + |more|) && Suffix(s, n + |more|, rest)
    ensures text + s[at..n + |more|] == (text + s[at..n]) + more
  {
    hide Suffix, Slice, NoOpen, Lacks;
    SuffixSplits(s, n, more, rest);
    SuffixEnds(s, n + |more|, rest);
    LiteralIsClear(s, at, n, more);
  }

  lemma SuffixEnds(s: string, n: nat, t: string)
    requires Suffix(s, n, t)
    ensures n + |t| == |s|
  {
  }

  lemma RenderEnd(env: Env, s: string, at: nat, n: nat, text: string)
    requires at <= n <= |s| && NoOpen(s, at, n) && Suffix(s, n, "")
    ensures Render(env, s, at, text) == ValueOutcome(text + s[at..n], Text(""))
  {
    hide Replacement;
    assert n == |s| && s[at..n] == s[at..];
    assert text + s[at..n] + "" == text + s[at..n];
    if at == |s| {
      assert text + s[at..n] == text;
    }
  }

  /** Rendering a printed template gives its value; in particular it terminates. */
  lemma RenderPrinted(env: Env, segs: seq<Segment>)
    requires forall k :: 0 <= k < |segs| ==> Printable(segs[k])
    ensures Render(env, Print(segs), 0, "") == ValueOutcome("", Value(env, segs))
  {
    assert Print(segs)[0..0] == "" && "" + "" == "";
    assert Print(segs)[0..] == Print(segs);
    RenderRest(env, Print(segs), 0, 0, segs, "");
  }

  /** The scan of a printed template never falls back. */
  lemma PrintedTerminates(env: Env, segs: seq<Segment>)
    requires (forall k :: 0 <= k < |segs| ==> Printable(segs[k])) && Print(segs) != ""
    ensures !FallsBack(env, Print(segs), 0)
  {
    RenderPrinted(env, segs);
    HangsIff(env, Print(segs), 0, "");
  }

  // ----- types

  /** Whether a hole fits arguments of these kinds; integers are known for plural holes. */
  predicate Fits(types: map<int, char>, env: Env, index: string, tail: string) {
    && Digits(index) && tail != "" && AsInt(index) in types
    && KindOf(tail[0]) == types[AsInt(index)]
    && (tail[0] == 'p' ==> |tail| > 2 && |Tokenize(tail[2..])| in {2, 3})
  }

  /** The arguments are those the types ask for. */
  ghost predicate EnvOf(types: map<int, char>, env: Env) {
    && (forall n :: n in types ==> types[n] == 's' || types[n] == 'i')
    && (forall n :: n in env.strs <==> n in types && types[n] == 's')
    && (forall n :: n in env.ints <==> n in types && types[n] == 'i')
  }

  /** A hole stands for a text exactly if it fits. */
  lemma FitsMeansText(types: map<int, char>, env: Env, index: string, tail: string)
    requires EnvOf(types, env)
    ensures Meaning(env, index, tail).Text? <==> Fits(types, env, index, tail)
  {
    hide Tokenize;
  }

  /** A template renders to a text exactly if each of its holes has an index of digits that
      the types know, a type of that kind, and, for a plural hole, two or three choices. */
  lemma {:induction false} WellTyped(types: map<int, char>, env: Env, segs: seq<Segment>)
    requires EnvOf(types, env)
    ensures Value(env, segs).Text?
            <==> forall k :: 0 <= k < |segs| && segs[k].Hole? ==> Fits(types, env, segs[k].index, segs[k].tail)
  {
    hide Fits, Meaning;
    if segs != [] {
      WellTyped(types, env, segs[1..]);
      assert forall k :: 0 <= k < |segs[1..]| ==> segs[1..][k] == segs[k + 1];
      assert forall k :: 0 < k < |segs| ==> segs[k] == segs[1..][k - 1];
      if segs[0].Hole? {
        FitsMeansText(types, env, segs[0].index, segs[0].tail);
      }
    }
  }

  /** Both together: a printed template renders without an error exactly if it is
      well-typed, and then to the texts of its parts. */
  lemma TypedTemplatesRender(types: map<int, char>, env: Env, segs: seq<Segment>)
    requires EnvOf(types, env) && forall k :: 0 <= k < |segs| ==> Printable(segs[k])
    ensures Render(env, Print(segs), 0, "").Rendered?
            <==> forall k :: 0 <= k < |segs| && segs[k].Hole? ==> Fits(types, env, segs[k].index, segs[k].tail)
    ensures Render(env, Print(segs), 0, "").Rendered? ==>
              Value(env, segs).Text? && Render(env, Print(segs), 0, "").text == Value(env, segs).text
  {
    RenderPrinted(env, segs);
    WellTyped(types, env, segs);
    if Value(env, segs).Text? {
      assert "" + Value(env, segs).text == Value(env, segs).text;
    }
  }

  // ----- the analysis of a printed template

  function Holes(segs: seq<Segment>): (holes: seq<Segment>)
    ensures forall k :: 0 <= k < |holes| ==> holes[k].Hole?
  {
    if segs == [] then []
    else if segs[0].Hole? then [segs[0]] + Holes(segs[1..]) else Holes(segs[1..])
  }

  /** The statement is the hole. */
  predicate Reads(s: string, st: Statement, hole: Segment)
    requires Placed(s, st) && hole.Hole?
  {
    && st.colon != INVALID && IndexText(s, st) == hole.index
    && CharAt(s, st.colon + 1) == if hole.tail == "" then '}' else hole.tail[0]
  }

  ghost predicate ReadAll(s: string, sts: seq<Statement>, holes: seq<Segment>)
    requires forall k :: 0 <= k < |sts| ==> Placed(s, sts[k])
    requires forall k :: 0 <= k < |holes| ==> holes[k].Hole?
  {
    |sts| == |holes| && forall k :: 0 <= k < |sts| ==> Reads(s, sts[k], holes[k])
  }

  lemma {:induction false} StatementsRest(s: string, at: nat, n: nat, segs: seq<Segment>)
    requires at <= n <= |s| && NoOpen(s, at, n) && Suffix(s, n, Print(segs))
    requires forall k :: 0 <= k < |segs| ==> Printable(segs[k])
    ensures ReadAll(s, Statements(s, at), Holes(segs))
    decreases |segs|
  {
    hide Suffix, NoOpen, PrintHole, Lacks, Slice, Reads, ReadAll, Statements;
    if segs == [] {
      NoStatements(s, at, n);
    } else {
      var more, rest := segs[1..], Print(segs[1..]);
      assert forall k :: 0 <= k < |more| ==> more[k] == segs[k + 1];
      if segs[0].Literal? {
        RenderLiteral(Env(map[], map[], map[]), s, at, n, segs[0].text, rest, "");
        StatementsRest(s, at, n + |segs[0].text|, more);
      } else {
        StatementOfHole(s, at, n, segs[0].index, segs[0].tail, rest);
        var colon, after := n + 1 + |segs[0].index|, n + 3 + |segs[0].index| + |segs[0].tail|;
        StatementsRest(s, colon, after, more);
        ReadOneMore(s, Statement(n, colon), segs[0], Statements(s, colon), Holes(more));
      }
    }
  }

  lemma NoStatements(s: string, at: nat, n: nat)
    requires at <= n <= |s| && NoOpen(s, at, n) && Suffix(s, n, "")
    ensures ReadAll(s, Statements(s, at), [])
  {
    assert n == |s|;
  }

  /** The next statement is the next hole. */
  lemma StatementOfHole(s: string, at: nat, n: nat, index: string, tail: string, rest: string)
    requires at <= n <= |s| && NoOpen(s, at, n)
    requires Suffix(s, n, PrintHole(index, tail, rest)) && Printable(Hole(index, tail))
    ensures var st, after := Statement(n, n + 1 + |index|), n + 3 + |index| + |tail|;
            && Placed(s, st) && Reads(s, st, Hole(index, tail))
            && Statements(s, at) == [st] + Statements(s, st.colon)
            && st.colon <= after <= |s| && NoOpen(s, st.colon, after) && Suffix(s, after, rest)
  {
    hide FindCharIndex, Suffix, Slice, PrintHole, Printable, NoOpen;
    HoleFound(s, at, n, index, tail, rest);
    SliceIs(s, n + 1, n + 1 + |index|, index);
  }

  lemma ReadOneMore(s: string, st: Statement, hole: Segment, sts: seq<Statement>, holes: seq<Segment>)
    requires Placed(s, st) && hole.Hole? && Reads(s, st, hole)
    requires (forall k :: 0 <= k < |sts| ==> Placed(s, sts[k])) && (forall k :: 0 <= k < |holes| ==> holes[k].Hole?)
    requires ReadAll(s, sts, holes)
    ensures (forall k :: 0 <= k < |[st] + sts| ==> Placed(s, ([st] + sts)[k]))
    ensures (forall k :: 0 <= k < |[hole] + holes| ==> ([hole] + holes)[k].Hole?)
    ensures ReadAll(s, [st] + sts, [hole] + holes)
  {
    hide Reads, Placed;
  }

  /** The analysis of a printed template finds its holes, in order, and nothing else. */
  lemma StatementsOfPrinted(segs: seq<Segment>)
    requires forall k :: 0 <= k < |segs| ==> Printable(segs[k])
    ensures ReadAll(Print(segs), Statements(Print(segs), 0), Holes(segs))
  {
    assert Print(segs)[0..] == Print(segs);
    StatementsRest(Print(segs), 0, 0, segs);
  }
}
