/** Every template whose statements are closed and not nested is a printed one: it can be
    taken apart into literal texts and holes, and printing these gives the template back. So
    what is proved about printed templates holds of all of them. */
module LocaleParse {
  import opened Wrappers
  import opened LocaleText
  import opened LocaleSegments

  /** The statement that starts at n has a colon and a close bracket behind it, and no other
      statement starts before it ends. */
  predicate ClosedAt(s: string, n: nat)
    requires n < |s|
  {
    var colon := FindCharIndex(s, ':', n);
    colon != INVALID &&
    var close := FindCharIndex(s, '}', colon);
    close != INVALID && NoOpen(s, n + 1, close)
  }

  predicate Bracketed(s: string, from: nat)
    requires from <= |s|
  {
    forall n :: from <= n < |s| && s[n] == '{' ==> ClosedAt(s, n)
  }

  predicate AllPrintable(segs: seq<Segment>) {
    forall k :: 0 <= k < |segs| ==> Printable(segs[k])
  }

  /** Where the next statement starts, where its colon is, and where it ends. */
  datatype Place = Place(open: nat, colon: nat, close: nat)

  function NextPlace(s: string, from: nat): Option<Place>
    requires from <= |s| && Bracketed(s, from)
  {
    var open := FindCharIndex(s, '{', from);
    if open == INVALID then None else
    assert ClosedAt(s, open);
    var colon := FindCharIndex(s, ':', open);
    Some(Place(open, colon, FindCharIndex(s, '}', colon)))
  }

  /** What there is between these places. */
  predicate IsStatement(s: string, from: nat, p: Place) {
    && from <= p.open < p.colon < p.close < |s|
    && s[p.open] == '{' && s[p.colon] == ':' && s[p.close] == '}'
    && Lacks(s[from..p.open], '{') && Printable(HoleAt(s, p))
  }

  function HoleAt(s: string, p: Place): Segment
    requires p.open < p.colon < p.close < |s|
  {
    Hole(s[p.open + 1..p.colon], s[p.colon + 1..p.close])
  }

  lemma NextStatement(s: string, from: nat)
    requires from <= |s| && Bracketed(s, from)
    ensures match NextPlace(s, from)
            case None => Lacks(s[from..], '{')
            case Some(p) => IsStatement(s, from, p) && Bracketed(s, p.close + 1)
  {
    hide Bracketed, ClosedAt, Printable;
    PlaceIs(s, from);
    if NextPlace(s, from).Some? {
      var p := NextPlace(s, from).value;
      HolePrintable(s, p);
      BracketedLater(s, from, p.close + 1);
    }
  }

  lemma PlaceIs(s: string, from: nat)
    requires from <= |s| && Bracketed(s, from)
    ensures match NextPlace(s, from)
            case None => forall k :: from <= k < |s| ==> s[k] != '{'
            case Some(p) =>
              && from <= p.open < p.colon < p.close < |s|
              && s[p.open] == '{' && s[p.colon] == ':' && s[p.close] == '}'
              && (forall k :: from <= k < p.open ==> s[k] != '{')
              && (forall k :: p.open <= k < p.colon ==> s[k] != ':')
              && (forall k :: p.colon <= k < p.close ==> s[k] != '}')
              && NoOpen(s, p.open + 1, p.close)
  {
    hide NoOpen;
    var open := FindCharIndex(s, '{', from);
    assert open != INVALID ==> ClosedAt(s, open);
  }

  lemma BracketedLater(s: string, from: nat, later: nat)
    requires from <= later <= |s| && Bracketed(s, from)
    ensures Bracketed(s, later)
  {
    hide ClosedAt;
  }

  lemma HolePrintable(s: string, p: Place)
    requires p.open < p.colon < p.close < |s| && NoOpen(s, p.open + 1, p.close)
    requires forall k :: p.open <= k < p.colon ==> s[k] != ':'
    requires forall k :: p.colon <= k < p.close ==> s[k] != '}'
    ensures Printable(HoleAt(s, p))
  {
  }

  /** The parts of a template from a position on. */
  function Parse(s: string, from: nat): (segs: seq<Segment>)
    requires from <= |s| && Bracketed(s, from)
    decreases |s| - from
  {
    hide NextPlace, Bracketed, Lacks, Printable;
    NextStatement(s, from);
    match NextPlace(s, from)
    case None => [Literal(s[from..])]
    case Some(p) => [Literal(s[from..p.open]), HoleAt(s, p)] + Parse(s, p.close + 1)
  }

  // ----- printing gives the template back

  lemma CutAt(s: string, n: nat, m: nat)
    requires n <= m <= |s|
    ensures s[n..] == s[n..m] + s[m..]
  {
  }

  lemma CutOne(s: string, n: nat)
    requires n < |s|
    ensures s[n..] == [s[n]] + s[n + 1..]
  {
  }

  /** A statement is the print of its hole. */
  lemma HolePrints(s: string, open: nat, colon: nat, close: nat)
    requires open < colon < close < |s| && s[open] == '{' && s[colon] == ':' && s[close] == '}'
    ensures PrintHole(s[open + 1..colon], s[colon + 1..close], s[close + 1..]) == s[open..]
  {
    CutOne(s, open);
    CutAt(s, open + 1, colon);
    CutOne(s, colon);
    CutAt(s, colon + 1, close);
    CutOne(s, close);
  }

  lemma PrintTwo(text: string, index: string, tail: string, rest: seq<Segment>)
    ensures Print([Literal(text), Hole(index, tail)] + rest) == text + PrintHole(index, tail, Print(rest))
  {
    hide PrintHole;
    var segs := [Literal(text), Hole(index, tail)] + rest;
    assert segs[1..] == [Hole(index, tail)] + rest && segs[1..][1..] == rest;
  }

  lemma StatementPrints(s: string, from: nat, p: Place, rest: seq<Segment>)
    requires IsStatement(s, from, p) && AllPrintable(rest) && Print(rest) == s[p.close + 1..]
    ensures var segs := [Literal(s[from..p.open]), HoleAt(s, p)] + rest;
            AllPrintable(segs) && Print(segs) == s[from..]
  {
    hide PrintHole, Print, Printable, Lacks, AllPrintable;
    HolePrints(s, p.open, p.colon, p.close);
    CutAt(s, from, p.open);
    PrintsMore(s[from..p.open], HoleAt(s, p).index, HoleAt(s, p).tail, rest);
  }

  lemma {:induction false} ParsePrints(s: string, from: nat)
    requires from <= |s| && Bracketed(s, from)
    ensures AllPrintable(Parse(s, from)) && Print(Parse(s, from)) == s[from..]
    decreases |s| - from
  {
    hide PrintHole, Print, Printable, Bracketed, NextPlace, Lacks, AllPrintable, HoleAt;
    NextStatement(s, from);
    if NextPlace(s, from).None? {
      OnlyLiteral(s[from..]);
    } else {
      var p := NextPlace(s, from).value;
      ParsePrints(s, p.close + 1);
      StatementPrints(s, from, p, Parse(s, p.close + 1));
    }
  }

  lemma PrintsMore(text: string, index: string, tail: string, rest: seq<Segment>)
    requires Lacks(text, '{') && Printable(Hole(index, tail)) && AllPrintable(rest)
    ensures var segs := [Literal(text), Hole(index, tail)] + rest;
            AllPrintable(segs) && Print(segs) == text + PrintHole(index, tail, Print(rest))
  {
    hide PrintHole, Print, Lacks;
    PrintTwo(text, index, tail, rest);
  }

  lemma OnlyLiteral(text: string)
    requires Lacks(text, '{')
    ensures AllPrintable([Literal(text)]) && Print([Literal(text)]) == text
  {
    assert [Literal(text)][1..] == [];
  }

  // ----- and printed templates are of this form

  lemma HoleIsClosed(s: string, n: nat, index: string, tail: string, rest: string)
    requires n <= |s| && Suffix(s, n, PrintHole(index, tail, rest)) && Printable(Hole(index, tail))
    ensures var after := n + 3 + |index| + |tail|;
            n < after <= |s| && Suffix(s, after, rest) && ClosedAt(s, n)
            && forall k :: n < k < after ==> s[k] != '{'
  {
    hide FindCharIndex, Suffix, Slice, PrintHole, Lacks;
    HoleFound(s, n, n, index, tail, rest);
    HoleSplits(s, n, index, tail, rest);
    var colon := n + 1 + |index|;
    forall k | n < k < colon
      ensures s[k] != '{'
    {
      SliceLacks(s, n + 1, colon, index, '{', k);
    }
  }

  lemma {:induction false} PrintedIsBracketed(s: string, n: nat, segs: seq<Segment>)
    requires n <= |s| && Suffix(s, n, Print(segs)) && AllPrintable(segs)
    ensures Bracketed(s, n)
    decreases |segs|
  {
    hide Suffix, PrintHole, Lacks, ClosedAt, NoOpen, Slice;
    if segs == [] {
      SuffixEnds(s, n, "");
    } else {
      var more := segs[1..];
      if segs[0].Literal? {
        SuffixSplits(s, n, segs[0].text, Print(more));
        SuffixEnds(s, n + |segs[0].text|, Print(more));
        PrintedIsBracketed(s, n + |segs[0].text|, more);
        forall k | n <= k < n + |segs[0].text|
          ensures s[k] != '{'
        {
          SliceLacks(s, n, n + |segs[0].text|, segs[0].text, '{', k);
        }
      } else {
        HoleIsClosed(s, n, segs[0].index, segs[0].tail, Print(more));
        PrintedIsBracketed(s, n + 3 + |segs[0].index| + |segs[0].tail|, more);
      }
    }
  }

  /** The templates that are printed ones are exactly those whose statements are closed and
      not nested. */
  lemma PrintedIff(s: string)
    ensures Bracketed(s, 0) <==> exists segs :: AllPrintable(segs) && Print(segs) == s
  {
    hide Bracketed;
    if Bracketed(s, 0) {
      ParsePrints(s, 0);
      assert AllPrintable(Parse(s, 0)) && Print(Parse(s, 0)) == s;
    }
    if segs :| AllPrintable(segs) && Print(segs) == s {
      assert s[0..] == s;
      PrintedIsBracketed(s, 0, segs);
    }
  }

  /** So for any template of this form, without reference to printing: it renders to a text
      exactly if each hole fits the arguments, and then to the value of its parts. */
  lemma BracketedRenders(types: map<int, char>, env: Env, s: string)
    requires EnvOf(types, env) && Bracketed(s, 0)
    ensures var segs := Parse(s, 0);
            && Render(env, s, 0, "") == ValueOutcome("", Value(env, segs))
            && (Render(env, s, 0, "").Rendered? <==>
                 forall k :: 0 <= k < |segs| && segs[k].Hole? ==> Fits(types, env, segs[k].index, segs[k].tail))
            && ReadAll(s, Statements(s, 0), Holes(segs))
  {
    hide Bracketed, Parse, Render, Fits, Value, Statements;
    ParsePrints(s, 0);
    assert s[0..] == s;
    RenderPrinted(env, Parse(s, 0));
    TypedTemplatesRender(types, env, Parse(s, 0));
    StatementsOfPrinted(Parse(s, 0));
  }
}
