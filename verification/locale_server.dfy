/** Locale::LocaleServer::GetLocaleTextArgs and the methods it is made of. */
module LocaleServerText {
  import opened Wrappers
  import opened LocaleText
  import opened LocaleSegments

  /** An argument of the call: a string or an int. */
  datatype Arg = Str(s: string) | Int(i: int)

  predicate HasKind(a: Arg, kind: char) {
    if a.Str? then kind == 's' else kind == 'i'
  }

  /** A failed prefix stays failed. */
  lemma {:induction false} FailedBefore(s: string, a: seq<Statement>, b: seq<Statement>)
    requires forall k :: 0 <= k < |a + b| ==> Placed(s, (a + b)[k])
    requires (forall k :: 0 <= k < |a| ==> Placed(s, a[k])) && AddStatements(s, a).None?
    ensures AddStatements(s, a + b).None?
    decreases |b|
  {
    if b == [] {
      assert a + b == a;
    } else {
      assert (a + b)[..|a + b| - 1] == a + b[..|b| - 1];
      FailedBefore(s, a, b[..|b| - 1]);
    }
  }

  lemma AddedLast(s: string, a: seq<Statement>, st: Statement)
    requires (forall k :: 0 <= k < |a| ==> Placed(s, a[k])) && Placed(s, st)
    ensures forall k :: 0 <= k < |a + [st]| ==> Placed(s, (a + [st])[k])
    ensures AddStatements(s, a + [st]) == match AddStatements(s, a)
              case None => None
              case Some(types) => AddStatement(s, st, types)
  {
    assert (a + [st])[..|a|] == a;
  }

  /** One more statement: its failure is the failure of the whole. */
  lemma OneMore(s: string, done: seq<Statement>, st: Statement, rest: seq<Statement>, all: seq<Statement>)
    requires all == done + ([st] + rest) && forall k :: 0 <= k < |all| ==> Placed(s, all[k])
    requires (forall k :: 0 <= k < |done| ==> Placed(s, done[k])) && Placed(s, st) && AddStatements(s, done).Some?
    ensures all == (done + [st]) + rest && forall k :: 0 <= k < |done + [st]| ==> Placed(s, (done + [st])[k])
    ensures AddStatements(s, done + [st]) == AddStatement(s, st, AddStatements(s, done).value)
    ensures AddStatement(s, st, AddStatements(s, done).value).None? ==> AddStatements(s, all).None?
  {
    hide Placed, AddStatement;
    AddedLast(s, done, st);
    assert all == (done + [st]) + rest;
    if AddStatement(s, st, AddStatements(s, done).value).None? {
      FailedBefore(s, done + [st], rest);
    }
  }

  lemma StatementsStep(s: string, from: nat)
    requires from < |s|
    ensures AddStatements(s, []) == Some(map[])
    ensures var open := FindCharIndex(s, '{', from);
            if open == INVALID then Statements(s, from) == []
            else
              var colon := FindCharIndex(s, ':', open);
              && Placed(s, Statement(open, colon)) && (colon != INVALID ==> from < colon)
              && Statements(s, from) == [Statement(open, colon)]
                 + (if colon == INVALID then [] else Statements(s, colon))
  {
  }

  /** As many arguments as there are indices without a gap, each of the kind asked for. */
  predicate ArgsFit(types: map<int, char>, args: seq<Arg>) {
    && (forall k :: 0 <= k < |args| ==> k in types && HasKind(args[k], types[k]))
    && |args| !in types
  }

  lemma {:induction false} UpToAreKeys(types: map<int, char>, n: nat)
    requires forall k :: 0 <= k < n ==> k in types
    ensures n <= |types|
  {
    if n > 0 {
      var rest := types - {n - 1};
      UpToAreKeys(rest, n - 1);
      assert rest.Keys == types.Keys - {n - 1};
    }
  }

  class LocaleServer {
    var dictionary: map<string, string>
    var argTypes: map<int, char>
    var argInts: map<int, int>
    var argStrs: map<int, string>

    function Env(): Env
      reads this
    {
      LocaleText.Env(argStrs, argInts, dictionary)
    }

    method AreDigits(d: string) returns (ok: bool)
      ensures ok <==> Digits(d)
    {
      for idx := 0 to |d|
        invariant Digits(d[..idx])
      {
        if d[idx] < '0' || d[idx] > '9' {
          return false;
        }
        assert d[..idx + 1] == d[..idx] + [d[idx]];
      }
      assert d[..|d|] == d;
      return true;
    }

    /** Finds the types of the arguments; fails exactly if a statement is not well-formed or
        an index is used for both kinds. */
    method AnalyzeArgumentStatements(str: string) returns (ok: bool)
      requires str != ""
      modifies this`argTypes
      ensures ok <==> Consistent(str, Statements(str, 0))
      ensures ok ==> TypesOf(str, Statements(str, 0), argTypes)
    {
      hide WellFormed, Consistent, TypesOf, Statements, AddStatements, AddStatement, FindCharIndex;
      ghost var all := Statements(str, 0);
      AnalysisIs(str, all);
      argTypes := map[];
      StatementsStep(str, 0);
      var idxColon := 0;
      ghost var done: seq<Statement> := [];
      while true
        invariant 0 <= idxColon < |str| && all == done + Statements(str, idxColon)
        invariant (forall k :: 0 <= k < |done| ==> Placed(str, done[k])) && AddStatements(str, done) == Some(argTypes)
        decreases |str| - idxColon
      {
        StatementsStep(str, idxColon);
        var idxOpenBracket := FindCharIndex(str, '{', idxColon);
        if idxOpenBracket == INVALID {
          assert all == done;
          return true;
        }
        var next := FindCharIndex(str, ':', idxOpenBracket);
        ghost var st := Statement(idxOpenBracket, next);
        ghost var rest := if next == INVALID then [] else Statements(str, next);
        OneMore(str, done, st, rest, all);
        var added := AnalyzeOne(str, idxOpenBracket, next, st);
        if !added {
          return false;
        }
        done := done + [st];
        idxColon := next;
      }
    }

    /** The body of the loop, from the colon on. */
    method AnalyzeOne(str: string, idxOpenBracket: nat, idxColon: int, ghost st: Statement) returns (ok: bool)
      requires st == Statement(idxOpenBracket, idxColon) && Placed(str, st)
      modifies this`argTypes
      ensures ok ==> idxColon != INVALID && AddStatement(str, st, old(argTypes)) == Some(argTypes)
      ensures !ok ==> AddStatement(str, st, old(argTypes)) == None
    {
      if idxColon == INVALID {
        return false;
      }
      var argIdxStr := str[idxOpenBracket + 1..idxColon];
      var digits := AreDigits(argIdxStr);
      if !digits {
        return false;
      }
      var argIdx := AsInt(argIdxStr);
      var argType := CharAt(str, idxColon + 1);
      if 'l' == argType {
        argType := 's';
      }
      if 'p' == argType {
        argType := 'i';
      }
      if argType == 's' || argType == 'i' {
        if argIdx !in argTypes {
          argTypes := argTypes[argIdx := argType];
        } else if argType != argTypes[argIdx] {
          return false;
        }
        return true;
      }
      return false;
    }

    /** Reads one argument after the other, as long as there is a type for the next index. */
    method InterpretArguments(args: seq<Arg>)
      requires ArgsFit(argTypes, args)
      modifies this`argStrs, this`argInts
      ensures forall n :: n in argStrs <==> 0 <= n < |args| && argTypes[n] == 's'
      ensures forall n :: n in argInts <==> 0 <= n < |args| && argTypes[n] == 'i'
      ensures forall n :: n in argStrs ==> args[n] == Str(argStrs[n])
      ensures forall n :: n in argInts ==> args[n] == Int(argInts[n])
    {
      argStrs, argInts := map[], map[];
      var argIdx := 0;
      while argIdx in argTypes
        invariant 0 <= argIdx <= |args|
        invariant forall n :: n in argStrs <==> 0 <= n < argIdx && argTypes[n] == 's'
        invariant forall n :: n in argInts <==> 0 <= n < argIdx && argTypes[n] == 'i'
        invariant forall n :: n in argStrs ==> args[n] == Str(argStrs[n])
        invariant forall n :: n in argInts ==> args[n] == Int(argInts[n])
        decreases |args| - argIdx
      {
        if argTypes[argIdx] == 's' {
          argStrs := argStrs[argIdx := args[argIdx].s];
        } else {
          argInts := argInts[argIdx := args[argIdx].i];
        }
        argIdx := argIdx + 1;
      }
    }

    /** Replaces the statements of the text. The loop has to end, which it does exactly
        unless the scan falls back: see TerminatesIff. */
    method BuildLocalizedText(str: string) returns (r: Outcome)
      requires str != "" && !FallsBack(Env(), str, 0)
      ensures r == Render(Env(), str, 0, "") && !r.Hangs?
    {
      hide Round, Rounds, Finished, FallsBack;
      TerminatesIff(Env(), str);
      var idxAfterCloseBracket := 0;
      var localizedText := "";
      while idxAfterCloseBracket < |str|
        invariant 0 <= idxAfterCloseBracket <= |str|
        invariant Render(Env(), str, idxAfterCloseBracket, localizedText) == Render(Env(), str, 0, "")
        decreases |str| - idxAfterCloseBracket
      {
        var p := BuildNext(str, idxAfterCloseBracket, localizedText);
        match p {
          case Going(next, text) => idxAfterCloseBracket, localizedText := next, text;
          case Done(text) => return Rendered(text);
          case Failed => return Error;
          case Stopped => return Aborted;
        }
      }
      return Rendered(localizedText);
    }

    /** The body of the loop: the text up to the next statement, and its replacement. */
    method BuildNext(str: string, idxAfterCloseBracket: nat, localizedText: string) returns (p: Progress)
      requires idxAfterCloseBracket < |str|
      ensures p == Round(Env(), str, idxAfterCloseBracket, localizedText)
    {
      hide Replacement, FindCharIndex;
      var idxOpenBracket := FindCharIndex(str, '{', idxAfterCloseBracket);
      if idxOpenBracket == INVALID {
        return Done(localizedText + str[idxAfterCloseBracket..]);
      }
      var text := localizedText + str[idxAfterCloseBracket..idxOpenBracket];
      var idxColon := FindCharIndex(str, ':', idxOpenBracket);
      if idxColon == INVALID {
        return Failed;
      }
      var next := FindCharIndex(str, '}', idxColon) + 1;
      var piece := Replace(str, idxOpenBracket, idxColon, next);
      match piece {
        case Bad => return Failed;
        case Fatal => return Stopped;
        case Text(t) => return Going(next, text + t);
      }
    }

    /** The part of the loop that looks at one statement. */
    method Replace(str: string, idxOpenBracket: nat, idxColon: nat, idxAfterCloseBracket: nat) returns (piece: Piece)
      requires idxOpenBracket < idxColon < |str| && idxAfterCloseBracket <= |str|
      ensures piece == Replacement(Env(), str[idxOpenBracket + 1..idxColon], CharAt(str, idxColon + 1),
                                   ChoiceText(str, idxColon, idxAfterCloseBracket))
    {
      var argIdxStr := str[idxOpenBracket + 1..idxColon];
      var digits := AreDigits(argIdxStr);
      if !digits {
        return Bad;
      }
      var argIdx := AsInt(argIdxStr);
      match CharAt(str, idxColon + 1) {
        case 's' => return if argIdx in argStrs then Text(argStrs[argIdx]) else Bad;
        case 'l' => return if argIdx in argStrs then Text(GetLocaleText(dictionary, argStrs[argIdx])) else Bad;
        case 'i' => return if argIdx in argInts then Text(FromInt(argInts[argIdx])) else Bad;
        case 'p' =>
          if argIdx !in argInts {
            return Bad;
          }
          if idxAfterCloseBracket - idxColon - 4 < 0 {
            return Fatal;
          }
          return Plural(argInts[argIdx], str[idxColon + 3..idxAfterCloseBracket - 1]);
        case _ => return Bad;
      }
    }

    /** The localized text with its arguments. An empty text counts as an error, and every
        error stops the program. */
    method GetLocaleTextArgs(id: string, args: seq<Arg>) returns (r: Option<string>)
      requires id != "" && CallOk(dictionary, id, args)
      modifies this`argTypes, this`argStrs, this`argInts
      ensures r == TextArgs(dictionary, id, args)
    {
      hide Consistent, TypesOf, ArgsFit, Render, Rounds, Finished, GetLocaleText, FallsBack;
      AnalysisIs(id, Statements(id, 0));
      var ok := AnalyzeArgumentStatements(id);
      if !ok {
        return None;
      }
      SameTypes(id, argTypes);
      FitTypes(id, args);
      InterpretArguments(args);
      assert argStrs == StrsOf(args) && argInts == IntsOf(args);
      var text := GetLocaleText(dictionary, id);
      if text == "" {
        return None;
      }
      TerminatesIff(Env(), text);
      var localeText := BuildLocalizedText(text);
      match localeText {
        case Rendered(t) => return if t != "" then Some(t) else None;
        case Error => return None;
        case Aborted => return None;
      }
    }
  }

  // ----- the call as a whole

  function StrsOf(args: seq<Arg>): map<int, string> {
    map n | 0 <= n < |args| && args[n].Str? :: args[n].s
  }

  function IntsOf(args: seq<Arg>): map<int, int> {
    map n | 0 <= n < |args| && args[n].Int? :: args[n].i
  }

  function TypesIn(id: string): Option<map<int, char>> {
    AddStatements(id, Statements(id, 0))
  }

  function ArgsEnv(dictionary: map<string, string>, args: seq<Arg>): Env {
    LocaleText.Env(StrsOf(args), IntsOf(args), dictionary)
  }

  /** The arguments match the id string, and the text has no statement at which the renderer
      would fall back to the start. */
  predicate CallOk(dictionary: map<string, string>, id: string, args: seq<Arg>) {
    TypesIn(id).Some? ==>
      && ArgsFit(TypesIn(id).value, args)
      && (GetLocaleText(dictionary, id) != "" ==>
           !FallsBack(ArgsEnv(dictionary, args), GetLocaleText(dictionary, id), 0))
  }

  /** What the call returns; None where the program stops with an error. */
  function TextArgs(dictionary: map<string, string>, id: string, args: seq<Arg>): Option<string> {
    var text := GetLocaleText(dictionary, id);
    if TypesIn(id).None? || text == "" then None else
    match Render(ArgsEnv(dictionary, args), text, 0, "")
    case Rendered(t) => if t != "" then Some(t) else None
    case Error => None
    case Aborted => None
    case Hangs => None
  }

  /** The analysis leaves no choice of types. */
  lemma SameTypes(id: string, types: map<int, char>)
    requires Consistent(id, Statements(id, 0)) && TypesOf(id, Statements(id, 0), types)
    ensures TypesIn(id) == Some(types)
  {
    hide WellFormed, ArgIdx, ArgKind;
    AnalysisIs(id, Statements(id, 0));
    var t := TypesIn(id).value;
    forall n | n in t
      ensures n in types && types[n] == t[n]
    {
    }
    forall n | n in types
      ensures n in t
    {
    }
    assert t == types;
  }

  /** Arguments that fit say which types are which. */
  lemma FitTypes(id: string, args: seq<Arg>)
    requires TypesIn(id).Some? && ArgsFit(TypesIn(id).value, args)
    ensures forall n :: 0 <= n < |args| ==> n in TypesIn(id).value && (TypesIn(id).value[n] == 's' <==> args[n].Str?)
    ensures forall n :: 0 <= n < |args| ==> (TypesIn(id).value[n] == 'i' <==> args[n].Int?)
  {
  }

  lemma NoOtherKeys(types: map<int, char>, count: nat, n: int)
    requires (forall k :: 0 <= k < count ==> k in types) && |types| == count && n in types
    ensures 0 <= n < count
  {
    if !(0 <= n < count) {
      assert (types - {n}).Keys == types.Keys - {n};
      UpToAreKeys(types - {n}, count);
    }
  }

  lemma EnvOfArgs(types: map<int, char>, args: seq<Arg>, dictionary: map<string, string>)
    requires ArgsFit(types, args) && forall n :: n in types ==> 0 <= n < |args|
    ensures EnvOf(types, ArgsEnv(dictionary, args))
  {
  }

  /** If the id string uses the indices 0 to n-1 and no others, strings and ints together
      cover them all. */
  lemma ArgumentsCover(types: map<int, char>, args: seq<Arg>, dictionary: map<string, string>)
    requires ArgsFit(types, args) && |types| == |args|
    ensures EnvOf(types, ArgsEnv(dictionary, args))
    ensures StrsOf(args).Keys !! IntsOf(args).Keys && StrsOf(args).Keys + IntsOf(args).Keys == types.Keys
  {
    forall n | n in types
      ensures 0 <= n < |args|
    {
      NoOtherKeys(types, |args|, n);
    }
    EnvOfArgs(types, args, dictionary);
  }

  /** Main result: with a gapless id string and arguments that fit it, a template from the
      dictionary yields the text it stands for exactly if all its holes fit the types and
      that text is not empty; otherwise the program stops with an error. */
  lemma TemplateCall(dictionary: map<string, string>, id: string, args: seq<Arg>, segs: seq<Segment>)
    requires TypesIn(id).Some? && ArgsFit(TypesIn(id).value, args) && |TypesIn(id).value| == |args|
    requires (forall k :: 0 <= k < |segs| ==> Printable(segs[k])) && GetLocaleText(dictionary, id) == Print(segs) != ""
    ensures CallOk(dictionary, id, args)
    ensures var types, env := TypesIn(id).value, ArgsEnv(dictionary, args);
            && (TextArgs(dictionary, id, args).Some? <==>
                 && (forall k :: 0 <= k < |segs| && segs[k].Hole? ==> Fits(types, env, segs[k].index, segs[k].tail))
                 && Value(env, segs) != Text(""))
            && (TextArgs(dictionary, id, args).Some? ==> Value(env, segs) == Text(TextArgs(dictionary, id, args).value))
  {
    hide Fits, Render, Value, ArgsFit, FallsBack, Printable, EnvOf, ArgsEnv, Print;
    PrintedTerminates(ArgsEnv(dictionary, args), segs);
    ArgumentsCover(TypesIn(id).value, args, dictionary);
    TypedTemplatesRender(TypesIn(id).value, ArgsEnv(dictionary, args), segs);
    RenderPrinted(ArgsEnv(dictionary, args), segs);
    WellTyped(TypesIn(id).value, ArgsEnv(dictionary, args), segs);
  }
}
