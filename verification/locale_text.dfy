/** The text templates of Locale::LocaleServer: which statements a string holds, and what
    one round of the renderer does. Characters are those of C strings; '\0' is what the
    index operator reads behind the end. */
module LocaleText {
  import opened Wrappers

  const INVALID := -1

  /** The first c at or behind `from`, or INVALID. */
  function FindCharIndex(s: string, c: char, from: nat): (i: int)
    requires from <= |s|
    ensures i == INVALID || (from <= i < |s| && s[i] == c)
    ensures forall j :: from <= j < (if i == INVALID then |s| else i) ==> s[j] != c
    decreases |s| - from
  {
    if from == |s| then INVALID else if s[from] == c then from else FindCharIndex(s, c, from + 1)
  }

  function CharAt(s: string, i: nat): char {
    if i < |s| then s[i] else '\0'
  }

  predicate Digits(d: string) {
    forall i :: 0 <= i < |d| ==> '0' <= d[i] <= '9'
  }

  /** AsInt, for strings of digits; the empty string is 0. */
  function AsInt(d: string): (n: nat)
    requires Digits(d)
  {
    if d == "" then 0 else 10 * AsInt(d[..|d| - 1]) + (d[|d| - 1] as int - '0' as int)
  }

  // ----- argument statements

  /** 's' for strings, 'i' for integers, '\0' for no type at all. */
  function KindOf(argType: char): char {
    if argType == 's' || argType == 'l' then 's' else if argType == 'i' || argType == 'p' then 'i' else '\0'
  }

  /** An open bracket and the colon behind it, if there is one. */
  datatype Statement = Statement(open: nat, colon: int)

  /** The statements the analysis comes across: it goes on behind the colon. */
  function Statements(s: string, from: nat): (found: seq<Statement>)
    requires from <= |s|
    ensures forall k :: 0 <= k < |found| ==> Placed(s, found[k])
    decreases |s| - from
  {
    var open := FindCharIndex(s, '{', from);
    if open == INVALID then [] else
    var colon := FindCharIndex(s, ':', open);
    if colon == INVALID then [Statement(open, INVALID)] else [Statement(open, colon)] + Statements(s, colon)
  }

  predicate Placed(s: string, st: Statement) {
    st.open < |s| && (st.colon == INVALID || st.open < st.colon < |s|)
  }

  function IndexText(s: string, st: Statement): string
    requires Placed(s, st) && st.colon != INVALID
  {
    s[st.open + 1..st.colon]
  }

  /** An index of digits and one of the four types. */
  predicate WellFormed(s: string, st: Statement)
    requires Placed(s, st)
  {
    st.colon != INVALID && Digits(IndexText(s, st)) && KindOf(CharAt(s, st.colon + 1)) != '\0'
  }

  function ArgIdx(s: string, st: Statement): nat
    requires Placed(s, st) && WellFormed(s, st)
  {
    AsInt(IndexText(s, st))
  }

  function ArgKind(s: string, st: Statement): char
    requires Placed(s, st) && WellFormed(s, st)
  {
    KindOf(CharAt(s, st.colon + 1))
  }

  /** The analysis of one statement. */
  function AddStatement(s: string, st: Statement, types: map<int, char>): Option<map<int, char>>
    requires Placed(s, st)
  {
    if !WellFormed(s, st) then None
    else if ArgIdx(s, st) !in types then Some(types[ArgIdx(s, st) := ArgKind(s, st)])
    else if types[ArgIdx(s, st)] != ArgKind(s, st) then None
    else Some(types)
  }

  /** AnalyzeArgumentStatements over a list of statements. */
  function AddStatements(s: string, sts: seq<Statement>): (types: Option<map<int, char>>)
    requires forall k :: 0 <= k < |sts| ==> Placed(s, sts[k])
  {
    if sts == [] then Some(map[]) else
    match AddStatements(s, sts[..|sts| - 1])
    case None => None
    case Some(types) => AddStatement(s, sts[|sts| - 1], types)
  }

  /** Every statement is well-formed, and no index is used for both kinds. */
  predicate Consistent(s: string, sts: seq<Statement>)
    requires forall k :: 0 <= k < |sts| ==> Placed(s, sts[k])
  {
    && (forall k :: 0 <= k < |sts| ==> WellFormed(s, sts[k]))
    && forall j, k :: 0 <= j < k < |sts| && ArgIdx(s, sts[j]) == ArgIdx(s, sts[k]) ==>
       ArgKind(s, sts[j]) == ArgKind(s, sts[k])
  }

  /** The types hold exactly the indices of the statements, with their kinds. */
  predicate TypesOf(s: string, sts: seq<Statement>, types: map<int, char>)
    requires forall k :: 0 <= k < |sts| ==> Placed(s, sts[k]) && WellFormed(s, sts[k])
  {
    && (forall k :: 0 <= k < |sts| ==> ArgIdx(s, sts[k]) in types && types[ArgIdx(s, sts[k])] == ArgKind(s, sts[k]))
    && forall n :: n in types ==> exists k :: 0 <= k < |sts| && ArgIdx(s, sts[k]) == n
  }

  /** The analysis succeeds exactly on consistent strings, and then finds all types. */
  lemma {:induction false} AnalysisIs(s: string, sts: seq<Statement>)
    requires forall k :: 0 <= k < |sts| ==> Placed(s, sts[k])
    ensures AddStatements(s, sts).Some? <==> Consistent(s, sts)
    ensures AddStatements(s, sts).Some? ==> TypesOf(s, sts, AddStatements(s, sts).value)
  {
    hide WellFormed, ArgIdx, ArgKind;
    if sts != [] {
      var before, st := sts[..|sts| - 1], sts[|sts| - 1];
      AnalysisIs(s, before);
      if AddStatements(s, before).Some? {
        LastStatement(s, before, st, AddStatements(s, before).value);
      }
      assert sts == before + [st];
    }
  }

  lemma LastStatement(s: string, before: seq<Statement>, st: Statement, types: map<int, char>)
    requires (forall k :: 0 <= k < |before| ==> Placed(s, before[k])) && Placed(s, st)
    requires Consistent(s, before) && TypesOf(s, before, types)
    ensures forall k :: 0 <= k < |before + [st]| ==> Placed(s, (before + [st])[k])
    ensures AddStatement(s, st, types).Some? <==> Consistent(s, before + [st])
    ensures AddStatement(s, st, types).Some? ==> TypesOf(s, before + [st], AddStatement(s, st, types).value)
  {
    hide WellFormed, ArgIdx, ArgKind, TypesOf, Placed;
    var sts := before + [st];
    assert forall k :: 0 <= k < |before| ==> sts[k] == before[k];
    assert sts[|before|] == st;
    if WellFormed(s, st) && ArgIdx(s, st) in types {
      var k := OwnerOf(s, before, types, ArgIdx(s, st));
      assert ArgIdx(s, sts[k]) == ArgIdx(s, sts[|before|]);
    }
    if WellFormed(s, st) {
      TypesGiven(s, before, types);
    }
    if AddStatement(s, st, types).Some? {
      TypesMore(s, before, st, types);
    }
  }

  lemma OwnerOf(s: string, sts: seq<Statement>, types: map<int, char>, n: int) returns (k: nat)
    requires (forall k :: 0 <= k < |sts| ==> Placed(s, sts[k]) && WellFormed(s, sts[k])) && TypesOf(s, sts, types)
             && n in types
    ensures k < |sts| && ArgIdx(s, sts[k]) == n && types[n] == ArgKind(s, sts[k])
  {
    hide WellFormed, ArgIdx, ArgKind;
    k :| 0 <= k < |sts| && ArgIdx(s, sts[k]) == n;
  }

  lemma TypesGiven(s: string, sts: seq<Statement>, types: map<int, char>)
    requires (forall k :: 0 <= k < |sts| ==> Placed(s, sts[k]) && WellFormed(s, sts[k])) && TypesOf(s, sts, types)
    ensures forall k :: 0 <= k < |sts| ==> ArgIdx(s, sts[k]) in types && types[ArgIdx(s, sts[k])] == ArgKind(s, sts[k])
  {
  }

  lemma TypesMore(s: string, before: seq<Statement>, st: Statement, types: map<int, char>)
    requires (forall k :: 0 <= k < |before| ==> Placed(s, before[k]) && WellFormed(s, before[k])) && Placed(s, st)
    requires TypesOf(s, before, types) && AddStatement(s, st, types).Some?
    ensures forall k :: 0 <= k < |before + [st]| ==> Placed(s, (before + [st])[k]) && WellFormed(s, (before + [st])[k])
    ensures TypesOf(s, before + [st], AddStatement(s, st, types).value)
  {
    hide WellFormed, ArgIdx, ArgKind, Placed;
    var sts := before + [st];
    assert forall k :: 0 <= k < |before| ==> sts[k] == before[k];
    assert sts[|before|] == st;
    forall n | n in AddStatement(s, st, types).value
      ensures exists k :: 0 <= k < |sts| && ArgIdx(s, sts[k]) == n
    {
      if n in types {
        var k := OwnerOf(s, before, types, n);
        assert ArgIdx(s, sts[k]) == n;
      } else {
        assert ArgIdx(s, sts[|before|]) == n;
      }
    }
  }

  // ----- what replaces a statement

  /** The arguments, and the texts of the dictionary. */
  datatype Env = Env(strs: map<int, string>, ints: map<int, int>, texts: map<string, string>)

  function GetLocaleText(texts: map<string, string>, id: string): string {
    if id == "" then "" else if id in texts then texts[id] else "LOCALIZE: '" + id + "'"
  }

  function DigitsOf(n: nat): (d: string)
    ensures d != "" && Digits(d)
  {
    var last := [('0' as int + n % 10) as char];
    if n < 10 then last else DigitsOf(n / 10) + last
  }

  function FromInt(i: int): string {
    if i < 0 then "-" + DigitsOf(-i) else DigitsOf(i)
  }

  /** Reading back what was printed. */
  lemma {:induction false} AsIntOfFromInt(n: nat)
    ensures FromInt(n) == DigitsOf(n) && AsInt(DigitsOf(n)) == n
  {
    if n >= 10 {
      AsIntOfFromInt(n / 10);
    } else {
      assert DigitsOf(n)[..0] == "";
    }
  }

  /** Tokenize: the runs of characters between bars; empty ones do not count. */
  function Tokenize(s: string): seq<string>
    decreases |s|
  {
    if s == "" then [] else if s[0] == '|' then Tokenize(s[1..]) else
    var bar := FindCharIndex(s, '|', 0);
    if bar == INVALID then [s] else [s[..bar]] + Tokenize(s[bar..])
  }

  /** PluralChoice; None where the program stops with an error. */
  function PluralChoice(amount: int, choice: string): Option<string> {
    var choices := Tokenize(choice);
    if |choices| == 2 then
      Some(if amount == 1 then choices[0] else choices[1])
    else if |choices| == 3 then
      Some(if amount == 0 then choices[0] else if amount == 1 then choices[1] else choices[2])
    else None
  }

  /** Nonempty choices without bars, put together with bars between them. */
  function Joined(choices: seq<string>): string {
    if choices == [] then "" else if |choices| == 1 then choices[0] else choices[0] + "|" + Joined(choices[1..])
  }

  lemma {:induction false} TokenizeJoined(choices: seq<string>)
    requires forall k :: 0 <= k < |choices| ==> choices[k] != "" && '|' !in choices[k]
    ensures Tokenize(Joined(choices)) == choices
  {
    if |choices| == 1 {
      NoBar(choices[0]);
    } else if choices != [] {
      var s, n := Joined(choices), |choices[0]|;
      assert s[n] == '|' && s[..n] == choices[0] && s[n + 1..] == Joined(choices[1..]);
      assert forall j :: 0 <= j < n ==> s[j] == choices[0][j];
      FindIs(s, '|', 0, n);
      assert s[n..][1..] == s[n + 1..];
      TokenizeJoined(choices[1..]);
    }
  }

  lemma NoBar(s: string)
    requires s != "" && '|' !in s
    ensures Tokenize(s) == [s]
  {
    assert s[0] != '|';
  }

  lemma FindIs(s: string, c: char, from: nat, i: nat)
    requires from <= i < |s| && s[i] == c && forall j :: from <= j < i ==> s[j] != c
    ensures FindCharIndex(s, c, from) == i
  {
  }

  // ----- the renderer

  /** Where the loop of the renderer is. */
  datatype Progress = Going(at: nat, text: string) | Done(text: string) | Failed | Stopped

  /** What a statement is replaced by; the program fails with a message, or stops. */
  datatype Piece = Text(text: string) | Bad | Fatal

  /** The choice text of a plural statement must not be empty. */
  function Plural(amount: int, choice: string): Piece {
    if choice == "" then Fatal else
    match PluralChoice(amount, choice)
    case Some(t) => Text(t)
    case None => Fatal
  }

  /** The replacement for a statement with this index text and this type; the choice is what
      a plural statement has to choose from, None if its bounds make no sense. */
  function Replacement(env: Env, d: string, argType: char, choice: Option<string>): Piece {
    if !Digits(d) then Bad else
    var n := AsInt(d);
    if argType == 's' then if n in env.strs then Text(env.strs[n]) else Bad
    else if argType == 'l' then if n in env.strs then Text(GetLocaleText(env.texts, env.strs[n])) else Bad
    else if argType == 'i' then if n in env.ints then Text(FromInt(env.ints[n])) else Bad
    else if argType == 'p' then
      if n !in env.ints then Bad else if choice.None? then Fatal else Plural(env.ints[n], choice.value)
    else Bad
  }

  /** Between the third character behind the colon and the close bracket. */
  function ChoiceText(s: string, colon: nat, after: nat): Option<string>
    requires after <= |s|
  {
    if colon + 3 <= after - 1 then Some(s[colon + 3..after - 1]) else None
  }

  /** One round of the loop of BuildLocalizedText. Without a close bracket, the position
      falls back to 0. */
  function Round(env: Env, s: string, at: nat, text: string): (p: Progress)
    requires at < |s|
    ensures p.Going? ==> p.at == 0 || at < p.at <= |s|
  {
    var open := FindCharIndex(s, '{', at);
    if open == INVALID then Done(text + s[at..]) else
    var colon := FindCharIndex(s, ':', open);
    if colon == INVALID then Failed else
    var after := FindCharIndex(s, '}', colon) + 1;
    match Replacement(env, s[open + 1..colon], CharAt(s, colon + 1), ChoiceText(s, colon, after))
    case Text(t) => Going(after, text + s[at..open] + t)
    case Bad => Failed
    case Fatal => Stopped
  }

  /** The state of the loop after n rounds. */
  function Rounds(env: Env, s: string, n: nat): Progress {
    if n == 0 then Going(0, "") else
    match Rounds(env, s, n - 1)
    case Going(at, text) => if at < |s| then Round(env, s, at, text) else Going(at, text)
    case Done(text) => Done(text)
    case Failed => Failed
    case Stopped => Stopped
  }

  predicate Finished(s: string, p: Progress) {
    p.Going? ==> p.at >= |s|
  }

  datatype Outcome = Rendered(text: string) | Error | Aborted | Hangs

  /** What becomes of the rest of the string. */
  function Render(env: Env, s: string, at: nat, text: string): Outcome
    requires at <= |s|
    decreases |s| - at
  {
    if at == |s| then Rendered(text) else
    match Round(env, s, at, text)
    case Going(next, t) => if next == 0 then Hangs else Render(env, s, next, t)
    case Done(t) => Rendered(t)
    case Failed => Error
    case Stopped => Aborted
  }

  function OutcomeOf(p: Progress): Outcome {
    match p
    case Going(at, text) => Rendered(text)
    case Done(text) => Rendered(text)
    case Failed => Error
    case Stopped => Aborted
  }

  /** Whether the loop falls back does not depend on the text gathered so far. */
  lemma {:induction false} HangsAnyway(env: Env, s: string, at: nat, text: string, text': string)
    requires at <= |s| && Render(env, s, at, text).Hangs?
    ensures Render(env, s, at, text').Hangs?
    decreases |s| - at
  {
    var p, p' := Round(env, s, at, text), Round(env, s, at, text');
    if p.at != 0 {
      HangsAnyway(env, s, p.at, p.text, p'.text);
    }
  }

  /** A loop that falls back never ends. */
  lemma {:induction false} NeverFinished(env: Env, s: string, n: nat)
    requires s != "" && Render(env, s, 0, "").Hangs?
    ensures var p := Rounds(env, s, n); p.Going? && p.at < |s| && Render(env, s, p.at, p.text).Hangs?
  {
    hide Round;
    if n > 0 {
      NeverFinished(env, s, n - 1);
      var before, p := Rounds(env, s, n - 1), Rounds(env, s, n);
      if p.at == 0 {
        HangsAnyway(env, s, 0, "", p.text);
      }
    }
  }

  /** Otherwise it ends, with the outcome of Render. */
  lemma {:induction false} FinishesFrom(env: Env, s: string, n: nat) returns (m: nat)
    requires var p := Rounds(env, s, n); p.Going? && p.at <= |s| && !Render(env, s, p.at, p.text).Hangs?
    ensures Finished(s, Rounds(env, s, m))
    ensures OutcomeOf(Rounds(env, s, m)) == Render(env, s, Rounds(env, s, n).at, Rounds(env, s, n).text)
    decreases |s| - Rounds(env, s, n).at
  {
    hide Round;
    var p := Rounds(env, s, n);
    if p.at == |s| {
      m := n;
    } else {
      var q := Rounds(env, s, n + 1);
      assert q == Round(env, s, p.at, p.text);
      if q.Going? {
        m := FinishesFrom(env, s, n + 1);
      } else {
        m := n + 1;
      }
    }
  }

  // ----- when the renderer does not terminate

  /** A statement the renderer comes across; INVALID where the colon or the close bracket is
      missing. */
  datatype Visit = Visit(open: nat, colon: int, close: int)

  /** The statements from `at` on: the scan goes on behind each close bracket, and ends at
      the first statement without a colon or without a close bracket. */
  function Visits(s: string, at: nat): (visits: seq<Visit>)
    requires at <= |s|
    ensures forall k :: 0 <= k < |visits| ==> InText(s, visits[k])
    ensures forall k :: 0 <= k < |visits| - 1 ==> visits[k].close != INVALID
    decreases |s| - at
  {
    var open := FindCharIndex(s, '{', at);
    if open == INVALID then [] else
    var colon := FindCharIndex(s, ':', open);
    if colon == INVALID then [Visit(open, INVALID, INVALID)] else
    var close := FindCharIndex(s, '}', colon);
    if close == INVALID then [Visit(open, colon, INVALID)] else [Visit(open, colon, close)] + Visits(s, close + 1)
  }

  predicate InText(s: string, v: Visit) {
    && v.open < |s|
    && (v.colon == INVALID || v.open < v.colon < |s|)
    && (v.close == INVALID || (v.colon != INVALID && v.colon < v.close < |s|))
  }

  /** What takes the place of a statement. */
  function PieceOf(env: Env, s: string, v: Visit): Piece
    requires InText(s, v) && v.colon != INVALID
  {
    Replacement(env, s[v.open + 1..v.colon], CharAt(s, v.colon + 1), ChoiceText(s, v.colon, v.close + 1))
  }

  /** The last statement has a colon, but no close bracket, and none of the statements is in
      error. */
  predicate EndsOpen(env: Env, s: string, visits: seq<Visit>)
    requires forall k :: 0 <= k < |visits| ==> InText(s, visits[k])
  {
    && visits != [] && visits[|visits| - 1].colon != INVALID && visits[|visits| - 1].close == INVALID
    && forall k :: 0 <= k < |visits| ==> visits[k].colon != INVALID && PieceOf(env, s, visits[k]).Text?
  }

  /** The scan comes to a statement without a close bracket, and no error stops it before. */
  predicate FallsBack(env: Env, s: string, at: nat)
    requires at <= |s|
  {
    EndsOpen(env, s, Visits(s, at))
  }

  lemma EndsOpenBehind(env: Env, s: string, v: Visit, rest: seq<Visit>)
    requires InText(s, v) && v.close != INVALID && forall k :: 0 <= k < |rest| ==> InText(s, rest[k])
    ensures forall k :: 0 <= k < |[v] + rest| ==> InText(s, ([v] + rest)[k])
    ensures EndsOpen(env, s, [v] + rest) <==> PieceOf(env, s, v).Text? && EndsOpen(env, s, rest)
  {
    hide PieceOf;
    var visits := [v] + rest;
    assert visits[0] == v;
    assert forall k :: 0 <= k < |rest| ==> visits[k + 1] == rest[k];
    assert forall k :: 0 < k < |visits| ==> visits[k] == rest[k - 1];
    assert visits[|visits| - 1] == if rest == [] then v else rest[|rest| - 1];
  }

  /** The scan, one statement at a time. */
  lemma VisitsStep(s: string, at: nat)
    requires at < |s|
    ensures var open := FindCharIndex(s, '{', at);
            && (open == INVALID ==> Visits(s, at) == [])
            && (open != INVALID ==>
                 var colon := FindCharIndex(s, ':', open);
                 && (colon == INVALID ==> Visits(s, at) == [Visit(open, INVALID, INVALID)])
                 && (colon != INVALID ==>
                      var close := FindCharIndex(s, '}', colon);
                      && InText(s, Visit(open, colon, close))
                      && Visits(s, at)
                         == [Visit(open, colon, close)] + if close == INVALID then [] else Visits(s, close + 1)))
  {
    hide FindCharIndex;
  }

  /** The scan and the loop take the same steps. */
  lemma FallsBackStep(env: Env, s: string, at: nat, text: string)
    requires at < |s|
    ensures var p := Round(env, s, at, text);
            FallsBack(env, s, at) <==> p.Going? && (p.at == 0 || FallsBack(env, s, p.at))
  {
    hide FindCharIndex, Replacement, EndsOpen, Visits;
    VisitsStep(s, at);
    var open := FindCharIndex(s, '{', at);
    if open == INVALID {
      OneVisit(env, s, Visit(0, INVALID, INVALID));
    } else {
      var colon := FindCharIndex(s, ':', open);
      if colon == INVALID {
        OneVisit(env, s, Visit(open, INVALID, INVALID));
      } else {
        var v := Visit(open, colon, FindCharIndex(s, '}', colon));
        if v.close == INVALID {
          OneVisit(env, s, v);
          assert [v] + [] == [v];
        } else {
          EndsOpenBehind(env, s, v, Visits(s, v.close + 1));
        }
      }
    }
  }

  lemma OneVisit(env: Env, s: string, v: Visit)
    ensures !EndsOpen(env, s, [])
    ensures InText(s, v) && v.close == INVALID ==>
              (EndsOpen(env, s, [v]) <==> v.colon != INVALID && PieceOf(env, s, v).Text?)
  {
    hide PieceOf;
    assert [v][0] == v;
  }

  /** Render hangs exactly if the scan falls back. */
  lemma {:induction false} HangsIff(env: Env, s: string, at: nat, text: string)
    requires at <= |s|
    ensures Render(env, s, at, text).Hangs? <==> FallsBack(env, s, at)
    decreases |s| - at
  {
    hide FallsBack, Round;
    if at == |s| {
      NothingLeft(env, s);
    } else {
      FallsBackStep(env, s, at, text);
      var p := Round(env, s, at, text);
      if p.Going? && p.at != 0 {
        HangsIff(env, s, p.at, p.text);
      }
    }
  }

  lemma NothingLeft(env: Env, s: string)
    ensures !FallsBack(env, s, |s|)
  {
  }

  /** Main result on termination: the loop of the renderer ends exactly if the statements it
      comes across all have their close brackets, or one of them is in error. */
  lemma TerminatesIff(env: Env, s: string)
    requires s != ""
    ensures (exists n: nat :: Finished(s, Rounds(env, s, n))) <==> !FallsBack(env, s, 0)
    ensures FallsBack(env, s, 0) <==> Render(env, s, 0, "").Hangs?
  {
    hide FallsBack, Rounds, Render;
    HangsIff(env, s, 0, "");
    if Render(env, s, 0, "").Hangs? {
      forall n: nat
        ensures !Finished(s, Rounds(env, s, n))
      {
        NeverFinished(env, s, n);
      }
    } else {
      AtTheStart(env, s);
      var m := FinishesFrom(env, s, 0);
    }
  }

  lemma AtTheStart(env: Env, s: string)
    ensures Rounds(env, s, 0) == Going(0, "")
  {
  }

  /** With a close bracket for every statement that has a colon, the loop ends whatever the
      arguments are. */
  lemma ClosedTerminates(env: Env, s: string)
    requires s != ""
    requires forall k :: 0 <= k < |Visits(s, 0)| && Visits(s, 0)[k].colon != INVALID ==>
             Visits(s, 0)[k].close != INVALID
    ensures exists n: nat :: Finished(s, Rounds(env, s, n))
  {
    TerminatesIff(env, s);
  }

  /** A close bracket behind the last colon is enough for that. */
  lemma {:induction false} CloseBehindLastColon(env: Env, s: string, at: nat, text: string, close: nat)
    requires at <= |s| && close < |s| && s[close] == '}' && forall k :: close < k < |s| ==> s[k] != ':'
    ensures !Render(env, s, at, text).Hangs?
    decreases |s| - at
  {
    if at < |s| && Round(env, s, at, text).Going? {
      var open := FindCharIndex(s, '{', at);
      var colon := FindCharIndex(s, ':', open);
      assert colon < close;
      assert FindCharIndex(s, '}', colon) != INVALID;
      CloseBehindLastColon(env, s, Round(env, s, at, text).at, Round(env, s, at, text).text, close);
    }
  }

  /** A text on which it does not end, as soon as there is a first argument. */
  lemma UnclosedHangs(env: Env)
    ensures 0 in env.strs ==> forall n: nat :: !Finished("{0:s", Rounds(env, "{0:s", n))
    ensures 0 !in env.strs ==> Render(env, "{0:s", 0, "") == Error
  {
    var s := "{0:s";
    FindIs(s, '{', 0, 0);
    FindIs(s, ':', 0, 2);
    assert FindCharIndex(s, '}', 2) == INVALID;
    var v := Visit(0, 2, INVALID);
    assert Visits(s, 0) == [v];
    assert s[1..2] == "0" && AsInt("0") == 0 by {
      assert "0"[..0] == "";
    }
    if 0 in env.strs {
      assert PieceOf(env, s, v).Text?;
      TerminatesIff(env, s);
    }
  }
}
