/** What each kind of hole stands for, written out: the choice of a plural text, numbers,
    strings, and strings that are looked up. */
module LocaleChoices {
  import opened Wrappers
  import opened LocaleText
  import opened LocaleSegments

  /** A text that can be one of several choices. */
  predicate Choice(c: string) {
    c != "" && Lacks(c, '|')
  }

  lemma TokensOfTwo(c0: string, c1: string)
    requires Choice(c0) && Choice(c1)
    ensures Tokenize(c0 + "|" + c1) == [c0, c1]
  {
    hide Tokenize;
    var choices := [c0, c1];
    assert choices[1..] == [c1];
    assert Joined(choices) == c0 + "|" + c1;
    TokenizeJoined(choices);
  }

  lemma TokensOfThree(c0: string, c1: string, c2: string)
    requires Choice(c0) && Choice(c1) && Choice(c2)
    ensures Tokenize(c0 + "|" + c1 + "|" + c2) == [c0, c1, c2]
  {
    hide Tokenize;
    var choices := [c0, c1, c2];
    assert choices[1..] == [c1, c2] && [c1, c2][1..] == [c2];
    assert Joined([c1, c2]) == c1 + "|" + c2;
    assert Joined(choices) == c0 + "|" + (c1 + "|" + c2);
    assert c0 + "|" + c1 + "|" + c2 == c0 + "|" + (c1 + "|" + c2);
    TokenizeJoined(choices);
  }

  /** Of two texts, the first is for one. */
  lemma ChoiceOfTwo(amount: int, c0: string, c1: string)
    requires Choice(c0) && Choice(c1)
    ensures PluralChoice(amount, c0 + "|" + c1) == Some(if amount == 1 then c0 else c1)
  {
    hide Tokenize;
    TokensOfTwo(c0, c1);
  }

  /** Of three texts, the first is for none, and the second for one. */
  lemma ChoiceOfThree(amount: int, c0: string, c1: string, c2: string)
    requires Choice(c0) && Choice(c1) && Choice(c2)
    ensures PluralChoice(amount, c0 + "|" + c1 + "|" + c2)
            == Some(if amount == 0 then c0 else if amount == 1 then c1 else c2)
  {
    hide Tokenize;
    TokensOfThree(c0, c1, c2);
  }

  /** Numbers are written in decimal, without leading zeros, and with a sign if they are
      negative. */
  lemma {:induction false} DigitsAre(n: nat)
    ensures AsInt(DigitsOf(n)) == n && Digits(DigitsOf(n))
    ensures n > 0 ==> DigitsOf(n)[0] != '0'
    ensures n == 0 ==> DigitsOf(n) == "0"
  {
    AsIntOfFromInt(n);
    if n >= 10 {
      DigitsAre(n / 10);
    }
  }

  lemma NumberIs(i: int)
    ensures i >= 0 ==> Digits(FromInt(i)) && AsInt(FromInt(i)) == i && (i > 0 ==> FromInt(i)[0] != '0')
    ensures i < 0 ==> FromInt(i)[0] == '-' && FromInt(i)[1..] == FromInt(-i)
  {
    DigitsAre(if i < 0 then -i else i);
  }

  // ----- the kinds of holes

  lemma PluralOfTwo(env: Env, index: string, c0: string, c1: string)
    requires Digits(index) && AsInt(index) in env.ints && Choice(c0) && Choice(c1)
    ensures Meaning(env, index, "p:" + (c0 + "|" + c1)) == Text(if env.ints[AsInt(index)] == 1 then c0 else c1)
  {
    hide PluralChoice, Digits, AsInt;
    var tail := "p:" + (c0 + "|" + c1);
    assert tail[0] == 'p' && tail[2..] == c0 + "|" + c1;
    ChoiceOfTwo(env.ints[AsInt(index)], c0, c1);
  }

  lemma PluralOfThree(env: Env, index: string, c0: string, c1: string, c2: string)
    requires Digits(index) && AsInt(index) in env.ints && Choice(c0) && Choice(c1) && Choice(c2)
    ensures Meaning(env, index, "p:" + (c0 + "|" + c1 + "|" + c2))
            == Text(var amount := env.ints[AsInt(index)]; if amount == 0 then c0 else if amount == 1 then c1 else c2)
  {
    hide PluralChoice, Digits, AsInt;
    var tail := "p:" + (c0 + "|" + c1 + "|" + c2);
    assert tail[0] == 'p' && tail[2..] == c0 + "|" + c1 + "|" + c2;
    ChoiceOfThree(env.ints[AsInt(index)], c0, c1, c2);
  }

  /** A string stands for itself, or for the text it is the id of. */
  lemma StringHole(env: Env, index: string)
    requires Digits(index) && AsInt(index) in env.strs
    ensures var arg := env.strs[AsInt(index)];
            && Meaning(env, index, "s") == Text(arg)
            && Meaning(env, index, "l")
               == Text(if arg == "" then "" else if arg in env.texts then env.texts[arg] else "LOCALIZE: '" + arg + "'")
  {
  }

  lemma NumberHole(env: Env, index: string, digits: string)
    requires Digits(index) && AsInt(index) in env.ints
    requires Digits(digits) && digits != "" && (digits[0] == '0' ==> digits == "0")
    ensures env.ints[AsInt(index)] == AsInt(digits) ==> Meaning(env, index, "i") == Text(digits)
    ensures env.ints[AsInt(index)] == 0 - AsInt(digits) && digits != "0" ==>
            Meaning(env, index, "i") == Text("-" + digits)
  {
    hide AsInt;
    DecimalIsUnique(digits);
    if digits != "0" {
      NotZero(digits);
    }
  }

  lemma NotZero(digits: string)
    requires Digits(digits) && digits != "" && (digits[0] == '0' ==> digits == "0") && digits != "0"
    ensures AsInt(digits) > 0
  {
  }

  /** There is only one way to write a number without leading zeros. */
  lemma {:induction false} DecimalIsUnique(digits: string)
    requires Digits(digits) && digits != "" && (digits[0] == '0' ==> digits == "0")
    ensures DigitsOf(AsInt(digits)) == digits
  {
    hide DigitsOf, AsInt;
    var n := |digits| - 1;
    var before, last := digits[..n], digits[n];
    LastDigit(digits);
    if n > 0 {
      DecimalIsUnique(before);
      NotZero(before);
      OneMoreDigit(AsInt(before), last);
    } else {
      OneDigit(last);
    }
    assert digits == before + [last];
  }

  lemma LastDigit(digits: string)
    requires Digits(digits) && digits != ""
    ensures var n := |digits| - 1;
            AsInt(digits) == 10 * AsInt(digits[..n]) + (digits[n] as int - '0' as int)
    ensures |digits| == 1 ==> AsInt(digits[..|digits| - 1]) == 0
  {
  }

  lemma OneMoreDigit(m: nat, last: char)
    requires m > 0 && '0' <= last <= '9'
    ensures DigitsOf(10 * m + (last as int - '0' as int)) == DigitsOf(m) + [last]
  {
    var d := last as int - '0' as int;
    assert (10 * m + d) / 10 == m && (10 * m + d) % 10 == d;
  }

  lemma {:induction false} OneDigit(last: char)
    requires '0' <= last <= '9'
    ensures DigitsOf(last as int - '0' as int) == [last]
  {
    var d := last as int - '0' as int;
    assert d < 10 && d % 10 == d;
    assert ('0' as int + d) as char == last;
  }

  // ----- a hole inside a text

  /** A text with one hole renders to what the hole stands for, with everything around it
      as it is. */
  lemma OneHoleRenders(env: Env, before: string, index: string, tail: string, after: string, text: string)
    requires Lacks(before, '{') && Lacks(after, '{') && Printable(Hole(index, tail))
    requires Meaning(env, index, tail) == Text(text)
    ensures Render(env, before + ("{" + (index + (":" + (tail + ("}" + after))))), 0, "")
            == Rendered(before + text + after)
  {
    hide Render, Meaning;
    var segs := [Literal(before), Hole(index, tail), Literal(after)];
    assert segs[1..] == [Hole(index, tail), Literal(after)] && segs[1..][1..] == [Literal(after)];
    assert [Literal(after)][1..] == [];
    LastPart(env, after);
    assert Value(env, segs[1..]) == Text(text + after);
    assert Value(env, segs) == Text(before + (text + after));
    assert before + (text + after) == before + text + after;
    RenderPrinted(env, segs);
  }

  lemma LastPart(env: Env, after: string)
    ensures Print([Literal(after)]) == after && Value(env, [Literal(after)]) == Text(after)
  {
    assert [Literal(after)][1..] == [];
    assert after + "" == after;
  }

  /** A text with a plural hole. */
  lemma PluralRenders(env: Env, before: string, index: string, c0: string, c1: string, after: string)
    requires Lacks(before, '{') && Lacks(after, '{') && Digits(index) && AsInt(index) in env.ints
    requires Choice(c0) && Lacks(c0, '{') && Lacks(c0, '}') && Choice(c1) && Lacks(c1, '{') && Lacks(c1, '}')
    ensures Render(env, before + ("{" + (index + (":" + (("p:" + (c0 + "|" + c1)) + ("}" + after))))), 0, "")
            == Rendered(before + (if env.ints[AsInt(index)] == 1 then c0 else c1) + after)
  {
    hide Render, Meaning, AsInt;
    PluralOfTwo(env, index, c0, c1);
    DigitsArePrintable(index, "p:" + (c0 + "|" + c1));
    OneHoleRenders(env, before, index, "p:" + (c0 + "|" + c1), after, if env.ints[AsInt(index)] == 1 then c0 else c1);
  }

  lemma PluralRendersThree(env: Env, before: string, index: string, c0: string, c1: string, c2: string, after: string)
    requires Lacks(before, '{') && Lacks(after, '{') && Digits(index) && AsInt(index) in env.ints
    requires Choice(c0) && Lacks(c0, '{') && Lacks(c0, '}') && Choice(c1) && Lacks(c1, '{') && Lacks(c1, '}')
    requires Choice(c2) && Lacks(c2, '{') && Lacks(c2, '}')
    ensures var amount := env.ints[AsInt(index)];
            Render(env, before + ("{" + (index + (":" + (("p:" + (c0 + "|" + c1 + "|" + c2)) + ("}" + after))))), 0, "")
            == Rendered(before + (if amount == 0 then c0 else if amount == 1 then c1 else c2) + after)
  {
    hide Render, Meaning, AsInt;
    PluralOfThree(env, index, c0, c1, c2);
    DigitsArePrintable(index, "p:" + (c0 + "|" + c1 + "|" + c2));
    var amount := env.ints[AsInt(index)];
    OneHoleRenders(env, before, index, "p:" + (c0 + "|" + c1 + "|" + c2), after,
                   if amount == 0 then c0 else if amount == 1 then c1 else c2);
  }

  lemma DigitsArePrintable(index: string, tail: string)
    requires Digits(index) && Lacks(tail, '{') && Lacks(tail, '}')
    ensures Printable(Hole(index, tail))
  {
  }

  /** The example in the comment on PluralChoice. */
  lemma Children(env: Env)
    requires 0 in env.ints
    ensures Render(env, "{0:p:Child|Children}", 0, "") == Rendered(if env.ints[0] == 1 then "Child" else "Children")
  {
    hide Render;
    assert AsInt("0") == 0 by {
      assert "0"[..0] == "";
    }
    assert "{0:p:Child|Children}" == "" + ("{" + ("0" + (":" + (("p:" + ("Child" + "|" + "Children")) + ("}" + "")))));
    PluralRenders(env, "", "0", "Child", "Children", "");
    var text := if env.ints[0] == 1 then "Child" else "Children";
    assert "" + text + "" == text;
  }
}
