/** Whole scans of small scripts, worked out from the general lemmas. */
module Examples {
  import opened Wrappers
  import opened Text
  import opened Regions
  import opened Slash
  import opened Scanner
  import opened Matcher

  /** A `++` or `--` ending at `k`. */
  predicate Doubled(str: string, k: nat)
    requires k < |str|
  {
    (str[k] == '+' || str[k] == '-') && k > 0 && str[k - 1] == str[k]
  }

  /** Plain code without `++` or `--` leaves the state exactly as it was. */
  lemma {:induction false} PlainWalk(str: string, s: State, i: nat, j: nat)
    requires Inv(str, s, i) && s.mode == InBase && !s.pfixOp && i <= j <= |str|
    requires forall k :: i <= k < j ==> !Special(str[k]) && !Doubled(str, k)
    ensures Walk(str, s, i, j) == s
    decreases j - i
  {
    if i < j {
      assert Step(str, s, i) == s;
      PlainWalk(str, s, i + 1, j);
    }
  }

  const IfRegex: string := "if (a) /x/.test(b)"

  lemma IfConditionAllowsRegex(str: string)
    requires str == IfRegex
    ensures RegexAllowed(str[..7], [])
  {
    assert str[..7] == "" + "if" + " " + "(" + "a" + ")" + " ";
    ConditionAllowsRegex("", "if", " ", "a", " ");
  }

  /** The `/` at 7 is read with regular expressions allowed... */
  lemma IfSlash(str: string)
    requires str == IfRegex
    ensures Inv(str, Initial, 7)
    ensures Step(str, Initial, 7) == Initial.(mode := InSlash, start := 7, regexEnabled := true)
  {
    IfConditionAllowsRegex(str);
    assert str[7] == '/';
  }

  /** ... so the `x` after it is the first character of one. */
  lemma IfRegexOpens(str: string, s8: State)
    requires str == IfRegex
    requires s8 == Initial.(mode := InSlash, start := 7, regexEnabled := true)
    ensures Inv(str, s8, 8)
    ensures Step(str, s8, 8) == s8.(mode := InRegex)
  {
    assert str[7] == '/' && str[8] == 'x';
  }

  lemma IfRegexPrefix(str: string, s9: State)
    requires str == IfRegex
    requires s9 == Initial.(mode := InRegex, start := 7, regexEnabled := true)
    ensures Inv(str, s9, 9)
    ensures Run(str, Initial, 0) == Run(str, s9, 9)
  {
    var s8 := Initial.(mode := InSlash, start := 7, regexEnabled := true);
    PlainWalk(str, Initial, 0, 7);
    RunSplit(str, Initial, 0, 7);
    IfSlash(str);
    IfRegexOpens(str, s8);
    assert Run(str, Initial, 7) == Run(str, s8, 8);
  }

  lemma IfRegexCloses(str: string, s9: State)
    requires str == IfRegex
    requires s9 == Initial.(mode := InRegex, start := 7, regexEnabled := true)
    requires Inv(str, s9, 9)
    ensures Run(str, s9, 9) == Ok([Chunk(str, RegexLiteral, 7, 10)])
  {
    var s10 := Step(str, s9, 9);
    assert str[9] == '/';
    assert s10.found == [Chunk(str, RegexLiteral, 7, 10)] && s10.mode == InBase;
    PlainCodeRunsOut(str, s10, 10);
  }

  /** After an `if (...)` condition, `/x/` is a regular expression. */
  lemma IfRegexFound(str: string)
    requires str == IfRegex
    ensures Find(str) == Ok([Region(RegexLiteral, 7, 10, "/x/", "x")])
  {
    var s9 := Initial.(mode := InRegex, start := 7, regexEnabled := true);
    IfRegexPrefix(str, s9);
    IfRegexCloses(str, s9);
    IfRegexChunk(str);
  }

  lemma IfRegexChunk(str: string)
    requires str == IfRegex
    ensures Chunk(str, RegexLiteral, 7, 10) == Region(RegexLiteral, 7, 10, "/x/", "x")
  {
    assert str[7..10] == "/x/";
    assert JsSlice("/x/", 1, -1) == "x";
  }

  /** A closing brace with nothing open: the character after it throws,
      reported at line 1, column 1. */
  lemma StrayBrace()
    ensures Find("}x") == Err(UnexpectedCharacter(1, 1, 1))
  {
    UnmatchedBraceThrows("}x", 0);
    assert "}x"[..1] == "}";
  }

  const Quotient: string := "1/2/3"

  /** A slash after a digit divides; the character after it is swallowed. */
  lemma DigitSlash(str: string, s: State, k: nat)
    requires str == Quotient && (k == 1 || k == 3)
    requires Inv(str, s, k) && s.mode == InBase && s.found == [] && !s.pfixOp
    ensures var r := AfterSlash(str, s, k);
      r.mode == InBase && r.found == [] && !r.pfixOp && Inv(str, r, k + 2)
  {
    assert str[k] == '/' && str[k + 1] != '/';
    assert str[..k] == if k == 1 then "1" else "1/2";
    DivisionAfterOperand(str, s, k);
  }

  /** After a number a slash divides: `1/2/3` has no region. */
  lemma NumbersDivide(str: string)
    requires str == Quotient
    ensures Find(str) == Ok([])
  {
    var s1 := Step(str, Initial, 0);
    assert s1 == Initial;
    DigitSlash(str, s1, 1);
    var s3 := AfterSlash(str, s1, 1);
    assert Run(str, s1, 1) == Run(str, s3, 3);
    DigitSlash(str, s3, 3);
    var s5 := AfterSlash(str, s3, 3);
    assert Run(str, s3, 3) == Run(str, s5, 5);
  }

  lemma FindOfRun(str: string, rs: seq<Region>)
    requires Inv(str, Initial, 0) && Run(str, Initial, 0) == Ok(rs)
    ensures Find(str) == Ok(rs)
  {
  }

  const GroupThenSlash: string := "(a+b) /x/ 2"

  /** A parenthesised group not preceded by `if` or `while` closes an
      expression, so the slash after it divides. */
  lemma GroupDivides(str: string)
    requires str == GroupThenSlash
    ensures !RegexAllowed(str[..6], [])
  {
    var e := str[..6];
    assert e == "(a+b) ";
    GroupAtEnd(e, 0, 4);
    assert TrimEnd(e) == "(a+b)";
    KeywordsMissGroup(TrimEnd(e));
    PunctuatorReduce(TrimEnd(e));
    EraseNothing(e);
    assert JsSlice(e, -3, -1) == "b)";
    assert JsSlice(e, -6, -1) == "(a+b)";
  }

  lemma KeywordsMissGroup(t: string)
    requires t == "(a+b)"
    ensures !EndsWithAny(t, Keywords)
  {
    if EndsWithAny(t, Keywords) {
      KeywordLastChar(t);
    }
  }

  /** `(a+b) ` is plain code: the scan reaches the first slash unchanged. */
  lemma GroupPrefix(str: string)
    requires str == GroupThenSlash
    ensures Inv(str, Initial, 6)
    ensures Run(str, Initial, 0) == Run(str, Initial, 6)
  {
    assert str[..6] == "(a+b) ";
    assert forall k :: 0 <= k < 6 ==> !Special(str[k]) && !Doubled(str, k);
    PlainWalk(str, Initial, 0, 6);
    RunSplit(str, Initial, 0, 6);
  }

  /** The first slash divides and swallows the `x`. */
  lemma GroupFirstSlash(str: string)
    requires str == GroupThenSlash
    requires Inv(str, Initial, 6)
    ensures var s8 := Initial.(start := 6, regexEnabled := false);
      Inv(str, s8, 8) && Run(str, Initial, 6) == Run(str, s8, 8)
  {
    assert str[6] == '/' && str[7] == 'x';
    GroupDivides(str);
    var s7 := Step(str, Initial, 6);
    assert s7 == Initial.(mode := InSlash, start := 6, regexEnabled := false);
    RunStep(str, Initial, 6);
    RunStep(str, s7, 7);
  }

  /** The second slash follows the operand `x` and divides too. */
  lemma GroupSecondSlash(str: string, s8: State)
    requires str == GroupThenSlash
    requires s8 == Initial.(start := 6, regexEnabled := false) && Inv(str, s8, 8)
    ensures Run(str, s8, 8) == Ok([])
  {
    assert str[8] == '/' && str[9] == ' ' && str[10] == '2' && |str| == 11;
    assert str[..8] == "(a+b) /x";
    DivisionAfterOperand(str, s8, 8);
    var s10 := AfterSlash(str, s8, 8);
    RunStep(str, s8, 8);
    RunStep(str, Step(str, s8, 8), 9);
    PlainCodeRunsOut(str, s10, 10);
  }

  /** `(a+b) /x/ 2`: both slashes divide, so the scan finds no region. */
  lemma GroupThenSlashDivides(str: string)
    requires str == GroupThenSlash
    ensures Find(str) == Ok([])
  {
    GroupPrefix(str);
    GroupFirstSlash(str);
    GroupSecondSlash(str, Initial.(start := 6, regexEnabled := false));
    FindOfRun(str, []);
  }

  const QuotedSlashes: string := "var s = '/x/'; var y = /ab/;"

  lemma InnerOfLiterals()
    ensures JsSlice("'/x/'", 1, -1) == "/x/"
    ensures JsSlice("/ab/", 1, -1) == "ab"
  {
  }

  const StringRegion: Region := Region(StringLiteral, 8, 13, "'/x/'", "/x/")
  const RegexRegion: Region := Region(RegexLiteral, 23, 27, "/ab/", "ab")

  /** `var s = ` is plain code. */
  lemma QuotedPrefix(str: string)
    requires str == QuotedSlashes
    ensures Inv(str, Initial, 8)
    ensures Run(str, Initial, 0) == Run(str, Initial, 8)
  {
    assert str[..8] == "var s = ";
    assert forall k :: 0 <= k < 8 ==> !Special(str[k]) && !Doubled(str, k);
    PlainWalk(str, Initial, 0, 8);
    RunSplit(str, Initial, 0, 8);
  }

  /** The quote at 8 opens a string literal... */
  lemma QuoteOpens(str: string)
    requires str == QuotedSlashes
    requires Inv(str, Initial, 8)
    ensures var s9 := Initial.(mode := InString, start := 8, quote := '\'');
      Inv(str, s9, 9) && Run(str, Initial, 8) == Run(str, s9, 9)
  {
    assert str[8] == '\'';
    RunStep(str, Initial, 8);
  }

  /** ... whose body `/x/` leaves the state alone... */
  lemma QuoteBody(str: string, s9: State)
    requires str == QuotedSlashes
    requires s9 == Initial.(mode := InString, start := 8, quote := '\'') && Inv(str, s9, 9)
    ensures Inv(str, s9, 12) && Run(str, s9, 9) == Run(str, s9, 12)
  {
    assert str[9] == '/' && str[10] == 'x' && str[11] == '/';
    RunStep(str, s9, 9);
    RunStep(str, s9, 10);
    RunStep(str, s9, 11);
  }

  /** ... and the quote at 12 closes it. */
  lemma QuoteCloses(str: string, s9: State)
    requires str == QuotedSlashes
    requires s9 == Initial.(mode := InString, start := 8, quote := '\'') && Inv(str, s9, 12)
    ensures var s13 := Initial.(start := 8, quote := '\'', found := [StringRegion]);
      Inv(str, s13, 13) && Run(str, s9, 12) == Run(str, s13, 13)
  {
    assert str[12] == '\'';
    assert str[8..13] == "'/x/'";
    InnerOfLiterals();
    RunStep(str, s9, 12);
    assert Step(str, s9, 12).found == [Chunk(str, StringLiteral, 8, 13)];
  }

  /** The string literal at 8 is read to its closing quote at 12. */
  lemma QuotedString(str: string)
    requires str == QuotedSlashes
    requires Inv(str, Initial, 8)
    ensures var s13 := Initial.(start := 8, quote := '\'', found := [StringRegion]);
      Inv(str, s13, 13) && Run(str, Initial, 8) == Run(str, s13, 13)
  {
    var s9 := Initial.(mode := InString, start := 8, quote := '\'');
    QuoteOpens(str);
    QuoteBody(str, s9);
    QuoteCloses(str, s9);
  }

  /** `; var y = ` is plain code. */
  lemma QuotedMiddle(str: string, s13: State)
    requires str == QuotedSlashes
    requires s13 == Initial.(start := 8, quote := '\'', found := [StringRegion]) && Inv(str, s13, 13)
    ensures Inv(str, s13, 23)
    ensures Run(str, s13, 13) == Run(str, s13, 23)
  {
    assert str[13..23] == "; var y = ";
    assert forall k :: 13 <= k < 23 ==> !Special(str[k]) && !Doubled(str, k);
    PlainWalk(str, s13, 13, 23);
    RunSplit(str, s13, 13, 23);
  }

  /** The slash at 23 follows `=`, so a regular expression opens. */
  lemma SlashAfterAssign(str: string, s13: State)
    requires str == QuotedSlashes
    requires s13 == Initial.(start := 8, quote := '\'', found := [StringRegion]) && Inv(str, s13, 23)
    ensures var s25 := s13.(mode := InRegex, start := 23);
      Inv(str, s25, 25) && Run(str, s13, 23) == Run(str, s25, 25)
  {
    assert str[23] == '/' && str[24] == 'a';
    assert TrimEnd(str[..23]) == "var s = '/x/'; var y =";
    RegexAfterPunctuator(str, s13, 23);
    var s24 := Step(str, s13, 23);
    RunStep(str, s13, 23);
    RunStep(str, s24, 24);
  }

  /** ... and closes at the slash at 26. */
  lemma RegexCloses(str: string, s25: State)
    requires str == QuotedSlashes
    requires s25 == Initial.(mode := InRegex, quote := '\'', start := 23, found := [StringRegion]) && Inv(str, s25, 25)
    ensures var s27 := s25.(mode := InBase, found := [StringRegion, RegexRegion]);
      Inv(str, s27, 27) && Run(str, s25, 25) == Run(str, s27, 27)
  {
    assert str[25] == 'b' && str[26] == '/';
    assert str[23..27] == "/ab/";
    InnerOfLiterals();
    RunStep(str, s25, 25);
    RunStep(str, s25, 26);
    assert Step(str, s25, 26).found == [StringRegion, Chunk(str, RegexLiteral, 23, 27)];
  }

  /** The scan of `var s = '/x/'; var y = /ab/;`: the quoted string and the
      regular-expression literal. */
  lemma QuotedSlashesRegions(str: string)
    requires str == QuotedSlashes
    ensures Find(str) == Ok([StringRegion, RegexRegion])
  {
    var s13 := Initial.(start := 8, quote := '\'', found := [StringRegion]);
    var s27 := s13.(start := 23, found := [StringRegion, RegexRegion]);
    QuotedPrefix(str);
    QuotedString(str);
    QuotedMiddle(str, s13);
    SlashAfterAssign(str, s13);
    RegexCloses(str, s13.(mode := InRegex, start := 23));
    assert str[27] == ';' && |str| == 28;
    PlainCodeRunsOut(str, s27, 27);
    FindOfRun(str, [StringRegion, RegexRegion]);
  }

  /** A pattern for slash-delimited words matches `/x/` at 9 and `/ab/` at
      23. The first lies inside the string, the second is the regular
      expression itself, so the callback never fires. */
  lemma QuotedSlashesNoMatch(str: string)
    requires str == QuotedSlashes
    ensures Match(str, [Candidate(9, ()), Candidate(23, ())], true) == Ok([])
  {
    QuotedSlashesRegions(str);
    var rs := Find(str).value;
    assert Inside(rs[0], 9) && Inside(rs[1], 23);
    assert !Outside(rs, 9) && !Outside(rs, 23);
  }
}
