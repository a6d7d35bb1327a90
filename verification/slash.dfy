/** Is a `/` met in plain code the start of a regular-expression literal or
    a division? The scanner asks this of the text before the slash. */
module Slash {
  import opened Wrappers
  import opened Text
  import opened Regions
  import opened Eraser

  /** The alternatives of the `keywords` pattern. */
  const Keywords: seq<string> :=
    ["case", "default", "delete", "do", "else", "in"]
    + ["instanceof", "new", "return", "throw", "typeof", "void"]

  /** The alternatives of the `punctuators` pattern, as written there (note
      `[.` and `*%`, which the pattern spells `\[\.` and `\*\%`). The
      pattern's remaining alternative `^` is `PunctuatorBefore`'s empty case. */
  const Punctuators: seq<string> :=
    ["{", "(", "[.", ";", ",", "<", ">", "<=", ">=", "==", "!=", "===", "!=="]
    + ["+", "-", "*%", "<<", ">>", ">>>", "&", "|", "^", "!", "~", "&&", "||", "?"]
    + [":", "=", "+=", "-=", "*=", "%=", "<<=", ">>=", ">>>=", "&=", "|=", "^=", "/=", "/"]

  /** The alternatives of the `ambiguous` pattern. */
  const Ambiguous: seq<string> := ["}", ")", "++", "--"]

  /** `keywords.test(s)`: a keyword, then only whitespace to the end. */
  predicate KeywordBefore(s: string)
  {
    EndsWithAny(TrimEnd(s), Keywords)
  }

  /** `punctuators.test(s)`: nothing but whitespace, or a punctuator followed
      by whitespace only. */
  predicate PunctuatorBefore(s: string)
  {
    TrimEnd(s) == "" || EndsWithAny(TrimEnd(s), Punctuators)
  }

  /** `ambiguous.test(s)`. */
  predicate AmbiguousBefore(s: string)
  {
    EndsWithAny(TrimEnd(s), Ambiguous)
  }

  /** The backward walk of `tokenClosesExpression` over the erased prefix:
      `i` is the loop variable before `i--`, `count` the closing parens
      seen minus the opening ones. Returns where the count first drops back
      to zero on an opening paren. */
  function ParenWalk(e: string, i: nat, count: int): Option<nat>
    requires i <= |e|
    decreases i
  {
    if i == 0 then None
    else
      var k := i - 1;
      var c := if e[k] == ')' then count + 1 else count;
      if e[k] == '(' && c - 1 == 0 then Some(k)
      else ParenWalk(e, k, if e[k] == '(' then c - 1 else c)
  }

  /** `while ( /\s/.test( substr[i - 1] ) ) i -= 1;` -- an index outside the
      string reads `undefined`, which is not whitespace. */
  function SkipWhitespaceBack(e: string, i: int): (r: int)
    ensures r <= i
    ensures i >= 0 ==> r >= 0
    decreases if i < 0 then 0 else i
  {
    if 1 <= i <= |e| && IsWhitespace(e[i - 1]) then SkipWhitespaceBack(e, i - 1) else i
  }

  /** `substr.slice(i - 2, i) === 'if' || substr.slice(i - 5, i) === 'while'`,
      with `i` the position the walk settled on. */
  predicate ConditionKeywordEndsAt(e: string, j: int)
  {
    JsSlice(e, j - 2, j) == "if" || JsSlice(e, j - 5, j) == "while"
  }

  /** The test `tokenClosesExpression` applies to the erased prefix `e`:
      false only when `e` ends in `)` whose parenthesised group the walk
      takes for the condition of an `if` or a `while`. */
  function ClosesExpression(e: string): bool
  {
    if EndsWith(TrimEnd(e), ")") then
      var i := match ParenWalk(e, |e|, 0) case Some(p) => p - 1 case None => -1;
      var j := SkipWhitespaceBack(e, i);
      !ConditionKeywordEndsAt(e, j)
    else true
  }

  /** `tokenClosesExpression(substr, found)`: the test above on the prefix
      with every region found so far blanked out. */
  function TokenClosesExpression(substr: string, found: seq<Region>): bool
    requires NonemptyOuter(found)
  {
    ClosesExpression(Erase(substr, found))
  }

  /** The value `regexEnabled` takes when the scanner meets a `/` in plain
      code, given the text before it and the regions found so far. */
  function RegexAllowed(prefix: string, found: seq<Region>): bool
    requires NonemptyOuter(found)
  {
    || KeywordBefore(prefix)
    || PunctuatorBefore(prefix)
    || (AmbiguousBefore(prefix) && !TokenClosesExpression(prefix, found))
  }

  // ---------------------------------------------------------------------
  // The three suffix patterns in terms of the last characters.

  /** The last character of each single-character punctuator alternative. */
  predicate PunctuatorEnd(c: char)
  {
    || c == '{' || c == '(' || c == ';' || c == ',' || c == '<' || c == '>'
    || c == '+' || c == '-' || c == '&' || c == '|' || c == '^' || c == '!'
    || c == '~' || c == '?' || c == ':' || c == '=' || c == '/'
  }

  lemma PunctuatorTable()
    ensures |Punctuators| == 41
    ensures forall k :: 0 <= k < 41 ==>
      |Punctuators[k]| > 0
      && (PunctuatorEnd(Punctuators[k][|Punctuators[k]| - 1]) || Punctuators[k] == "[." || Punctuators[k] == "*%")
  {
    var p1 := ["{", "(", "[.", ";", ",", "<", ">", "<=", ">=", "==", "!=", "===", "!=="];
    var p2 := ["+", "-", "*%", "<<", ">>", ">>>", "&", "|", "^", "!", "~", "&&", "||", "?"];
    var p3 := [":", "=", "+=", "-=", "*=", "%=", "<<=", ">>=", ">>>=", "&=", "|=", "^=", "/=", "/"];
    assert Punctuators == p1 + p2 + p3;
    assert forall k :: 0 <= k < 13 ==>
      |p1[k]| > 0 && (PunctuatorEnd(p1[k][|p1[k]| - 1]) || p1[k] == "[.");
    assert forall k :: 0 <= k < 14 ==>
      |p2[k]| > 0 && (PunctuatorEnd(p2[k][|p2[k]| - 1]) || p2[k] == "*%");
    assert forall k :: 0 <= k < 14 ==> |p3[k]| > 0 && PunctuatorEnd(p3[k][|p3[k]| - 1]);
  }

  /** What `PunctuatorTable` says of one alternative. */
  lemma PunctuatorAt(k: nat)
    requires k < |Punctuators|
    ensures |Punctuators[k]| > 0
    ensures PunctuatorEnd(Punctuators[k][|Punctuators[k]| - 1]) || Punctuators[k] == "[." || Punctuators[k] == "*%"
  {
    PunctuatorTable();
  }

  lemma PunctuatorSuffixEnd(t: string)
    requires EndsWithAny(t, Punctuators)
    ensures (|t| > 0 && PunctuatorEnd(t[|t| - 1])) || EndsWith(t, "[.") || EndsWith(t, "*%")
  {
    var k :| 0 <= k < |Punctuators| && EndsWith(t, Punctuators[k]);
    var p := Punctuators[k];
    PunctuatorAt(k);
    EndsWithLast(t, p);
  }

  /** A single-character punctuator, as an index into the alternatives. */
  lemma SingleCharPunctuator(c: char) returns (n: nat)
    requires PunctuatorEnd(c)
    ensures n < |Punctuators| && Punctuators[n] == [c]
  {
    if c == '{' { n := 0; }
    else if c == '(' { n := 1; }
    else if c == ';' { n := 3; }
    else if c == ',' { n := 4; }
    else if c == '<' { n := 5; }
    else if c == '>' { n := 6; }
    else if c == '+' { n := 13; }
    else if c == '-' { n := 14; }
    else if c == '&' { n := 19; }
    else if c == '|' { n := 20; }
    else if c == '^' { n := 21; }
    else if c == '!' { n := 22; }
    else if c == '~' { n := 23; }
    else if c == '?' { n := 26; }
    else if c == ':' { n := 27; }
    else if c == '=' { n := 28; }
    else { n := 40; }
  }

  /** The punctuator pattern is a test of the last one or two characters:
      every longer alternative ends in a single-character one, except `[.`
      and `*%`. */
  lemma PunctuatorReduce(t: string)
    ensures EndsWithAny(t, Punctuators)
      <==> (|t| > 0 && PunctuatorEnd(t[|t| - 1])) || EndsWith(t, "[.") || EndsWith(t, "*%")
  {
    if EndsWithAny(t, Punctuators) {
      PunctuatorSuffixEnd(t);
    }
    if |t| > 0 && PunctuatorEnd(t[|t| - 1]) {
      var n := SingleCharPunctuator(t[|t| - 1]);
      assert EndsWith(t, Punctuators[n]);
    }
    if EndsWith(t, "[.") {
      assert Punctuators[2] == "[.";
      assert EndsWith(t, Punctuators[2]);
    }
    if EndsWith(t, "*%") {
      assert Punctuators[15] == "*%";
      assert EndsWith(t, Punctuators[15]);
    }
  }

  /** The last letters of the keywords: `case`, `default`, `delete`, `do`,
      `else`, `in`, `instanceof`, `new`, `return`, `throw`, `typeof`, `void`. */
  predicate KeywordEnd(c: char)
  {
    c == 'e' || c == 't' || c == 'o' || c == 'n' || c == 'f' || c == 'w' || c == 'd'
  }

  /** Every keyword ends in a `KeywordEnd` letter. */
  lemma KeywordAt(k: nat)
    requires k < |Keywords|
    ensures |Keywords[k]| > 0 && KeywordEnd(Keywords[k][|Keywords[k]| - 1])
  {
    var k1 := ["case", "default", "delete", "do", "else", "in"];
    var k2 := ["instanceof", "new", "return", "throw", "typeof", "void"];
    assert Keywords == k1 + k2;
    assert forall j :: 0 <= j < 6 ==> |k1[j]| > 0 && KeywordEnd(k1[j][|k1[j]| - 1]);
    assert forall j :: 0 <= j < 6 ==> |k2[j]| > 0 && KeywordEnd(k2[j][|k2[j]| - 1]);
  }

  lemma KeywordLastChar(t: string)
    requires EndsWithAny(t, Keywords)
    ensures |t| > 0 && KeywordEnd(t[|t| - 1])
  {
    var k :| 0 <= k < |Keywords| && EndsWith(t, Keywords[k]);
    KeywordAt(k);
    EndsWithLast(t, Keywords[k]);
  }

  lemma AmbiguousReduce(t: string)
    ensures EndsWithAny(t, Ambiguous)
      <==> EndsWith(t, "}") || EndsWith(t, ")") || EndsWith(t, "++") || EndsWith(t, "--")
  {
    if EndsWithAny(t, Ambiguous) {
      var k :| 0 <= k < 4 && EndsWith(t, Ambiguous[k]);
      if k == 0 {
        assert Ambiguous[0] == "}";
      } else if k == 1 {
        assert Ambiguous[1] == ")";
      } else if k == 2 {
        assert Ambiguous[2] == "++";
      } else {
        assert Ambiguous[3] == "--";
      }
    }
    if EndsWith(t, "}") { assert EndsWith(t, Ambiguous[0]); }
    if EndsWith(t, ")") { assert EndsWith(t, Ambiguous[1]); }
    if EndsWith(t, "++") { assert EndsWith(t, Ambiguous[2]); }
    if EndsWith(t, "--") { assert EndsWith(t, Ambiguous[3]); }
  }

  // ---------------------------------------------------------------------
  // The backward paren walk.

  /** Closing parens minus opening parens in `e[q..i]`, on top of `count`. */
  function Balance(e: string, q: nat, i: nat, count: int): int
    requires q <= i <= |e|
  {
    count + Count(e[q..i], ')') - Count(e[q..i], '(')
  }

  lemma BalanceStep(e: string, q: nat, k: nat, count: int)
    requires q <= k < |e|
    ensures Balance(e, q, k + 1, count)
      == Balance(e, q, k, count + (if e[k] == ')' then 1 else 0) - (if e[k] == '(' then 1 else 0))
  {
    assert e[q..k + 1] == e[q..k] + [e[k]];
    CountAppend(e[q..k], [e[k]], ')');
    CountAppend(e[q..k], [e[k]], '(');
  }

  /** The walk stops at the nearest opening paren, going backwards from `i`,
      at which the balance of the text from there to `i` comes to zero;
      without one it runs off the front. */
  lemma {:induction false} ParenWalkSpec(e: string, i: nat, count: int)
    requires i <= |e|
    ensures match ParenWalk(e, i, count)
      case Some(p) =>
        && p < i && e[p] == '(' && Balance(e, p, i, count) == 0
        && (forall q :: p < q < i && e[q] == '(' ==> Balance(e, q, i, count) != 0)
      case None =>
        forall q :: 0 <= q < i && e[q] == '(' ==> Balance(e, q, i, count) != 0
  {
    if i > 0 {
      var k := i - 1;
      var c := if e[k] == ')' then count + 1 else count;
      var c' := if e[k] == '(' then c - 1 else c;
      BalanceStep(e, k, k, count);
      assert e[k..k] == [];
      assert Balance(e, k, i, count) == c';
      if !(e[k] == '(' && c - 1 == 0) {
        assert ParenWalk(e, i, count) == ParenWalk(e, k, c');
        ParenWalkSpec(e, k, c');
        forall q | 0 <= q < k
          ensures Balance(e, q, i, count) == Balance(e, q, k, c')
        {
          BalanceStep(e, q, k, count);
        }
      }
    }
  }

  /** Text without parens leaves the walk where it was. */
  lemma {:induction false} ParenWalkSkip(e: string, lo: nat, i: nat, count: int)
    requires lo <= i <= |e|
    requires forall k :: lo <= k < i ==> e[k] != '(' && e[k] != ')'
    ensures ParenWalk(e, i, count) == ParenWalk(e, lo, count)
  {
    if lo < i {
      ParenWalkSkip(e, lo, i - 1, count);
    }
  }

  /** Stepping back over a run of whitespace `e[lo..i]` that is not
      preceded by more whitespace lands on `lo`. */
  lemma {:induction false} SkipWhitespaceRun(e: string, lo: nat, i: nat)
    requires lo <= i <= |e|
    requires forall k :: lo <= k < i ==> IsWhitespace(e[k])
    requires lo == 0 || !IsWhitespace(e[lo - 1])
    ensures SkipWhitespaceBack(e, i) == lo
  {
    if lo < i {
      SkipWhitespaceRun(e, lo, i - 1);
    }
  }

  lemma WhitespaceTrims(a: string, w: string)
    requires forall k :: 0 <= k < |w| ==> IsWhitespace(w[k])
    requires |a| > 0 && !IsWhitespace(a[|a| - 1])
    ensures TrimEnd(a + w) == a
    decreases |w|
  {
    if |w| > 0 {
      assert (a + w)[..|a + w| - 1] == a + w[..|w| - 1];
      WhitespaceTrims(a, w[..|w| - 1]);
    } else {
      assert a + w == a;
    }
  }

  /** Trailing whitespace after a `)` is what `TrimEnd` removes. */
  lemma TrimsToClose(e: string, close: nat)
    requires close < |e| && e[close] == ')'
    requires forall k :: close < k < |e| ==> IsWhitespace(e[k])
    ensures TrimEnd(e) == e[..close + 1]
  {
    var a, w := e[..close + 1], e[close + 1..];
    assert a + w == e;
    assert a[|a| - 1] == ')';
    forall k | 0 <= k < |w|
      ensures IsWhitespace(w[k])
    {
      assert w[k] == e[close + 1 + k];
    }
    WhitespaceTrims(a, w);
  }

  /** The walk from the end skips the whitespace, counts the `)` and stops
      at the `(` of a paren-free group. */
  lemma WalkToGroup(e: string, p: nat, close: nat)
    requires p < close < |e| && e[p] == '(' && e[close] == ')'
    requires forall k :: p < k < close ==> e[k] != '(' && e[k] != ')'
    requires forall k :: close < k < |e| ==> IsWhitespace(e[k])
    ensures ParenWalk(e, |e|, 0) == Some(p)
  {
    ParenWalkSkip(e, close + 1, |e|, 0);
    assert ParenWalk(e, close + 1, 0) == ParenWalk(e, close, 1);
    ParenWalkSkip(e, p + 1, close, 1);
    assert ParenWalk(e, p + 1, 1) == Some(p);
  }

  /** A parenthesised group without inner parens, followed only by
      whitespace: the text ends in `)` and the walk stops at the `(`. */
  lemma GroupAtEnd(e: string, p: nat, close: nat)
    requires p < close < |e| && e[p] == '(' && e[close] == ')'
    requires forall k :: p < k < close ==> e[k] != '(' && e[k] != ')'
    requires forall k :: close < k < |e| ==> IsWhitespace(e[k])
    ensures TrimEnd(e) == e[..close + 1]
    ensures ParenWalk(e, |e|, 0) == Some(p)
  {
    TrimsToClose(e, close);
    WalkToGroup(e, p, close);
  }

  /** The walk's verdict once it has stopped at the `(` at `p`: the
      group closes an expression unless the word `if` or `while` ends where
      the whitespace before `p - 1` begins. */
  lemma VerdictAt(e: string, p: nat, close: nat)
    requires p < close < |e| && e[p] == '(' && e[close] == ')'
    requires forall k :: p < k < close ==> e[k] != '(' && e[k] != ')'
    requires forall k :: close < k < |e| ==> IsWhitespace(e[k])
    ensures var j := SkipWhitespaceBack(e, p - 1);
      ClosesExpression(e) == !ConditionKeywordEndsAt(e, j)
  {
    assert EndsWith(TrimEnd(e), ")") by {
      TrimsToClose(e, close);
      EndsWithChar(e[..close + 1], ')');
    }
    assert ParenWalk(e, |e|, 0) == Some(p) by {
      WalkToGroup(e, p, close);
    }
  }

  /** `kw` ends at `lo`, only whitespace follows up to the group at `p`. */
  lemma {:induction false} KeywordThenGroup(e: string, kw: string, lo: nat, p: nat, close: nat)
    requires kw == "if" || kw == "while"
    requires |kw| <= lo < p < close < |e| && e[p] == '(' && e[close] == ')'
    requires e[lo - |kw|..lo] == kw
    requires forall k :: lo <= k < p ==> IsWhitespace(e[k])
    requires forall k :: p < k < close ==> e[k] != '(' && e[k] != ')'
    requires forall k :: close < k < |e| ==> IsWhitespace(e[k])
    ensures !ClosesExpression(e)
  {
    assert SkipWhitespaceBack(e, p - 1) == lo by {
      assert e[lo - 1] == kw[|kw| - 1];
      SkipWhitespaceRun(e, lo, p - 1);
    }
    assert ConditionKeywordEndsAt(e, lo) by {
      KeywordEndsAt(e, kw, lo);
    }
    VerdictAt(e, p, close);
  }

  /** `if` or `while` ending at `lo` is what the walk's final test looks for. */
  lemma KeywordEndsAt(e: string, kw: string, lo: nat)
    requires kw == "if" || kw == "while"
    requires |kw| <= lo <= |e| && e[lo - |kw|..lo] == kw
    ensures ConditionKeywordEndsAt(e, lo)
  {
    assert JsSlice(e, lo - |kw|, lo) == kw;
  }

  /** The `if (` / `while (` exception: a paren-free condition after `if`
      or `while` and at least one space does not close an expression. */
  lemma ConditionDoesNotClose(q: string, kw: string, w: string, b: string, w2: string)
    requires kw == "if" || kw == "while"
    requires |w| > 0 && forall k :: 0 <= k < |w| ==> IsWhitespace(w[k])
    requires forall k :: 0 <= k < |b| ==> b[k] != '(' && b[k] != ')'
    requires forall k :: 0 <= k < |w2| ==> IsWhitespace(w2[k])
    ensures !ClosesExpression(q + kw + w + "(" + b + ")" + w2)
  {
    var e := q + kw + w + "(" + b + ")" + w2;
    var lo := |q| + |kw|;
    var p := lo + |w|;
    var close := p + 1 + |b|;
    assert e[lo - |kw|..lo] == kw && e[p] == '(' && e[close] == ')';
    assert forall k :: lo <= k < p ==> e[k] == w[k - lo];
    assert forall k :: p < k < close ==> e[k] == b[k - p - 1];
    assert forall k :: close < k < |e| ==> e[k] == w2[k - close - 1];
    KeywordThenGroup(e, kw, lo, p, close);
  }

  /** The `if(` case: `if` directly before the group at `p`. */
  lemma {:induction false} KeywordTouchingGroup(e: string, p: nat, close: nat)
    requires 2 <= p < close < |e| && e[p] == '(' && e[close] == ')'
    requires e[p - 2] == 'i'
    requires forall k :: p < k < close ==> e[k] != '(' && e[k] != ')'
    requires forall k :: close < k < |e| ==> IsWhitespace(e[k])
    ensures ClosesExpression(e)
  {
    VerdictAt(e, p, close);
    SkipWhitespaceRun(e, p - 1, p - 1);
    if |JsSlice(e, p - 3, p - 1)| > 0 {
      JsSliceLast(e, p - 3, p - 1);
    }
    if |JsSlice(e, p - 6, p - 1)| > 0 {
      JsSliceLast(e, p - 6, p - 1);
    }
  }

  /** Without a space between `if` and `(` the walk looks one character too
      far to the left, so the group is taken to close an expression. */
  lemma ConditionWithoutSpaceCloses(q: string, b: string, w2: string)
    requires forall k :: 0 <= k < |b| ==> b[k] != '(' && b[k] != ')'
    requires forall k :: 0 <= k < |w2| ==> IsWhitespace(w2[k])
    ensures ClosesExpression(q + "if(" + b + ")" + w2)
  {
    var e := q + "if(" + b + ")" + w2;
    var p := |q| + 2;
    var close := p + 1 + |b|;
    assert e[p - 2] == 'i' && e[p] == '(' && e[close] == ')';
    assert forall k :: p < k < close ==> e[k] == b[k - p - 1];
    assert forall k :: close < k < |e| ==> e[k] == w2[k - close - 1];
    KeywordTouchingGroup(e, p, close);
  }

  /** The test as the comment before it describes it: the whitespace
      skipped is the whitespace right before the `(` itself, so `if(` and
      `while(` count as well as `if (` and `while (`. */
  function ClosesExpressionFixed(e: string): bool
  {
    if EndsWith(TrimEnd(e), ")") then
      var i := match ParenWalk(e, |e|, 0) case Some(p) => p case None => -1;
      var j := SkipWhitespaceBack(e, i);
      !ConditionKeywordEndsAt(e, j)
    else true
  }

  lemma VerdictAtFixed(e: string, p: nat, close: nat)
    requires p < close < |e| && e[p] == '(' && e[close] == ')'
    requires forall k :: p < k < close ==> e[k] != '(' && e[k] != ')'
    requires forall k :: close < k < |e| ==> IsWhitespace(e[k])
    ensures var j := SkipWhitespaceBack(e, p);
      ClosesExpressionFixed(e) == !ConditionKeywordEndsAt(e, j)
  {
    assert EndsWith(TrimEnd(e), ")") by {
      TrimsToClose(e, close);
      EndsWithChar(e[..close + 1], ')');
    }
    assert ParenWalk(e, |e|, 0) == Some(p) by {
      WalkToGroup(e, p, close);
    }
  }

  lemma {:induction false} KeywordThenGroupFixed(e: string, kw: string, lo: nat, p: nat, close: nat)
    requires kw == "if" || kw == "while"
    requires |kw| <= lo <= p < close < |e| && e[p] == '(' && e[close] == ')'
    requires e[lo - |kw|..lo] == kw
    requires forall k :: lo <= k < p ==> IsWhitespace(e[k])
    requires forall k :: p < k < close ==> e[k] != '(' && e[k] != ')'
    requires forall k :: close < k < |e| ==> IsWhitespace(e[k])
    ensures !ClosesExpressionFixed(e)
  {
    assert SkipWhitespaceBack(e, p) == lo by {
      assert e[lo - 1] == kw[|kw| - 1];
      SkipWhitespaceRun(e, lo, p);
    }
    assert ConditionKeywordEndsAt(e, lo) by {
      KeywordEndsAt(e, kw, lo);
    }
    VerdictAtFixed(e, p, close);
  }

  /** With the fix, a paren-free condition after `if` or `while` never
      closes an expression, whatever whitespace (none included) separates
      the keyword from the `(`. */
  lemma FixedConditionDoesNotClose(q: string, kw: string, w: string, b: string, w2: string)
    requires kw == "if" || kw == "while"
    requires forall k :: 0 <= k < |w| ==> IsWhitespace(w[k])
    requires forall k :: 0 <= k < |b| ==> b[k] != '(' && b[k] != ')'
    requires forall k :: 0 <= k < |w2| ==> IsWhitespace(w2[k])
    ensures !ClosesExpressionFixed(q + kw + w + "(" + b + ")" + w2)
  {
    var e := q + kw + w + "(" + b + ")" + w2;
    var lo := |q| + |kw|;
    var p := lo + |w|;
    var close := p + 1 + |b|;
    assert e[lo - |kw|..lo] == kw && e[p] == '(' && e[close] == ')';
    assert forall k :: lo <= k < p ==> e[k] == w[k - lo];
    assert forall k :: p < k < close ==> e[k] == b[k - p - 1];
    assert forall k :: close < k < |e| ==> e[k] == w2[k - close - 1];
    KeywordThenGroupFixed(e, kw, lo, p, close);
  }

  /** Erasing with no regions changes nothing. */
  lemma EraseNothing(s: string)
    ensures Erase(s, []) == s
  {
  }

  /** After an `if`/`while` condition a slash starts a regular expression. */
  lemma ConditionAllowsRegex(q: string, kw: string, w: string, b: string, w2: string)
    requires kw == "if" || kw == "while"
    requires |w| > 0 && forall k :: 0 <= k < |w| ==> IsWhitespace(w[k])
    requires forall k :: 0 <= k < |b| ==> b[k] != '(' && b[k] != ')'
    requires forall k :: 0 <= k < |w2| ==> IsWhitespace(w2[k])
    ensures RegexAllowed(q + kw + w + "(" + b + ")" + w2, [])
  {
    var a := q + kw + w + "(" + b + ")";
    var e := a + w2;
    ConditionDoesNotClose(q, kw, w, b, w2);
    WhitespaceTrims(a, w2);
    AmbiguousReduce(TrimEnd(e));
    EraseNothing(e);
  }

  /** The last character of an operand that no pattern accepts: a digit, a
      letter no keyword ends in, `_`, `$` or `]`. */
  predicate OperandEnd(c: char)
  {
    || ('0' <= c <= '9') || ('A' <= c <= 'Z') || c == '_' || c == '$' || c == ']'
    || ('a' <= c <= 'z' && !KeywordEnd(c))
  }

  lemma OperandNotKeyword(t: string)
    requires |t| > 0 && OperandEnd(t[|t| - 1])
    ensures !EndsWithAny(t, Keywords)
  {
    if EndsWithAny(t, Keywords) {
      KeywordLastChar(t);
    }
  }

  lemma OperandNotPunctuator(t: string)
    requires |t| > 0 && OperandEnd(t[|t| - 1])
    ensures !EndsWithAny(t, Punctuators)
  {
    assert !PunctuatorEnd(t[|t| - 1]);
    assert !EndsWith(t, "[.") by {
      if EndsWith(t, "[.") { EndsWithLast(t, "[."); }
    }
    assert !EndsWith(t, "*%") by {
      if EndsWith(t, "*%") { EndsWithLast(t, "*%"); }
    }
    PunctuatorReduce(t);
  }

  lemma OperandNotAmbiguous(t: string)
    requires |t| > 0 && OperandEnd(t[|t| - 1])
    ensures !EndsWithAny(t, Ambiguous)
  {
    assert !EndsWith(t, "}") by {
      if EndsWith(t, "}") { EndsWithLast(t, "}"); }
    }
    assert !EndsWith(t, ")") by {
      if EndsWith(t, ")") { EndsWithLast(t, ")"); }
    }
    assert !EndsWith(t, "++") by {
      if EndsWith(t, "++") { EndsWithLast(t, "++"); }
    }
    assert !EndsWith(t, "--") by {
      if EndsWith(t, "--") { EndsWithLast(t, "--"); }
    }
    AmbiguousReduce(t);
  }

  /** A slash after such an operand is a division: no pattern matches. */
  lemma OperandMeansDivision(prefix: string, found: seq<Region>)
    requires NonemptyOuter(found)
    requires var t := TrimEnd(prefix); |t| > 0 && OperandEnd(t[|t| - 1])
    ensures !RegexAllowed(prefix, found)
  {
    var t := TrimEnd(prefix);
    OperandNotKeyword(t);
    OperandNotPunctuator(t);
    OperandNotAmbiguous(t);
  }

  /** A slash after a punctuator (or at the very start) begins a regular
      expression. */
  lemma PunctuatorAllowsRegex(prefix: string, found: seq<Region>)
    requires NonemptyOuter(found)
    requires var t := TrimEnd(prefix); |t| == 0 || PunctuatorEnd(t[|t| - 1])
    ensures RegexAllowed(prefix, found)
  {
    PunctuatorReduce(TrimEnd(prefix));
  }
}
