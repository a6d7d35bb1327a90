/** `find`: the character-driven state machine that walks a script once and
    reports its string literals, comments, regular-expression literals and
    template-literal pieces as regions, in the order it closes them. */
module Scanner {
  import opened Wrappers
  import opened Text
  import opened Regions
  import opened Eraser
  import opened Slash
  import opened Positions

  /** Which of `find`'s state functions is current. `Undefined` is the
      `undefined` left in `state` when `}` pops an empty stack. */
  datatype Mode =
    | InBase | InSlash | InRegex | InClass | InString | InEscape
    | InTemplate | InDollar | InLineComment | InBlockComment | InBlockEnd
    | Undefined

  /** The entries of `stack`: what a `}` hands control back to. */
  datatype Resume = ResumeBase | ResumeTemplate

  /** The closure variables of `find`. `start` is where the construct being
      read began; `escapedFrom` is the mode an escape returns to. */
  datatype State = State(
    mode: Mode,
    quote: char,
    escapedFrom: Mode,
    regexEnabled: bool,
    pfixOp: bool,
    stack: seq<Resume>,
    start: nat,
    found: seq<Region>)

  /** The state before the first character. `quote`, `escapedFrom` and
      `start` are unset there; any value will do, since each is written
      before it is read. */
  const Initial: State := State(InBase, '"', InBase, true, false, [], 0, [])

  /** `find` failing: the index of the character met with no state, and its
      line and column as `getLocation` gives them. */
  datatype ScanError = UnexpectedCharacter(index: nat, line: nat, column: int)

  // ---------------------------------------------------------------------
  // What holds of the state before character `i` is read.

  /** The construct opened at `s.start` already spans `len` characters, and
      every region found so far ends before it. */
  predicate Open(s: State, i: nat, len: nat)
  {
    LastEnd(s.found) <= s.start && s.start + len <= i
  }

  predicate TemplateOpener(c: char)
  {
    c == '`' || c == '}'
  }

  /** What mode `m` knows about the text read so far. */
  predicate ModeHolds(str: string, s: State, m: Mode, i: nat)
    requires i <= |str|
  {
    match m
    case InBase => LastEnd(s.found) <= i
    case Undefined => LastEnd(s.found) <= i && 0 < i && str[i - 1] == '}'
    case InSlash => 0 < i && s.start == i - 1 && str[i - 1] == '/' && LastEnd(s.found) <= s.start
    case InRegex => Open(s, i, 2) && str[s.start] == '/'
    case InClass => Open(s, i, 2) && str[s.start] == '/'
    case InString => Open(s, i, 1) && (s.quote == '"' || s.quote == '\'') && str[s.start] == s.quote
    case InTemplate => Open(s, i, 1) && TemplateOpener(str[s.start])
    case InDollar => Open(s, i, 2) && TemplateOpener(str[s.start]) && str[i - 1] == '$'
    case InLineComment => Open(s, i, 2) && str[s.start] == '/' && str[s.start + 1] == '/' && '\n' !in str[s.start..i]
    case InBlockComment => Open(s, i, 2) && str[s.start] == '/' && str[s.start + 1] == '*'
    case InBlockEnd => Open(s, i, 3) && str[s.start] == '/' && str[s.start + 1] == '*' && str[i - 1] == '*'
    case InEscape => false
  }

  /** The modes an escape can return to. */
  predicate Escapable(m: Mode)
  {
    m == InRegex || m == InClass || m == InString || m == InTemplate
  }

  /** An escape knows what the mode it returns to knows. */
  predicate ModeInv(str: string, s: State, m: Mode, i: nat)
    requires i <= |str|
  {
    if m == InEscape then Escapable(s.escapedFrom) && ModeHolds(str, s, s.escapedFrom, i)
    else ModeHolds(str, s, m, i)
  }

  predicate Inv(str: string, s: State, i: nat)
  {
    i <= |str| && ValidRegions(str, s.found) && ModeInv(str, s, s.mode, i)
  }

  /** `r` keeps every region of `s` and adds at most one. */
  predicate Grows(s: State, r: State)
  {
    s.found <= r.found && |r.found| <= |s.found| + 1
  }

  // ---------------------------------------------------------------------
  // The state functions.

  /** The chunk object `find` pushes for `str[start..end]`. */
  function Chunk(str: string, kind: Kind, start: nat, end: nat): Region
  {
    var outer := JsSlice(str, start, end);
    Region(kind, start, end, outer, InnerOf(kind, outer))
  }

  /** Push the region from `s.start` to `end` and return to `base`. */
  function Close(str: string, s: State, kind: Kind, end: nat): (r: State)
    requires ValidRegions(str, s.found) && LastEnd(s.found) <= s.start < end <= |str|
    requires Delimited(kind, str[s.start..end])
    ensures r.mode == InBase && r.stack == s.stack && r.pfixOp == s.pfixOp
    ensures r.found == s.found + [Chunk(str, kind, s.start, end)]
    ensures ValidRegions(str, r.found) && LastEnd(r.found) == end
  {
    var c := Chunk(str, kind, s.start, end);
    AppendRegion(str, s.found, c);
    s.(mode := InBase, found := s.found + [c])
  }

  /** `base`: plain code. */
  function BaseStep(str: string, s: State, i: nat): (r: State)
    requires Inv(str, s, i) && i < |str| && s.mode == InBase
    ensures Inv(str, r, i + 1) && r.found == s.found
    ensures r.mode == InSlash <==> str[i] == '/'
    ensures str[i] == '/' ==> r.regexEnabled == RegexAllowed(str[..i], s.found) && r.pfixOp == s.pfixOp
  {
    var c := str[i];
    if c == '/' then
      ValidNonempty(str, s.found);
      s.(mode := InSlash, start := i, regexEnabled := RegexAllowed(str[..i], s.found))
    else if c == '"' || c == '\'' then s.(mode := InString, start := i, quote := c)
    else if c == '`' then s.(mode := InTemplate, start := i)
    else if c == '{' then s.(stack := s.stack + [ResumeBase])
    else if c == '}' then
      if |s.stack| == 0 then s.(mode := Undefined, start := i)
      else
        var top := s.stack[|s.stack| - 1];
        s.(mode := if top == ResumeBase then InBase else InTemplate, start := i, stack := s.stack[..|s.stack| - 1])
    else if s.pfixOp && !IsWordChar(c) then s
    else s.(pfixOp := (c == '+' && i > 0 && str[i - 1] == '+') || (c == '-' && i > 0 && str[i - 1] == '-'))
  }

  /** `slash`: the character after a `/` met in plain code. */
  function SlashStep(str: string, s: State, i: nat): (r: State)
    requires Inv(str, s, i) && i < |str| && s.mode == InSlash
    ensures Inv(str, r, i + 1) && r.found == s.found
  {
    var c := str[i];
    if c == '/' then s.(mode := InLineComment)
    else if c == '*' then s.(mode := InBlockComment)
    else if c == '[' then s.(mode := if s.regexEnabled then InClass else InBase)
    else s.(mode := if s.regexEnabled && !s.pfixOp then InRegex else InBase)
  }

  /** `regex`: inside a regular-expression literal. */
  function RegexStep(str: string, s: State, i: nat): (r: State)
    requires Inv(str, s, i) && i < |str| && s.mode == InRegex
    ensures Inv(str, r, i + 1) && Grows(s, r)
  {
    var c := str[i];
    if c == '[' then s.(mode := InClass)
    else if c == '\\' then s.(mode := InEscape, escapedFrom := InRegex)
    else if c == '/' then Close(str, s, RegexLiteral, i + 1)
    else s
  }

  /** `regexCharacter`: inside a character class of a regular expression. */
  function ClassStep(str: string, s: State, i: nat): (r: State)
    requires Inv(str, s, i) && i < |str| && s.mode == InClass
    ensures Inv(str, r, i + 1) && r.found == s.found
  {
    var c := str[i];
    if c == ']' then s.(mode := InRegex)
    else if c == '\\' then s.(mode := InEscape, escapedFrom := InClass)
    else s
  }

  /** `string`: inside a quoted string literal. */
  function StringStep(str: string, s: State, i: nat): (r: State)
    requires Inv(str, s, i) && i < |str| && s.mode == InString
    ensures Inv(str, r, i + 1) && Grows(s, r)
  {
    var c := str[i];
    if c == '\\' then s.(mode := InEscape, escapedFrom := InString)
    else if c == s.quote then Close(str, s, StringLiteral, i + 1)
    else s
  }

  /** `templateString`: inside a template literal. */
  function TemplateStep(str: string, s: State, i: nat): (r: State)
    requires Inv(str, s, i) && i < |str| && s.mode == InTemplate
    ensures Inv(str, r, i + 1) && Grows(s, r) && r.stack == s.stack
  {
    var c := str[i];
    if c == '$' then s.(mode := InDollar)
    else if c == '\\' then s.(mode := InEscape, escapedFrom := InTemplate)
    else if c == '`' then Close(str, s, TemplateEnd, i + 1)
    else s
  }

  /** `templateStringDollar`: just after a `$` inside a template literal. */
  function DollarStep(str: string, s: State, i: nat): (r: State)
    requires Inv(str, s, i) && i < |str| && s.mode == InDollar
    ensures Inv(str, r, i + 1) && Grows(s, r)
  {
    if str[i] == '{' then
      var r := Close(str, s, TemplateChunk, i + 1);
      r.(stack := r.stack + [ResumeTemplate])
    else TemplateStep(str, s.(mode := InTemplate), i)
  }

  /** `lineComment`: the region ends before the newline that closes it. */
  function LineCommentStep(str: string, s: State, i: nat): (r: State)
    requires Inv(str, s, i) && i < |str| && s.mode == InLineComment
    ensures Inv(str, r, i + 1) && Grows(s, r)
  {
    if str[i] == '\n' then Close(str, s, LineComment, i)
    else
      assert str[s.start..i + 1] == str[s.start..i] + [str[i]];
      s
  }

  /** `blockComment`: inside a block comment. */
  function BlockStep(str: string, s: State, i: nat): (r: State)
    requires Inv(str, s, i) && i < |str| && s.mode == InBlockComment
    ensures Inv(str, r, i + 1) && r.found == s.found
  {
    if str[i] == '*' then s.(mode := InBlockEnd) else s
  }

  /** `blockCommentEnding`: just after a `*` inside a block comment; any
      other character is handed to `blockComment`. */
  function BlockEndStep(str: string, s: State, i: nat): (r: State)
    requires Inv(str, s, i) && i < |str| && s.mode == InBlockEnd
    ensures Inv(str, r, i + 1) && Grows(s, r)
  {
    if str[i] == '/' then
      Close(str, s, BlockComment, i + 1)
    else if str[i] == '*' then s
    else s.(mode := InBlockComment)
  }

  /** `state = state(str[i], i)`. */
  function Step(str: string, s: State, i: nat): (r: State)
    requires Inv(str, s, i) && i < |str| && s.mode != Undefined
    ensures Inv(str, r, i + 1) && Grows(s, r)
  {
    match s.mode
    case InBase => BaseStep(str, s, i)
    case InSlash => SlashStep(str, s, i)
    case InRegex => RegexStep(str, s, i)
    case InClass => ClassStep(str, s, i)
    case InString => StringStep(str, s, i)
    case InEscape => s.(mode := s.escapedFrom)
    case InTemplate => TemplateStep(str, s, i)
    case InDollar => DollarStep(str, s, i)
    case InLineComment => LineCommentStep(str, s, i)
    case InBlockComment => BlockStep(str, s, i)
    case InBlockEnd => BlockEndStep(str, s, i)
  }

  /** The loop of `find` from character `i` on: the regions found, or the
      index of the character that met an undefined state. */
  function Run(str: string, s: State, i: nat): (r: Result<seq<Region>, nat>)
    requires Inv(str, s, i)
    decreases |str| - i
  {
    if i == |str| then Ok(s.found)
    else if s.mode == Undefined then Err(i)
    else Run(str, Step(str, s, i), i + 1)
  }

  /** Every region `Run` reports is a well-formed region of `str`, those
      found before are kept, and an error names a character just after a
      `}`. */
  lemma {:induction false} RunResult(str: string, s: State, i: nat)
    requires Inv(str, s, i)
    decreases |str| - i
    ensures var r := Run(str, s, i);
      && (r.Ok? ==> ValidRegions(str, r.value) && s.found <= r.value)
      && (r.Err? ==> i <= r.error < |str| && 0 < r.error && str[r.error - 1] == '}')
  {
    if i < |str| && s.mode != Undefined {
      var s' := Step(str, s, i);
      RunResult(str, s', i + 1);
      var r := Run(str, s', i + 1);
      if r.Ok? {
        PrefixTrans(s.found, s'.found, r.value);
      }
    }
  }

  /** One turn of the loop of `find`. */
  lemma RunStep(str: string, s: State, i: nat)
    requires Inv(str, s, i) && i < |str| && s.mode != Undefined
    ensures Run(str, s, i) == Run(str, Step(str, s, i), i + 1)
  {
  }

  lemma PrefixTrans<T>(a: seq<T>, b: seq<T>, c: seq<T>)
    requires a <= b && b <= c
    ensures a <= c
  {
    assert a == b[..|a|] && b == c[..|b|];
  }

  /** `find(str)`. */
  function Find(str: string): (r: Result<seq<Region>, ScanError>)
    ensures r.Ok? ==> ValidRegions(str, r.value)
    ensures r.Err? ==>
      var k := r.error.index;
      && 0 < k < |str| && str[k - 1] == '}'
      && r.error.line == Count(str[..k], '\n') + 1
      && r.error.column == k - LineStart(str, k)
  {
    RunResult(str, Initial, 0);
    match Run(str, Initial, 0)
    case Ok(rs) => Ok(rs)
    case Err(k) =>
      var loc := GetLocation(str, k).value;
      Err(UnexpectedCharacter(k, loc.line, loc.column))
  }

  // ---------------------------------------------------------------------
  // The scan as a fold: the state after a prefix.

  /** The state after reading `str[i..j]` from `s`, or the first undefined
      state met on the way. */
  function Walk(str: string, s: State, i: nat, j: nat): (r: State)
    requires Inv(str, s, i) && i <= j <= |str|
    decreases j - i
    ensures r.mode != Undefined ==> Inv(str, r, j)
    ensures s.found <= r.found
  {
    if i == j || s.mode == Undefined then s
    else
      var s' := Step(str, s, i);
      var r := Walk(str, s', i + 1, j);
      PrefixTrans(s.found, s'.found, r.found);
      r
  }

  /** Scanning in two legs gives the same result as in one. */
  lemma {:induction false} RunSplit(str: string, s: State, i: nat, j: nat)
    requires Inv(str, s, i) && i <= j <= |str|
    requires Walk(str, s, i, j).mode != Undefined
    ensures Run(str, s, i) == Run(str, Walk(str, s, i, j), j)
    decreases j - i
  {
    if i < j {
      assert s.mode != Undefined;
      var s' := Step(str, s, i);
      assert Walk(str, s, i, j) == Walk(str, s', i + 1, j);
      assert Run(str, s, i) == Run(str, s', i + 1);
      RunSplit(str, s', i + 1, j);
    }
  }

  /** A `}` without an open `{` or template placeholder stops the scan: the
      next character, if there is one, is reported as unexpected. */
  lemma UnmatchedBraceThrows(str: string, k: nat)
    requires k + 1 < |str| && str[k] == '}'
    requires var s := Walk(str, Initial, 0, k); s.mode == InBase && s.stack == []
    ensures Find(str).Err? && Find(str).error.index == k + 1
  {
    RunSplit(str, Initial, 0, k);
    BraceStops(str, Walk(str, Initial, 0, k), k);
  }

  /** `}` in plain code with an empty stack leaves `state` undefined. */
  lemma BraceStops(str: string, s: State, k: nat)
    requires Inv(str, s, k) && k + 1 < |str| && str[k] == '}'
    requires s.mode == InBase && s.stack == []
    ensures Run(str, s, k) == Err(k + 1)
  {
    assert Step(str, s, k).mode == Undefined;
  }

  /** The characters that make `base` leave plain code or touch the stack. */
  predicate Special(c: char)
  {
    c == '/' || c == '"' || c == '\'' || c == '`' || c == '{' || c == '}'
  }

  /** Plain code with no slash, quote, backquote or brace leaves the scan
      where it is until the end. */
  lemma {:induction false} PlainCodeRunsOut(str: string, s: State, i: nat)
    requires Inv(str, s, i) && s.mode == InBase
    requires forall k :: i <= k < |str| ==> !Special(str[k])
    ensures Run(str, s, i) == Ok(s.found)
    decreases |str| - i
  {
    if i < |str| {
      PlainCodeRunsOut(str, Step(str, s, i), i + 1);
    }
  }

  /** Code with no slash, quote, backquote or brace has no regions. */
  lemma PlainCodeHasNoRegions(str: string)
    requires forall k :: 0 <= k < |str| ==> !Special(str[k])
    ensures Find(str) == Ok([])
  {
    PlainCodeRunsOut(str, Initial, 0);
  }

  /** A string literal still open at the end of input emits nothing. The
      rest of the input is taken free of the quote and of backslashes, so
      an escaped quote just before the end is outside this statement. */
  lemma {:induction false} OpenStringRunsOut(str: string, s: State, i: nat)
    requires Inv(str, s, i) && s.mode == InString
    requires forall k :: i <= k < |str| ==> str[k] != s.quote && str[k] != '\\'
    ensures Run(str, s, i) == Ok(s.found)
    decreases |str| - i
  {
    if i < |str| {
      OpenStringRunsOut(str, Step(str, s, i), i + 1);
    }
  }

  /** A line comment running to the end of input emits nothing. */
  lemma {:induction false} OpenLineCommentRunsOut(str: string, s: State, i: nat)
    requires Inv(str, s, i) && s.mode == InLineComment
    requires forall k :: i <= k < |str| ==> str[k] != '\n'
    ensures Run(str, s, i) == Ok(s.found)
    decreases |str| - i
  {
    if i < |str| {
      OpenLineCommentRunsOut(str, Step(str, s, i), i + 1);
    }
  }

  /** A block comment with no `*` `/` pair before the end of input (and no
      `/` right after a pending `*`) emits nothing. */
  lemma {:induction false} OpenBlockCommentRunsOut(str: string, s: State, i: nat)
    requires Inv(str, s, i) && (s.mode == InBlockComment || s.mode == InBlockEnd)
    requires s.mode == InBlockEnd && i < |str| ==> str[i] != '/'
    requires forall k :: i < k < |str| ==> !(str[k - 1] == '*' && str[k] == '/')
    ensures Run(str, s, i) == Ok(s.found)
    decreases |str| - i
  {
    if i < |str| {
      var s' := Step(str, s, i);
      assert s'.found == s.found && (s'.mode == InBlockComment || s'.mode == InBlockEnd);
      assert s'.mode == InBlockEnd ==> str[i] == '*';
      OpenBlockCommentRunsOut(str, s', i + 1);
    }
  }

  /** Inside a regular-expression literal: its body, a character class, or
      an escape out of either. */
  predicate InRegexLiteral(s: State)
  {
    || s.mode == InRegex || s.mode == InClass
    || (s.mode == InEscape && (s.escapedFrom == InRegex || s.escapedFrom == InClass))
  }

  /** A regular-expression literal with no `/` before the end of input
      emits nothing. A `/` inside a class or after a backslash that runs
      out at the end is outside this statement. */
  lemma {:induction false} OpenRegexRunsOut(str: string, s: State, i: nat)
    requires Inv(str, s, i) && InRegexLiteral(s)
    requires forall k :: i <= k < |str| ==> str[k] != '/'
    ensures Run(str, s, i) == Ok(s.found)
    decreases |str| - i
  {
    if i < |str| {
      RegexLiteralStep(str, s, i);
      OpenRegexRunsOut(str, Step(str, s, i), i + 1);
    }
  }

  /** One character other than `/` inside a regular-expression literal
      stays inside it and emits nothing. */
  lemma RegexLiteralStep(str: string, s: State, i: nat)
    requires Inv(str, s, i) && InRegexLiteral(s) && i < |str| && str[i] != '/'
    ensures Step(str, s, i).found == s.found && InRegexLiteral(Step(str, s, i))
  {
    if s.mode == InRegex {
      assert Step(str, s, i) == RegexStep(str, s, i);
    } else if s.mode == InClass {
      assert Step(str, s, i) == ClassStep(str, s, i);
    } else {
      assert Step(str, s, i) == s.(mode := s.escapedFrom);
    }
  }

  /** Inside the text of a template literal: plain, just after a `$`, or
      in an escape. */
  predicate InTemplateText(s: State)
  {
    s.mode == InTemplate || s.mode == InDollar || (s.mode == InEscape && s.escapedFrom == InTemplate)
  }

  /** From `i` on, `str` has no backquote and no `{` right after a `$`
      (counting a `$` just before `i` when `afterDollar` holds). */
  predicate NoTemplateCloser(str: string, i: nat, afterDollar: bool)
    decreases |str| - i
  {
    i >= |str| || (str[i] != '`' && !(afterDollar && str[i] == '{') && NoTemplateCloser(str, i + 1, str[i] == '$'))
  }

  /** A template literal with nothing left in the input that could close
      it or one of its chunks emits nothing. */
  lemma {:induction false} OpenTemplateRunsOut(str: string, s: State, i: nat)
    requires Inv(str, s, i) && InTemplateText(s)
    requires NoTemplateCloser(str, i, s.mode == InDollar)
    ensures Run(str, s, i) == Ok(s.found)
    decreases |str| - i
  {
    if i < |str| {
      TemplateTextStep(str, s, i);
      OpenTemplateRunsOut(str, Step(str, s, i), i + 1);
    }
  }

  /** One character of a template literal's text that closes nothing
      stays in the text and emits nothing. */
  lemma TemplateTextStep(str: string, s: State, i: nat)
    requires Inv(str, s, i) && InTemplateText(s) && i < |str|
    requires NoTemplateCloser(str, i, s.mode == InDollar)
    ensures var r := Step(str, s, i);
      r.found == s.found && InTemplateText(r) && NoTemplateCloser(str, i + 1, r.mode == InDollar)
  {
    var r := Step(str, s, i);
    if s.mode == InTemplate {
      assert r == TemplateStep(str, s, i);
    } else if s.mode == InDollar {
      assert r == TemplateStep(str, s.(mode := InTemplate), i);
    } else {
      assert r == s.(mode := s.escapedFrom);
    }
    assert r.mode == InDollar ==> str[i] == '$';
  }

  /** A quote in plain code that is never closed: the scan reports exactly
      the regions found before it. */
  lemma UnterminatedStringEmitsNothing(str: string, k: nat)
    requires k < |str| && (str[k] == '"' || str[k] == '\'')
    requires Walk(str, Initial, 0, k).mode == InBase
    requires forall j :: k < j < |str| ==> str[j] != str[k] && str[j] != '\\'
    ensures Find(str) == Ok(Walk(str, Initial, 0, k).found)
  {
    var s := Walk(str, Initial, 0, k);
    RunSplit(str, Initial, 0, k);
    assert Step(str, s, k).mode == InString && Step(str, s, k).quote == str[k];
    OpenStringRunsOut(str, Step(str, s, k), k + 1);
  }

  /** A block comment opened in plain code and never closed: the scan
      reports exactly the regions found before it. */
  lemma UnterminatedCommentEmitsNothing(str: string, k: nat)
    requires k + 1 < |str| && str[k] == '/' && str[k + 1] == '*'
    requires Walk(str, Initial, 0, k).mode == InBase
    requires forall j :: k + 2 < j < |str| ==> !(str[j - 1] == '*' && str[j] == '/')
    ensures Find(str) == Ok(Walk(str, Initial, 0, k).found)
  {
    var s := Walk(str, Initial, 0, k);
    RunSplit(str, Initial, 0, k);
    var s1 := Step(str, s, k);
    assert s1.mode == InSlash && s1.found == s.found;
    var s2 := Step(str, s1, k + 1);
    assert s2 == SlashStep(str, s1, k + 1);
    OpenBlockCommentRunsOut(str, s2, k + 2);
  }

  /** The state after a `/` in plain code and the character after it. */
  function AfterSlash(str: string, s: State, k: nat): (r: State)
    requires Inv(str, s, k) && s.mode == InBase
    requires k + 1 < |str| && str[k] == '/'
  {
    Step(str, Step(str, s, k), k + 1)
  }

  /** A `/` in plain code followed by a character other than `/`, `*` or
      `[`: a regular expression opens exactly when the prefix allows one
      and no prefix `++`/`--` is pending; otherwise plain code resumes. */
  lemma SlashDecision(str: string, s: State, k: nat)
    requires Inv(str, s, k) && s.mode == InBase
    requires k + 1 < |str| && str[k] == '/' && str[k + 1] !in "/*["
    ensures NonemptyOuter(s.found)
    ensures var r := AfterSlash(str, s, k);
      && r.found == s.found
      && (r.mode == InRegex <==> RegexAllowed(str[..k], s.found) && !s.pfixOp)
      && (r.mode != InRegex ==> r.mode == InBase)
  {
    ValidNonempty(str, s.found);
  }

  /** After a name or number a slash is a division: plain code resumes. */
  lemma DivisionAfterOperand(str: string, s: State, k: nat)
    requires Inv(str, s, k) && s.mode == InBase
    requires k + 1 < |str| && str[k] == '/' && str[k + 1] !in "/*["
    requires var t := TrimEnd(str[..k]); |t| > 0 && OperandEnd(t[|t| - 1])
    ensures AfterSlash(str, s, k).mode == InBase
  {
    SlashDecision(str, s, k);
    OperandMeansDivision(str[..k], s.found);
  }

  /** After a punctuator a slash opens a regular expression, unless a
      prefix `++` or `--` was the last operator seen. */
  lemma RegexAfterPunctuator(str: string, s: State, k: nat)
    requires Inv(str, s, k) && s.mode == InBase
    requires k + 1 < |str| && str[k] == '/' && str[k + 1] !in "/*["
    requires var t := TrimEnd(str[..k]); |t| == 0 || PunctuatorEnd(t[|t| - 1])
    ensures AfterSlash(str, s, k).mode == (if s.pfixOp then InBase else InRegex)
  {
    SlashDecision(str, s, k);
    PunctuatorAllowsRegex(str[..k], s.found);
  }
}
