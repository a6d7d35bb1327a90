# ractive-load core, modelled in Dafny

This project models the string and integer processing at the heart of the
ractive-load component loader (`dist/ractive-load.es.js`):

- **Base64 VLQ encoding** (`encodeInteger`, `encode`, the alphabet table).
  This is the integer encoding of the "mappings" field of Source Map
  Revision 3: zig-zag sign folding, then 5-bit digits least significant
  first, with bit 32 marking "more digits follow".
- **The `mappings` string of `generateSourceMap`.** There is one leading `;`
  per line of wrapper code (`offset`, or the deprecated `padding`). Then
  comes one group per script line. In hires mode a group has one segment
  per character; in coarse mode it has one segment per line.
- **The lexical scanner `find`.** A `State` datatype holds the closure
  variables of `find`: the current state function, the quote, the escape
  return slot, `regexEnabled`, `pfixOp`, the brace/template stack, `start`
  and the regions found so far. A step function is folded over the script.
  The scanner reports string, line-comment, block-comment, regex,
  template-chunk and template-end regions. A `}` that pops an empty stack
  leaves no state, and the next character then throws.
- **Division or regex after `/`.** This is the `keywords`, `punctuators`
  and `ambiguous` suffix tests plus `tokenClosesExpression`. That function
  walks backwards over the erased prefix to the matching `(` and checks
  for a preceding `if` or `while`.
- **`_erase`, `erasers` and `spaces`**, which blank the regions out while
  keeping the length.
- **The region filter of `match`.** Regex matching is abstracted away: a
  pattern is given by the list of matches `exec` would return, in order.
  The filter also yields the deduplicated `require(...)` module list that
  `parse` builds.
- **Path and position helpers:** `resolve`, `getName`, `getLocation`
  (1-based line) and `getLinePosition` (0-based line).

Every operation is a pure function. Each one has a partner it is proved
against:

- The encoder is checked against an independent VLQ decoder.
- The mappings string is checked against an independent Revision 3 reader.
  That reader resolves every segment to an absolute source line and column.
- The scanner is checked against the region invariants it keeps.
- `_erase` is checked against a per-character description of the result.
- `match` is checked against a plain filter.
- The module list is checked against set membership and first-seen order.
- `resolve`'s segment loop is checked against its laws over all inputs:
  plain segments are pushed, `.` is skipped, `..` pops (or does nothing
  at the root), and the first empty segment ends it.
- `getName` is checked against the text after the last `/`, cut at its
  last `.`.
- `getLinePosition` is checked against `getLocation`.

Files: `wrappers.dfy` (Option/Result), `text.dfy` (JavaScript `split`,
`join`, `slice`, `indexOf`, `\s`, `\w`), `vlq.dfy`, `sourcemap.dfy`,
`positions.dfy`, `regions.dfy`, `eraser.dfy`, `slash.dfy`, `scanner.dfy`,
`matcher.dfy`, `paths.dfy`, and `examples.dfy` (whole scans of small
scripts).

### Behaviour of the code worth knowing

- The hires continuation segment `,CAAC` is `encode([1, 0, 0, 1])`. Each
  continuation segment advances both the generated column and the source
  column by one.
- `pfixOp` is kept while it is set and the character is a non-word
  character. Any other character recomputes it from that character and
  the one before it (`++` or `--`).
- Only block comments keep their newlines when erased. A string or
  template literal with a raw newline is erased to spaces there, so the
  line structure is not kept.
- For the script `var s = '/x/'; var y = /ab/;` and a pattern matching
  slash-delimited words, `match` reports no match at all. The real regex
  literal is itself a masked region, and a match at a region's start (or
  end) is rejected (`Examples.QuotedSlashesNoMatch`).
- After a `/` that divides, the slash state consumes the next character
  without handing it back to the base state. `Examples.GroupThenSlashDivides`
  shows this on `(a+b) /x/ 2`: both slashes divide and no region is found.
- Template chunks do not overlap their neighbours. A chunk ends at `${`,
  and the next template region starts at the `}` that pops back into the
  template. So every region list the scanner returns is strictly ordered
  (`Scanner.Find`).
- A construct still open at the end of input (a string, a comment, a
  regular expression or a template literal) adds no region. When the
  loop ends it hands back the regions found so far, whatever state it is
  in. A region is pushed only when its closing delimiter is read. The
  lemmas state this for the following rests of the input:
  - a string with no quote and no backslash left;
  - a line comment with no newline left;
  - a block comment with no `*/` left;
  - a regular expression with no `/` left;
  - a template with no backquote and no `${` left.

  An escaped quote or a slash inside a class running out at the end
  (`'a\'`, `/[/]`) is outside these statements.

## Model

| member | source | states |
|---|---|---|
| Vlq.AlphabetTable | dist/ractive-load.es.js:6-9 | the lookup table maps each 6-bit value to the standard base64 digit of that value |
| Vlq.EncodeInteger | dist/ractive-load.es.js:26-47 | the encoding is at least one base64 digit; exactly the digits before the last have bit 32 set |
| Vlq.DecodeEncodeInteger | dist/ractive-load.es.js:26-47 | a standard VLQ decoder reads back the encoded integer and leaves whatever follows untouched (zig-zag folding undone) |
| Vlq.Encode | dist/ractive-load.es.js:11-24 | every character of an array's encoding is a base64 digit, at least one per element |
| Vlq.EncodeAppend | dist/ractive-load.es.js:17-20 | encoding a concatenation is concatenating the encodings, with no separator |
| Vlq.DecodeEncode | dist/ractive-load.es.js:11-47 | round trip: decoding the encoding of any integer array gives that array back |
| Vlq.KnownEncodings | dist/ractive-load.es.js:26-47 | encode(0) is "A", encode(-1) is "D", [0,0,1,0] is "AACA" and [1,0,0,1] is "CAAC" |
| SourceMaps.GenerateMappings | dist/ractive-load.es.js:93-147 | without a script start the mappings are empty; otherwise they hold offset (or padding) plus newline-count semicolons |
| SourceMaps.MappingsShape | dist/ractive-load.es.js:102-147 | one `;` per leading empty line and one between consecutive script lines, in both modes |
| SourceMaps.HiresLineSerializes | dist/ractive-load.es.js:118-124 | a hires line is the segment [0,0,lineOffset,-previousLineEnd] followed by max(0, len-1) segments [1,0,0,1] |
| SourceMaps.MappingsParse | dist/ractive-load.es.js:102-147 | a Revision 3 reader parses the mappings into the groups the generator meant: empty leading groups, then one per script line |
| SourceMaps.DecodedMappings | dist/ractive-load.es.js:112-145 | read back, hires line i maps character j to source line start.line+i at consecutive columns; coarse line i maps to its line start |
| SourceMaps.FirstLineOffByOne | dist/ractive-load.es.js:126-128 | as written, when the first script line is non-empty, the second line's first character maps to source column -1 |
| SourceMaps.CorrectedLinesStartAtZero | dist/ractive-load.es.js:126-128 | with previousLineEnd after line 0 set to the last mapped column, every later line starts at source column 0 |
| SourceMaps.SmallestCase | dist/ractive-load.es.js:112-131 | the script "a\nb" at 0:0 gives "AAAA;AACD" as written |
| SourceMaps.SmallestCaseCorrected | dist/ractive-load.es.js:112-131 | with the correction the same script gives "AAAA;AACA" |
| Positions.GetLocation | dist/ractive-load.es.js:318-334 | defined exactly up to the end of the source; line is 1 + newlines before the index, column is the distance from the line start |
| Positions.LinePositionMatchesLocation | dist/ractive-load.es.js:622-640 | getLinePosition over the source's lines gives the 0-based line and the column of getLocation |
| Regions.AppendRegion | dist/ractive-load.es.js:392 | pushing a well-formed region that starts after the last one keeps the list ordered and valid |
| Eraser.Spaces | dist/ractive-load.es.js:539-543 | exactly count characters, all spaces |
| Eraser.BlankLinesSpec | dist/ractive-load.es.js:548 | the block-comment eraser keeps each newline and turns every other character into a space |
| Eraser.EraseChunkSpec | dist/ractive-load.es.js:545-552 | each eraser returns a string as long as the region, keeping exactly the delimiters of its kind |
| Eraser.EraseSpec | dist/ractive-load.es.js:554-568 | _erase keeps the length and every character outside the regions, and blanks each region per its kind |
| Eraser.EraseKeepsNewlines | dist/ractive-load.es.js:545-568 | a newline outside any region, or inside a block comment, survives erasure |
| Slash.PunctuatorReduce | dist/ractive-load.es.js:337 | the punctuator test holds iff the trimmed prefix is empty, ends in one of `{(;,<>+-&\|^!~?:=/`, or ends in `[.` or `*%` |
| Slash.AmbiguousReduce | dist/ractive-load.es.js:338 | the ambiguous test holds iff the trimmed prefix ends in `}`, `)`, `++` or `--` |
| Slash.KeywordLastChar | dist/ractive-load.es.js:336 | a prefix passing the keyword test ends in the last letter of a keyword |
| Slash.ParenWalkSpec | dist/ractive-load.es.js:513-528 | the backward walk stops at the nearest `(` where the parens from there on balance, or finds none |
| Slash.VerdictAt | dist/ractive-load.es.js:510-533 | for a trailing paren group, the verdict is decided by the two/five characters before the whitespace preceding index p-1 |
| Slash.ConditionDoesNotClose | dist/ractive-load.es.js:530-533 | `if` or `while`, whitespace, then a paren group: the group does not close an expression |
| Slash.ConditionWithoutSpaceCloses | dist/ractive-load.es.js:516-532 | as written, `if(` with no space is taken to close an expression |
| Slash.FixedConditionDoesNotClose | dist/ractive-load.es.js:530-532 | with the walk stopping at the `(`, `if`/`while` followed by any whitespace (or none) and a group never closes an expression |
| Slash.ConditionAllowsRegex | dist/ractive-load.es.js:352-358 | after an `if (...)` or `while (...)` condition a slash starts a regex |
| Slash.OperandMeansDivision | dist/ractive-load.es.js:336-358 | after a digit, a letter no keyword ends in, `_`, `$` or `]`, a slash is a division |
| Slash.PunctuatorAllowsRegex | dist/ractive-load.es.js:337-356 | at the start, or after a punctuator, a slash allows a regex |
| Scanner.BaseStep | dist/ractive-load.es.js:351-374 | plain code enters the slash state exactly on `/`, recording whether the prefix allows a regex |
| Scanner.RegexStep | dist/ractive-load.es.js:383-398 | inside a regex the invariant is kept and at most one region is added |
| Scanner.StringStep | dist/ractive-load.es.js:406-419 | inside a string the invariant is kept and at most one region is added |
| Scanner.TemplateStep | dist/ractive-load.es.js:425-440 | inside a template the invariant and the stack are kept, at most one region added |
| Scanner.DollarStep | dist/ractive-load.es.js:442-454 | after `$` in a template the invariant is kept and at most one region is added |
| Scanner.LineCommentStep | dist/ractive-load.es.js:456-467 | a line comment never takes in a newline; it closes before it |
| Scanner.BlockEndStep | dist/ractive-load.es.js:469-486 | a block comment closes only on `*/` and keeps the invariant |
| Scanner.Step | dist/ractive-load.es.js:488-502 | each character keeps the scan invariant and adds at most one region after the existing ones |
| Scanner.RunResult | dist/ractive-load.es.js:488-504 | the loop's regions are valid and extend the ones found before; an error points just past a `}` |
| Scanner.Find | dist/ractive-load.es.js:340-505 | regions are well formed, delimited as typed and in order; an error reports the index after a `}` with its line and column |
| Scanner.RunSplit | dist/ractive-load.es.js:488-502 | scanning in two legs gives the same result as scanning in one |
| Scanner.UnmatchedBraceThrows | dist/ractive-load.es.js:367-499 | a `}` popping an empty stack makes the next character throw |
| Scanner.PlainCodeHasNoRegions | dist/ractive-load.es.js:351-374 | code without slashes, quotes, backquotes or braces has no regions |
| Scanner.UnterminatedStringEmitsNothing | dist/ractive-load.es.js:406-419 | a string still open at the end of input adds no region |
| Scanner.OpenLineCommentRunsOut | dist/ractive-load.es.js:456-467 | a line comment running to the end of input adds no region |
| Scanner.OpenBlockCommentRunsOut | dist/ractive-load.es.js:469-486 | a block comment with no `*/` before the end of input (no `/` right after a pending `*`) adds no region |
| Scanner.UnterminatedCommentEmitsNothing | dist/ractive-load.es.js:352-486 | a block comment opened in plain code and never closed leaves the scan with exactly the regions found before it |
| Scanner.OpenRegexRunsOut | dist/ractive-load.es.js:383-404 | a regular expression with no `/` left in the input, in its body, a class or an escape, adds no region |
| Scanner.OpenTemplateRunsOut | dist/ractive-load.es.js:421-454 | a template literal with no backquote and no `{` right after a `$` left in the input, in its text, after a `$` or in an escape, adds no region |
| Scanner.SlashDecision | dist/ractive-load.es.js:352-381 | after `/` and a plain character, a regex opens iff the prefix allows one and no prefix `++`/`--` is pending |
| Scanner.DivisionAfterOperand | dist/ractive-load.es.js:376-381 | after an operand a slash divides and plain code resumes |
| Scanner.RegexAfterPunctuator | dist/ractive-load.es.js:376-381 | after a punctuator a slash opens a regex unless pfixOp is set |
| Examples.IfRegexFound | dist/ractive-load.es.js:352-398 | `if (a) /x/.test(b)` yields exactly one regex region with outer "/x/" |
| Examples.GroupThenSlashDivides | dist/ractive-load.es.js:352-381 | `(a+b) /x/ 2` yields no region: both slashes divide |
| Examples.QuotedSlashesRegions | dist/ractive-load.es.js:351-419 | `var s = '/x/'; var y = /ab/;` yields the string region 8..13 and the regex region 23..27 |
| Examples.QuotedSlashesNoMatch | dist/ractive-load.es.js:581-609 | on that script, candidate matches at 9 and 23 are both rejected |
| Examples.StrayBrace | dist/ractive-load.es.js:367-498 | `}x` throws at index 1, line 1, column 1 |
| Examples.NumbersDivide | dist/ractive-load.es.js:356-380 | `1/2/3` has no region |
| Matcher.Advance | dist/ractive-load.es.js:593-601 | the cursor moves exactly past the regions that end before the match |
| Matcher.AcceptIffOutside | dist/ractive-load.es.js:593-604 | after the cursor moves, a match is accepted iff no region has start <= index <= end |
| Matcher.MatchFrom | dist/ractive-load.es.js:590-608 | the callbacks fire on candidates only, and at most once for a non-global pattern |
| Matcher.MatchFromFilter | dist/ractive-load.es.js:581-609 | for ascending candidates the cursor loop reports exactly the outside candidates (the first one if not global) |
| Matcher.Match | dist/ractive-load.es.js:581-609 | match fails iff find does; otherwise callbacks fire in increasing order for exactly the candidates outside every region |
| Matcher.DedupSpec | dist/ractive-load.es.js:736-739 | the module list has no duplicates, holds every required name, and keeps first-seen order |
| Matcher.RequireModules | dist/ractive-load.es.js:736-739 | the modules are exactly the names of `require` calls outside every region, each once |
| Paths.Resolve | dist/ractive-load.es.js:864-869 | an empty base or a path starting with `/` is returned unchanged |
| Paths.ApplyPlain | dist/ractive-load.es.js:880-886 | plain segments are pushed in order |
| Paths.DotSkipped | dist/ractive-load.es.js:880-886 | for every base and every rest of the path, a `.` segment leaves the result as if it were absent |
| Paths.DotDotPops | dist/ractive-load.es.js:880-886 | for every base and every rest of the path, a `..` segment removes the last part pushed so far |
| Paths.DotDotAtRoot | dist/ractive-load.es.js:880-886 | a `..` with no part left is skipped, as `pop()` on an empty array is |
| Paths.ResolveDotPrefix | dist/ractive-load.es.js:864-889 | against a non-empty base, `./rel` resolves like `rel` for any `rel` not starting with `/` |
| Paths.ApplyAppend | dist/ractive-load.es.js:880-886 | the segment loop composes: a run of non-empty segments followed by more segments is the second leg applied to the first leg's result |
| Paths.ApplyStopsAtEmpty | dist/ractive-load.es.js:880 | everything after the first empty segment is ignored |
| Paths.ApplySegments | dist/ractive-load.es.js:876-886 | every resulting segment comes from the base or is a plain segment of the relative path |
| Paths.ResolveSibling | dist/ractive-load.es.js:864-889 | `rel` against `dir/name` resolves to `dir/rel` |
| Paths.ResolveParent | dist/ractive-load.es.js:864-889 | `../rel` against `dir/sub/name` resolves to `dir/rel` |
| Paths.ResolveBare | dist/ractive-load.es.js:864-889 | against a base with no `/`, a plain relative path resolves to itself |
| Paths.GetNameSpec | dist/ractive-load.es.js:159-167 | the name is the text after the last `/`, cut at its last `.` when there is one |
| Paths.GetNameOfFile | dist/ractive-load.es.js:159-167 | `dir/name.ext` has name `name` |

## Findings

| source | as written | input that shows it | evidently intended | confidence | as-written member | corrected member |
|---|---|---|---|---|---|---|
| dist/ractive-load.es.js:126-128 | after line 0, `previousLineEnd` becomes `lineEnd + scriptStart.column` | script "a\nb" at 0:0 gives "AAAA;AACD", so line 2 maps to source column -1 | `scriptStart.column + max(0, lineEnd - 1)`, the column of line 0's last segment, so that "AAAA;AACA" is produced and every later line starts at column 0 | medium; not executed | SourceMaps.FirstLineOffByOne | SourceMaps.CorrectedLinesStartAtZero |
| dist/ractive-load.es.js:523-532 | `i -= 1` after finding `(`, then whitespace is skipped from `i - 1` | `if(a) /x/.test(b)`: the group is taken to close an expression, so `/x/` is not masked | skip the whitespace right before `(`, so `if(` and `while(` are recognised, as the comment says | medium; not executed | Slash.ConditionWithoutSpaceCloses | Slash.FixedConditionDoesNotClose |

The scanner and `GenerateMappings` keep the code as written, because they
model what the loader does. `SourceMaps.CorrectedMappings` and
`Slash.ClosesExpressionFixed` are the corrected definitions.

## Left out

- Vlq.EncodeInteger: uses mathematical integers. JavaScript's 32-bit `<<`
  and `>>` overflow for |n| >= 2^30, and the loader never encodes such
  values.
- Vlq.EncodeInteger: the `=` at index 64 of the table is never produced
  (digits are below 64), so it has no counterpart.
- Scanner.Find: the diagnostic message text and the two-line snippet with
  a caret are not modelled. The error carries the index, line and column.
  When everything from the failing character on is line terminators
  (the script `"}\n"`), the code's `/.+(\n|$)/.exec(after)` is null
  and it throws a TypeError with no location instead. The model still
  returns the located error (index 1, line 1, column 1 for `"}\n"`).
- Positions.GetLocation: the thrown error is `None`.
- `match`: the regular-expression engine, `makeGlobalRegExp` and the
  callback's arguments are not modelled. A pattern is given as its
  ascending `exec` matches, and the result is the list of matches whose
  callback fires. A non-global pattern is modelled by the `global` flag.
- `parse`: only the `require` deduplication is modelled. The rest depends
  on the external template parser's tree shape, `getAttr` and the
  version warning.
- `SourceMap`, `toString`, `toUrl`, `btoa`: JSON serialisation and
  standard base64 of the whole map are foreign calls. Only the `mappings`
  string is modelled; `file`, `sources` and `sourcesContent` are copied
  fields.
- SourceMaps.GenerateMappings: the one-time `console.warn` for `padding`
  is I/O and is not modelled.
- SourceMaps.GenerateMappings: `offset` and `padding` are line counts
  (`nat`). A value of -1 makes `new Array(offset + 1).join(';')` give `""`.
  A negative or fractional value other than -1 makes `new Array` throw a
  RangeError. Neither case is modelled. A `padding` key that is present
  but `undefined` still replaces `offset` and gives no leading lines
  through `|| 0`. The model writes that case as `padding == Some(0)`.
- `get` (XHR and `fs`), `eval2`, `locateErrorUsingDataUri`,
  `locateErrorUsingModule`, `_eval`: network, file and dynamic evaluation
  I/O.
- `make`, `load`, `loadSingle`, `loadMultiple`, `loadFromLinks`,
  `ractiveRequire`, `init`, `toArray`, `getNameFromLink`: asynchronous
  orchestration, the global cache, `document` and `window`.
- Character classes: `\s` is the JavaScript whitespace class over single
  UTF-16 code units, and the `\w` of `pfixOp` is the ASCII word class.
  Surrogate pairs are not modelled.
