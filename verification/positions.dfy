/** Character index to line/column conversion: `getLocation` (1-based
    lines, used for scanner diagnostics) and `getLinePosition` (0-based
    lines, used to anchor the script inside its component file). */
module Positions {
  import opened Wrappers
  import opened Text

  /** What `getLocation` returns: a 1-based line and a 0-based column. */
  datatype Location = Location(line: nat, column: int)

  /** What `getLinePosition` returns: 0-based line and column, and the index. */
  datatype LinePosition = LinePosition(line: nat, column: int, index: nat)

  /** Where the line holding position `c` of `s` starts: just past the last
      `\n` before `c`, or 0. */
  function LineStart(s: string, c: nat): (r: nat)
    requires c <= |s|
    ensures r <= c
    ensures r == 0 || s[r - 1] == '\n'
    ensures forall k :: r <= k < c ==> s[k] != '\n'
  {
    if c == 0 then 0 else if s[c - 1] == '\n' then c else LineStart(s, c - 1)
  }

  /** The walk over the lines of `getLocation`: `rest` are the lines not yet
      passed, `i` the index of the first of them, `lineStart` where it begins. */
  function LocateIn(rest: seq<string>, i: nat, lineStart: nat, charIndex: nat): (r: Option<Location>)
    ensures r.Some? ==> i + 1 <= r.value.line <= i + |rest|
    decreases |rest|
  {
    if |rest| == 0 then None
    else
      var lineEnd := lineStart + |rest[0]| + 1;
      if lineEnd > charIndex then Some(Location(i + 1, charIndex - lineStart))
      else LocateIn(rest[1..], i + 1, lineEnd, charIndex)
  }

  /** `getLocation(source, charIndex)`: `None` where the source throws. The
      line is one more than the newlines before the index, the column the
      distance from the start of that line; it fails exactly past the end. */
  function GetLocation(source: string, charIndex: nat): (r: Option<Location>)
    ensures r.Some? <==> charIndex <= |source|
    ensures r.Some? ==> r.value.line == Count(source[..charIndex], '\n') + 1
    ensures r.Some? ==> r.value.column == charIndex - LineStart(source, charIndex)
  {
    LocateSpec(source, 0, 0, charIndex);
    assert source[..0] == "";
    LocateIn(Split(source, '\n'), 0, 0, charIndex)
  }

  lemma LineStartNoNewline(s: string, k: nat)
    requires k <= |s|
    requires '\n' !in s[..k]
    ensures LineStart(s, k) == 0
  {
    if k > 0 {
      assert s[k - 1] == s[..k][k - 1];
      assert s[..k - 1] == s[..k][..k - 1];
      LineStartNoNewline(s, k - 1);
    }
  }

  lemma {:induction false} LineStartAfter(p: string, q: string, k: nat)
    requires |p| > 0 && p[|p| - 1] == '\n'
    requires k <= |q|
    ensures LineStart(p + q, |p| + k) == |p| + LineStart(q, k)
  {
    if k > 0 {
      assert (p + q)[|p| + k - 1] == q[k - 1];
      if q[k - 1] != '\n' {
        LineStartAfter(p, q, k - 1);
      }
    }
  }

  /** What `LocateIn` computes over `Split(s)` from absolute offset `ls`, as
      a function of the text `s` itself. */
  ghost function Located(s: string, i: nat, ls: nat, c: nat): Option<Location>
  {
    if c < ls then Some(Location(i + 1, c - ls))
    else if c - ls <= |s| then
      Some(Location(i + 1 + Count(s[..c - ls], '\n'), (c - ls) - LineStart(s, c - ls)))
    else None
  }

  lemma LocateOneLine(s: string, i: nat, ls: nat, c: nat)
    requires '\n' !in s
    ensures LocateIn(Split(s, '\n'), i, ls, c) == Located(s, i, ls, c)
  {
    SplitNoSeparator(s, '\n');
    assert Split(s, '\n')[1..] == [];
    if c >= ls && c - ls <= |s| {
      assert '\n' !in s[..c - ls];
      CountAbsent(s[..c - ls], '\n');
      LineStartNoNewline(s, c - ls);
    }
  }

  lemma InFirstLine(s: string, a: string, b: string, i: nat, ls: nat, c: nat)
    requires s == a + ['\n'] + b && '\n' !in a
    requires ls <= c <= ls + |a|
    ensures Located(s, i, ls, c) == Some(Location(i + 1, c - ls))
  {
    assert s[..c - ls] == a[..c - ls];
    assert '\n' !in a[..c - ls];
    CountAbsent(s[..c - ls], '\n');
    LineStartNoNewline(s, c - ls);
  }

  lemma PastFirstLine(s: string, a: string, b: string, i: nat, ls: nat, c: nat)
    requires s == a + ['\n'] + b && '\n' !in a
    requires c > ls + |a|
    ensures Located(s, i, ls, c) == Located(b, i + 1, ls + |a| + 1, c)
  {
    var ls' := ls + |a| + 1;
    if c - ls <= |s| {
      var k := c - ls';
      assert s[..c - ls] == (a + ['\n']) + b[..k];
      CountAppend(a + ['\n'], b[..k], '\n');
      CountAppend(a, ['\n'], '\n');
      CountAbsent(a, '\n');
      assert s == (a + ['\n']) + b;
      LineStartAfter(a + ['\n'], b, k);
    }
  }

  lemma {:induction false} LocateSpec(s: string, i: nat, ls: nat, c: nat)
    ensures LocateIn(Split(s, '\n'), i, ls, c) == Located(s, i, ls, c)
    decreases |s|
  {
    if '\n' !in s {
      LocateOneLine(s, i, ls, c);
    } else {
      var a, b := SplitAtFirst(s, '\n');
      var lines := Split(s, '\n');
      assert lines[0] == a && lines[1..] == Split(b, '\n');
      if c < ls {
      } else if c <= ls + |a| {
        InFirstLine(s, a, b, i, ls, c);
      } else {
        LocateSpec(b, i + 1, ls + |a| + 1, c);
        PastFirstLine(s, a, b, i, ls, c);
      }
    }
  }

  /** The cumulative line ends of `getLinePosition`, each one past the newline. */
  function LineEnds(rest: seq<string>, lineStart: nat): (ends: seq<nat>)
    ensures |ends| == |rest|
    decreases |rest|
  {
    if |rest| == 0 then []
    else
      var lineEnd := lineStart + |rest[0]| + 1;
      [lineEnd] + LineEnds(rest[1..], lineEnd)
  }

  /** The `while ( char >= lineEnds[ line ] )` loop; past the last line the
      comparison with `undefined` is false and the loop stops. */
  function WalkLines(ends: seq<nat>, c: nat, line: nat, lineStart: nat): LinePosition
    decreases |ends|
  {
    if |ends| > 0 && c >= ends[0] then WalkLines(ends[1..], c, line + 1, ends[0])
    else LinePosition(line, c - lineStart, c)
  }

  /** `getLinePosition(lines, char)`. */
  function GetLinePosition(lines: seq<string>, c: nat): LinePosition
  {
    WalkLines(LineEnds(lines, 0), c, 0, 0)
  }

  lemma {:induction false} WalkAgrees(rest: seq<string>, i: nat, ls: nat, c: nat)
    ensures LocateIn(rest, i, ls, c).Some? ==>
      var loc := LocateIn(rest, i, ls, c).value;
      WalkLines(LineEnds(rest, ls), c, i, ls) == LinePosition(loc.line - 1, loc.column, c)
    decreases |rest|
  {
    if |rest| > 0 {
      WalkAgrees(rest[1..], i + 1, ls + |rest[0]| + 1, c);
    }
  }

  /** Both conversions agree on the lines of a source: `getLinePosition`
      over `source.split('\n')` is `getLocation` with the line made 0-based,
      for every index up to the end of the source. */
  lemma LinePositionMatchesLocation(source: string, c: nat)
    requires c <= |source|
    ensures var p := GetLinePosition(Split(source, '\n'), c);
      && p.line == Count(source[..c], '\n')
      && p.column == c - LineStart(source, c)
      && GetLocation(source, c) == Some(Location(p.line + 1, p.column))
  {
    WalkAgrees(Split(source, '\n'), 0, 0, c);
    assert GetLocation(source, c) == LocateIn(Split(source, '\n'), 0, 0, c);
  }
}
