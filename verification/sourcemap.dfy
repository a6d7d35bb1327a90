/** The `mappings` field `generateSourceMap` writes for a component's
    script (Source Map Revision 3): some empty lines for the code the build
    puts before the script, then one group of segments per script line,
    each segment a VLQ-encoded array [generated column, source index,
    source line, source column], every field relative to the previous
    segment (the generated column only within its line). */
module SourceMaps {
  import opened Wrappers
  import opened Text
  import opened Vlq

  /** Where the script begins inside the component file: a 0-based line
      and column, as `getLinePosition` computes them. */
  datatype Position = Position(line: nat, column: nat)

  /** The parts of a parsed component the mappings depend on. */
  datatype Definition = Definition(script: string, scriptStart: Option<Position>)

  /** `options.offset`, the deprecated `options.padding`, `options.hires`. */
  datatype Options = Options(offset: nat, padding: Option<nat>, hires: bool)

  /** A present `padding` replaces `offset`. */
  function EffectiveOffset(o: Options): nat
  {
    match o.padding
    case Some(p) => p
    case None => o.offset
  }

  function Max0(n: int): nat
  {
    if n > 0 then n else 0
  }

  function Copies<T>(x: T, n: nat): (r: seq<T>)
    ensures |r| == n
    ensures forall k :: 0 <= k < n ==> r[k] == x
  {
    if n == 0 then [] else [x] + Copies(x, n - 1)
  }

  // ---------------------------------------------------------------------
  // The mappings string, as the loader builds it.

  /** One hires line: a segment at its first character, then one `,CAAC`
      (one generated and one source column further) per further character. */
  function HiresLine(lineOffset: int, previousLineEnd: int, len: nat): string
  {
    Encode([0, 0, lineOffset, -previousLineEnd]) + Repeat(",CAAC", Max0(len - 1))
  }

  /** The value `previousLineEnd` takes after line `i` of length `len`. As
      written, line 0 yields `len + column`; `corrected` yields the column
      of that line's last segment instead, as every later line does. */
  function LineEnd(i: nat, len: nat, column: nat, corrected: bool): int
  {
    if i == 0 then (if corrected then column + Max0(len - 1) else len + column)
    else Max0(len - 1)
  }

  /** The hires groups of `lines`, the first of which is line `i`. */
  function HiresLines(lines: seq<string>, i: nat, previousLineEnd: int, start: Position, corrected: bool): (r: seq<string>)
    ensures |r| == |lines|
    decreases |lines|
  {
    if |lines| == 0 then []
    else
      var lineOffset := if i == 0 then start.line else 1;
      [HiresLine(lineOffset, previousLineEnd, |lines[0]|)]
        + HiresLines(lines[1..], i + 1, LineEnd(i, |lines[0]|, start.column, corrected), start, corrected)
  }

  /** Coarse mode: one segment per line. */
  function CoarseLine(i: nat, start: Position): string
  {
    if i == 0 then Encode([0, 0, start.line, start.column])
    else if i == 1 then Encode([0, 0, 1, -(start.column as int)])
    else "AACA"
  }

  function CoarseLines(lines: seq<string>, i: nat, start: Position): (r: seq<string>)
    ensures |r| == |lines|
    decreases |lines|
  {
    if |lines| == 0 then [] else [CoarseLine(i, start)] + CoarseLines(lines[1..], i + 1, start)
  }

  function MappingsFor(def: Definition, opts: Options, corrected: bool): string
  {
    match def.scriptStart
    case None => ""
    case Some(start) =>
      var lines := Split(def.script, '\n');
      var encoded := if opts.hires then HiresLines(lines, 0, -(start.column as int), start, corrected) else CoarseLines(lines, 0, start);
      Repeat(";", EffectiveOffset(opts)) + Join(encoded, ';')
  }

  /** `generateSourceMap(definition, options).mappings`, as written. */
  function GenerateMappings(def: Definition, opts: Options): (r: string)
    ensures def.scriptStart.None? ==> r == ""
    ensures def.scriptStart.Some? ==>
      Count(r, ';') == EffectiveOffset(opts) + Count(def.script, '\n')
  {
    MappingsShape(def, opts, false);
    MappingsFor(def, opts, false)
  }

  /** The same with `previousLineEnd` after line 0 set to the column of
      that line's last segment. */
  function CorrectedMappings(def: Definition, opts: Options): (r: string)
    ensures def.scriptStart.None? ==> r == ""
    ensures def.scriptStart.Some? ==>
      Count(r, ';') == EffectiveOffset(opts) + Count(def.script, '\n')
  {
    MappingsShape(def, opts, true);
    MappingsFor(def, opts, true)
  }

  // ---------------------------------------------------------------------
  // Segment level: what the groups hold before encoding.

  function HiresSegments(lineOffset: int, previousLineEnd: int, len: nat): seq<seq<int>>
  {
    [[0, 0, lineOffset, -previousLineEnd]] + Copies([1, 0, 0, 1], Max0(len - 1))
  }

  function HiresGroups(lines: seq<string>, i: nat, previousLineEnd: int, start: Position, corrected: bool): (r: seq<seq<seq<int>>>)
    ensures |r| == |lines|
    decreases |lines|
  {
    if |lines| == 0 then []
    else
      var lineOffset := if i == 0 then start.line else 1;
      [HiresSegments(lineOffset, previousLineEnd, |lines[0]|)]
        + HiresGroups(lines[1..], i + 1, LineEnd(i, |lines[0]|, start.column, corrected), start, corrected)
  }

  function CoarseSegment(i: nat, start: Position): seq<int>
  {
    if i == 0 then [0, 0, start.line, start.column]
    else if i == 1 then [0, 0, 1, -(start.column as int)]
    else [0, 0, 1, 0]
  }

  function CoarseGroups(lines: seq<string>, i: nat, start: Position): (r: seq<seq<seq<int>>>)
    ensures |r| == |lines|
    decreases |lines|
  {
    if |lines| == 0 then [] else [[CoarseSegment(i, start)]] + CoarseGroups(lines[1..], i + 1, start)
  }

  /** The groups of the script lines. */
  function Body(def: Definition, opts: Options, corrected: bool): (r: seq<seq<seq<int>>>)
    requires def.scriptStart.Some?
    ensures |r| == |Split(def.script, '\n')|
  {
    var start := def.scriptStart.value;
    var lines := Split(def.script, '\n');
    if opts.hires then HiresGroups(lines, 0, -(start.column as int), start, corrected) else CoarseGroups(lines, 0, start)
  }

  /** All groups, the empty leading ones included. */
  function Groups(def: Definition, opts: Options, corrected: bool): seq<seq<seq<int>>>
    requires def.scriptStart.Some?
  {
    Copies([], EffectiveOffset(opts)) + Body(def, opts, corrected)
  }

  // ---------------------------------------------------------------------
  // A Revision 3 reader, independent of the writer above.

  function SerializeSegments(segs: seq<seq<int>>): string
  {
    if |segs| == 0 then "" else if |segs| == 1 then Encode(segs[0])
    else Encode(segs[0]) + "," + SerializeSegments(segs[1..])
  }

  function Serialize(groups: seq<seq<seq<int>>>): string
  {
    if |groups| == 0 then "" else if |groups| == 1 then SerializeSegments(groups[0])
    else SerializeSegments(groups[0]) + ";" + Serialize(groups[1..])
  }

  function ParseSegments(parts: seq<string>): Option<seq<seq<int>>>
  {
    if |parts| == 0 then Some([])
    else match (Decode(parts[0]), ParseSegments(parts[1..]))
      case (Some(seg), Some(rest)) => Some([seg] + rest)
      case _ => None
  }

  /** A group: empty, or segments separated by commas. */
  function ParseGroup(g: string): Option<seq<seq<int>>>
  {
    if g == "" then Some([]) else ParseSegments(Split(g, ','))
  }

  function ParseGroups(gs: seq<string>): Option<seq<seq<seq<int>>>>
  {
    if |gs| == 0 then Some([])
    else match (ParseGroup(gs[0]), ParseGroups(gs[1..]))
      case (Some(g), Some(rest)) => Some([g] + rest)
      case _ => None
  }

  /** The groups of a mappings string, one per generated line. */
  function Parse(mappings: string): Option<seq<seq<seq<int>>>>
  {
    ParseGroups(Split(mappings, ';'))
  }

  /** An absolute mapping: generated column, source index, source line and
      source column. */
  datatype Mapped = Mapped(generatedColumn: int, source: int, line: int, column: int)

  /** The source fields carried from segment to segment. */
  datatype Cursor = Cursor(source: int, line: int, column: int)

  /** Resolves the segments of one line. A segment of fewer than four fields
      has no source position and leaves the cursor as it is. */
  function ResolveGroup(segs: seq<seq<int>>, gen: int, c: Cursor): (r: (seq<Mapped>, Cursor))
    ensures |r.0| == |segs|
  {
    if |segs| == 0 then ([], c)
    else
      var f := segs[0];
      var g := gen + (if |f| >= 1 then f[0] else 0);
      var c' := if |f| >= 4 then Cursor(c.source + f[1], c.line + f[2], c.column + f[3]) else c;
      var rest := ResolveGroup(segs[1..], g, c');
      ([Mapped(g, c'.source, c'.line, c'.column)] + rest.0, rest.1)
  }

  /** Resolves every line: the generated column starts again at 0 on each,
      the source fields carry on. */
  function Resolve(groups: seq<seq<seq<int>>>, c: Cursor): (r: seq<seq<Mapped>>)
    ensures |r| == |groups|
  {
    if |groups| == 0 then []
    else
      var first := ResolveGroup(groups[0], 0, c);
      [first.0] + Resolve(groups[1..], first.1)
  }

  // ---------------------------------------------------------------------
  // Writer and reader agree.

  lemma CommaFree(s: string)
    requires forall k :: 0 <= k < |s| ==> IsDigit(s[k])
    ensures ',' !in s && ';' !in s
  {
    assert !IsDigit(',') && !IsDigit(';');
  }

  /** The segment list as its comma-separated encodings. */
  function EncodeAll(segs: seq<seq<int>>): (r: seq<string>)
    ensures |r| == |segs|
    ensures forall k :: 0 <= k < |segs| ==> r[k] == Encode(segs[k])
  {
    if |segs| == 0 then [] else [Encode(segs[0])] + EncodeAll(segs[1..])
  }

  lemma {:induction false} SerializeSegmentsJoin(segs: seq<seq<int>>)
    ensures SerializeSegments(segs) == Join(EncodeAll(segs), ',')
  {
    if |segs| > 1 {
      SerializeSegmentsJoin(segs[1..]);
      assert EncodeAll(segs)[1..] == EncodeAll(segs[1..]);
    }
  }

  /** A group of non-empty segments reads back as itself. */
  lemma {:induction false} ParseSerializeGroup(segs: seq<seq<int>>)
    requires forall k :: 0 <= k < |segs| ==> |segs[k]| > 0
    ensures ParseGroup(SerializeSegments(segs)) == Some(segs)
    ensures ';' !in SerializeSegments(segs)
  {
    var parts := EncodeAll(segs);
    SerializeSegmentsJoin(segs);
    forall k | 0 <= k < |parts| ensures ',' !in parts[k] && ';' !in parts[k] {
      CommaFree(parts[k]);
    }
    if |segs| == 0 {
    } else {
      SplitJoin(parts, ',');
      ParseEncodings(segs);
      assert |Encode(segs[0])| > 0;
      JoinNonempty(parts, ',');
      JoinFree(parts, ',', ';');
    }
  }

  lemma {:induction false} JoinNonempty(parts: seq<string>, sep: char)
    requires |parts| > 0 && |parts[0]| > 0
    ensures Join(parts, sep) != ""
  {
  }

  lemma {:induction false} JoinFree(parts: seq<string>, sep: char, c: char)
    requires c != sep
    requires forall k :: 0 <= k < |parts| ==> c !in parts[k]
    ensures c !in Join(parts, sep)
  {
    if |parts| > 1 {
      JoinFree(parts[1..], sep, c);
    }
  }

  lemma {:induction false} ParseEncodings(segs: seq<seq<int>>)
    ensures ParseSegments(EncodeAll(segs)) == Some(segs)
  {
    if |segs| > 0 {
      DecodeEncode(segs[0]);
      ParseEncodings(segs[1..]);
      assert EncodeAll(segs)[1..] == EncodeAll(segs[1..]);
      assert [segs[0]] + segs[1..] == segs;
    }
  }

  /** The group strings of a list of groups. */
  function SerializeAll(groups: seq<seq<seq<int>>>): (r: seq<string>)
    ensures |r| == |groups|
    ensures forall k :: 0 <= k < |groups| ==> r[k] == SerializeSegments(groups[k])
  {
    if |groups| == 0 then [] else [SerializeSegments(groups[0])] + SerializeAll(groups[1..])
  }

  lemma {:induction false} SerializeJoin(groups: seq<seq<seq<int>>>)
    ensures Serialize(groups) == Join(SerializeAll(groups), ';')
  {
    if |groups| > 1 {
      SerializeJoin(groups[1..]);
      assert SerializeAll(groups)[1..] == SerializeAll(groups[1..]);
    }
  }

  lemma {:induction false} ParseGroupsAll(groups: seq<seq<seq<int>>>)
    requires forall g, k :: 0 <= g < |groups| && 0 <= k < |groups[g]| ==> |groups[g][k]| > 0
    ensures ParseGroups(SerializeAll(groups)) == Some(groups)
  {
    if |groups| > 0 {
      ParseSerializeGroup(groups[0]);
      ParseGroupsAll(groups[1..]);
      assert SerializeAll(groups)[1..] == SerializeAll(groups[1..]);
      assert [groups[0]] + groups[1..] == groups;
    }
  }

  /** Round trip: at least one group, no empty segment. */
  lemma ParseSerialize(groups: seq<seq<seq<int>>>)
    requires |groups| > 0
    requires forall g, k :: 0 <= g < |groups| && 0 <= k < |groups[g]| ==> |groups[g][k]| > 0
    ensures Parse(Serialize(groups)) == Some(groups)
  {
    var parts := SerializeAll(groups);
    SerializeJoin(groups);
    forall g | 0 <= g < |groups| ensures ';' !in parts[g] {
      ParseSerializeGroup(groups[g]);
    }
    SplitJoin(parts, ';');
    ParseGroupsAll(groups);
  }

  // ---------------------------------------------------------------------
  // The strings the loader builds are the serialized groups.

  lemma {:induction false} RepeatJoin(a: string, b: string, n: nat)
    ensures a + Repeat("," + b, n) == Join([a] + Copies(b, n), ',')
    decreases n
  {
    if n > 0 {
      RepeatJoin(b, b, n - 1);
      assert ([a] + Copies(b, n))[1..] == [b] + Copies(b, n - 1);
    }
  }

  lemma HiresLineSerializes(lineOffset: int, previousLineEnd: int, len: nat)
    ensures HiresLine(lineOffset, previousLineEnd, len)
      == SerializeSegments(HiresSegments(lineOffset, previousLineEnd, len))
  {
    var segs := HiresSegments(lineOffset, previousLineEnd, len);
    var n := Max0(len - 1);
    KnownEncodings();
    assert segs[0] == [0, 0, lineOffset, -previousLineEnd];
    assert "," + "CAAC" == ",CAAC";
    RepeatJoin(Encode(segs[0]), "CAAC", n);
    SerializeSegmentsJoin(segs);
    var parts := EncodeAll(segs);
    assert |parts| == n + 1;
    forall k | 1 <= k <= n ensures parts[k] == Copies("CAAC", n)[k - 1] {
      assert segs[k] == Copies([1, 0, 0, 1], n)[k - 1];
    }
    assert parts == [Encode(segs[0])] + Copies("CAAC", n);
  }

  lemma {:induction false} HiresLinesSerialize(lines: seq<string>, i: nat, prev: int, start: Position, corrected: bool)
    ensures HiresLines(lines, i, prev, start, corrected) == SerializeAll(HiresGroups(lines, i, prev, start, corrected))
    decreases |lines|
  {
    if |lines| > 0 {
      var lineOffset := if i == 0 then start.line else 1;
      HiresLineSerializes(lineOffset, prev, |lines[0]|);
      HiresLinesSerialize(lines[1..], i + 1, LineEnd(i, |lines[0]|, start.column, corrected), start, corrected);
    }
  }

  lemma {:induction false} CoarseLinesSerialize(lines: seq<string>, i: nat, start: Position)
    ensures CoarseLines(lines, i, start) == SerializeAll(CoarseGroups(lines, i, start))
    decreases |lines|
  {
    if |lines| > 0 {
      KnownEncodings();
      CoarseLinesSerialize(lines[1..], i + 1, start);
    }
  }

  lemma {:induction false} LeadingEmptyGroups(n: nat, rest: seq<seq<seq<int>>>)
    requires |rest| > 0
    ensures Serialize(Copies([], n) + rest) == Repeat(";", n) + Serialize(rest)
  {
    var all: seq<seq<seq<int>>> := Copies([], n) + rest;
    if n > 0 {
      LeadingEmptyGroups(n - 1, rest);
      assert all[1..] == Copies([], n - 1) + rest;
      assert all[0] == [];
      assert SerializeSegments(all[0]) == "";
      assert Serialize(all) == "" + ";" + Serialize(all[1..]);
    } else {
      assert all == rest;
    }
  }

  /** The mappings string is the serialization of `Groups`. */
  lemma MappingsSerialize(def: Definition, opts: Options, corrected: bool)
    requires def.scriptStart.Some?
    ensures MappingsFor(def, opts, corrected) == Serialize(Groups(def, opts, corrected))
  {
    var start := def.scriptStart.value;
    var lines := Split(def.script, '\n');
    var body := if opts.hires then HiresGroups(lines, 0, -(start.column as int), start, corrected) else CoarseGroups(lines, 0, start);
    if opts.hires {
      HiresLinesSerialize(lines, 0, -(start.column as int), start, corrected);
    } else {
      CoarseLinesSerialize(lines, 0, start);
    }
    SerializeJoin(body);
    LeadingEmptyGroups(EffectiveOffset(opts), body);
  }

  /** Every segment has four fields: each carries a source position. */
  predicate FourFields(gs: seq<seq<seq<int>>>)
  {
    forall g, k :: 0 <= g < |gs| && 0 <= k < |gs[g]| ==> |gs[g][k]| == 4
  }

  /** Every segment the loader writes has four fields. */
  lemma GroupsFourFields(def: Definition, opts: Options, corrected: bool)
    requires def.scriptStart.Some?
    ensures FourFields(Groups(def, opts, corrected))
  {
    var start := def.scriptStart.value;
    var lines := Split(def.script, '\n');
    var off := EffectiveOffset(opts);
    var body := if opts.hires then HiresGroups(lines, 0, -(start.column as int), start, corrected) else CoarseGroups(lines, 0, start);
    var gs := Groups(def, opts, corrected);
    assert gs == Copies([], off) + body;
    if opts.hires {
      HiresFourFields(lines, 0, -(start.column as int), start, corrected);
    } else {
      CoarseFourFields(lines, 0, start);
    }
    forall g, k | 0 <= g < |gs| && 0 <= k < |gs[g]| ensures |gs[g][k]| == 4 {
      if g >= off {
        assert gs[g] == body[g - off];
      }
    }
  }

  lemma HiresSegmentsFour(lineOffset: int, prev: int, len: nat)
    ensures var segs := HiresSegments(lineOffset, prev, len);
      forall k :: 0 <= k < |segs| ==> |segs[k]| == 4
  {
    var segs := HiresSegments(lineOffset, prev, len);
    forall k | 0 <= k < |segs| ensures |segs[k]| == 4 {
      if k > 0 {
        assert segs[k] == Copies([1, 0, 0, 1], Max0(len - 1))[k - 1];
      }
    }
  }

  lemma {:induction false} HiresFourFields(lines: seq<string>, i: nat, prev: int, start: Position, corrected: bool)
    ensures FourFields(HiresGroups(lines, i, prev, start, corrected))
    decreases |lines|
  {
    if |lines| > 0 {
      var gs := HiresGroups(lines, i, prev, start, corrected);
      var lineOffset := if i == 0 then start.line else 1;
      var rest := HiresGroups(lines[1..], i + 1, LineEnd(i, |lines[0]|, start.column, corrected), start, corrected);
      HiresFourFields(lines[1..], i + 1, LineEnd(i, |lines[0]|, start.column, corrected), start, corrected);
      HiresSegmentsFour(lineOffset, prev, |lines[0]|);
      assert gs[0] == HiresSegments(lineOffset, prev, |lines[0]|);
      forall g, k | 0 <= g < |gs| && 0 <= k < |gs[g]| ensures |gs[g][k]| == 4 {
        if g > 0 {
          assert gs[g] == rest[g - 1];
          assert 0 <= g - 1 < |rest| && 0 <= k < |rest[g - 1]|;
          assert |rest[g - 1][k]| == 4;
        } else {
          assert |gs[0][k]| == 4;
        }
      }
    }
  }

  lemma {:induction false} CoarseFourFields(lines: seq<string>, i: nat, start: Position)
    ensures FourFields(CoarseGroups(lines, i, start))
    decreases |lines|
  {
    if |lines| > 0 {
      var gs := CoarseGroups(lines, i, start);
      var rest := CoarseGroups(lines[1..], i + 1, start);
      CoarseFourFields(lines[1..], i + 1, start);
      assert gs[0] == [CoarseSegment(i, start)];
      forall g, k | 0 <= g < |gs| && 0 <= k < |gs[g]| ensures |gs[g][k]| == 4 {
        if g > 0 {
          assert gs[g] == rest[g - 1];
          assert 0 <= g - 1 < |rest| && 0 <= k < |rest[g - 1]|;
          assert |rest[g - 1][k]| == 4;
        } else {
          assert |gs[0][k]| == 4;
        }
      }
    }
  }

  /** The separator count: one `;` per leading empty line, one between
      consecutive script lines. */
  lemma MappingsShape(def: Definition, opts: Options, corrected: bool)
    ensures def.scriptStart.None? ==> MappingsFor(def, opts, corrected) == ""
    ensures def.scriptStart.Some? ==>
      Count(MappingsFor(def, opts, corrected), ';') == EffectiveOffset(opts) + Count(def.script, '\n')
  {
    if def.scriptStart.Some? {
      var gs := Groups(def, opts, corrected);
      var lines := Split(def.script, '\n');
      var body := gs[EffectiveOffset(opts)..];
      MappingsSerialize(def, opts, corrected);
      GroupsFourFields(def, opts, corrected);
      var parts := SerializeAll(gs);
      SerializeJoin(gs);
      forall g | 0 <= g < |gs| ensures ';' !in parts[g] {
        ParseSerializeGroup(gs[g]);
      }
      CountJoin(parts, ';');
    }
  }

  // ---------------------------------------------------------------------
  // Where each segment points.

  lemma {:induction false} ResolveSteps(n: nat, gen: int, c: Cursor)
    ensures var r := ResolveGroup(Copies([1, 0, 0, 1], n), gen, c);
      && (forall k :: 0 <= k < n ==> r.0[k] == Mapped(gen + 1 + k, c.source, c.line, c.column + 1 + k))
      && r.1 == Cursor(c.source, c.line, c.column + n)
  {
    if n > 0 {
      ResolveSteps(n - 1, gen + 1, Cursor(c.source, c.line, c.column + 1));
      assert Copies([1, 0, 0, 1], n)[1..] == Copies([1, 0, 0, 1], n - 1);
    }
  }

  /** One hires line: the segments point at consecutive source columns of
      one source line, starting `previousLineEnd` columns left of where the
      previous line left the cursor. */
  lemma ResolveHiresLine(lineOffset: int, prev: int, len: nat, c: Cursor)
    ensures var r := ResolveGroup(HiresSegments(lineOffset, prev, len), 0, c);
      && |r.0| == 1 + Max0(len - 1)
      && (forall j :: 0 <= j < |r.0| ==> r.0[j] == Mapped(j, c.source, c.line + lineOffset, c.column - prev + j))
      && r.1 == Cursor(c.source, c.line + lineOffset, c.column - prev + Max0(len - 1))
  {
    var segs := HiresSegments(lineOffset, prev, len);
    var n := Max0(len - 1);
    var c1 := Cursor(c.source, c.line + lineOffset, c.column - prev);
    var tail := ResolveGroup(Copies([1, 0, 0, 1], n), 0, c1);
    ResolveSteps(n, 0, c1);
    var r := ResolveGroup(segs, 0, c);
    assert r == ([Mapped(0, c1.source, c1.line, c1.column)] + tail.0, tail.1) by {
      assert segs[0] == [0, 0, lineOffset, -prev];
      assert segs[1..] == Copies([1, 0, 0, 1], n);
    }
    forall j | 0 <= j < |r.0|
      ensures r.0[j] == Mapped(j, c.source, c.line + lineOffset, c.column - prev + j)
    {
      if j > 0 {
        assert r.0[j] == tail.0[j - 1];
      }
    }
  }

  /** The segments of a line of length `len` map it character by character
      to columns `column`, `column + 1`, ... of source line `line`. */
  predicate LineMapped(ms: seq<Mapped>, len: nat, line: int, column: int)
  {
    && |ms| == 1 + Max0(len - 1)
    && forall j :: 0 <= j < |ms| ==> ms[j] == Mapped(j, 0, line, column + j)
  }

  /** The first column of every line after the first. */
  function LaterColumn(firstLen: nat, corrected: bool): int
  {
    if corrected || firstLen == 0 then 0 else -1
  }

  lemma {:induction false} ResolveHiresLines(
    lines: seq<string>, i: nat, prev: int, start: Position, corrected: bool, later: int, c: Cursor)
    requires c.source == 0
    requires i == 0 ==> c.line == 0 && c.column - prev == start.column && (|lines| > 0 ==> later == LaterColumn(|lines[0]|, corrected))
    requires i > 0 ==> c.line == start.line + i - 1 && c.column - prev == later
    ensures forall k :: 0 <= k < |lines| ==>
      LineMapped(Resolve(HiresGroups(lines, i, prev, start, corrected), c)[k],
        |lines[k]|, start.line + i + k, if i + k == 0 then start.column else later)
    decreases |lines|
  {
    if |lines| > 0 {
      var lineOffset := if i == 0 then start.line else 1;
      var len := |lines[0]|;
      var gs := HiresGroups(lines, i, prev, start, corrected);
      ResolveHiresLine(lineOffset, prev, len, c);
      var first := ResolveGroup(gs[0], 0, c);
      var prev' := LineEnd(i, len, start.column, corrected);
      ResolveHiresLines(lines[1..], i + 1, prev', start, corrected, later, first.1);
      var ms := Resolve(gs, c);
      assert ms[1..] == Resolve(HiresGroups(lines[1..], i + 1, prev', start, corrected), first.1);
    }
  }

  lemma ResolveSingle(f: seq<int>, gen: int, c: Cursor)
    requires |f| == 4
    ensures ResolveGroup([f], gen, c)
      == ([Mapped(gen + f[0], c.source + f[1], c.line + f[2], c.column + f[3])],
          Cursor(c.source + f[1], c.line + f[2], c.column + f[3]))
  {
    var c' := Cursor(c.source + f[1], c.line + f[2], c.column + f[3]);
    assert [f][1..] == [];
    assert ResolveGroup([f][1..], gen + f[0], c') == ([], c');
    assert [Mapped(gen + f[0], c'.source, c'.line, c'.column)] + [] == [Mapped(gen + f[0], c'.source, c'.line, c'.column)];
  }

  lemma {:induction false} ResolveCoarseLines(lines: seq<string>, i: nat, start: Position, c: Cursor)
    requires c.source == 0
    requires i == 0 ==> c == Cursor(0, 0, 0)
    requires i > 0 ==> c.line == start.line + i - 1 && c.column == (if i == 1 then start.column else 0)
    ensures forall k :: 0 <= k < |lines| ==>
      Resolve(CoarseGroups(lines, i, start), c)[k]
        == [Mapped(0, 0, start.line + i + k, if i + k == 0 then start.column else 0)]
    decreases |lines|
  {
    if |lines| > 0 {
      var gs := CoarseGroups(lines, i, start);
      var seg := CoarseSegment(i, start);
      assert gs[0] == [seg];
      var c' := Cursor(0, start.line + i, if i == 0 then start.column else 0);
      ResolveSingle(seg, 0, c);
      assert c' == Cursor(c.source + seg[1], c.line + seg[2], c.column + seg[3]);
      ResolveCoarseLines(lines[1..], i + 1, start, c');
      var ms := Resolve(gs, c);
      assert ms[0] == [Mapped(0, 0, start.line + i, c'.column)];
      assert ms[1..] == Resolve(CoarseGroups(lines[1..], i + 1, start), c');
      assert CoarseGroups(lines, i, start)[1..] == CoarseGroups(lines[1..], i + 1, start);
      forall k | 0 <= k < |lines|
        ensures ms[k] == [Mapped(0, 0, start.line + i + k, if i + k == 0 then start.column else 0)]
      {
        if k > 0 {
          assert ms[k] == Resolve(CoarseGroups(lines[1..], i + 1, start), c')[k - 1];
        }
      }
    }
  }

  lemma {:induction false} ResolveEmptyGroups(n: nat, rest: seq<seq<seq<int>>>, c: Cursor)
    ensures Resolve(Copies([], n) + rest, c) == Copies([], n) + Resolve(rest, c)
  {
    if n > 0 {
      ResolveEmptyGroups(n - 1, rest, c);
      assert (Copies([], n) + rest)[1..] == Copies([], n - 1) + rest;
    } else {
      assert Copies([], n) + rest == rest;
    }
  }

  /** The mappings string reads back as `Groups`. */
  lemma MappingsParse(def: Definition, opts: Options, corrected: bool)
    requires def.scriptStart.Some?
    ensures Parse(MappingsFor(def, opts, corrected)) == Some(Groups(def, opts, corrected))
  {
    var gs := Groups(def, opts, corrected);
    MappingsSerialize(def, opts, corrected);
    GroupsFourFields(def, opts, corrected);
    assert |Split(def.script, '\n')| > 0;
    ParseSerialize(gs);
  }

  /** How a reader sees script line `i`: in hires mode every character
      maps to the next column of source line `start.line + i`, from
      `start.column` on the first line and from `later` on the others; in
      coarse mode the line's first character alone maps to the line's
      start. */
  predicate LineRead(ms: seq<Mapped>, len: nat, i: nat, start: Position, hires: bool, later: int)
  {
    if hires then LineMapped(ms, len, start.line + i, if i == 0 then start.column else later)
    else ms == [Mapped(0, 0, start.line + i, if i == 0 then start.column else 0)]
  }

  lemma BodyRead(def: Definition, opts: Options, corrected: bool)
    requires def.scriptStart.Some?
    ensures var lines := Split(def.script, '\n');
      forall i :: 0 <= i < |lines| ==>
        LineRead(Resolve(Body(def, opts, corrected), Cursor(0, 0, 0))[i], |lines[i]|, i,
          def.scriptStart.value, opts.hires, LaterColumn(|lines[0]|, corrected))
  {
    var start := def.scriptStart.value;
    var lines := Split(def.script, '\n');
    if opts.hires {
      ResolveHiresLines(lines, 0, -(start.column as int), start, corrected, LaterColumn(|lines[0]|, corrected), Cursor(0, 0, 0));
    } else {
      ResolveCoarseLines(lines, 0, start, Cursor(0, 0, 0));
    }
  }

  /** What a reader of the mappings sees: after the leading empty lines,
      script line `i` is mapped character by character onto source line
      `start.line + i` (hires) or by its first character only (coarse),
      starting at `start.column` on the first line and at
      `LaterColumn` on every later one. */
  lemma DecodedMappings(def: Definition, opts: Options, corrected: bool)
    requires def.scriptStart.Some?
    ensures
      var lines := Split(def.script, '\n');
      var off := EffectiveOffset(opts);
      var parsed := Parse(MappingsFor(def, opts, corrected));
      && parsed.Some?
      && |parsed.value| == off + |lines|
      && (forall g :: 0 <= g < off ==> parsed.value[g] == [])
      && forall i :: 0 <= i < |lines| ==>
        LineRead(Resolve(parsed.value, Cursor(0, 0, 0))[off + i], |lines[i]|, i,
          def.scriptStart.value, opts.hires, LaterColumn(|lines[0]|, corrected))
  {
    var lines := Split(def.script, '\n');
    var off := EffectiveOffset(opts);
    var c0 := Cursor(0, 0, 0);
    var body := Body(def, opts, corrected);
    MappingsParse(def, opts, corrected);
    ResolveEmptyGroups(off, body, c0);
    BodyRead(def, opts, corrected);
    var ms := Resolve(Groups(def, opts, corrected), c0);
    var rb := Resolve(body, c0);
    forall i | 0 <= i < |lines| ensures ms[off + i] == rb[i] {
    }
  }

  /** As written, a non-empty first line sends every later line one column
      to the left of the source line it maps: column -1. */
  lemma FirstLineOffByOne(def: Definition, opts: Options)
    requires def.scriptStart.Some? && opts.hires
    requires var lines := Split(def.script, '\n'); |lines| > 1 && |lines[0]| > 0
    ensures var parsed := Parse(GenerateMappings(def, opts));
      && parsed.Some?
      && var ms := Resolve(parsed.value, Cursor(0, 0, 0));
      && |ms| > EffectiveOffset(opts) + 1
      && |ms[EffectiveOffset(opts) + 1]| > 0
      && ms[EffectiveOffset(opts) + 1][0].column == -1
  {
    DecodedMappings(def, opts, false);
    var lines := Split(def.script, '\n');
    var off := EffectiveOffset(opts);
    var ms := Resolve(Parse(MappingsFor(def, opts, false)).value, Cursor(0, 0, 0));
    assert LineRead(ms[off + 1], |lines[1]|, 1, def.scriptStart.value, true, -1);
  }

  /** Corrected, every line after the first starts at source column 0. */
  lemma CorrectedLinesStartAtZero(def: Definition, opts: Options, i: nat)
    requires def.scriptStart.Some? && 0 < i < |Split(def.script, '\n')|
    ensures var parsed := Parse(CorrectedMappings(def, opts));
      && parsed.Some?
      && var ms := Resolve(parsed.value, Cursor(0, 0, 0));
      && |ms| > EffectiveOffset(opts) + i
      && |ms[EffectiveOffset(opts) + i]| > 0
      && ms[EffectiveOffset(opts) + i][0] == Mapped(0, 0, def.scriptStart.value.line + i, 0)
  {
    DecodedMappings(def, opts, true);
    var lines := Split(def.script, '\n');
    var off := EffectiveOffset(opts);
    var ms := Resolve(Parse(MappingsFor(def, opts, true)).value, Cursor(0, 0, 0));
    assert LineRead(ms[off + i], |lines[i]|, i, def.scriptStart.value, opts.hires, 0);
  }

  lemma SmallestEncodings()
    ensures Encode([0, 0, 0, 0]) == "AAAA"
    ensures Encode([0, 0, 1, -1]) == "AACD"
  {
    KnownEncodings();
    assert Encode([0]) == "A";
    assert Encode([-1]) == "D";
    assert Encode([0, 0]) == "AA";
    assert Encode([0, 0, 0]) == "AAA";
    assert Encode([1, -1]) == "CD";
    assert Encode([0, 1, -1]) == "ACD";
  }

  lemma SmallestLines()
    ensures Split("a\nb", '\n') == ["a", "b"]
  {
    assert "a\nb" == "a" + ['\n'] + "b";
    SplitPrefix("a", "b", '\n');
    SplitNoSeparator("b", '\n');
  }

  lemma SmallestHires(corrected: bool)
    ensures HiresLines(["a", "b"], 0, 0, Position(0, 0), corrected)
      == ["AAAA", if corrected then "AACA" else "AACD"]
  {
    var start := Position(0, 0);
    SmallestEncodings();
    KnownEncodings();
    assert HiresLine(0, 0, 1) == "AAAA";
    assert ["a", "b"][1..] == ["b"];
    if corrected {
      assert HiresLine(1, 0, 1) == "AACA";
      assert HiresLines(["b"], 1, 0, start, true) == ["AACA"];
    } else {
      assert HiresLine(1, 1, 1) == "AACD";
      assert HiresLines(["b"], 1, 1, start, false) == ["AACD"];
    }
  }

  /** The smallest case: script "a\nb" at the start of the file. As
      written the second line's segment moves the source column by -1. */
  lemma SmallestCase()
    ensures GenerateMappings(Definition("a\nb", Some(Position(0, 0))), Options(0, None, true)) == "AAAA;AACD"
  {
    SmallestLines();
    SmallestHires(false);
    assert Join(["AAAA", "AACD"], ';') == "AAAA;AACD";
  }

  /** The same script with the correction: "AACA", no column move. */
  lemma SmallestCaseCorrected()
    ensures CorrectedMappings(Definition("a\nb", Some(Position(0, 0))), Options(0, None, true)) == "AAAA;AACA"
  {
    SmallestLines();
    SmallestHires(true);
    assert Join(["AAAA", "AACA"], ';') == "AAAA;AACA";
  }
}
