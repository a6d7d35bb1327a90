/** The masked regions the scanner reports: string literals, comments,
    regular-expression literals and template-literal pieces, each with the
    text it spans. */
module Regions {
  import opened Text

  /** The `type` tag of a found chunk: 'string', 'line', 'block', 'regex',
      'templateChunk', 'templateEnd'. */
  datatype Kind = StringLiteral | LineComment | BlockComment | RegexLiteral | TemplateChunk | TemplateEnd

  /** One found chunk: `outer` is the source text from `start` up to (not
      including) `end`; `inner` is `outer` without its delimiters. */
  datatype Region = Region(kind: Kind, start: nat, end: nat, outer: string, inner: string)

  /** How the scanner derives `inner` from `outer` for each kind. */
  function InnerOf(kind: Kind, outer: string): string
  {
    match kind
    case StringLiteral => JsSlice(outer, 1, -1)
    case RegexLiteral => JsSlice(outer, 1, -1)
    case TemplateEnd => JsSlice(outer, 1, -1)
    case TemplateChunk => JsSlice(outer, 1, -2)
    case LineComment => JsSlice(outer, 2, |outer|)
    case BlockComment => JsSlice(outer, 2, -2)
  }

  /** The delimiters each kind of region begins and ends with. */
  predicate Delimited(kind: Kind, o: string)
  {
    match kind
    case StringLiteral => |o| >= 2 && (o[0] == '"' || o[0] == '\'') && o[|o| - 1] == o[0]
    case LineComment => |o| >= 2 && o[0] == '/' && o[1] == '/' && '\n' !in o
    case BlockComment => |o| >= 4 && o[0] == '/' && o[1] == '*' && o[|o| - 2] == '*' && o[|o| - 1] == '/'
    case RegexLiteral => |o| >= 3 && o[0] == '/' && o[|o| - 1] == '/'
    case TemplateChunk => |o| >= 3 && (o[0] == '`' || o[0] == '}') && o[|o| - 2] == '$' && o[|o| - 1] == '{'
    case TemplateEnd => |o| >= 2 && (o[0] == '`' || o[0] == '}') && o[|o| - 1] == '`'
  }

  /** `r` is a region of `str` as the scanner builds them. */
  predicate WellFormed(str: string, r: Region)
  {
    && r.start < r.end <= |str|
    && r.outer == str[r.start..r.end]
    && r.inner == InnerOf(r.kind, r.outer)
    && Delimited(r.kind, r.outer)
  }

  /** Each region ends at or before the start of every later one. */
  predicate Ordered(rs: seq<Region>)
  {
    forall m, n :: 0 <= m < n < |rs| ==> rs[m].end <= rs[n].start
  }

  predicate ValidRegions(str: string, rs: seq<Region>)
  {
    && (forall n :: 0 <= n < |rs| ==> WellFormed(str, rs[n]))
    && Ordered(rs)
  }

  /** Where the last region ends (0 when there is none). */
  function LastEnd(rs: seq<Region>): nat
  {
    if |rs| == 0 then 0 else rs[|rs| - 1].end
  }

  predicate Covers(r: Region, k: int)
  {
    r.start <= k < r.end
  }

  /** Appending a well-formed region that starts at or after `LastEnd` keeps
      a region list valid, and moves `LastEnd` to the new region's end. */
  lemma AppendRegion(str: string, rs: seq<Region>, r: Region)
    requires ValidRegions(str, rs)
    requires WellFormed(str, r)
    requires LastEnd(rs) <= r.start
    ensures ValidRegions(str, rs + [r])
    ensures LastEnd(rs + [r]) == r.end
  {
    var rs' := rs + [r];
    forall m, n | 0 <= m < n < |rs'|
      ensures rs'[m].end <= rs'[n].start
    {
      if n == |rs| && m < |rs| - 1 {
        assert rs[m].end <= rs[|rs| - 1].start;
      }
    }
  }

  /** Every region of a valid list ends by `LastEnd`. */
  lemma EndsBeforeLast(str: string, rs: seq<Region>)
    requires ValidRegions(str, rs)
    ensures forall n :: 0 <= n < |rs| ==> rs[n].end <= LastEnd(rs)
  {
    forall n | 0 <= n < |rs| ensures rs[n].end <= LastEnd(rs) {
      if n < |rs| - 1 {
        assert rs[n].end <= rs[|rs| - 1].start;
      }
    }
  }
}
