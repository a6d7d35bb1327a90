/** `_erase`: the script with every masked region blanked out, keeping the
    length so that indexes and columns still line up with the original. */
module Eraser {
  import opened Text
  import opened Regions

  /** `spaces(count)`. */
  function Spaces(count: nat): (r: string)
    ensures |r| == count
    ensures forall k :: 0 <= k < count ==> r[k] == ' '
  {
    if count == 0 then "" else Spaces(count - 1) + " "
  }

  /** The block-comment eraser: each line replaced by spaces of its length,
      rejoined with the original newlines. */
  function BlankLines(lines: seq<string>): string
  {
    Join(BlankEach(lines), '\n')
  }

  function BlankEach(lines: seq<string>): (r: seq<string>)
    ensures |r| == |lines|
    ensures forall k :: 0 <= k < |r| ==> r[k] == Spaces(|lines[k]|)
  {
    if |lines| == 0 then [] else [Spaces(|lines[0]|)] + BlankEach(lines[1..])
  }

  /** `erasers[chunk.type](chunk)`. */
  function EraseChunk(r: Region): string
    requires |r.outer| > 0
  {
    match r.kind
    case StringLiteral => [r.outer[0]] + Spaces(|r.inner|) + [r.outer[0]]
    case LineComment => Spaces(|r.outer|)
    case BlockComment => BlankLines(Split(r.outer, '\n'))
    case RegexLiteral => "/" + Spaces(|r.inner|) + "/"
    case TemplateChunk => [r.outer[0]] + Spaces(|r.inner|) + "${"
    case TemplateEnd => [r.outer[0]] + Spaces(|r.inner|) + "`"
  }

  predicate NonemptyOuter(rs: seq<Region>)
  {
    forall n :: 0 <= n < |rs| ==> |rs[n].outer| > 0
  }

  /** The loop of `_erase` from cursor `charIndex` on: the text up to each
      region, then the region erased, then whatever follows the last one. */
  function EraseFrom(str: string, rs: seq<Region>, charIndex: int): string
    requires NonemptyOuter(rs)
    decreases |rs|
  {
    if |rs| == 0 then JsSlice(str, charIndex, |str|)
    else JsSlice(str, charIndex, rs[0].start) + EraseChunk(rs[0]) + EraseFrom(str, rs[1..], rs[0].end)
  }

  /** `_erase(str, found)`. */
  function Erase(str: string, rs: seq<Region>): string
    requires NonemptyOuter(rs)
  {
    EraseFrom(str, rs, 0)
  }

  /** What the character at offset `off` of a region of length `len` becomes:
      strings and regexes keep their two delimiters, template pieces their
      opening character and closing "${" or backquote, block comments their
      newlines; everything else turns into a space. */
  function MaskedChar(kind: Kind, off: nat, len: nat, c: char): char
  {
    match kind
    case StringLiteral => if off == 0 || off + 1 == len then c else ' '
    case RegexLiteral => if off == 0 || off + 1 == len then c else ' '
    case TemplateEnd => if off == 0 || off + 1 == len then c else ' '
    case TemplateChunk => if off == 0 || off + 2 >= len then c else ' '
    case LineComment => ' '
    case BlockComment => if c == '\n' then '\n' else ' '
  }

  lemma {:induction false} BlankLinesSpec(s: string)
    ensures |BlankLines(Split(s, '\n'))| == |s|
    ensures forall k :: 0 <= k < |s| ==>
      BlankLines(Split(s, '\n'))[k] == (if s[k] == '\n' then '\n' else ' ')
    decreases |s|
  {
    if '\n' !in s {
      SplitNoSeparator(s, '\n');
    } else {
      var a, b := SplitAtFirst(s, '\n');
      BlankLinesSpec(b);
      var lines := Split(s, '\n');
      var rest := Split(b, '\n');
      assert lines == [a] + rest;
      assert BlankEach(lines) == [Spaces(|a|)] + BlankEach(rest);
      assert BlankLines(lines) == Spaces(|a|) + "\n" + BlankLines(rest);
      forall k | 0 <= k < |s|
        ensures BlankLines(lines)[k] == (if s[k] == '\n' then '\n' else ' ')
      {
        if k < |a| {
          assert s[k] == a[k];
          assert a[k] in a;
        } else if k > |a| {
          assert s[k] == b[k - |a| - 1];
        }
      }
    }
  }

  /** Each eraser returns a string as long as the region, with exactly the
      characters `MaskedChar` keeps. */
  lemma EraseChunkSpec(str: string, r: Region)
    requires WellFormed(str, r)
    ensures |EraseChunk(r)| == r.end - r.start
    ensures forall off :: 0 <= off < |r.outer| ==>
      EraseChunk(r)[off] == MaskedChar(r.kind, off, |r.outer|, r.outer[off])
  {
    var o := r.outer;
    match r.kind
    case BlockComment =>
      BlankLinesSpec(o);
    case LineComment =>
      forall off | 0 <= off < |o| ensures EraseChunk(r)[off] == ' ' { }
    case _ =>
  }

  /** The characters of the erased text, described position by position. */
  ghost function ErasedAt(str: string, rs: seq<Region>, k: nat): char
    requires k < |str|
  {
    if |rs| == 0 then str[k]
    else if Covers(rs[0], k) then MaskedChar(rs[0].kind, k - rs[0].start, rs[0].end - rs[0].start, str[k])
    else ErasedAt(str, rs[1..], k)
  }

  lemma ValidNonempty(str: string, rs: seq<Region>)
    requires ValidRegions(str, rs)
    ensures NonemptyOuter(rs)
  {
  }

  lemma ValidTail(str: string, rs: seq<Region>)
    requires ValidRegions(str, rs) && |rs| > 0
    ensures ValidRegions(str, rs[1..])
    ensures |rs| > 1 ==> rs[0].end <= rs[1].start
  {
    assert forall n :: 0 <= n < |rs| - 1 ==> rs[1..][n] == rs[n + 1];
  }

  /** One position of the erased text from cursor `ci`, given the erased
      text that follows the first region. */
  lemma EraseFromAt(str: string, rs: seq<Region>, ci: nat, k: nat)
    requires |rs| > 0 && NonemptyOuter(rs) && WellFormed(str, rs[0])
    requires ci <= rs[0].start && ci <= k < |str|
    requires |EraseFrom(str, rs[1..], rs[0].end)| == |str| - rs[0].end
    requires k >= rs[0].end ==> EraseFrom(str, rs[1..], rs[0].end)[k - rs[0].end] == ErasedAt(str, rs[1..], k)
    requires k < rs[0].start ==> ErasedAt(str, rs, k) == str[k]
    ensures |EraseFrom(str, rs, ci)| == |str| - ci
    ensures EraseFrom(str, rs, ci)[k - ci] == ErasedAt(str, rs, k)
  {
    var r := rs[0];
    var head := JsSlice(str, ci, r.start);
    var chunk := EraseChunk(r);
    var rest := EraseFrom(str, rs[1..], r.end);
    assert |chunk| == r.end - r.start by {
      EraseChunkSpec(str, r);
    }
    assert EraseFrom(str, rs, ci) == head + chunk + rest;
    if k < r.start {
      assert (head + chunk + rest)[k - ci] == head[k - ci];
    } else if k < r.end {
      assert (head + chunk + rest)[k - ci] == chunk[k - r.start];
      assert chunk[k - r.start] == MaskedChar(r.kind, k - r.start, |r.outer|, r.outer[k - r.start]) by {
        EraseChunkSpec(str, r);
      }
      assert r.outer[k - r.start] == str[k];
    } else {
      assert (head + chunk + rest)[k - ci] == rest[k - r.end];
    }
  }

  lemma {:induction false} EraseFromSpec(str: string, rs: seq<Region>, ci: nat)
    requires ValidRegions(str, rs)
    requires ci <= |str|
    requires |rs| > 0 ==> ci <= rs[0].start
    ensures NonemptyOuter(rs)
    ensures |EraseFrom(str, rs, ci)| == |str| - ci
    ensures forall k :: ci <= k < |str| ==> EraseFrom(str, rs, ci)[k - ci] == ErasedAt(str, rs, k)
    decreases |rs|
  {
    ValidNonempty(str, rs);
    if |rs| > 0 {
      ValidTail(str, rs);
      EraseFromSpec(str, rs[1..], rs[0].end);
      EraseChunkSpec(str, rs[0]);
      forall k | ci <= k < |str|
        ensures EraseFrom(str, rs, ci)[k - ci] == ErasedAt(str, rs, k)
      {
        if k < rs[0].start {
          ErasedAtSpec(str, rs, k);
        }
        EraseFromAt(str, rs, ci, k);
      }
    }
  }

  lemma {:induction false} ErasedAtSpec(str: string, rs: seq<Region>, k: nat)
    requires ValidRegions(str, rs)
    requires k < |str|
    ensures (forall n :: 0 <= n < |rs| ==> !Covers(rs[n], k)) ==> ErasedAt(str, rs, k) == str[k]
    ensures forall n :: 0 <= n < |rs| && Covers(rs[n], k) ==>
      ErasedAt(str, rs, k) == MaskedChar(rs[n].kind, k - rs[n].start, rs[n].end - rs[n].start, str[k])
    decreases |rs|
  {
    if |rs| > 0 {
      var tail := rs[1..];
      ValidTail(str, rs);
      ErasedAtSpec(str, tail, k);
      forall n | 0 <= n < |rs| && Covers(rs[n], k)
        ensures ErasedAt(str, rs, k) == MaskedChar(rs[n].kind, k - rs[n].start, rs[n].end - rs[n].start, str[k])
      {
        if n > 0 {
          assert rs[0].end <= rs[n].start;
          assert tail[n - 1] == rs[n];
        }
      }
      if !Covers(rs[0], k) {
        assert forall n :: 0 <= n < |tail| ==> tail[n] == rs[n + 1];
      }
    }
  }

  /** `_erase` keeps the length of the script and every character outside
      the regions, and blanks each region as its kind prescribes. */
  lemma EraseSpec(str: string, rs: seq<Region>)
    requires ValidRegions(str, rs)
    ensures NonemptyOuter(rs)
    ensures |Erase(str, rs)| == |str|
    ensures forall k :: 0 <= k < |str| && (forall n :: 0 <= n < |rs| ==> !Covers(rs[n], k)) ==>
      Erase(str, rs)[k] == str[k]
    ensures forall n, k :: 0 <= n < |rs| && Covers(rs[n], k) ==>
      Erase(str, rs)[k] == MaskedChar(rs[n].kind, k - rs[n].start, rs[n].end - rs[n].start, str[k])
  {
    EraseFromSpec(str, rs, 0);
    var e := Erase(str, rs);
    forall k | 0 <= k < |str| && (forall n :: 0 <= n < |rs| ==> !Covers(rs[n], k))
      ensures e[k] == str[k]
    {
      assert e[k] == ErasedAt(str, rs, k);
      ErasedAtSpec(str, rs, k);
    }
    forall n, k | 0 <= n < |rs| && Covers(rs[n], k)
      ensures e[k] == MaskedChar(rs[n].kind, k - rs[n].start, rs[n].end - rs[n].start, str[k])
    {
      assert WellFormed(str, rs[n]);
      assert e[k] == ErasedAt(str, rs, k);
      ErasedAtSpec(str, rs, k);
    }
  }

  /** Newlines survive erasure everywhere except inside string, regex and
      template regions (a line comment never holds one). */
  lemma EraseKeepsNewlines(str: string, rs: seq<Region>, k: nat)
    requires ValidRegions(str, rs)
    requires k < |str| && str[k] == '\n'
    requires forall n :: 0 <= n < |rs| && Covers(rs[n], k) ==> rs[n].kind == BlockComment
    ensures NonemptyOuter(rs) && |Erase(str, rs)| == |str|
    ensures Erase(str, rs)[k] == '\n'
  {
    EraseSpec(str, rs);
  }
}
