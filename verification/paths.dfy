/** Component paths: `resolve`, which finds an imported component's path
    relative to the component importing it, and `getName`, the default
    name of a component loaded from a path. */
module Paths {
  import opened Text

  /** `parts.pop()`: removes the last element, if any. */
  function DropLast(parts: seq<string>): (r: seq<string>)
    ensures |parts| > 0 ==> parts == r + [parts[|parts| - 1]]
    ensures |parts| == 0 ==> r == []
  {
    if |parts| == 0 then [] else parts[..|parts| - 1]
  }

  /** A segment the loop pushes as it is. */
  predicate Plain(seg: string)
  {
    seg != "" && seg != "." && seg != ".."
  }

  /** The `while (part = relativePathParts.shift())` loop: `..` pops, `.`
      is skipped, anything else is pushed; an empty segment is falsy and
      ends the loop. */
  function Apply(parts: seq<string>, segs: seq<string>): seq<string>
    decreases |segs|
  {
    if |segs| == 0 || segs[0] == "" then parts
    else if segs[0] == ".." then Apply(DropLast(parts), segs[1..])
    else if segs[0] == "." then Apply(parts, segs[1..])
    else Apply(parts + [segs[0]], segs[1..])
  }

  /** `resolve(relativePath, base)`. */
  function Resolve(rel: string, base: string): (r: string)
    ensures base == "" ==> r == rel
    ensures |rel| > 0 && rel[0] == '/' ==> r == rel
  {
    if base == "" || (|rel| > 0 && rel[0] == '/') then rel
    else Join(Apply(DropLast(Split(base, '/')), Split(rel, '/')), '/')
  }

  /** `getName(path)`: the last path segment without its last extension. */
  function GetName(path: string): string
  {
    var parts := Split(path, '/');
    var filename := parts[|parts| - 1];
    var dot := LastIndexOf(filename, '.');
    if dot != -1 then filename[..dot] else filename
  }

  // ---------------------------------------------------------------------

  lemma SplitSuffix(a: string, b: string, sep: char)
    requires sep !in b
    ensures Split(a + [sep] + b, sep) == Split(a, sep) + [b]
  {
    var parts := Split(a, sep) + [b];
    JoinAppend(Split(a, sep), [b], sep);
    JoinSplit(a, sep);
    assert Join(parts, sep) == a + [sep] + b;
    SplitJoin(parts, sep);
  }

  /** Plain segments are pushed one after the other. */
  lemma {:induction false} ApplyPlain(parts: seq<string>, segs: seq<string>)
    requires forall k :: 0 <= k < |segs| ==> Plain(segs[k])
    ensures Apply(parts, segs) == parts + segs
    decreases |segs|
  {
    if |segs| > 0 {
      ApplyPlain(parts + [segs[0]], segs[1..]);
      assert parts + [segs[0]] + segs[1..] == parts + segs;
    }
  }

  /** A `.` segment is skipped: it leaves the parts as they are. */
  lemma DotSkipped(parts: seq<string>, segs: seq<string>)
    ensures Apply(parts, ["."] + segs) == Apply(parts, segs)
  {
  }

  /** A `..` segment pops the last part. */
  lemma DotDotPops(parts: seq<string>, p: string, segs: seq<string>)
    ensures Apply(parts + [p], [".."] + segs) == Apply(parts, segs)
  {
  }

  /** A `..` with no part left to pop is skipped, as `pop()` on an empty
      array is. */
  lemma DotDotAtRoot(segs: seq<string>)
    ensures Apply([], [".."] + segs) == Apply([], segs)
  {
  }

  /** Everything after the first empty segment (a `//` or a trailing `/`)
      is ignored. */
  lemma {:induction false} ApplyStopsAtEmpty(parts: seq<string>, segs: seq<string>, rest: seq<string>)
    requires forall k :: 0 <= k < |segs| ==> segs[k] != ""
    ensures Apply(parts, segs + [""] + rest) == Apply(parts, segs)
    decreases |segs|
  {
    var all := segs + [""] + rest;
    if |segs| == 0 {
      assert all[0] == "";
    } else {
      assert all[0] == segs[0];
      assert all[1..] == segs[1..] + [""] + rest;
      var next := if segs[0] == ".." then DropLast(parts) else if segs[0] == "." then parts else parts + [segs[0]];
      ApplyStopsAtEmpty(next, segs[1..], rest);
    }
  }

  /** The loop composes: a run of non-empty segments followed by more
      segments is the second leg applied to the first leg's result. */
  lemma {:induction false} ApplyAppend(parts: seq<string>, a: seq<string>, b: seq<string>)
    requires forall k :: 0 <= k < |a| ==> a[k] != ""
    ensures Apply(parts, a + b) == Apply(Apply(parts, a), b)
    decreases |a|
  {
    if |a| == 0 {
      assert a + b == b;
    } else {
      assert (a + b)[0] == a[0] && (a + b)[1..] == a[1..] + b;
      var next := if a[0] == ".." then DropLast(parts) else if a[0] == "." then parts else parts + [a[0]];
      ApplyAppend(next, a[1..], b);
    }
  }

  /** The loop never produces a `.`, `..` or empty segment of its own:
      every segment of the result is one it started with or a plain
      segment of the relative path. */
  lemma {:induction false} ApplySegments(parts: seq<string>, segs: seq<string>)
    ensures forall x :: x in Apply(parts, segs) ==> x in parts || (x in segs && Plain(x))
    decreases |segs|
  {
    if |segs| > 0 && segs[0] != "" {
      var next := if segs[0] == ".." then DropLast(parts) else if segs[0] == "." then parts else parts + [segs[0]];
      ApplySegments(next, segs[1..]);
      assert forall x :: x in next ==> x in parts || x == segs[0];
      assert forall x :: x in segs[1..] ==> x in segs;
    }
  }

  /** A path of plain segments next to a base `dir/name` resolves to
      `dir/path`. */
  lemma ResolveSibling(dir: string, name: string, rel: string)
    requires '/' !in name
    requires forall k :: 0 <= k < |Split(rel, '/')| ==> Plain(Split(rel, '/')[k])
    ensures Resolve(rel, dir + "/" + name) == dir + "/" + rel
  {
    var base := dir + "/" + name;
    assert base == dir + ['/'] + name;
    SplitSuffix(dir, name, '/');
    assert DropLast(Split(base, '/')) == Split(dir, '/');
    assert Split(rel, '/')[0] != "";
    assert |rel| > 0 && rel[0] != '/';
    ApplyPlain(Split(dir, '/'), Split(rel, '/'));
    JoinAppend(Split(dir, '/'), Split(rel, '/'), '/');
    JoinSplit(dir, '/');
    JoinSplit(rel, '/');
  }

  /** Against a base without a `/`, a path of plain segments resolves to
      itself. */
  lemma ResolveBare(base: string, rel: string)
    requires base != "" && '/' !in base
    requires forall k :: 0 <= k < |Split(rel, '/')| ==> Plain(Split(rel, '/')[k])
    ensures Resolve(rel, base) == rel
  {
    SplitNoSeparator(base, '/');
    if |rel| > 0 && rel[0] == '/' {
      assert Split(rel, '/')[0] == "";
    }
    ApplyPlain([], Split(rel, '/'));
    assert [] + Split(rel, '/') == Split(rel, '/');
    JoinSplit(rel, '/');
  }

  /** The last piece of `path.split('/')` is what follows the last `/`. */
  lemma LastPart(path: string)
    ensures var parts := Split(path, '/');
      parts[|parts| - 1] == path[LastIndexOf(path, '/') + 1..]
  {
    var i := LastIndexOf(path, '/');
    if i == -1 {
      SplitNoSeparator(path, '/');
    } else {
      assert path == path[..i] + ['/'] + path[i + 1..];
      SplitSuffix(path[..i], path[i + 1..], '/');
    }
  }

  /** The name is the text after the last `/`, cut at its last `.` when it
      has one. */
  lemma GetNameSpec(path: string)
    ensures var file := path[LastIndexOf(path, '/') + 1..];
      GetName(path) == if '.' in file then file[..LastIndexOf(file, '.')] else file
    ensures '/' !in GetName(path)
  {
    LastPart(path);
  }

  lemma {:induction false} GetNameOfFile(dir: string, name: string, ext: string)
    requires '/' !in name && '/' !in ext && '.' !in ext
    ensures GetName(dir + "/" + name + "." + ext) == name
  {
    var file := name + "." + ext;
    assert file == name + ['.'] + ext;
    assert '/' !in file by {
      assert forall k :: 0 <= k < |file| ==> file[k] in name || file[k] == '.' || file[k] in ext;
    }
    assert dir + "/" + name + "." + ext == dir + ['/'] + file;
    SplitSuffix(dir, file, '/');
    LastIndexOfAfter(name, ext, '.');
    assert file[..|name|] == name;
  }

  /** Against a base, a leading `./` changes nothing (unless it is what
      keeps a path that starts with `/` from being taken as absolute;
      without a base the path comes back as it is, `./` included). */
  lemma ResolveDotPrefix(rel: string, base: string)
    requires base != ""
    requires |rel| == 0 || rel[0] != '/'
    ensures Resolve("./" + rel, base) == Resolve(rel, base)
  {
    assert ("./" + rel)[0] == '.';
    assert "./" + rel == "." + ['/'] + rel;
    SplitPrefix(".", rel, '/');
    DotSkipped(DropLast(Split(base, '/')), Split(rel, '/'));
  }

  /** A leading `..` climbs out of the base's directory. */
  lemma ResolveParent(dir: string, sub: string, name: string, rel: string)
    requires '/' !in sub && '/' !in name
    requires forall k :: 0 <= k < |Split(rel, '/')| ==> Plain(Split(rel, '/')[k])
    ensures Resolve("../" + rel, dir + "/" + sub + "/" + name) == dir + "/" + rel
  {
    var segs := Split(rel, '/');
    var parts := Split(dir, '/');
    assert DropLast(Split(dir + "/" + sub + "/" + name, '/')) == parts + [sub] by {
      assert dir + "/" + sub + "/" + name == (dir + ['/'] + sub) + ['/'] + name;
      SplitSuffix(dir + ['/'] + sub, name, '/');
      SplitSuffix(dir, sub, '/');
    }
    assert Split("../" + rel, '/') == [".."] + segs by {
      assert "../" + rel == ".." + ['/'] + rel;
      SplitPrefix("..", rel, '/');
    }
    assert Apply(parts + [sub], [".."] + segs) == parts + segs by {
      assert ([".."] + segs)[1..] == segs;
      ApplyPlain(parts, segs);
    }
    assert Join(parts + segs, '/') == dir + "/" + rel by {
      assert segs[0] != "";
      assert |rel| > 0;
      JoinAppend(parts, segs, '/');
      JoinSplit(dir, '/');
      JoinSplit(rel, '/');
    }
  }
}
