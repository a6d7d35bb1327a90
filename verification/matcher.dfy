/** `match`: the matches of a pattern that start outside every region the
    scanner found, and the `require(...)` calls a component's script makes,
    each module named once. The regular-expression engine is not modelled:
    a pattern is given by the matches `exec` would return, in order. */
module Matcher {
  import opened Wrappers
  import opened Text
  import opened Regions
  import opened Scanner

  /** One result of `pattern.exec(str)`: where it starts and what it
      captured. */
  datatype Candidate<T> = Candidate(index: nat, captures: T)

  /** Successive `exec` results of a global pattern start at ever later
      indices. */
  predicate Ascending<T>(cands: seq<Candidate<T>>)
  {
    forall a, b :: 0 <= a < b < |cands| ==> cands[a].index <= cands[b].index
  }

  /** Regions in scan order, none of them empty. */
  predicate Spans(rs: seq<Region>)
  {
    && Ordered(rs)
    && forall n :: 0 <= n < |rs| ==> rs[n].start < rs[n].end
  }

  lemma ValidSpans(str: string, rs: seq<Region>)
    requires ValidRegions(str, rs)
    ensures Spans(rs)
  {
  }

  /** The test the loop applies: a match at `m` is inside a region when
      `start <= m <= end` (a match at a region's `end` counts as inside). */
  predicate Inside(r: Region, m: int)
  {
    r.start <= m <= r.end
  }

  predicate Outside(rs: seq<Region>, m: int)
  {
    forall n :: 0 <= n < |rs| ==> !Inside(rs[n], m)
  }

  /** The inner `do ... while`: moves the region cursor past the regions
      that end before `m`. */
  function Advance(rs: seq<Region>, ci: nat, m: nat): (r: nat)
    requires ci <= |rs|
    ensures ci <= r <= |rs|
    ensures forall j :: ci <= j < r ==> rs[j].end < m
    ensures r < |rs| ==> rs[r].end >= m
    decreases |rs| - ci
  {
    if ci < |rs| && rs[ci].end < m then Advance(rs, ci + 1, m) else ci
  }

  /** The outer loop from region cursor `ci` on: a candidate is passed to
      the callback when no region remains or the current one starts after
      it; a non-global pattern stops after the first. */
  function MatchFrom<T(==)>(rs: seq<Region>, cands: seq<Candidate<T>>, ci: nat, global: bool): (r: seq<Candidate<T>>)
    requires ci <= |rs|
    ensures |r| <= |cands|
    ensures !global ==> |r| <= 1
    ensures forall k :: 0 <= k < |r| ==> r[k] in cands
    decreases |cands|
  {
    if |cands| == 0 then []
    else
      var m := cands[0].index;
      var ci' := Advance(rs, ci, m);
      if ci' == |rs| || rs[ci'].start > m then
        if global then [cands[0]] + MatchFrom(rs, cands[1..], ci', global) else [cands[0]]
      else MatchFrom(rs, cands[1..], ci', global)
  }

  /** The reference: the candidates outside every region, in order. */
  function Filter<T(==)>(rs: seq<Region>, cands: seq<Candidate<T>>): (r: seq<Candidate<T>>)
    ensures |r| <= |cands|
  {
    if |cands| == 0 then []
    else if Outside(rs, cands[0].index) then [cands[0]] + Filter(rs, cands[1..])
    else Filter(rs, cands[1..])
  }

  /** What a pattern reports: every match outside the regions when global,
      the first such match otherwise. */
  function Expected<T(==)>(rs: seq<Region>, cands: seq<Candidate<T>>, global: bool): seq<Candidate<T>>
  {
    var f := Filter(rs, cands);
    if global || |f| == 0 then f else [f[0]]
  }

  /** After the cursor has moved, the candidate is accepted exactly when it
      lies outside every region. */
  lemma AcceptIffOutside(rs: seq<Region>, ci: nat, m: nat)
    requires Spans(rs) && ci <= |rs|
    requires forall j :: 0 <= j < ci ==> rs[j].end < m
    ensures var ci' := Advance(rs, ci, m);
      (ci' == |rs| || rs[ci'].start > m) <==> Outside(rs, m)
  {
    var ci' := Advance(rs, ci, m);
    if ci' == |rs| || rs[ci'].start > m {
      forall n | 0 <= n < |rs| ensures !Inside(rs[n], m) {
        if n > ci' {
          assert rs[ci'].end <= rs[n].start;
        }
      }
    } else {
      assert Inside(rs[ci'], m);
    }
  }

  lemma {:induction false} MatchFromFilter<T>(rs: seq<Region>, cands: seq<Candidate<T>>, ci: nat, global: bool)
    requires Spans(rs) && Ascending(cands) && ci <= |rs|
    requires forall j, k :: 0 <= j < ci && 0 <= k < |cands| ==> rs[j].end < cands[k].index
    ensures MatchFrom(rs, cands, ci, global) == Expected(rs, cands, global)
    decreases |cands|
  {
    if |cands| > 0 {
      var m := cands[0].index;
      var ci' := Advance(rs, ci, m);
      AcceptIffOutside(rs, ci, m);
      forall j, k | 0 <= j < ci' && 0 <= k < |cands[1..]| ensures rs[j].end < cands[1..][k].index {
        assert cands[1..][k] == cands[k + 1];
        if j >= ci {
          assert rs[j].end < m;
        } else {
          assert rs[j].end < cands[0].index;
        }
      }
      MatchFromFilter(rs, cands[1..], ci', global);
    }
  }

  lemma {:induction false} FilterOutside<T>(rs: seq<Region>, cands: seq<Candidate<T>>)
    ensures forall k :: 0 <= k < |Filter(rs, cands)| ==>
      Filter(rs, cands)[k] in cands && Outside(rs, Filter(rs, cands)[k].index)
    ensures forall c :: c in cands && Outside(rs, c.index) ==> c in Filter(rs, cands)
  {
    if |cands| > 0 {
      FilterOutside(rs, cands[1..]);
      assert forall c :: c in cands ==> c == cands[0] || c in cands[1..];
    }
  }

  lemma {:induction false} FilterAscending<T>(rs: seq<Region>, cands: seq<Candidate<T>>)
    requires Ascending(cands)
    ensures Ascending(Filter(rs, cands))
    ensures forall k :: 0 <= k < |Filter(rs, cands)| ==>
      |cands| > 0 && cands[0].index <= Filter(rs, cands)[k].index
  {
    if |cands| > 0 {
      FilterAscending(rs, cands[1..]);
      var f := Filter(rs, cands[1..]);
      forall k | 0 <= k < |f| ensures cands[0].index <= f[k].index {
        assert cands[1..][0] == cands[1];
      }
    }
  }

  /** `match(str, pattern, callback)`: the matches whose callbacks fire, or
      the error `find` throws. For ascending candidates these are exactly
      the ones outside every region, in increasing index order, and at most
      one of them for a non-global pattern. */
  function Match<T(==)>(str: string, cands: seq<Candidate<T>>, global: bool): (r: Result<seq<Candidate<T>>, ScanError>)
    ensures r.Err? <==> Find(str).Err?
    ensures r.Err? ==> r.error == Find(str).error
    ensures r.Ok? && Ascending(cands) ==>
      && r.value == Expected(Find(str).value, cands, global)
      && Ascending(r.value)
      && (forall k :: 0 <= k < |r.value| ==> r.value[k] in cands && Outside(Find(str).value, r.value[k].index))
      && (global ==> forall c :: c in cands && Outside(Find(str).value, c.index) ==> c in r.value)
      && (!global ==> |r.value| <= 1)
  {
    match Find(str)
    case Err(e) => Err(e)
    case Ok(rs) =>
      var ms := MatchFrom(rs, cands, 0, global);
      if Ascending(cands) then
        ValidSpans(str, rs);
        MatchFromFilter(rs, cands, 0, global);
        FilterOutside(rs, cands);
        FilterAscending(rs, cands);
        Ok(ms)
      else Ok(ms)
  }

  // ---------------------------------------------------------------------
  // The modules a script requires.

  /** The capture of `requirePattern`: exactly one of its groups, the
      double-quoted or the single-quoted name, takes part in a match, and
      `doubleQuoted || singleQuoted` picks that one. */
  datatype RequireCall = DoubleQuoted(name: string) | SingleQuoted(name: string)

  /** The callback: push the name unless `modules.indexOf` finds it. */
  function AddModule(modules: seq<string>, name: string): seq<string>
  {
    if name in modules then modules else modules + [name]
  }

  /** The callbacks folded over the names in order. */
  function Collect(modules: seq<string>, names: seq<string>): seq<string>
    decreases |names|
  {
    if |names| == 0 then modules else Collect(AddModule(modules, names[0]), names[1..])
  }

  function Dedup(names: seq<string>): seq<string>
  {
    Collect([], names)
  }

  predicate NoDups<T(==)>(s: seq<T>)
  {
    forall a, b :: 0 <= a < b < |s| ==> s[a] != s[b]
  }

  /** Where `x` first occurs in `s`. */
  function FirstIndex<T(==)>(s: seq<T>, x: T): (r: nat)
    requires x in s
    ensures r < |s| && s[r] == x && x !in s[..r]
  {
    if s[0] == x then 0
    else
      var r := 1 + FirstIndex(s[1..], x);
      assert s[..r] == [s[0]] + s[1..][..r - 1];
      r
  }

  lemma {:induction false} CollectSnoc(modules: seq<string>, names: seq<string>, x: string)
    ensures Collect(modules, names + [x]) == AddModule(Collect(modules, names), x)
    decreases |names|
  {
    if |names| == 0 {
      assert Collect(AddModule(modules, x), []) == AddModule(modules, x);
      assert ([] + [x])[1..] == [];
    } else {
      assert (names + [x])[0] == names[0];
      assert (names + [x])[1..] == names[1..] + [x];
      CollectSnoc(AddModule(modules, names[0]), names[1..], x);
    }
  }

  /** The module list: no name twice, every required name present, and the
      names in the order of their first `require`. */
  lemma {:induction false} DedupSpec(names: seq<string>)
    ensures NoDups(Dedup(names))
    ensures forall x :: x in Dedup(names) <==> x in names
    ensures forall a, b :: 0 <= a < b < |Dedup(names)| ==>
      FirstIndex(names, Dedup(names)[a]) < FirstIndex(names, Dedup(names)[b])
    decreases |names|
  {
    if |names| > 0 {
      var init := names[..|names| - 1];
      var x := names[|names| - 1];
      assert names == init + [x];
      CollectSnoc([], init, x);
      DedupSpec(init);
      var d := Dedup(init);
      assert forall y :: y in names <==> y in init || y == x;
      forall y | y in init ensures FirstIndex(names, y) == FirstIndex(init, y) {
        FirstIndexPrefix(init, [x], y);
      }
      if x !in init {
        assert FirstIndex(names, x) == |init| by {
          assert names[..|init|] == init;
        }
        var r := Dedup(names);
        assert r == d + [x];
        forall a, b | 0 <= a < b < |r| ensures FirstIndex(names, r[a]) < FirstIndex(names, r[b]) {
          if b == |d| {
            assert r[a] == d[a] && d[a] in init;
          } else {
            assert r[a] == d[a] && r[b] == d[b];
          }
        }
      } else {
        assert Dedup(names) == d;
      }
    }
  }

  lemma {:induction false} FirstIndexPrefix<T>(s: seq<T>, t: seq<T>, x: T)
    requires x in s
    ensures x in s + t && FirstIndex(s + t, x) == FirstIndex(s, x)
  {
    var i := FirstIndex(s, x);
    var j := FirstIndex(s + t, x);
    assert (s + t)[i] == x;
    assert (s + t)[..i] == s[..i];
  }

  function Names(ms: seq<Candidate<RequireCall>>): (r: seq<string>)
    ensures |r| == |ms|
    ensures forall k :: 0 <= k < |ms| ==> r[k] == ms[k].captures.name
  {
    if |ms| == 0 then [] else [ms[0].captures.name] + Names(ms[1..])
  }

  /** The `modules` list `parse` returns for a script: the names of the
      `require` calls outside strings, comments, regular expressions and
      template text, each once, in first-seen order; or the error `find`
      throws. */
  function RequireModules(script: string, calls: seq<Candidate<RequireCall>>): (r: Result<seq<string>, ScanError>)
    ensures r.Err? <==> Find(script).Err?
    ensures r.Ok? && Ascending(calls) ==>
      && NoDups(r.value)
      && (forall x :: x in r.value <==>
            exists c :: c in calls && Outside(Find(script).value, c.index) && c.captures.name == x)
  {
    match Match(script, calls, true)
    case Err(e) => Err(e)
    case Ok(ms) =>
      DedupSpec(Names(ms));
      if Ascending(calls) then
        RequiredNames(Find(script).value, calls, ms);
        Ok(Dedup(Names(ms)))
      else Ok(Dedup(Names(ms)))
  }

  lemma RequiredNames(rs: seq<Region>, calls: seq<Candidate<RequireCall>>, ms: seq<Candidate<RequireCall>>)
    requires forall k :: 0 <= k < |ms| ==> ms[k] in calls && Outside(rs, ms[k].index)
    requires forall c :: c in calls && Outside(rs, c.index) ==> c in ms
    ensures forall x :: x in Names(ms) <==>
      exists c :: c in calls && Outside(rs, c.index) && c.captures.name == x
  {
    var ns := Names(ms);
    forall x | x in ns ensures exists c :: c in calls && Outside(rs, c.index) && c.captures.name == x {
      var k :| 0 <= k < |ns| && ns[k] == x;
      assert ms[k] in calls && Outside(rs, ms[k].index);
    }
    forall x | exists c :: c in calls && Outside(rs, c.index) && c.captures.name == x
      ensures x in ns
    {
      var c :| c in calls && Outside(rs, c.index) && c.captures.name == x;
      var k :| 0 <= k < |ms| && ms[k] == c;
      assert ns[k] == x;
    }
  }
}
