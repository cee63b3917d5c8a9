/**
 * The rewrite matcher of a Firebase hosting configuration: a list of
 * `{source, function}` rules is split into a table of exact paths and an
 * ordered list of compiled globs, and a request path is resolved against them.
 */
module Rewrites {
  import opened Wrappers

  /** One rewrite rule of the configuration (`function` is spelled `func`). */
  datatype Rewrite = Rewrite(source: string, func: string)

  /** A compiled glob, seen only through its `test(path)` predicate. */
  type Regex = string -> bool

  /** The glob collaborator: glob detection and glob compilation. */
  datatype GlobEngine = GlobEngine(isGlob: string -> bool, globToRegex: string -> Regex)

  /** A compiled glob rule, as stored by the matcher. */
  datatype GlobMatch = GlobMatch(regex: Regex, func: string)

  predicate HasLeadingSlash(s: string)
  {
    |s| > 0 && s[0] == '/'
  }

  /** Replaces an optional leading '/' by '/', so that every glob starts with '/'. */
  function PathGlob(expr: string): (r: string)
    ensures HasLeadingSlash(r)
    ensures HasLeadingSlash(expr) ==> r == expr
    ensures !HasLeadingSlash(expr) ==> r == "/" + expr
  {
    "/" + (if HasLeadingSlash(expr) then expr[1..] else expr)
  }

  lemma PathGlobIdempotent(expr: string)
    ensures PathGlob(PathGlob(expr)) == PathGlob(expr)
  {
  }

  /** The strings PathGlob leaves alone are exactly those already starting with '/'. */
  lemma PathGlobFixedPoints(expr: string)
    ensures PathGlob(expr) == expr <==> HasLeadingSlash(expr)
  {
  }

  // ---------------------------------------------------------------------------
  // Construction: filter, map and reduce over the rule list
  // ---------------------------------------------------------------------------

  /** The rules whose kind (glob or not) is `wantGlob`, in their input order. */
  function Select(rules: seq<Rewrite>, isGlob: string -> bool, wantGlob: bool): (r: seq<Rewrite>)
    ensures |r| <= |rules|
    ensures forall x :: x in r ==> x in rules && isGlob(x.source) == wantGlob
  {
    if rules == [] then []
    else (if isGlob(rules[0].source) == wantGlob then [rules[0]] else [])
         + Select(rules[1..], isGlob, wantGlob)
  }

  /** Compiles each (normalised) glob source, keeping the rule order. */
  function CompileGlobs(rules: seq<Rewrite>, globToRegex: string -> Regex): (gs: seq<GlobMatch>)
    ensures |gs| == |rules|
    ensures forall k :: 0 <= k < |rules| ==>
              gs[k].func == rules[k].func && gs[k].regex == globToRegex(PathGlob(rules[k].source))
  {
    if rules == [] then []
    else [GlobMatch(globToRegex(PathGlob(rules[0].source)), rules[0].func)]
         + CompileGlobs(rules[1..], globToRegex)
  }

  /** The `reduce` that writes `accu[r.source] = r.function` for each rule in turn. */
  function Reduce(accu: map<string, string>, rules: seq<Rewrite>): (m: map<string, string>)
    ensures forall k :: k in accu ==> k in m
    ensures forall i :: 0 <= i < |rules| ==> rules[i].source in m
    ensures forall k :: k in m ==> k in accu || exists i :: 0 <= i < |rules| && rules[i].source == k
    ensures rules != [] ==> m[rules[|rules| - 1].source] == rules[|rules| - 1].func
    decreases rules
  {
    if rules == [] then accu
    else Reduce(accu[rules[0].source := rules[0].func], rules[1..])
  }

  /** The matcher's `globs` field built from a rule list. */
  function GlobTable(rules: seq<Rewrite>, engine: GlobEngine): (gs: seq<GlobMatch>)
    ensures |gs| == |Select(rules, engine.isGlob, true)| <= |rules|
  {
    CompileGlobs(Select(rules, engine.isGlob, true), engine.globToRegex)
  }

  /** The matcher's `exacts` field built from a rule list. */
  function ExactTable(rules: seq<Rewrite>, isGlob: string -> bool): (m: map<string, string>)
    ensures forall i :: 0 <= i < |rules| && !isGlob(rules[i].source) ==> rules[i].source in m
    ensures forall k :: k in m ==> exists r :: r in rules && !isGlob(r.source) && r.source == k
  {
    SelectKeeps(rules, isGlob, false);
    Reduce(map[], Select(rules, isGlob, false))
  }

  /** The filter drops no rule of the wanted kind. */
  lemma {:induction false} SelectKeeps(rules: seq<Rewrite>, isGlob: string -> bool, wantGlob: bool)
    ensures forall i :: 0 <= i < |rules| && isGlob(rules[i].source) == wantGlob ==>
              rules[i] in Select(rules, isGlob, wantGlob)
  {
    if rules != [] {
      SelectKeeps(rules[1..], isGlob, wantGlob);
      forall i | 1 <= i < |rules| && isGlob(rules[i].source) == wantGlob
        ensures rules[i] in Select(rules, isGlob, wantGlob)
      {
        assert rules[1..][i - 1] == rules[i];
      }
    }
  }

  /** Every entry of the `globs` table comes from a glob rule of the input, compiled from its normalised source. */
  lemma GlobTableEntries(rules: seq<Rewrite>, engine: GlobEngine, k: int)
    requires 0 <= k < |GlobTable(rules, engine)|
    ensures exists r :: r in rules && engine.isGlob(r.source) &&
              GlobTable(rules, engine)[k].func == r.func &&
              GlobTable(rules, engine)[k].regex == engine.globToRegex(PathGlob(r.source))
  {
    var r := Select(rules, engine.isGlob, true)[k];
    assert r in Select(rules, engine.isGlob, true);
  }

  // ---------------------------------------------------------------------------
  // Lookup
  // ---------------------------------------------------------------------------

  /** `i` is the first compiled glob that accepts `path`. */
  predicate FirstMatchAt(globs: seq<GlobMatch>, path: string, i: int)
  {
    0 <= i < |globs| && globs[i].regex(path) &&
    forall j :: 0 <= j < i ==> !globs[j].regex(path)
  }

  /** The function of the first glob, in order, that accepts `path`. */
  function FirstMatch(globs: seq<GlobMatch>, path: string): (r: Option<string>)
    ensures r.None? <==> forall i :: 0 <= i < |globs| ==> !globs[i].regex(path)
    ensures r.Some? ==> exists i :: FirstMatchAt(globs, path, i) && r.value == globs[i].func
  {
    if globs == [] then None
    else if globs[0].regex(path) then
      assert FirstMatchAt(globs, path, 0);
      Some(globs[0].func)
    else
      var r := FirstMatch(globs[1..], path);
      assert r.Some? ==> exists i :: FirstMatchAt(globs[1..], path, i) && FirstMatchAt(globs, path, i + 1)
                                     && r.value == globs[i + 1].func;
      r
  }

  /** What `match(path)` answers for a matcher holding `exacts` and `globs`. */
  function LookupIn(exacts: map<string, string>, globs: seq<GlobMatch>, path: string): (r: Option<string>)
    ensures path in exacts ==> r == Some(exacts[path])
    ensures path !in exacts ==> r == FirstMatch(globs, path)
    ensures r.None? <==> path !in exacts && forall i :: 0 <= i < |globs| ==> !globs[i].regex(path)
  {
    if path in exacts then Some(exacts[path]) else FirstMatch(globs, path)
  }

  // ---------------------------------------------------------------------------
  // Reference resolution, stated on the rule list itself
  // ---------------------------------------------------------------------------

  /** `r` is a non-glob rule whose source is literally `path`. */
  predicate IsExactFor(r: Rewrite, isGlob: string -> bool, path: string)
  {
    !isGlob(r.source) && r.source == path
  }

  /** `i` is the last exact rule for `path`. */
  predicate LastExactAt(rules: seq<Rewrite>, isGlob: string -> bool, path: string, i: int)
  {
    0 <= i < |rules| && IsExactFor(rules[i], isGlob, path) &&
    forall j :: i < j < |rules| ==> !IsExactFor(rules[j], isGlob, path)
  }

  /** The function of the last exact rule for `path`. */
  function LastExact(rules: seq<Rewrite>, isGlob: string -> bool, path: string): (r: Option<string>)
    ensures r.None? <==> forall i :: 0 <= i < |rules| ==> !IsExactFor(rules[i], isGlob, path)
    ensures r.Some? ==> exists i :: LastExactAt(rules, isGlob, path, i) && r.value == rules[i].func
  {
    if rules == [] then None
    else
      var n := |rules| - 1;
      if IsExactFor(rules[n], isGlob, path) then
        assert LastExactAt(rules, isGlob, path, n);
        Some(rules[n].func)
      else
        var r := LastExact(rules[..n], isGlob, path);
        assert rules == rules[..n] + [rules[n]];
        LastExactExtends(rules[..n], rules[n], isGlob, path, r);
        r
  }

  /** An answer for `init` carries over to `init + [last]` when `last` is not exact for `path`. */
  lemma LastExactExtends(init: seq<Rewrite>, last: Rewrite, isGlob: string -> bool, path: string, r: Option<string>)
    requires !IsExactFor(last, isGlob, path)
    requires r.None? <==> forall i :: 0 <= i < |init| ==> !IsExactFor(init[i], isGlob, path)
    requires r.Some? ==> exists i :: LastExactAt(init, isGlob, path, i) && r.value == init[i].func
    ensures r.None? <==> forall i :: 0 <= i < |init + [last]| ==> !IsExactFor((init + [last])[i], isGlob, path)
    ensures r.Some? ==> exists i :: LastExactAt(init + [last], isGlob, path, i) && r.value == (init + [last])[i].func
  {
    var rules := init + [last];
    assert forall i :: 0 <= i < |init| ==> rules[i] == init[i];
    if r.Some? {
      var i :| LastExactAt(init, isGlob, path, i) && r.value == init[i].func;
      assert LastExactAt(rules, isGlob, path, i);
    }
  }

  /** `r` is a glob rule whose normalised, compiled source accepts `path`. */
  predicate GlobAccepts(r: Rewrite, engine: GlobEngine, path: string)
  {
    engine.isGlob(r.source) && engine.globToRegex(PathGlob(r.source))(path)
  }

  /** `i` is the first glob rule accepting `path`. */
  predicate FirstGlobAt(rules: seq<Rewrite>, engine: GlobEngine, path: string, i: int)
  {
    0 <= i < |rules| && GlobAccepts(rules[i], engine, path) &&
    forall j :: 0 <= j < i ==> !GlobAccepts(rules[j], engine, path)
  }

  /** The function of the first glob rule, in declaration order, accepting `path`. */
  function FirstGlob(rules: seq<Rewrite>, engine: GlobEngine, path: string): (r: Option<string>)
    ensures r.None? <==> forall i :: 0 <= i < |rules| ==> !GlobAccepts(rules[i], engine, path)
    ensures r.Some? ==> exists i :: FirstGlobAt(rules, engine, path, i) && r.value == rules[i].func
  {
    if rules == [] then None
    else if GlobAccepts(rules[0], engine, path) then
      assert FirstGlobAt(rules, engine, path, 0);
      Some(rules[0].func)
    else
      var r := FirstGlob(rules[1..], engine, path);
      assert r.Some? ==> exists i :: FirstGlobAt(rules[1..], engine, path, i) && FirstGlobAt(rules, engine, path, i + 1)
                                     && r.value == rules[i + 1].func;
      r
  }

  /**
   * The intended answer for `path`, read off the rule list: the last exact rule
   * for it wins over every glob; otherwise the first accepting glob rule;
   * otherwise none.
   */
  function Resolve(rules: seq<Rewrite>, engine: GlobEngine, path: string): (r: Option<string>)
    ensures r.None? <==> forall i :: 0 <= i < |rules| ==>
              !IsExactFor(rules[i], engine.isGlob, path) && !GlobAccepts(rules[i], engine, path)
  {
    match LastExact(rules, engine.isGlob, path)
    case Some(f) => Some(f)
    case None => FirstGlob(rules, engine, path)
  }

  // ---------------------------------------------------------------------------
  // Properties of construction
  // ---------------------------------------------------------------------------

  /** Every rule lands in exactly one of the two selections: none lost, none duplicated. */
  lemma {:induction false} SelectPartition(rules: seq<Rewrite>, isGlob: string -> bool)
    ensures multiset(Select(rules, isGlob, true)) + multiset(Select(rules, isGlob, false)) == multiset(rules)
  {
    if rules != [] {
      var r, rest := rules[0], rules[1..];
      SelectPartition(rest, isGlob);
      assert rules == [r] + rest;
      assert multiset(rules) == multiset{r} + multiset(rest);
      var globs, exacts := Select(rest, isGlob, true), Select(rest, isGlob, false);
      if isGlob(r.source) {
        assert Select(rules, isGlob, true) == [r] + globs;
        assert Select(rules, isGlob, false) == exacts;
      } else {
        assert Select(rules, isGlob, true) == globs;
        assert Select(rules, isGlob, false) == [r] + exacts;
      }
    }
  }

  lemma {:induction false} SelectSnoc(rules: seq<Rewrite>, r: Rewrite, isGlob: string -> bool, wantGlob: bool)
    ensures Select(rules + [r], isGlob, wantGlob)
            == Select(rules, isGlob, wantGlob) + (if isGlob(r.source) == wantGlob then [r] else [])
  {
    if rules != [] {
      assert (rules + [r])[1..] == rules[1..] + [r];
      SelectSnoc(rules[1..], r, isGlob, wantGlob);
    }
  }

  lemma {:induction false} ReduceSnoc(accu: map<string, string>, rules: seq<Rewrite>, r: Rewrite)
    ensures Reduce(accu, rules + [r]) == Reduce(accu, rules)[r.source := r.func]
    decreases rules
  {
    if rules != [] {
      assert (rules + [r])[1..] == rules[1..] + [r];
      ReduceSnoc(accu[rules[0].source := rules[0].func], rules[1..], r);
    }
  }

  /** The exact table answers for `path` exactly what the last exact rule for it says. */
  lemma {:induction false} ExactTableLookup(rules: seq<Rewrite>, isGlob: string -> bool, path: string)
    ensures path in ExactTable(rules, isGlob) <==> LastExact(rules, isGlob, path).Some?
    ensures path in ExactTable(rules, isGlob) ==>
              ExactTable(rules, isGlob)[path] == LastExact(rules, isGlob, path).value
  {
    if rules != [] {
      var n := |rules| - 1;
      var init, last := rules[..n], rules[n];
      assert rules == init + [last];
      ExactTableLookup(init, isGlob, path);
      SelectSnoc(init, last, isGlob, false);
      var before := ExactTable(init, isGlob);
      if !isGlob(last.source) {
        ReduceSnoc(map[], Select(init, isGlob, false), last);
        assert ExactTable(rules, isGlob) == before[last.source := last.func];
        if last.source == path {
          assert LastExact(rules, isGlob, path) == Some(last.func);
        } else {
          assert LastExact(rules, isGlob, path) == LastExact(init, isGlob, path);
        }
      } else {
        assert Select(rules, isGlob, false) == Select(init, isGlob, false);
        assert ExactTable(rules, isGlob) == before;
        assert LastExact(rules, isGlob, path) == LastExact(init, isGlob, path);
      }
    }
  }

  /** Last write wins: the exact table maps a source to the function of its last exact rule. */
  lemma LastWriteWins(rules: seq<Rewrite>, isGlob: string -> bool, i: int)
    requires 0 <= i < |rules|
    requires LastExactAt(rules, isGlob, rules[i].source, i)
    ensures rules[i].source in ExactTable(rules, isGlob)
    ensures ExactTable(rules, isGlob)[rules[i].source] == rules[i].func
  {
    var key := rules[i].source;
    ExactTableLookup(rules, isGlob, key);
    var k :| LastExactAt(rules, isGlob, key, k) && LastExact(rules, isGlob, key).value == rules[k].func;
    assert !(k < i) && !(i < k);
  }

  /** The exact table's keys are the exact sources, stored verbatim (not normalised). */
  lemma ExactKeys(rules: seq<Rewrite>, isGlob: string -> bool)
    ensures ExactTable(rules, isGlob).Keys == set r | r in rules && !isGlob(r.source) :: r.source
  {
    var table := ExactTable(rules, isGlob);
    var sources := set r | r in rules && !isGlob(r.source) :: r.source;
    forall key | key in table
      ensures key in sources
    {
      ExactTableLookup(rules, isGlob, key);
      var i :| LastExactAt(rules, isGlob, key, i);
      assert rules[i] in rules;
    }
    forall key | key in sources
      ensures key in table
    {
      var r :| r in rules && !isGlob(r.source) && r.source == key;
      var i :| 0 <= i < |rules| && rules[i] == r;
      assert IsExactFor(rules[i], isGlob, key);
      ExactTableLookup(rules, isGlob, key);
    }
  }

  /** Scanning the compiled globs is scanning the glob rules in declaration order. */
  lemma {:induction false} GlobTableScan(rules: seq<Rewrite>, engine: GlobEngine, path: string)
    ensures FirstMatch(GlobTable(rules, engine), path) == FirstGlob(rules, engine, path)
  {
    if rules != [] {
      var r, rest := rules[0], rules[1..];
      GlobTableScan(rest, engine, path);
      var sel := Select(rules, engine.isGlob, true);
      if engine.isGlob(r.source) {
        assert sel == [r] + Select(rest, engine.isGlob, true);
        var gs := GlobTable(rules, engine);
        assert gs == [GlobMatch(engine.globToRegex(PathGlob(r.source)), r.func)] + GlobTable(rest, engine);
        assert gs[1..] == GlobTable(rest, engine);
      } else {
        assert sel == Select(rest, engine.isGlob, true);
      }
    }
  }

  /** The matcher built from `rules` answers every path as the reference resolution does. */
  lemma MatchResolves(rules: seq<Rewrite>, engine: GlobEngine, path: string)
    ensures LookupIn(ExactTable(rules, engine.isGlob), GlobTable(rules, engine), path)
            == Resolve(rules, engine, path)
  {
    ExactTableLookup(rules, engine.isGlob, path);
    GlobTableScan(rules, engine, path);
  }

  /**
   * Glob sources are normalised before compiling: two rule lists that differ
   * only in the optional leading '/' of their glob sources build the same matcher.
   */
  lemma {:induction false} NormalisedGlobSources(rules1: seq<Rewrite>, rules2: seq<Rewrite>, engine: GlobEngine)
    requires |rules1| == |rules2|
    requires forall i :: 0 <= i < |rules1| ==> SameAfterNormalising(rules1[i], rules2[i], engine.isGlob)
    ensures GlobTable(rules1, engine) == GlobTable(rules2, engine)
    ensures ExactTable(rules1, engine.isGlob) == ExactTable(rules2, engine.isGlob)
  {
    SameSelection(rules1, rules2, engine, true);
    SameSelection(rules1, rules2, engine, false);
  }

  /** Two rules that the matcher cannot tell apart once glob sources are normalised. */
  predicate SameAfterNormalising(r1: Rewrite, r2: Rewrite, isGlob: string -> bool)
  {
    r1.func == r2.func && isGlob(r1.source) == isGlob(r2.source) &&
    if isGlob(r1.source) then PathGlob(r1.source) == PathGlob(r2.source) else r1 == r2
  }

  lemma {:induction false} SameSelection(rules1: seq<Rewrite>, rules2: seq<Rewrite>, engine: GlobEngine, wantGlob: bool)
    requires |rules1| == |rules2|
    requires forall i :: 0 <= i < |rules1| ==> SameAfterNormalising(rules1[i], rules2[i], engine.isGlob)
    ensures wantGlob ==> CompileGlobs(Select(rules1, engine.isGlob, true), engine.globToRegex)
                         == CompileGlobs(Select(rules2, engine.isGlob, true), engine.globToRegex)
    ensures !wantGlob ==> Select(rules1, engine.isGlob, false) == Select(rules2, engine.isGlob, false)
  {
    if rules1 != [] {
      var r1, r2 := rules1[0], rules2[0];
      assert SameAfterNormalising(r1, r2, engine.isGlob);
      SameSelection(rules1[1..], rules2[1..], engine, wantGlob);
      var tail1, tail2 := Select(rules1[1..], engine.isGlob, wantGlob), Select(rules2[1..], engine.isGlob, wantGlob);
      if engine.isGlob(r1.source) == wantGlob {
        assert Select(rules1, engine.isGlob, wantGlob) == [r1] + tail1;
        assert Select(rules2, engine.isGlob, wantGlob) == [r2] + tail2;
        if wantGlob {
          assert CompileGlobs([r1] + tail1, engine.globToRegex)
                 == [GlobMatch(engine.globToRegex(PathGlob(r1.source)), r1.func)] + CompileGlobs(tail1, engine.globToRegex);
          assert CompileGlobs([r2] + tail2, engine.globToRegex)
                 == [GlobMatch(engine.globToRegex(PathGlob(r2.source)), r2.func)] + CompileGlobs(tail2, engine.globToRegex);
        }
      } else {
        assert Select(rules1, engine.isGlob, wantGlob) == tail1;
        assert Select(rules2, engine.isGlob, wantGlob) == tail2;
      }
    }
  }

  // ---------------------------------------------------------------------------
  // Precedence
  // ---------------------------------------------------------------------------

  /** An exact rule for `path` decides the answer, whatever any glob rule would accept. */
  lemma ExactPrecedence(rules: seq<Rewrite>, engine: GlobEngine, path: string, i: int)
    requires LastExactAt(rules, engine.isGlob, path, i)
    ensures Resolve(rules, engine, path) == Some(rules[i].func)
  {
    var found := LastExact(rules, engine.isGlob, path);
    assert IsExactFor(rules[i], engine.isGlob, path);
    assert found.Some?;
    var k :| LastExactAt(rules, engine.isGlob, path, k) && found.value == rules[k].func;
    assert IsExactFor(rules[k], engine.isGlob, path);
  }

  /** Without an exact rule for `path`, the first glob rule accepting it decides. */
  lemma GlobPrecedence(rules: seq<Rewrite>, engine: GlobEngine, path: string, i: int)
    requires forall j :: 0 <= j < |rules| ==> !IsExactFor(rules[j], engine.isGlob, path)
    requires FirstGlobAt(rules, engine, path, i)
    ensures Resolve(rules, engine, path) == Some(rules[i].func)
  {
    var found := FirstGlob(rules, engine, path);
    assert GlobAccepts(rules[i], engine, path);
    assert found.Some?;
    var k :| FirstGlobAt(rules, engine, path, k) && found.value == rules[k].func;
    assert GlobAccepts(rules[k], engine, path);
  }

  /** An exact rule declared after a glob that also accepts its path still wins. */
  lemma ExactBeatsEarlierGlob(engine: GlobEngine)
    requires engine.isGlob("/a*") && !engine.isGlob("/a")
    ensures var rules := [Rewrite("/a*", "F1"), Rewrite("/a", "F2")];
            LookupIn(ExactTable(rules, engine.isGlob), GlobTable(rules, engine), "/a") == Some("F2")
  {
    var rules := [Rewrite("/a*", "F1"), Rewrite("/a", "F2")];
    MatchResolves(rules, engine, "/a");
    ExactPrecedence(rules, engine, "/a", 1);
  }

  /** Among globs accepting a path, the one declared first wins. */
  lemma FirstDeclaredGlobWins(engine: GlobEngine)
    requires engine.isGlob("/a*") && engine.isGlob("/ab*")
    requires engine.globToRegex("/a*")("/ab")
    ensures var rules := [Rewrite("/a*", "F1"), Rewrite("/ab*", "F2")];
            LookupIn(ExactTable(rules, engine.isGlob), GlobTable(rules, engine), "/ab") == Some("F1")
  {
    var rules := [Rewrite("/a*", "F1"), Rewrite("/ab*", "F2")];
    MatchResolves(rules, engine, "/ab");
    assert PathGlob("/a*") == "/a*";
    GlobPrecedence(rules, engine, "/ab", 0);
  }

  /** A glob declared without its leading '/' matches exactly like the one declared with it. */
  lemma LeadingSlashOptional(engine: GlobEngine, source: string, func: string, path: string)
    requires !HasLeadingSlash(source)
    requires engine.isGlob(source) && engine.isGlob("/" + source)
    ensures LookupIn(ExactTable([Rewrite(source, func)], engine.isGlob), GlobTable([Rewrite(source, func)], engine), path)
            == LookupIn(ExactTable([Rewrite("/" + source, func)], engine.isGlob), GlobTable([Rewrite("/" + source, func)], engine), path)
  {
    assert HasLeadingSlash("/" + source);
    NormalisedGlobSources([Rewrite(source, func)], [Rewrite("/" + source, func)], engine);
  }

  /** An empty configuration matches nothing. */
  lemma EmptyRulesMatchNothing(engine: GlobEngine, path: string)
    ensures LookupIn(ExactTable([], engine.isGlob), GlobTable([], engine), path) == None
  {
  }

  /** The rewrite matcher: exact paths first, then globs in declaration order. */
  class Matcher {
    var globs: seq<GlobMatch>
    var exacts: map<string, string>

    constructor (rewrites: seq<Rewrite>, engine: GlobEngine)
      ensures globs == GlobTable(rewrites, engine)
      ensures exacts == ExactTable(rewrites, engine.isGlob)
    {
      globs := CompileGlobs(Select(rewrites, engine.isGlob, true), engine.globToRegex);
      exacts := Reduce(map[], Select(rewrites, engine.isGlob, false));
    }

    /** The function name for `path`, or `None` when no rule applies. */
    method Match(path: string) returns (r: Option<string>)
      ensures r == LookupIn(exacts, globs, path)
    {
      if path in exacts {
        return Some(exacts[path]);
      }
      for i := 0 to |globs|
        invariant forall j :: 0 <= j < i ==> !globs[j].regex(path)
      {
        if globs[i].regex(path) {
          assert FirstMatchAt(globs, path, i);
          return Some(globs[i].func);
        }
      }
      return None;
    }
  }

  /** Matching does not change the matcher, so asking twice gives the same answer. */
  method MatchIsRepeatable(m: Matcher, path: string) returns (first: Option<string>, second: Option<string>)
    ensures first == second
  {
    first := m.Match(path);
    second := m.Match(path);
  }
}
