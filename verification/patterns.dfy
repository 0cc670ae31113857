/**
 * Compilation of rule strings into matchers (`make_patterns`). The regular
 * expression library is not part of this model: whether a rule string
 * compiles and whether a compiled matcher matches a line are given by a
 * `RegexEngine`.
 */
module Patterns {

  /** A compiled matcher. Like `Regex::as_str`, it keeps the text it was compiled from. */
  datatype Regex = Regex(source: string)

  /** What the regular expression library decides: `compiles(s)` when `Regex::new(s)`
      succeeds, `isMatch(s, line)` for `is_match` of the matcher compiled from `s`. */
  datatype RegexEngine = RegexEngine(compiles: string -> bool, isMatch: (string, string) -> bool)
  {
    predicate Matches(r: Regex, line: string)
    {
      isMatch(r.source, line)
    }
  }

  /** The matchers that compiling the rule strings `v` yields, one per string that compiles. */
  function Compiled(engine: RegexEngine, v: seq<string>): (rs: seq<Regex>)
    ensures |rs| <= |v|
  {
    if v == [] then []
    else
      var s := v[|v| - 1];
      Compiled(engine, v[..|v| - 1]) + (if engine.compiles(s) then [Regex(s)] else [])
  }

  /** Compiles every rule string in order, keeping those that compile and skipping
      (with a diagnostic, not modelled) those that do not. */
  method MakePatterns(engine: RegexEngine, v: seq<string>) returns (regexes: seq<Regex>)
    ensures regexes == Compiled(engine, v)
  {
    regexes := [];
    for i := 0 to |v|
      invariant regexes == Compiled(engine, v[..i])
    {
      assert v[..i + 1][..i] == v[..i];
      if engine.compiles(v[i]) {
        regexes := regexes + [Regex(v[i])];
      }
    }
    assert v[..|v|] == v;
  }

  /** Compiling two lists one after the other gives the two results one after the other. */
  lemma {:induction false} CompiledAppend(engine: RegexEngine, a: seq<string>, b: seq<string>)
    ensures Compiled(engine, a + b) == Compiled(engine, a) + Compiled(engine, b)
    decreases |b|
  {
    if b == [] {
      assert a + b == a;
    } else {
      var n := |b| - 1;
      assert (a + b)[..|a + b| - 1] == a + b[..n];
      CompiledAppend(engine, a, b[..n]);
    }
  }

  /** A rule string that does not compile is dropped without affecting any sibling:
      the batch compiles as if it had never been there. */
  lemma InvalidPatternSkipped(engine: RegexEngine, a: seq<string>, s: string, b: seq<string>)
    requires !engine.compiles(s)
    ensures Compiled(engine, a + [s] + b) == Compiled(engine, a + b)
  {
    CompiledAppend(engine, a + [s], b);
    CompiledAppend(engine, a, [s]);
    CompiledAppend(engine, a, b);
    assert [s][..0] == [];
  }

  /** `idx` lists, in strictly increasing order, exactly the positions of `v`
      whose strings compile, and `rs` holds the matchers for those positions. */
  ghost predicate SelectsCompiling(engine: RegexEngine, v: seq<string>, rs: seq<Regex>, idx: seq<int>)
  {
    && |idx| == |rs|
    && (forall k :: 0 <= k < |idx| ==> 0 <= idx[k] < |v| && engine.compiles(v[idx[k]]) && rs[k] == Regex(v[idx[k]]))
    && (forall k, l :: 0 <= k < l < |idx| ==> idx[k] < idx[l])
    && (forall i :: 0 <= i < |v| && engine.compiles(v[i]) ==> i in idx)
  }

  /** Appending one rule string extends the selection by its position when it compiles. */
  lemma SelectsExtend(engine: RegexEngine, v: seq<string>, rs: seq<Regex>, idx: seq<int>, s: string)
    requires SelectsCompiling(engine, v, rs, idx)
    ensures SelectsCompiling(engine, v + [s],
                             rs + (if engine.compiles(s) then [Regex(s)] else []),
                             idx + (if engine.compiles(s) then [|v|] else []))
  {
    var v' := v + [s];
    var idx' := idx + (if engine.compiles(s) then [|v|] else []);
    forall k | 0 <= k < |idx|
      ensures v'[idx'[k]] == v[idx[k]]
    {
    }
    forall i | 0 <= i < |v'| && engine.compiles(v'[i])
      ensures i in idx'
    {
      if i < |v| {
        assert v'[i] == v[i];
        assert i in idx;
      }
    }
  }

  /** The positions of the rule strings that compile, in increasing order. */
  lemma {:induction false} CompilingPositions(engine: RegexEngine, v: seq<string>) returns (idx: seq<int>)
    ensures SelectsCompiling(engine, v, Compiled(engine, v), idx)
  {
    if v == [] {
      idx := [];
      assert Compiled(engine, v) == [];
    } else {
      var n := |v| - 1;
      var idx0 := CompilingPositions(engine, v[..n]);
      SelectsExtend(engine, v[..n], Compiled(engine, v[..n]), idx0, v[n]);
      assert v[..n] + [v[n]] == v;
      idx := idx0 + (if engine.compiles(v[n]) then [n] else []);
    }
  }

  /** `make_patterns` returns exactly the strings that compile, in their original relative order. */
  lemma CompiledKeepsOrder(engine: RegexEngine, v: seq<string>)
    ensures exists idx :: SelectsCompiling(engine, v, Compiled(engine, v), idx)
  {
    var idx := CompilingPositions(engine, v);
  }
}
