/**
 * The whole run (`main` after the configuration is loaded): compile the global
 * rules once, check every target group with them, and fold the group verdicts.
 */
module Prohibit {
  import opened Patterns
  import opened Groups

  /** The loaded configuration: overrule marker, global rules, target groups. */
  datatype Configuration = Configuration(overrule: string, global: seq<string>, specific: seq<Specific>)

  /** The report of one group: its effective matchers over all items of its walks. */
  function GroupReportOf(engine: RegexEngine, walk: string -> seq<WalkItem>, common: seq<Regex>,
                         overrule: string, specific: Specific): seq<Diagnostic>
  {
    GroupReport(engine, EffectivePatterns(engine, specific, common), overrule, WalkItems(walk, specific.targets))
  }

  /** The reports of `groups`, group after group. */
  function RunReport(engine: RegexEngine, walk: string -> seq<WalkItem>, common: seq<Regex>,
                     overrule: string, groups: seq<Specific>): seq<Diagnostic>
  {
    if groups == [] then []
    else
      RunReport(engine, walk, common, overrule, groups[..|groups| - 1])
      + GroupReportOf(engine, walk, common, overrule, groups[|groups| - 1])
  }

  /** Every group passes. */
  ghost predicate AllPass(engine: RegexEngine, walk: string -> seq<WalkItem>, common: seq<Regex>,
                          overrule: string, groups: seq<Specific>)
  {
    forall i :: 0 <= i < |groups| ==> GroupPasses(engine, walk, common, overrule, groups[i])
  }

  /** The run: every group is checked (`pass &=` does not short-circuit), and the run
      passes exactly when every group passes, which is exactly when nothing was reported. */
  method CheckConfiguration(engine: RegexEngine, walk: string -> seq<WalkItem>, configuration: Configuration)
    returns (pass: bool, report: seq<Diagnostic>)
    ensures var common := Compiled(engine, configuration.global);
      && (pass <==> AllPass(engine, walk, common, configuration.overrule, configuration.specific))
      && report == RunReport(engine, walk, common, configuration.overrule, configuration.specific)
    ensures pass <==> report == []
  {
    var commonPatterns := MakePatterns(engine, configuration.global);
    var groups := configuration.specific;
    pass := true;
    report := [];
    for i := 0 to |groups|
      invariant pass <==> AllPass(engine, walk, commonPatterns, configuration.overrule, groups[..i])
      invariant report == RunReport(engine, walk, commonPatterns, configuration.overrule, groups[..i])
      invariant pass <==> report == []
    {
      RunStep(engine, walk, commonPatterns, configuration.overrule, groups, i);
      var ok, groupReport := CheckSpecific(engine, walk, groups[i], commonPatterns, configuration.overrule);
      pass := pass && ok;
      report := report + groupReport;
    }
    assert groups[..|groups|] == groups;
  }

  /** Checking one more group extends the report by that group's block and the verdict
      by that group's verdict. */
  lemma RunStep(engine: RegexEngine, walk: string -> seq<WalkItem>, common: seq<Regex>,
                overrule: string, groups: seq<Specific>, i: nat)
    requires i < |groups|
    ensures RunReport(engine, walk, common, overrule, groups[..i + 1])
         == RunReport(engine, walk, common, overrule, groups[..i])
            + GroupReportOf(engine, walk, common, overrule, groups[i])
    ensures AllPass(engine, walk, common, overrule, groups[..i + 1])
        <==> AllPass(engine, walk, common, overrule, groups[..i])
             && GroupPasses(engine, walk, common, overrule, groups[i])
  {
    assert groups[..i + 1][..i] == groups[..i];
  }

  lemma {:induction false} RunReportAppend(engine: RegexEngine, walk: string -> seq<WalkItem>, common: seq<Regex>,
                                           overrule: string, a: seq<Specific>, b: seq<Specific>)
    ensures RunReport(engine, walk, common, overrule, a + b)
         == RunReport(engine, walk, common, overrule, a) + RunReport(engine, walk, common, overrule, b)
    decreases |b|
  {
    if b == [] {
      assert a + b == a;
    } else {
      var n := |b| - 1;
      calc {
        RunReport(engine, walk, common, overrule, a + b);
        { assert (a + b)[..|a + b| - 1] == a + b[..n] && (a + b)[|a + b| - 1] == b[n]; }
        RunReport(engine, walk, common, overrule, a + b[..n]) + GroupReportOf(engine, walk, common, overrule, b[n]);
        { RunReportAppend(engine, walk, common, overrule, a, b[..n]); }
        RunReport(engine, walk, common, overrule, a) + RunReport(engine, walk, common, overrule, b[..n])
        + GroupReportOf(engine, walk, common, overrule, b[n]);
        RunReport(engine, walk, common, overrule, a) + RunReport(engine, walk, common, overrule, b);
      }
    }
  }

  /** Group independence: each group's diagnostics form one block of the run's report,
      in group order, that depends only on that group and the global matchers; the
      groups around it neither add to it nor remove from it. */
  lemma GroupsAreIndependent(engine: RegexEngine, walk: string -> seq<WalkItem>, common: seq<Regex>,
                             overrule: string, a: seq<Specific>, g: Specific, b: seq<Specific>)
    ensures RunReport(engine, walk, common, overrule, a + [g] + b)
         == RunReport(engine, walk, common, overrule, a)
            + GroupReportOf(engine, walk, common, overrule, g)
            + RunReport(engine, walk, common, overrule, b)
  {
    RunReportAppend(engine, walk, common, overrule, a + [g], b);
    RunReportAppend(engine, walk, common, overrule, a, [g]);
    assert [g][..0] == [];
  }
}
