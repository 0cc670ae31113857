/**
 * One target group (`check_specific`): its effective matcher list, the walk of
 * its target roots and the group's verdict. The directory walk, with its
 * ignore-file rules, is not part of this model: `walk(root)` is the sequence
 * of items the walk of `root` yields.
 */
module Groups {
  import opened LineScanner
  import opened Patterns

  /** A target group: roots to scan and the group's own rule strings. */
  datatype Specific = Specific(targets: seq<string>, patterns: seq<string>)

  /** An item of the walk: an entry, or an error reported by the walk. */
  datatype WalkItem = Found(entry: Entry) | WalkError

  /** What the scanner reports while it walks: one prohibited value found in a file,
      or a walk error. */
  datatype Diagnostic = Violation(path: string, result: ProhibitedResult) | WalkFailure

  /** `check_specific` lines 81-85: the group's compiled patterns, then every global matcher. */
  method ResolveRuleSet(engine: RegexEngine, specific: Specific, common: seq<Regex>)
    returns (extraPatterns: seq<Regex>)
    ensures extraPatterns == Compiled(engine, specific.patterns) + common
  {
    extraPatterns := MakePatterns(engine, specific.patterns);
    for k := 0 to |common|
      invariant extraPatterns == Compiled(engine, specific.patterns) + common[..k]
    {
      assert common[..k + 1] == common[..k] + [common[k]];
      extraPatterns := extraPatterns + [common[k]];
    }
    assert common[..|common|] == common;
  }

  /** A group's effective matcher list: its own compiled patterns, then the global matchers. */
  function EffectivePatterns(engine: RegexEngine, specific: Specific, common: seq<Regex>): seq<Regex>
  {
    Compiled(engine, specific.patterns) + common
  }

  /** The items the walks of `targets` yield, root after root. */
  function WalkItems(walk: string -> seq<WalkItem>, targets: seq<string>): seq<WalkItem>
  {
    if targets == [] then []
    else WalkItems(walk, targets[..|targets| - 1]) + walk(targets[|targets| - 1])
  }

  /** An item is walked exactly when the walk of one of the targets yields it. */
  lemma {:induction false} WalkItemsMembership(walk: string -> seq<WalkItem>, targets: seq<string>, item: WalkItem)
    ensures item in WalkItems(walk, targets) <==> exists t :: t in targets && item in walk(t)
  {
    if targets != [] {
      var n := |targets| - 1;
      WalkItemsMembership(walk, targets[..n], item);
      assert targets == targets[..n] + [targets[n]];
    }
  }

  /** The diagnostics printed for the records found in the file at `path`, one per record. */
  function Violations(path: string, results: seq<ProhibitedResult>): (report: seq<Diagnostic>)
    ensures |report| == |results|
  {
    seq(|results|, k requires 0 <= k < |results| => Violation(path, results[k]))
  }

  /** What scanning one walk item reports. */
  function ItemReport(engine: RegexEngine, regexes: seq<Regex>, overrule: string, item: WalkItem)
    : seq<Diagnostic>
  {
    match item
    case WalkError => [WalkFailure]
    case Found(entry) => Violations(entry.path, ExpectedResults(engine, regexes, overrule, entry))
  }

  /** What scanning a sequence of walk items reports, item after item. */
  function GroupReport(engine: RegexEngine, regexes: seq<Regex>, overrule: string, items: seq<WalkItem>)
    : seq<Diagnostic>
  {
    if items == [] then []
    else
      GroupReport(engine, regexes, overrule, items[..|items| - 1])
      + ItemReport(engine, regexes, overrule, items[|items| - 1])
  }

  /** A walk item leaves the group passing: it is an entry and yields no record. */
  ghost predicate Clean(engine: RegexEngine, regexes: seq<Regex>, overrule: string, item: WalkItem)
  {
    item.Found? && ExpectedResults(engine, regexes, overrule, item.entry) == []
  }

  /** The group passes: with its effective matcher list, every item of every target's
      walk is an entry that yields no record. */
  ghost predicate GroupPasses(engine: RegexEngine, walk: string -> seq<WalkItem>, common: seq<Regex>,
                              overrule: string, specific: Specific)
  {
    var regexes := EffectivePatterns(engine, specific, common);
    forall t, item :: t in specific.targets && item in walk(t) ==> Clean(engine, regexes, overrule, item)
  }

  lemma {:induction false} GroupReportAppend(engine: RegexEngine, regexes: seq<Regex>, overrule: string,
                                             a: seq<WalkItem>, b: seq<WalkItem>)
    ensures GroupReport(engine, regexes, overrule, a + b)
         == GroupReport(engine, regexes, overrule, a) + GroupReport(engine, regexes, overrule, b)
    decreases |b|
  {
    if b == [] {
      assert a + b == a;
    } else {
      var n := |b| - 1;
      calc {
        GroupReport(engine, regexes, overrule, a + b);
        { assert (a + b)[..|a + b| - 1] == a + b[..n] && (a + b)[|a + b| - 1] == b[n]; }
        GroupReport(engine, regexes, overrule, a + b[..n]) + ItemReport(engine, regexes, overrule, b[n]);
        { GroupReportAppend(engine, regexes, overrule, a, b[..n]); }
        GroupReport(engine, regexes, overrule, a) + GroupReport(engine, regexes, overrule, b[..n])
        + ItemReport(engine, regexes, overrule, b[n]);
        GroupReport(engine, regexes, overrule, a) + GroupReport(engine, regexes, overrule, b);
      }
    }
  }

  /** Scanning item `k` of a walk extends the report by that item's diagnostics. */
  lemma ScanStep(engine: RegexEngine, regexes: seq<Regex>, overrule: string,
                 before: seq<WalkItem>, items: seq<WalkItem>, k: nat)
    requires k < |items|
    ensures GroupReport(engine, regexes, overrule, before + items[..k + 1])
         == GroupReport(engine, regexes, overrule, before + items[..k])
            + ItemReport(engine, regexes, overrule, items[k])
  {
    assert before + items[..k + 1] == (before + items[..k]) + [items[k]];
  }

  /** The group passes exactly when every walked item is clean. */
  lemma GroupPassesIffItemsClean(engine: RegexEngine, walk: string -> seq<WalkItem>, common: seq<Regex>,
                                 overrule: string, specific: Specific)
    ensures var regexes := EffectivePatterns(engine, specific, common);
      GroupPasses(engine, walk, common, overrule, specific)
      <==> forall item :: item in WalkItems(walk, specific.targets) ==> Clean(engine, regexes, overrule, item)
  {
    var regexes := EffectivePatterns(engine, specific, common);
    var items := WalkItems(walk, specific.targets);
    var clean := forall item :: item in items ==> Clean(engine, regexes, overrule, item);
    if GroupPasses(engine, walk, common, overrule, specific) {
      forall item | item in items
        ensures Clean(engine, regexes, overrule, item)
      {
        WalkItemsMembership(walk, specific.targets, item);
        var t :| t in specific.targets && item in walk(t);
      }
      assert clean;
    }
    if clean {
      forall t, item | t in specific.targets && item in walk(t)
        ensures Clean(engine, regexes, overrule, item)
      {
        WalkItemsMembership(walk, specific.targets, item);
      }
      assert GroupPasses(engine, walk, common, overrule, specific);
    }
  }

  /** A walk error does not stop the walk: it is reported where it occurs and every
      item after it is still scanned and reported. */
  lemma WalkErrorDoesNotStop(engine: RegexEngine, regexes: seq<Regex>, overrule: string,
                             a: seq<WalkItem>, b: seq<WalkItem>)
    ensures GroupReport(engine, regexes, overrule, a + [WalkError] + b)
         == GroupReport(engine, regexes, overrule, a) + [WalkFailure] + GroupReport(engine, regexes, overrule, b)
  {
    GroupReportAppend(engine, regexes, overrule, a + [WalkError], b);
    GroupReportAppend(engine, regexes, overrule, a, [WalkError]);
    assert [WalkError][..0] == [];
  }

  /** Nothing is reported for one walk item exactly when it is clean. */
  lemma ItemReportEmptyIffClean(engine: RegexEngine, regexes: seq<Regex>, overrule: string, item: WalkItem)
    ensures ItemReport(engine, regexes, overrule, item) == [] <==> Clean(engine, regexes, overrule, item)
  {
  }

  lemma {:induction false} ReportEmptyIffClean(engine: RegexEngine, regexes: seq<Regex>, overrule: string,
                                               items: seq<WalkItem>)
    ensures GroupReport(engine, regexes, overrule, items) == []
        <==> forall item :: item in items ==> Clean(engine, regexes, overrule, item)
  {
    if items != [] {
      var n := |items| - 1;
      var prefix, last := items[..n], items[n];
      ReportEmptyIffClean(engine, regexes, overrule, prefix);
      assert GroupReport(engine, regexes, overrule, items)
          == GroupReport(engine, regexes, overrule, prefix) + ItemReport(engine, regexes, overrule, last);
      ItemReportEmptyIffClean(engine, regexes, overrule, last);
      assert forall item :: item in items <==> item in prefix || item == last by {
        assert items == prefix + [last];
      }
    }
  }

  /** `check_specific`: scans every entry of every target's walk with the group's
      effective matchers. The group fails when an entry yields a record or the walk
      yields an error, and the walk goes on either way. */
  method CheckSpecific(engine: RegexEngine, walk: string -> seq<WalkItem>, specific: Specific,
                       common: seq<Regex>, overrule: string)
    returns (success: bool, report: seq<Diagnostic>)
    ensures report == GroupReport(engine, EffectivePatterns(engine, specific, common), overrule,
                                  WalkItems(walk, specific.targets))
    ensures success <==> GroupPasses(engine, walk, common, overrule, specific)
    ensures success <==> report == []
  {
    var extraPatterns := ResolveRuleSet(engine, specific, common);
    var targets := specific.targets;
    success := true;
    report := [];
    for i := 0 to |targets|
      invariant report == GroupReport(engine, extraPatterns, overrule, WalkItems(walk, targets[..i]))
      invariant success <==> report == []
    {
      assert targets[..i + 1][..i] == targets[..i];
      var items := walk(targets[i]);
      ghost var before := WalkItems(walk, targets[..i]);
      assert before + items[..0] == before;
      for k := 0 to |items|
        invariant report == GroupReport(engine, extraPatterns, overrule, before + items[..k])
        invariant success <==> report == []
      {
        ScanStep(engine, extraPatterns, overrule, before, items, k);
        match items[k]
        case Found(entry) =>
          var errors := CheckFile(engine, entry, extraPatterns, overrule);
          if errors != [] {
            success := false;
            report := report + Violations(entry.path, errors);
          }
        case WalkError =>
          report := report + [WalkFailure];
          success := false;
      }
      assert items[..|items|] == items;
      assert WalkItems(walk, targets[..i + 1]) == before + items;
    }
    assert targets[..|targets|] == targets;
    ReportEmptyIffClean(engine, extraPatterns, overrule, WalkItems(walk, targets));
    GroupPassesIffItemsClean(engine, walk, common, overrule, specific);
  }
}
