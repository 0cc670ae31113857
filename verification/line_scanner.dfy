/**
 * Scanning one walked entry line by line (`check_file`). Opening and reading
 * the file are not part of this model: an entry carries the outcome of
 * opening it and the sequence of line lineReads.
 */
module LineScanner {
  import opened Wrappers
  import opened Text
  import opened Patterns

  /** The type of a walked entry. */
  datatype FileType = RegularFile | Directory | Symlink | OtherType

  /** One item of `BufRead::lines`: a line without its terminator, or a failed read. */
  datatype ReadLine = Line(text: string) | ReadFailure

  /** A walked entry: its path, its type (`None` when it is unknown), and what reading it
      yields (`None` when the file cannot be opened). */
  datatype Entry = Entry(path: string, fileType: Option<FileType>, contents: Option<seq<ReadLine>>)

  /** One prohibited value found: 1-based line number, line text and matcher source. */
  datatype ProhibitedResult = ProhibitedResult(lineNumber: nat, line: string, pattern: string)

  /** The lines that `lines().flatten()` yields: failed lineReads are dropped. */
  function Flatten(lineReads: seq<ReadLine>): (lines: seq<string>)
    ensures |lines| <= |lineReads|
  {
    if lineReads == [] then []
    else
      var last := lineReads[|lineReads| - 1];
      Flatten(lineReads[..|lineReads| - 1]) + (if last.Line? then [last.text] else [])
  }

  /** The records for one line numbered `n`, one per matcher of `regexes` (in list order)
      that matches it, unless the line carries the overrule marker. */
  function LineResults(engine: RegexEngine, regexes: seq<Regex>, overrule: string, line: string, n: nat)
    : seq<ProhibitedResult>
  {
    if regexes == [] then []
    else
      var r := regexes[|regexes| - 1];
      LineResults(engine, regexes[..|regexes| - 1], overrule, line, n)
      + (if engine.Matches(r, line) && !Contains(line, overrule) then [ProhibitedResult(n, line, r.source)] else [])
  }

  /** The records for the lines of a file, numbered from 1 in reading order. */
  function FileResults(engine: RegexEngine, regexes: seq<Regex>, overrule: string, lines: seq<string>)
    : seq<ProhibitedResult>
  {
    if lines == [] then []
    else
      FileResults(engine, regexes, overrule, lines[..|lines| - 1])
      + LineResults(engine, regexes, overrule, lines[|lines| - 1], |lines|)
  }

  /** What `check_file` returns for `entry`: nothing unless it is a regular file that opens. */
  function ExpectedResults(engine: RegexEngine, regexes: seq<Regex>, overrule: string, entry: Entry)
    : seq<ProhibitedResult>
  {
    if entry.fileType == Some(RegularFile) && entry.contents.Some? then
      FileResults(engine, regexes, overrule, Flatten(entry.contents.value))
    else []
  }

  /** Matcher `j` matches line `i` (0-based) and that line is not overruled. */
  ghost predicate IsHit(engine: RegexEngine, regexes: seq<Regex>, overrule: string, lines: seq<string>, i: int, j: int)
  {
    && 0 <= i < |lines| && 0 <= j < |regexes|
    && engine.Matches(regexes[j], lines[i]) && !Contains(lines[i], overrule)
  }

  /** Lexicographic order on (line index, matcher index). */
  ghost predicate Before(p: (int, int), q: (int, int))
  {
    p.0 < q.0 || (p.0 == q.0 && p.1 < q.1)
  }

  /** `results` holds one record per pair of `hits`, in the same order, and every pair is a hit. */
  ghost predicate RecordsOf(engine: RegexEngine, regexes: seq<Regex>, overrule: string, lines: seq<string>,
                            results: seq<ProhibitedResult>, hits: seq<(int, int)>)
  {
    && |results| == |hits|
    && (forall k :: 0 <= k < |hits| ==>
          && IsHit(engine, regexes, overrule, lines, hits[k].0, hits[k].1)
          && results[k] == ProhibitedResult(hits[k].0 + 1, lines[hits[k].0], regexes[hits[k].1].source))
  }

  /** The pairs of `hits` are strictly increasing: by line, then by matcher. */
  ghost predicate Ordered(hits: seq<(int, int)>)
  {
    forall a, b :: 0 <= a < b < |hits| ==> Before(hits[a], hits[b])
  }

  /** `hits` lists every hit pair exactly once, ordered by line and then by matcher, and
      `results` holds one record per pair, in the same order. */
  ghost predicate FollowsHits(engine: RegexEngine, regexes: seq<Regex>, overrule: string, lines: seq<string>,
                              results: seq<ProhibitedResult>, hits: seq<(int, int)>)
  {
    && RecordsOf(engine, regexes, overrule, lines, results, hits)
    && Ordered(hits)
    && (forall i, j :: IsHit(engine, regexes, overrule, lines, i, j) ==> (i, j) in hits)
  }

  /** The hit pairs of line `i` among the first `m` matchers, as `LineResults` lists them. */
  lemma {:induction false} LineHits(engine: RegexEngine, regexes: seq<Regex>, overrule: string,
                                    lines: seq<string>, i: nat, m: nat)
    returns (hits: seq<(int, int)>)
    requires i < |lines| && m <= |regexes|
    ensures RecordsOf(engine, regexes, overrule, lines,
                      LineResults(engine, regexes[..m], overrule, lines[i], i + 1), hits)
    ensures Ordered(hits)
    ensures forall k :: 0 <= k < |hits| ==> hits[k].0 == i && hits[k].1 < m
    ensures forall j :: 0 <= j < m && IsHit(engine, regexes, overrule, lines, i, j) ==> (i, j) in hits
  {
    if m == 0 {
      hits := [];
    } else {
      var h0 := LineHits(engine, regexes, overrule, lines, i, m - 1);
      assert regexes[..m][..m - 1] == regexes[..m - 1];
      var hit := engine.Matches(regexes[m - 1], lines[i]) && !Contains(lines[i], overrule);
      hits := h0 + (if hit then [(i, m - 1)] else []);
    }
  }

  /** The hits of the first `n` lines are hits of the whole file too. */
  lemma PrefixHits(engine: RegexEngine, regexes: seq<Regex>, overrule: string, lines: seq<string>, n: nat,
                   results: seq<ProhibitedResult>, hits: seq<(int, int)>)
    requires n <= |lines|
    requires FollowsHits(engine, regexes, overrule, lines[..n], results, hits)
    ensures RecordsOf(engine, regexes, overrule, lines, results, hits)
    ensures forall k :: 0 <= k < |hits| ==> hits[k].0 < n
    ensures forall i, j :: 0 <= i < n && IsHit(engine, regexes, overrule, lines, i, j) ==> (i, j) in hits
  {
    forall k | 0 <= k < |hits|
      ensures hits[k].0 < n && IsHit(engine, regexes, overrule, lines, hits[k].0, hits[k].1)
    {
      assert lines[..n][hits[k].0] == lines[hits[k].0];
    }
    forall i, j | 0 <= i < n && IsHit(engine, regexes, overrule, lines, i, j)
      ensures (i, j) in hits
    {
      assert lines[..n][i] == lines[i];
      assert IsHit(engine, regexes, overrule, lines[..n], i, j);
    }
  }

  /** The hits of the lines before line `n`, followed by the hits of line `n`, are the
      hits of a file whose last line is line `n`. */
  lemma JoinHits(engine: RegexEngine, regexes: seq<Regex>, overrule: string, lines: seq<string>, n: nat,
                 rs0: seq<ProhibitedResult>, h0: seq<(int, int)>, rs1: seq<ProhibitedResult>, h1: seq<(int, int)>)
    requires n + 1 == |lines|
    requires RecordsOf(engine, regexes, overrule, lines, rs0, h0) && Ordered(h0)
    requires forall k :: 0 <= k < |h0| ==> h0[k].0 < n
    requires forall i, j :: 0 <= i < n && IsHit(engine, regexes, overrule, lines, i, j) ==> (i, j) in h0
    requires RecordsOf(engine, regexes, overrule, lines, rs1, h1) && Ordered(h1)
    requires forall k :: 0 <= k < |h1| ==> h1[k].0 == n
    requires forall j :: IsHit(engine, regexes, overrule, lines, n, j) ==> (n, j) in h1
    ensures FollowsHits(engine, regexes, overrule, lines, rs0 + rs1, h0 + h1)
  {
    var hits, rs := h0 + h1, rs0 + rs1;
    forall k | 0 <= k < |hits|
      ensures IsHit(engine, regexes, overrule, lines, hits[k].0, hits[k].1)
      ensures rs[k] == ProhibitedResult(hits[k].0 + 1, lines[hits[k].0], regexes[hits[k].1].source)
    {
      if k >= |h0| {
        assert hits[k] == h1[k - |h0|] && rs[k] == rs1[k - |h0|];
      } else {
        assert hits[k] == h0[k] && rs[k] == rs0[k];
      }
    }
    forall a, b | 0 <= a < b < |hits|
      ensures Before(hits[a], hits[b])
    {
      if b < |h0| {
        assert hits[a] == h0[a] && hits[b] == h0[b];
      } else if a >= |h0| {
        assert hits[a] == h1[a - |h0|] && hits[b] == h1[b - |h0|];
      } else {
        assert hits[a] == h0[a] && hits[b] == h1[b - |h0|];
      }
    }
    forall i, j | IsHit(engine, regexes, overrule, lines, i, j)
      ensures (i, j) in hits
    {
      if i < n {
        assert (i, j) in h0;
      } else {
        assert (i, j) in h1;
      }
    }
  }

  /** The hit pairs that the records of a file follow. */
  lemma {:induction false} HitPairs(engine: RegexEngine, regexes: seq<Regex>, overrule: string, lines: seq<string>)
    returns (hits: seq<(int, int)>)
    ensures FollowsHits(engine, regexes, overrule, lines, FileResults(engine, regexes, overrule, lines), hits)
  {
    if lines == [] {
      hits := [];
      assert FileResults(engine, regexes, overrule, lines) == [];
    } else {
      var n := |lines| - 1;
      var rs0 := FileResults(engine, regexes, overrule, lines[..n]);
      var h0 := HitPairs(engine, regexes, overrule, lines[..n]);
      PrefixHits(engine, regexes, overrule, lines, n, rs0, h0);
      var h1 := LineHits(engine, regexes, overrule, lines, n, |regexes|);
      assert regexes[..|regexes|] == regexes;
      var rs1 := LineResults(engine, regexes, overrule, lines[n], n + 1);
      JoinHits(engine, regexes, overrule, lines, n, rs0, h0, rs1, h1);
      hits := h0 + h1;
    }
  }

  /** Accumulate-all: the records of a file are exactly one per (line, matcher) pair where
      the matcher matches a line that lacks the overrule marker, ordered by line and then
      by matcher-list order. */
  lemma FileResultsFollowHits(engine: RegexEngine, regexes: seq<Regex>, overrule: string, lines: seq<string>)
    ensures exists hits :: FollowsHits(engine, regexes, overrule, lines,
                                      FileResults(engine, regexes, overrule, lines), hits)
  {
    var hits := HitPairs(engine, regexes, overrule, lines);
  }

  /** Each record of a file names a line that was read (numbered from 1), holds that
      line's text, comes from a matcher that matches it, and never names an overruled
      line; records appear in non-decreasing line order. */
  lemma ResultsDescribeHits(engine: RegexEngine, regexes: seq<Regex>, overrule: string, lines: seq<string>,
                            rs: seq<ProhibitedResult>)
    requires rs == FileResults(engine, regexes, overrule, lines)
    ensures && (forall k :: 0 <= k < |rs| ==>
            && 1 <= rs[k].lineNumber <= |lines|
            && rs[k].line == lines[rs[k].lineNumber - 1]
            && !Contains(rs[k].line, overrule)
            && exists j :: 0 <= j < |regexes| && regexes[j].source == rs[k].pattern
                           && engine.Matches(regexes[j], rs[k].line))
      && (forall a, b :: 0 <= a < b < |rs| ==> rs[a].lineNumber <= rs[b].lineNumber)
  {
    var hits := HitPairs(engine, regexes, overrule, lines);
    forall k | 0 <= k < |rs|
      ensures 1 <= rs[k].lineNumber <= |lines| && rs[k].line == lines[rs[k].lineNumber - 1]
      ensures !Contains(rs[k].line, overrule)
      ensures exists j :: 0 <= j < |regexes| && regexes[j].source == rs[k].pattern
                          && engine.Matches(regexes[j], rs[k].line)
    {
      var (i, j) := hits[k];
      assert IsHit(engine, regexes, overrule, lines, i, j);
      assert rs[k] == ProhibitedResult(i + 1, lines[i], regexes[j].source);
    }
    forall a, b | 0 <= a < b < |rs|
      ensures rs[a].lineNumber <= rs[b].lineNumber
    {
      assert Before(hits[a], hits[b]);
    }
  }

  /** No record is ever produced for a line that contains the overrule marker. */
  lemma OverruledLinesExempt(engine: RegexEngine, regexes: seq<Regex>, overrule: string, entry: Entry)
    ensures forall r :: r in ExpectedResults(engine, regexes, overrule, entry) ==> !Contains(r.line, overrule)
  {
    if entry.fileType == Some(RegularFile) && entry.contents.Some? {
      var lines := Flatten(entry.contents.value);
      var rs := FileResults(engine, regexes, overrule, lines);
      ResultsDescribeHits(engine, regexes, overrule, lines, rs);
      forall r | r in rs
        ensures !Contains(r.line, overrule)
      {
        var k :| 0 <= k < |rs| && rs[k] == r;
      }
    }
  }

  /** An empty overrule marker occurs in every line, so it exempts every line. */
  lemma EmptyOverruleExemptsAll(engine: RegexEngine, regexes: seq<Regex>, entry: Entry)
    ensures ExpectedResults(engine, regexes, "", entry) == []
  {
    var rs := ExpectedResults(engine, regexes, "", entry);
    OverruledLinesExempt(engine, regexes, "", entry);
    if rs != [] {
      var r := rs[0];
      assert r in rs;
      ContainsEmpty(r.line);
      assert false;
    }
  }

  lemma {:induction false} FlattenAppend(a: seq<ReadLine>, b: seq<ReadLine>)
    ensures Flatten(a + b) == Flatten(a) + Flatten(b)
    decreases |b|
  {
    if b == [] {
      assert a + b == a;
    } else {
      var n := |b| - 1;
      assert (a + b)[..|a + b| - 1] == a + b[..n];
      FlattenAppend(a, b[..n]);
    }
  }

  /** A failed read is dropped and not counted: a line read after it gets the number
      it would have had without the failure, which is one more than the number of
      lines read successfully before it. */
  lemma LineNumbersCountReadLines(a: seq<ReadLine>, t: string, b: seq<ReadLine>)
    ensures Flatten(a + [ReadFailure] + b) == Flatten(a + b)
    ensures var lines := Flatten(a + [Line(t)] + b);
      |Flatten(a)| < |lines| && lines[|Flatten(a)|] == t
  {
    FlattenAppend(a + [ReadFailure], b);
    FlattenAppend(a, [ReadFailure]);
    FlattenAppend(a, b);
    FlattenAppend(a + [Line(t)], b);
    FlattenAppend(a, [Line(t)]);
    assert [ReadFailure][..0] == [] && [Line(t)][..0] == [];
  }

  /** Consuming read `k`: a line read extends the lines by that line and the records by
      the line's records; a failed read changes neither. */
  lemma ReadStep(engine: RegexEngine, regexes: seq<Regex>, overrule: string, lineReads: seq<ReadLine>, k: nat)
    requires k < |lineReads|
    ensures lineReads[k].ReadFailure? ==> Flatten(lineReads[..k + 1]) == Flatten(lineReads[..k])
    ensures lineReads[k].Line? ==>
      FileResults(engine, regexes, overrule, Flatten(lineReads[..k + 1]))
      == FileResults(engine, regexes, overrule, Flatten(lineReads[..k]))
         + LineResults(engine, regexes, overrule, lineReads[k].text, |Flatten(lineReads[..k])| + 1)
    ensures |Flatten(lineReads[..k + 1])| == |Flatten(lineReads[..k])| + (if lineReads[k].Line? then 1 else 0)
  {
    assert lineReads[..k + 1][..k] == lineReads[..k];
    var lines := Flatten(lineReads[..k + 1]);
    if lineReads[k].Line? {
      assert lines == Flatten(lineReads[..k]) + [lineReads[k].text];
      assert lines[..|lines| - 1] == Flatten(lineReads[..k]);
    }
  }

  /** `check_file`: scans a regular file that opens, numbering the lines it lineReads from 1 and
      testing every matcher against every line that lacks the overrule marker. */
  method CheckFile(engine: RegexEngine, entry: Entry, regexes: seq<Regex>, overrule: string)
    returns (results: seq<ProhibitedResult>)
    ensures results == ExpectedResults(engine, regexes, overrule, entry)
    ensures entry.fileType != Some(RegularFile) ==> results == []
    ensures entry.contents == None ==> results == []
  {
    results := [];
    if entry.fileType.Some? {
      if !entry.fileType.value.RegularFile? {
        return;
      }
      if entry.contents.Some? {
        var lineReads := entry.contents.value;
        var lineNumber := 1;
        for k := 0 to |lineReads|
          invariant lineNumber == |Flatten(lineReads[..k])| + 1
          invariant results == FileResults(engine, regexes, overrule, Flatten(lineReads[..k]))
        {
          ReadStep(engine, regexes, overrule, lineReads, k);
          if lineReads[k].Line? {
            var line := lineReads[k].text;
            for j := 0 to |regexes|
              invariant results == FileResults(engine, regexes, overrule, Flatten(lineReads[..k]))
                                   + LineResults(engine, regexes[..j], overrule, line, lineNumber)
            {
              assert regexes[..j + 1][..j] == regexes[..j];
              if engine.Matches(regexes[j], line) && !Contains(line, overrule) {
                results := results + [ProhibitedResult(lineNumber, line, regexes[j].source)];
              }
            }
            assert regexes[..|regexes|] == regexes;
            lineNumber := lineNumber + 1;
          }
        }
        assert lineReads[..|lineReads|] == lineReads;
      }
    }
  }
}
