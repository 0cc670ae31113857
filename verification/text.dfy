/**
 * Literal substring search on lines of text, as `str::contains` does with a
 * string needle. The overrule marker is tested with it.
 */
module Text {

  /** `marker` occurs in `line` at index `i`. */
  ghost predicate OccursAt(line: string, marker: string, i: int)
  {
    0 <= i && i + |marker| <= |line| && line[i..i + |marker|] == marker
  }

  /** An occurrence in `line` is either at its first index or one in its tail. */
  lemma OccursInTail(line: string, marker: string)
    requires |line| > 0
    ensures (exists i :: OccursAt(line, marker, i))
        <==> OccursAt(line, marker, 0) || exists i :: OccursAt(line[1..], marker, i)
  {
    forall i | OccursAt(line[1..], marker, i)
      ensures OccursAt(line, marker, i + 1)
    {
      assert line[1..][i..i + |marker|] == line[i + 1..i + 1 + |marker|];
    }
    forall i | OccursAt(line, marker, i) && i > 0
      ensures OccursAt(line[1..], marker, i - 1)
    {
      assert line[1..][i - 1..i - 1 + |marker|] == line[i..i + |marker|];
    }
  }

  /** True exactly when `marker` is a substring of `line`. */
  function Contains(line: string, marker: string): (r: bool)
    ensures r <==> exists i :: OccursAt(line, marker, i)
    decreases |line|
  {
    if |marker| > |line| then false
    else if line[..|marker|] == marker then
      assert OccursAt(line, marker, 0);
      true
    else
      OccursInTail(line, marker);
      Contains(line[1..], marker)
  }

  /** Every line contains the empty marker. */
  lemma ContainsEmpty(line: string)
    ensures Contains(line, "")
  {
    assert OccursAt(line, "", 0);
  }
}
