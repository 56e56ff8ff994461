/** The older, unvalidated parsers at the top of the repository (`git.go`):
    the same git commands as `git/git.go`, but the ref field is kept
    verbatim and log lines are not split at all. */
module LegacyGit {
  import opened Outcomes
  import opened Text
  import Git

  /** The second tab-separated field of a line, verbatim. Go indexes
      `parts[1]` without a check and panics on a line with no tab. */
  function RefField(line: string): (r: Result<string>)
    ensures r.Success? <==> '\t' in line
    ensures r.Success? ==> |Split(line, '\t')| >= 2 && r.value == Split(line, '\t')[1]
    ensures r.Failure? ==> r.error == IndexOutOfRange(line)
  {
    var parts := Split(line, '\t');
    if |parts| < 2 then Failure(IndexOutOfRange(line)) else Success(parts[1])
  }

  /** `getRecentHeads`: the second field of every line of the trimmed
      output, in order, `refs/heads/` included; it fails exactly when some
      line has no tab, with the panic of the first such line. */
  function GetRecentHeads(output: Result<string>): (r: Result<seq<string>>)
    ensures output.Failure? ==> r == Failure(output.error)
    ensures output.Success? ==>
              var lines := Git.OutputLines(output.value);
              && (r.Success? <==> forall i :: 0 <= i < |lines| ==> '\t' in lines[i])
              && (r.Success? ==>
                    && |r.value| == |lines|
                    && forall i :: 0 <= i < |lines| ==> RefField(lines[i]) == Success(r.value[i]))
              && (r.Failure? ==>
                    exists k :: && 0 <= k < |lines|
                                && RefField(lines[k]) == Failure(r.error)
                                && forall i :: 0 <= i < k ==> '\t' in lines[i])
  {
    match output
    case Failure(e) => Failure(e)
    case Success(out) => Collect(Git.OutputLines(out), RefField)
  }

  /** `getLogs`: the trimmed output split into its lines, which are left
      as they are. Empty output gives one empty line, not an empty list. */
  function GetLogs(output: Result<string>): (r: Result<seq<string>>)
    ensures output.Failure? ==> r == Failure(output.error)
    ensures output.Success? ==>
              && r.Success?
              && |r.value| >= 1
              && Join(r.value, '\n') == TrimSpace(output.value)
              && forall i :: 0 <= i < |r.value| ==> '\n' !in r.value[i]
    ensures output.Success? && TrimSpace(output.value) == [] ==> r == Success([""])
  {
    match output
    case Failure(e) => Failure(e)
    case Success(out) =>
      JoinSplit(TrimSpace(out), '\n');
      Success(Split(TrimSpace(out), '\n'))
  }

  /** Wherever the validating parser of `git/git.go` accepts the listing,
      this one does too, and returns the same refs with `refs/heads/` still
      in front. */
  lemma {:induction false} RecentHeadsAgree(output: Result<string>)
    requires Git.GetRecentHeads(output).Success?
    ensures GetRecentHeads(output).Success?
    ensures |GetRecentHeads(output).value| == |Git.GetRecentHeads(output).value|
    ensures forall i :: 0 <= i < |GetRecentHeads(output).value| ==>
              GetRecentHeads(output).value[i] == Git.RefsHeads + Git.GetRecentHeads(output).value[i]
  {
    var lines := Git.OutputLines(output.value);
    forall i | 0 <= i < |lines|
      ensures '\t' in lines[i]
    {
      assert Git.HeadName(lines[i]).Success?;
    }
  }

  /** On empty output the two log parsers disagree: one line here, no
      commits there. */
  lemma EmptyLogsDiffer(out: string)
    requires AllSpace(out)
    ensures GetLogs(Success(out)) == Success([""])
    ensures Git.GetLogs(Success(out)) == Success([])
  {
  }
}
