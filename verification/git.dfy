/** The git wrapper package (`git/git.go`): each query shells out to git and
    parses or classifies what comes back. Here the subprocess is replaced by
    what it returns — its standard output (or the error `Output()` reports) or
    its exit status — and every function is a pure parser or classifier of
    that value. */
module Git {
  import opened Outcomes
  import opened Text

  /** A branch name or any other commit-ish git accepts. */
  type Ref = string

  /** The prefix of local branch refs, matched by `^refs/heads/(.+)$`. */
  const RefsHeads: string := "refs/heads/"

  /** The trunk the tool assumes when nothing overrides it. */
  const DefaultTrunk: Ref := "origin/main"

  datatype Commit = Commit(hash: string, message: string)

  /** How a finished `cmd.Run()` ended: with an exit code (-1 when killed by
      a signal), or without ever starting. */
  datatype ExitStatus = Exited(code: int) | StartFailed(reason: string)

  /** The three results of `MergeBase`: hash, on-trunk flag and error. */
  datatype MergeBaseReply = MergeBaseReply(hash: string, onMain: bool, err: Option<Error>)

  // ---------------------------------------------------------------------
  // refs/heads/(.+)

  /** The submatch of `^refs/heads/(.+)$` on `s`: the text after the prefix,
      which must be non-empty and, since `.` does not match a newline, must
      hold no newline. */
  function RefHeadMatch(s: string): (r: Option<Ref>)
    ensures r.Some? <==> (HasPrefix(s, RefsHeads) && |s| > |RefsHeads| && '\n' !in s[|RefsHeads|..])
    ensures r.Some? ==> s == RefsHeads + r.value && r.value != [] && '\n' !in r.value
  {
    if HasPrefix(s, RefsHeads) && |s| > |RefsHeads| && '\n' !in s[|RefsHeads|..] then
      Some(s[|RefsHeads|..])
    else
      None
  }

  /** Every non-empty newline-free name is recovered from its full ref. */
  lemma RefHeadMatchName(name: Ref)
    requires name != [] && '\n' !in name
    ensures RefHeadMatch(RefsHeads + name) == Some(name)
  {
    var s := RefsHeads + name;
    assert s[..|RefsHeads|] == RefsHeads;
    assert s[|RefsHeads|..] == name;
  }

  // ---------------------------------------------------------------------
  // GetRecentHeads: git for-each-ref --sort=-committerdate --count=50 refs/heads/

  /** One line of `for-each-ref` output: the branch name from its second
      tab-separated field. A line without a tab has no second field; Go
      panics on `parts[1]`, modelled as `IndexOutOfRange`. */
  function HeadName(line: string): (r: Result<Ref>)
    ensures r.Success? <==> '\t' in line && RefHeadMatch(Split(line, '\t')[1]).Some?
    ensures r.Success? ==>
              && Split(line, '\t')[1] == RefsHeads + r.value
              && r.value != [] && '\t' !in r.value && '\n' !in r.value
    ensures '\t' !in line <==> r == Failure(IndexOutOfRange(line))
    ensures |Split(line, '\t')| >= 2 && RefHeadMatch(Split(line, '\t')[1]).None? ==>
              r == Failure(UnexpectedRefName(Split(line, '\t')[1]))
  {
    var parts := Split(line, '\t');
    if |parts| < 2 then Failure(IndexOutOfRange(line))
    else
      match RefHeadMatch(parts[1])
      case None => Failure(UnexpectedRefName(parts[1]))
      case Some(name) => Success(name)
  }

  /** The lines of a command's output once white space is trimmed from
      both ends. */
  function OutputLines(out: string): (lines: seq<string>)
    ensures |lines| >= 1
  {
    Split(TrimSpace(out), '\n')
  }

  /** Parses the output of `git for-each-ref`: one branch name per line of
      the trimmed output, in the same order; the first bad line decides the
      error. */
  function GetRecentHeads(output: Result<string>): (r: Result<seq<Ref>>)
    ensures output.Failure? ==> r == Failure(output.error)
    ensures output.Success? ==>
              var lines := OutputLines(output.value);
              && (r.Success? <==> forall i :: 0 <= i < |lines| ==> HeadName(lines[i]).Success?)
              && (r.Success? ==>
                    && |r.value| == |lines|
                    && forall i :: 0 <= i < |lines| ==> HeadName(lines[i]) == Success(r.value[i]))
              && (r.Failure? ==>
                    exists k :: && 0 <= k < |lines|
                                && HeadName(lines[k]) == Failure(r.error)
                                && forall i :: 0 <= i < k ==> HeadName(lines[i]).Success?)
  {
    match output
    case Failure(e) => Failure(e)
    case Success(out) => Collect(OutputLines(out), HeadName)
  }

  /** Parsing the listing panics: the output arrived, and the first bad line
      has no tab, so `parts[1]` is out of range. A panic is not an error
      value; it unwinds through every caller without being wrapped. */
  predicate RecentHeadsPanics(output: Result<string>) {
    output.Success? && GetRecentHeads(output).Failure? && GetRecentHeads(output).error.IndexOutOfRange?
  }

  /** A ref entry as `for-each-ref` prints it by default:
      `%(objectname) %(objecttype)<TAB>%(refname)`. */
  datatype HeadEntry = HeadEntry(oid: string, name: Ref)

  function HeadLine(e: HeadEntry): string {
    e.oid + " commit\t" + RefsHeads + e.name
  }

  function HeadLines(es: seq<HeadEntry>): (lines: seq<string>)
    ensures |lines| == |es|
  {
    seq(|es|, i requires 0 <= i < |es| => HeadLine(es[i]))
  }

  /** The complete output of `for-each-ref` for the given entries, each line
      terminated by a newline. */
  function ForEachRefOutput(es: seq<HeadEntry>): string {
    Join(HeadLines(es), '\n') + "\n"
  }

  function Names(es: seq<HeadEntry>): (names: seq<Ref>)
    ensures |names| == |es|
  {
    seq(|es|, i requires 0 <= i < |es| => es[i].name)
  }

  /** An entry git can print: a non-empty object name that does not start
      with white space, a non-empty branch name, and no tab or newline in
      either. */
  predicate WellFormedEntry(e: HeadEntry) {
    && e.oid != [] && !IsSpace(e.oid[0]) && '\t' !in e.oid && '\n' !in e.oid
    && e.name != [] && '\t' !in e.name && '\n' !in e.name
  }

  /** The branch name of one well-formed line is recovered. */
  lemma HeadNameOfLine(e: HeadEntry)
    requires WellFormedEntry(e)
    ensures HeadName(HeadLine(e)) == Success(e.name)
  {
    var a := e.oid + " commit";
    var b := RefsHeads + e.name;
    assert HeadLine(e) == a + ['\t'] + b;
    JoinPair(a, b, '\t');
    assert '\t' !in a;
    assert '\t' !in b;
    SplitJoin([a, b], '\t');
    RefHeadMatchName(e.name);
  }

  /** The trimmed `for-each-ref` output splits back into the entries'
      lines. */
  lemma {:induction false} ForEachRefLines(es: seq<HeadEntry>)
    requires |es| >= 1
    requires forall i :: 0 <= i < |es| ==> WellFormedEntry(es[i])
    requires var last := es[|es| - 1].name; last != [] && !IsSpace(last[|last| - 1])
    ensures OutputLines(ForEachRefOutput(es)) == HeadLines(es)
  {
    var lines := HeadLines(es);
    var t := Join(lines, '\n');
    forall i | 0 <= i < |lines|
      ensures '\n' !in lines[i]
    {
      assert lines[i] == es[i].oid + (" commit\t" + RefsHeads) + es[i].name;
    }
    assert lines[|lines| - 1] == HeadLine(es[|es| - 1]);
    JoinFirst(lines, '\n');
    JoinLast(lines, '\n');
    TrimSpaceNewline(t);
    SplitJoin(lines, '\n');
  }

  /** Round trip: parsing the output git prints for a non-empty list of
      branches gives back their names, in order. */
  lemma RecentHeadsRoundTrip(es: seq<HeadEntry>)
    requires |es| >= 1
    requires forall i :: 0 <= i < |es| ==> WellFormedEntry(es[i])
    requires var last := es[|es| - 1].name; last != [] && !IsSpace(last[|last| - 1])
    ensures GetRecentHeads(Success(ForEachRefOutput(es))) == Success(Names(es))
  {
    var lines := HeadLines(es);
    ForEachRefLines(es);
    forall i | 0 <= i < |lines|
      ensures HeadName(lines[i]) == Success(Names(es)[i])
    {
      HeadNameOfLine(es[i]);
    }
    CollectAll(lines, HeadName, Names(es));
  }

  /** No branches at all: the trimmed output is empty, its one line has no
      tab, and the unguarded `parts[1]` fails. */
  lemma RecentHeadsOfNothing(out: string)
    requires AllSpace(out)
    ensures GetRecentHeads(Success(out)) == Failure(IndexOutOfRange(""))
    ensures RecentHeadsPanics(Success(out))
  {
    assert Split("", '\t') == [""];
  }

  // ---------------------------------------------------------------------
  // GetLogs: git log --pretty=format:%H<TAB>%s origin/main..<ref>

  /** The `%H<TAB>%s` line git prints for a commit. */
  function LogLine(c: Commit): string {
    c.hash + "\t" + c.message
  }

  function LogLines(cs: seq<Commit>): (lines: seq<string>)
    ensures |lines| == |cs|
  {
    seq(|cs|, i requires 0 <= i < |cs| => LogLine(cs[i]))
  }

  /** The output of `git log --pretty=format:%H<TAB>%s`: the commit lines
      separated (not terminated) by newlines. */
  function FormatLog(cs: seq<Commit>): string {
    Join(LogLines(cs), '\n')
  }

  /** One log line: exactly two tab-separated fields, hash then subject. */
  function ParseLogLine(line: string): (r: Result<Commit>)
    ensures r.Success? <==> Count(line, '\t') == 1
    ensures r.Success? ==> LogLine(r.value) == line && '\t' !in r.value.hash && '\t' !in r.value.message
    ensures r.Failure? ==> r.error == UnexpectedLogLine(line)
  {
    var parts := Split(line, '\t');
    if |parts| != 2 then Failure(UnexpectedLogLine(line))
    else
      JoinSplit(line, '\t');
      JoinPair(parts[0], parts[1], '\t');
      assert parts == [parts[0], parts[1]];
      Success(Commit(parts[0], parts[1]))
  }

  /** The parse of a line is the only commit that prints as that line. */
  lemma ParseLogLineOf(c: Commit)
    requires '\t' !in c.hash && '\t' !in c.message
    ensures ParseLogLine(LogLine(c)) == Success(c)
  {
    JoinPair(c.hash, c.message, '\t');
    SplitJoin([c.hash, c.message], '\t');
  }

  /** Parses `git log` output: no commits for empty output, otherwise one
      commit per line, in order, each line being exactly what that commit
      prints as; the first line without exactly one tab is the error. */
  function GetLogs(output: Result<string>): (r: Result<seq<Commit>>)
    ensures output.Failure? ==> r == Failure(output.error)
    ensures output.Success? && TrimSpace(output.value) == [] ==> r == Success([])
    ensures output.Success? && r.Success? && r.value != [] ==>
              FormatLog(r.value) == TrimSpace(output.value)
    ensures output.Success? && r.Success? ==> (r.value == [] <==> TrimSpace(output.value) == [])
    ensures output.Success? && TrimSpace(output.value) != [] ==>
              var lines := OutputLines(output.value);
              && (r.Success? <==> forall i :: 0 <= i < |lines| ==> ParseLogLine(lines[i]).Success?)
              && (r.Success? ==>
                    && |r.value| == |lines|
                    && forall i :: 0 <= i < |lines| ==> ParseLogLine(lines[i]) == Success(r.value[i]))
              && (r.Failure? ==>
                    exists k :: && 0 <= k < |lines|
                                && ParseLogLine(lines[k]) == Failure(r.error)
                                && forall i :: 0 <= i < k ==> ParseLogLine(lines[i]).Success?)
  {
    match output
    case Failure(e) => Failure(e)
    case Success(out) =>
      var trimmed := TrimSpace(out);
      if trimmed == [] then Success([])
      else
        var r := Collect(OutputLines(out), ParseLogLine);
        if r.Success? then
          CommitsPrintBack(out, r.value);
          r
        else
          r
  }

  /** Parsed commits print back as the trimmed output they came from. */
  lemma CommitsPrintBack(out: string, cs: seq<Commit>)
    requires Collect(OutputLines(out), ParseLogLine) == Success(cs)
    ensures FormatLog(cs) == TrimSpace(out)
  {
    var lines := OutputLines(out);
    assert LogLines(cs) == lines;
    JoinSplit(TrimSpace(out), '\n');
  }

  /** A commit git can print on one line. */
  predicate PrintableCommit(c: Commit) {
    '\t' !in c.hash && '\n' !in c.hash && '\t' !in c.message && '\n' !in c.message
  }

  /** Round trip: a non-empty list of printable commits whose output has no
      white space at its two ends parses back to itself. */
  lemma {:induction false} LogsRoundTrip(cs: seq<Commit>)
    requires |cs| >= 1
    requires forall i :: 0 <= i < |cs| ==> PrintableCommit(cs[i])
    requires cs[0].hash != [] && !IsSpace(cs[0].hash[0])
    requires cs[|cs| - 1].message != [] && !IsSpace(cs[|cs| - 1].message[|cs[|cs| - 1].message| - 1])
    ensures GetLogs(Success(FormatLog(cs))) == Success(cs)
  {
    var lines := LogLines(cs);
    var t := FormatLog(cs);
    forall i | 0 <= i < |lines|
      ensures '\n' !in lines[i]
    {
      assert lines[i] == cs[i].hash + "\t" + cs[i].message;
    }
    JoinFirst(lines, '\n');
    JoinLast(lines, '\n');
    TrimSpaceFixed(t);
    SplitJoin(lines, '\n');
    forall i | 0 <= i < |lines|
      ensures ParseLogLine(lines[i]) == Success(cs[i])
    {
      ParseLogLineOf(cs[i]);
    }
    CollectAll(lines, ParseLogLine, cs);
  }

  // ---------------------------------------------------------------------
  // IsAncestor, MergeBase, CurrentBranch

  /** Classifies the exit status of `git merge-base --is-ancestor a b`:
      0 means `a` is an ancestor of `b`, 1 means it is not, anything else is
      an error (on which Go also returns `false`). */
  function IsAncestor(status: ExitStatus): (r: Result<bool>)
    ensures r == Success(true) <==> status == Exited(0)
    ensures r == Success(false) <==> status == Exited(1)
    ensures r.Failure? <==> status != Exited(0) && status != Exited(1)
    ensures status.Exited? && r.Failure? ==> r.error == ExitError(status.code)
    ensures status.StartFailed? ==> r == Failure(StartError(status.reason))
  {
    match status
    case Exited(code) =>
      if code == 0 then Success(true)
      else if code == 1 then Success(false)
      else Failure(ExitError(code))
    case StartFailed(reason) => Failure(StartError(reason))
  }

  /** `MergeBase(a, b)` given the result of `git merge-base a b` and an
      oracle for the exit status of `git merge-base --is-ancestor`: the
      trimmed hash, and whether it is an ancestor of `trunk`. */
  function MergeBase(output: Result<string>, trunk: Ref, ancestorStatus: (Ref, Ref) -> ExitStatus)
    : (r: MergeBaseReply)
    ensures output.Failure? ==> r == MergeBaseReply("", false, Some(output.error))
    ensures output.Success? ==> r.hash == TrimSpace(output.value)
    ensures output.Success? ==>
              (r.err.None? <==> IsAncestor(ancestorStatus(r.hash, trunk)).Success?)
    ensures r.err.None? ==> (r.onMain <==> ancestorStatus(r.hash, trunk) == Exited(0))
    ensures output.Success? && r.err.Some? ==>
              IsAncestor(ancestorStatus(r.hash, trunk)) == Failure(r.err.value)
    ensures r.err.Some? ==> !r.onMain
  {
    match output
    case Failure(e) => MergeBaseReply("", false, Some(e))
    case Success(out) =>
      var hash := TrimSpace(out);
      match IsAncestor(ancestorStatus(hash, trunk))
      case Failure(e) => MergeBaseReply(hash, false, Some(e))
      case Success(onMain) => MergeBaseReply(hash, onMain, None)
  }

  /** The branch `git symbolic-ref HEAD` names: `X` for a trimmed output of
      `refs/heads/X`, an error naming the untrimmed output otherwise. */
  function CurrentBranch(output: Result<string>): (r: Result<Ref>)
    ensures output.Failure? ==> r == Failure(output.error)
    ensures r.Success? ==>
              && TrimSpace(output.value) == RefsHeads + r.value
              && r.value != [] && '\n' !in r.value
    ensures output.Success? && r.Failure? ==> r.error == UnexpectedRefName(output.value)
    ensures output.Success? ==> (r.Success? <==> RefHeadMatch(TrimSpace(output.value)).Some?)
  {
    match output
    case Failure(e) => Failure(e)
    case Success(out) =>
      match RefHeadMatch(TrimSpace(out))
      case None => Failure(UnexpectedRefName(out))
      case Some(name) => Success(name)
  }

  /** Round trip: on branch `name`, `git symbolic-ref HEAD` prints
      `refs/heads/<name>` and a newline, and that parses back to `name`. */
  lemma CurrentBranchRoundTrip(name: Ref)
    requires name != [] && '\n' !in name && !IsSpace(name[|name| - 1])
    ensures CurrentBranch(Success(RefsHeads + name + "\n")) == Success(name)
  {
    var full := RefsHeads + name;
    assert full[0] == 'r';
    assert full[|full| - 1] == name[|name| - 1];
    TrimSpaceNewline(full);
    RefHeadMatchName(name);
  }
}
