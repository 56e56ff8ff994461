/** The `git.Client` value `main.go` queries. Its source is not part of this
    model. To `main.go` it is an oracle answering two questions; `Connect`
    builds that oracle from the queries of `git/git.go`, with the trunk
    branch held by the client instead of a package constant. */
module GitClient {
  import opened Outcomes
  import opened Text
  import opened Git

  /** The answer `MergeBase` gives when it succeeds: the merge-base hash and
      whether that hash is already on trunk. */
  datatype Base = Base(hash: string, onMain: bool)

  /** The two queries `main.go` makes: `mergeBase(target, ref)` and
      `isAncestor(a, b)`. */
  datatype Client = Client(mergeBase: (Ref, Ref) -> Result<Base>,
                           isAncestor: (Ref, Ref) -> Result<bool>)

  /** The repository as the tool sees it: what `git merge-base a b` returns
      and how `git merge-base --is-ancestor a b` exits. */
  datatype Repo = Repo(mergeBaseOutput: (Ref, Ref) -> Result<string>,
                       ancestorStatus: (Ref, Ref) -> ExitStatus)

  /** `MergeBase` of `git/git.go` against `trunk`, with its error (if any)
      turning the whole answer into a failure. */
  function RepoMergeBase(trunk: Ref, repo: Repo, a: Ref, b: Ref): (r: Result<Base>)
    ensures repo.mergeBaseOutput(a, b).Failure? ==> r == Failure(repo.mergeBaseOutput(a, b).error)
    ensures repo.mergeBaseOutput(a, b).Success? ==>
              var hash := TrimSpace(repo.mergeBaseOutput(a, b).value);
              && (r.Success? <==> IsAncestor(repo.ancestorStatus(hash, trunk)).Success?)
              && (r.Failure? ==> r.error == IsAncestor(repo.ancestorStatus(hash, trunk)).error)
    ensures r.Success? ==>
              && r.value.hash == TrimSpace(repo.mergeBaseOutput(a, b).value)
              && (r.value.onMain <==> repo.ancestorStatus(r.value.hash, trunk) == Exited(0))
  {
    var reply := MergeBase(repo.mergeBaseOutput(a, b), trunk, repo.ancestorStatus);
    match reply.err
    case Some(e) => Failure(e)
    case None => Success(Base(reply.hash, reply.onMain))
  }

  /** The client of a repository with the given trunk. */
  function Connect(trunk: Ref, repo: Repo): Client {
    Client((a, b) => RepoMergeBase(trunk, repo, a, b),
           (a, b) => IsAncestor(repo.ancestorStatus(a, b)))
  }
}
