/** The rest of `main.go`: `getCandidateStack` turns the recent branches
    into the refs of the stack, and `run` chains the current branch, the
    stack, the sort and the final reversal, so that the branch nearest the
    tip of the current work comes first. */
module Stack {
  import opened Outcomes
  import opened Git
  import opened GitClient
  import opened Resolver
  import opened Sorter

  const RecentHeadsContext: string := "error getting recent heads"
  const MergeBasesContext: string := "error getting merge bases"
  const CurrentBranchContext: string := "could not get current branch"
  const BuildStackContext: string := "error building stack"
  const SortingContext: string := "error sorting"

  /** The trunk: the value of `GIT_MAIN` when that variable is set (even to
      the empty string), `origin/main` otherwise. */
  function TrunkName(gitMain: Option<string>): (trunk: Ref)
    ensures gitMain.Some? ==> trunk == gitMain.value
    ensures gitMain.None? ==> trunk == DefaultTrunk
  {
    gitMain.GetOr(DefaultTrunk)
  }

  /** The key-collecting loop of `getCandidateStack`: every key of the map
      exactly once, in whatever order the map yields them. */
  method KeysOf(m: map<Ref, string>) returns (keys: seq<Ref>)
    ensures forall k :: k in keys <==> k in m
    ensures Distinct(keys)
    ensures |keys| == |m|
  {
    keys := [];
    var rest := m.Keys;
    while rest != {}
      invariant rest <= m.Keys
      invariant forall k :: k in keys <==> k in m && k !in rest
      invariant Distinct(keys)
      invariant |keys| + |rest| == |m.Keys|
      decreases |rest|
    {
      var k :| k in rest;
      keys := keys + [k];
      rest := rest - {k};
    }
  }

  /** `getCandidateStack`: the recent branches whose merge base with
      `target` is not on trunk, each once, in no particular order. Errors
      come back wrapped; the panic of a tab-less listing line does not. */
  method CandidateStack(c: Client, forEachRef: Result<string>, target: Ref) returns (r: Result<seq<Ref>>)
    ensures RecentHeadsPanics(forEachRef) ==> r == Failure(GetRecentHeads(forEachRef).error)
    ensures GetRecentHeads(forEachRef).Failure? && !RecentHeadsPanics(forEachRef) ==>
              r == Failure(Wrapped(RecentHeadsContext, GetRecentHeads(forEachRef).error))
    ensures GetRecentHeads(forEachRef).Success? ==>
              var heads := GetRecentHeads(forEachRef).value;
              && (r.Success? <==> forall ref :: ref in heads ==> c.mergeBase(target, ref).Success?)
              && (r.Success? ==>
                    && Distinct(r.value)
                    && forall ref :: ref in r.value <==> ref in heads && Kept(c, target, ref))
              && (r.Failure? ==>
                    exists ref :: && ref in heads
                                  && c.mergeBase(target, ref).Failure?
                                  && r.error == Wrapped(MergeBasesContext, c.mergeBase(target, ref).error))
  {
    var heads := GetRecentHeads(forEachRef);
    if heads.Failure? {
      if forEachRef.Success? && heads.error.IndexOutOfRange? {
        return Failure(heads.error);
      }
      return Failure(Wrapped(RecentHeadsContext, heads.error));
    }
    var bases := MergeBases(c, target, heads.value);
    if bases.Failure? {
      return Failure(Wrapped(MergeBasesContext, bases.error));
    }
    var keys := KeysOf(bases.value);
    r := Success(keys);
  }

  /** `slices.Reverse`. */
  function Reverse<T>(s: seq<T>): (r: seq<T>)
    ensures |r| == |s|
    ensures forall i :: 0 <= i < |s| ==> r[i] == s[|s| - 1 - i]
  {
    if |s| == 0 then [] else Reverse(s[1..]) + [s[0]]
  }

  /** Reversing twice gives back the sequence. */
  lemma ReverseReverse<T>(s: seq<T>)
    ensures Reverse(Reverse(s)) == s
  {
  }

  /** Every ref is a descendant of every ref after it. */
  ghost predicate Descending(c: Client, s: seq<Ref>) {
    forall i, j :: 0 <= i < j < |s| ==> Before(c, s[j], s[i])
  }

  /** Reversing the ascending order puts the most-descendant ref first:
      every other ref is its ancestor. */
  lemma ReverseAscending(c: Client, s: seq<Ref>)
    requires Ascending(c, s)
    ensures Descending(c, Reverse(s))
    ensures |s| > 0 ==> forall i :: 1 <= i < |s| ==> Before(c, Reverse(s)[i], Reverse(s)[0])
  {
    var r := Reverse(s);
    forall i, j | 0 <= i < j < |r|
      ensures Before(c, r[j], r[i])
    {
      assert r[j] == s[|s| - 1 - j] && r[i] == s[|s| - 1 - i];
    }
  }

  lemma {:induction false} DistinctCount(s: seq<Ref>, x: Ref)
    requires Distinct(s)
    ensures multiset(s)[x] <= 1
    decreases |s|
  {
    if |s| > 0 {
      assert s == [s[0]] + s[1..];
      DistinctCount(s[1..], x);
      if s[0] == x {
        assert x !in s[1..];
      }
    }
  }

  /** A rearrangement of distinct refs is distinct. */
  lemma DistinctPermutation(a: seq<Ref>, b: seq<Ref>)
    requires multiset(a) == multiset(b) && Distinct(a)
    ensures Distinct(b)
  {
    forall i, j | 0 <= i < j < |b|
      ensures b[i] != b[j]
    {
      if b[i] == b[j] {
        assert b == b[..j] + [b[j]] + b[j + 1..];
        assert b[i] in b[..j];
        assert multiset(b)[b[j]] >= 2;
        DistinctCount(a, b[j]);
      }
    }
  }

  /** Reversal keeps the refs and their distinctness. */
  lemma ReverseRefs(s: seq<Ref>)
    requires Distinct(s)
    ensures forall z :: z in Reverse(s) <==> z in s
    ensures Distinct(Reverse(s))
  {
    var r := Reverse(s);
    forall z | z in s
      ensures z in r
    {
      var k :| 0 <= k < |s| && s[k] == z;
      assert r[|s| - 1 - k] == z;
    }
  }

  /** What the caller sees of a successful sort of distinct refs once it is
      reversed: the same refs, still distinct, and in descending order when
      git's answers form a chain on them. */
  lemma DisplayOrder(c: Client, stack: seq<Ref>)
    requires Distinct(stack)
    requires SortRefs(c, stack).err.None?
    ensures var out := Reverse(SortRefs(c, stack).refs);
            && (forall ref :: ref in out <==> ref in stack)
            && Distinct(out)
            && (Chain(c, out) ==> Descending(c, out))
  {
    var refs := SortRefs(c, stack).refs;
    assert forall ref :: ref in refs <==> ref in multiset(stack);
    DistinctPermutation(stack, refs);
    ReverseRefs(refs);
    var out := Reverse(refs);
    if Chain(c, out) {
      ChainWithin(c, out, stack);
      SortRefsAscending(c, stack);
      ReverseAscending(c, refs);
    }
  }

  /** Sorting the kept candidates: no error when git's answers form a chain
      on them, and otherwise any error is that of an ancestry query between
      two distinct kept candidates. */
  lemma SortOfKept(c: Client, target: Ref, heads: seq<Ref>, stack: seq<Ref>)
    requires Distinct(stack)
    requires forall ref :: ref in stack <==> ref in heads && Kept(c, target, ref)
    ensures Chain(c, KeptHeads(c, target, heads)) ==> SortRefs(c, stack).err.None?
    ensures SortRefs(c, stack).err.Some? ==>
              exists a, b :: && a in heads && Kept(c, target, a)
                             && b in heads && Kept(c, target, b)
                             && a != b && c.isAncestor(a, b) == Failure(SortRefs(c, stack).err.value)
  {
    var kept := KeptHeads(c, target, heads);
    if Chain(c, kept) {
      ChainWithin(c, kept, stack);
      SortRefsAscending(c, stack);
    }
    var sorted := SortRefs(c, stack);
    if sorted.err.Some? {
      SortRefsSticky(c, stack);
      SortRefsAsks(c, stack);
      var q := sorted.asked[|sorted.asked| - 1];
      assert q in sorted.asked;
    }
  }

  /** `run`: the stack of the current branch, most-descendant branch first.
      On success it holds exactly the recent branches whose merge base with
      the current branch is off trunk, each once; when git's ancestry
      answers form a chain on them, the run succeeds and each branch comes
      before all of its ancestors. A failed sort reports the failing
      ancestry query of two of those branches. */
  method Run(gitMain: Option<string>, repo: Repo, symbolicRef: Result<string>, forEachRef: Result<string>)
    returns (r: Result<seq<Ref>>)
    ensures CurrentBranch(symbolicRef).Failure? ==>
              r == Failure(Wrapped(CurrentBranchContext, CurrentBranch(symbolicRef).error))
    ensures CurrentBranch(symbolicRef).Success? && RecentHeadsPanics(forEachRef) ==>
              r == Failure(GetRecentHeads(forEachRef).error)
    ensures CurrentBranch(symbolicRef).Success? && GetRecentHeads(forEachRef).Failure?
            && !RecentHeadsPanics(forEachRef) ==>
              r == Failure(Wrapped(BuildStackContext,
                                   Wrapped(RecentHeadsContext, GetRecentHeads(forEachRef).error)))
    ensures CurrentBranch(symbolicRef).Success? && GetRecentHeads(forEachRef).Success? ==>
              var c := Connect(TrunkName(gitMain), repo);
              var target := CurrentBranch(symbolicRef).value;
              var heads := GetRecentHeads(forEachRef).value;
              && ((exists ref :: ref in heads && c.mergeBase(target, ref).Failure?) ==>
                    exists ref :: && ref in heads
                                  && c.mergeBase(target, ref).Failure?
                                  && r == Failure(Wrapped(BuildStackContext,
                                                          Wrapped(MergeBasesContext, c.mergeBase(target, ref).error))))
              && ((forall ref :: ref in heads ==> c.mergeBase(target, ref).Success?) ==>
                    && (Chain(c, KeptHeads(c, target, heads)) ==> r.Success?)
                    && (r.Failure? ==>
                          exists a, b :: && a in heads && Kept(c, target, a)
                                         && b in heads && Kept(c, target, b)
                                         && a != b && c.isAncestor(a, b).Failure?
                                         && r == Failure(Wrapped(SortingContext, c.isAncestor(a, b).error))))
    ensures r.Success? ==>
              && CurrentBranch(symbolicRef).Success?
              && GetRecentHeads(forEachRef).Success?
              && var c := Connect(TrunkName(gitMain), repo);
                 var target := CurrentBranch(symbolicRef).value;
                 && (forall ref :: ref in GetRecentHeads(forEachRef).value ==> c.mergeBase(target, ref).Success?)
                 && (forall ref :: ref in r.value <==> ref in GetRecentHeads(forEachRef).value && Kept(c, target, ref))
                 && Distinct(r.value)
                 && (Chain(c, r.value) ==> Descending(c, r.value))
  {
    var c := Connect(TrunkName(gitMain), repo);
    var current := CurrentBranch(symbolicRef);
    if current.Failure? {
      return Failure(Wrapped(CurrentBranchContext, current.error));
    }
    var stack := CandidateStack(c, forEachRef, current.value);
    if stack.Failure? {
      if stack.error.IndexOutOfRange? {
        return stack;
      }
      return Failure(Wrapped(BuildStackContext, stack.error));
    }
    SortOfKept(c, current.value, GetRecentHeads(forEachRef).value, stack.value);
    var sorted := SortRefs(c, stack.value);
    if sorted.err.Some? {
      return Failure(Wrapped(SortingContext, sorted.err.value));
    }
    var out := Reverse(sorted.refs);
    DisplayOrder(c, stack.value);
    r := Success(out);
  }
}
