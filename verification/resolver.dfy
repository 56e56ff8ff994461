/** `getMergeBases` (`main.go`): asks the client for the merge base of the
    target with every candidate, drops the candidates whose merge base is
    already on trunk, and collects `ref -> merge base` for the rest. The
    source spreads the queries over a pool of goroutines; what a caller can
    observe is the sequential fold below, except for which error is reported
    when several queries fail — `Permitted` states every outcome the
    concurrent code may produce. */
module Resolver {
  import opened Outcomes
  import opened Git
  import opened GitClient

  /** A candidate survives when its merge base is known and not on trunk. */
  predicate Kept(c: Client, target: Ref, ref: Ref) {
    match c.mergeBase(target, ref)
    case Success(b) => !b.onMain
    case Failure(_) => false
  }

  /** The candidates that survive, in list order. */
  function KeptHeads(c: Client, target: Ref, refs: seq<Ref>): (ks: seq<Ref>)
    ensures forall z :: z in ks <==> z in refs && Kept(c, target, z)
    decreases |refs|
  {
    if |refs| == 0 then []
    else
      assert forall z :: z in refs <==> z == refs[0] || z in refs[1..];
      var rest := KeptHeads(c, target, refs[1..]);
      if Kept(c, target, refs[0]) then [refs[0]] + rest else rest
  }

  /** The outcomes `getMergeBases` may produce: without any failing query,
      exactly the map from each kept candidate to its merge base; with one,
      the error of some failing query and no map. */
  ghost predicate Permitted(c: Client, target: Ref, refs: seq<Ref>, r: Result<map<Ref, string>>) {
    match r
    case Success(m) =>
      && (forall ref :: ref in refs ==> c.mergeBase(target, ref).Success?)
      && (forall ref :: ref in m <==> ref in refs && Kept(c, target, ref))
      && (forall ref :: ref in m ==> m[ref] == c.mergeBase(target, ref).value.hash)
    case Failure(e) =>
      exists ref :: ref in refs && c.mergeBase(target, ref) == Failure(e)
  }

  /** The candidates resolved in list order, stopping at the first error. */
  function MergeBases(c: Client, target: Ref, refs: seq<Ref>): (r: Result<map<Ref, string>>)
    ensures Permitted(c, target, refs, r)
    ensures r.Success? <==> forall ref :: ref in refs ==> c.mergeBase(target, ref).Success?
    decreases |refs|
  {
    if |refs| == 0 then Success(map[])
    else
      var ref := refs[0];
      assert forall x :: x in refs <==> x == ref || x in refs[1..];
      match c.mergeBase(target, ref)
      case Failure(e) => Failure(e)
      case Success(b) =>
        match MergeBases(c, target, refs[1..])
        case Failure(e) => Failure(e)
        case Success(m) =>
          if b.onMain then Success(m) else Success(m[ref := b.hash])
  }

  /** Apart from the choice of error, the outcome is determined: a
      successful outcome is the only permitted one. */
  lemma SuccessDetermined(c: Client, target: Ref, refs: seq<Ref>, r1: Result<map<Ref, string>>,
                          r2: Result<map<Ref, string>>)
    requires Permitted(c, target, refs, r1) && Permitted(c, target, refs, r2)
    requires r1.Success?
    ensures r2 == r1
  {
    if r2.Success? {
      var m1, m2 := r1.value, r2.value;
      forall ref | ref in m1
        ensures ref in m2 && m1[ref] == m2[ref]
      {
      }
      forall ref | ref in m2
        ensures ref in m1
      {
      }
      assert m1 == m2;
    }
  }

  /** Fail-fast: one failing query leaves no permitted outcome with a map. */
  lemma OneFailureFails(c: Client, target: Ref, refs: seq<Ref>, i: nat, r: Result<map<Ref, string>>)
    requires i < |refs| && c.mergeBase(target, refs[i]).Failure?
    requires Permitted(c, target, refs, r)
    ensures r.Failure?
  {
  }
}
