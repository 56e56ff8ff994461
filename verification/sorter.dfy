/** `sortRefs` (`main.go`): the refs are sorted with a comparator that asks
    git whether one ref is an ancestor of the other. The comparator keeps
    the first error it meets and from then on answers "equal" without
    asking git again.

    The library sort is replaced by the insertion sort Go's `slices.SortFunc`
    itself runs on slices of at most twelve elements: element `i` moves left
    past every element it compares "less" than. Each pass also records which
    ancestry questions it put to git, so that "no query" can be stated. */
module Sorter {
  import opened Outcomes
  import opened Git
  import opened GitClient

  /** One question put to git: is `a` an ancestor of `b`? */
  datatype Query = Query(a: Ref, b: Ref)

  /** One comparator call: its result, the error it leaves behind and the
      questions it asked. */
  datatype Step = Step(order: int, err: Option<Error>, asked: seq<Query>)

  /** The state after sorting: the arrangement reached, the error kept and
      every question asked, in order. */
  datatype Pass = Pass(refs: seq<Ref>, err: Option<Error>, asked: seq<Query>)

  function Answer(c: Client, q: Query): Result<bool> {
    c.isAncestor(q.a, q.b)
  }

  /** `a` comes before `b`: git says `a` is an ancestor of `b`. */
  predicate Before(c: Client, a: Ref, b: Ref) {
    c.isAncestor(a, b) == Success(true)
  }

  predicate Distinct<T(==)>(s: seq<T>) {
    forall i, j :: 0 <= i < j < |s| ==> s[i] != s[j]
  }

  /** The comparator, given the error kept so far: "equal" without a query
      once an error is kept or when the refs are equal; otherwise -1 exactly
      when git says `a` is an ancestor of `b`, and 1 in every other case,
      including the call whose query fails, which keeps that failure. */
  function Compare(c: Client, err: Option<Error>, a: Ref, b: Ref): (s: Step)
    ensures err.Some? ==> s == Step(0, err, [])
    ensures err.None? && a == b ==> s == Step(0, None, [])
    ensures err.None? && a != b ==>
              && s.asked == [Query(a, b)]
              && (s.order == -1 <==> Before(c, a, b))
              && (s.order == -1 || s.order == 1)
              && (s.err.None? <==> c.isAncestor(a, b).Success?)
              && (s.err.Some? ==> c.isAncestor(a, b) == Failure(s.err.value))
  {
    if err.Some? then Step(0, err, [])
    else if a == b then Step(0, None, [])
    else
      var answer := c.isAncestor(a, b);
      var order := if answer == Success(true) then -1 else 1;
      var kept := if answer.Failure? then Some(answer.error) else None;
      Step(order, kept, [Query(a, b)])
  }

  /** Moves `x`, appended to the sorted prefix `s`, leftwards while the
      comparator puts it before its left neighbour. */
  function Insert(c: Client, err: Option<Error>, x: Ref, s: seq<Ref>): (r: Pass)
    ensures multiset(r.refs) == multiset(s) + multiset{x}
    ensures err.Some? ==> r == Pass(s + [x], err, [])
    decreases |s|
  {
    if |s| == 0 then Pass([x], err, [])
    else
      var last := s[|s| - 1];
      var step := Compare(c, err, x, last);
      if step.order < 0 then
        var rest := Insert(c, step.err, x, s[..|s| - 1]);
        assert s == s[..|s| - 1] + [last];
        Pass(rest.refs + [last], rest.err, step.asked + rest.asked)
      else
        Pass(s + [x], step.err, step.asked)
  }

  /** `sortRefs`: sorts the first `n - 1` refs, then inserts the last. The
      result is always a rearrangement of the input, even after an error. */
  function SortRefs(c: Client, refs: seq<Ref>): (r: Pass)
    ensures multiset(r.refs) == multiset(refs)
    decreases |refs|
  {
    if |refs| == 0 then Pass([], None, [])
    else
      var p := SortRefs(c, refs[..|refs| - 1]);
      var ins := Insert(c, p.err, refs[|refs| - 1], p.refs);
      MultisetSnoc(refs);
      Pass(ins.refs, ins.err, p.asked + ins.asked)
  }

  lemma MultisetSnoc(s: seq<Ref>)
    requires |s| > 0
    ensures multiset(s) == multiset(s[..|s| - 1]) + multiset{s[|s| - 1]}
  {
    assert s == s[..|s| - 1] + [s[|s| - 1]];
  }

  // ---------------------------------------------------------------------
  // The first error is sticky

  /** The questions asked and the error kept fit the sticky-error rule: no
      ref is compared with itself, every question but possibly the last was
      answered, and an error is kept exactly when the last one failed, with
      that failure's error. */
  ghost predicate Sticky(c: Client, asked: seq<Query>, err: Option<Error>) {
    && (forall i :: 0 <= i < |asked| ==> asked[i].a != asked[i].b)
    && (forall i :: 0 <= i < |asked| - 1 ==> Answer(c, asked[i]).Success?)
    && (err.None? ==> forall i :: 0 <= i < |asked| ==> Answer(c, asked[i]).Success?)
    && (err.Some? ==> |asked| > 0 && Answer(c, asked[|asked| - 1]) == Failure(err.value))
  }

  lemma StickyAppend(c: Client, a1: seq<Query>, a2: seq<Query>, err: Option<Error>)
    requires Sticky(c, a1, None) && Sticky(c, a2, err)
    ensures Sticky(c, a1 + a2, err)
  {
    var a := a1 + a2;
    assert forall i :: 0 <= i < |a1| ==> a[i] == a1[i];
    assert forall i :: |a1| <= i < |a| ==> a[i] == a2[i - |a1|];
  }

  lemma {:induction false} InsertSticky(c: Client, x: Ref, s: seq<Ref>)
    ensures Sticky(c, Insert(c, None, x, s).asked, Insert(c, None, x, s).err)
    decreases |s|
  {
    if |s| > 0 {
      var last := s[|s| - 1];
      var step := Compare(c, None, x, last);
      if step.order < 0 {
        InsertSticky(c, x, s[..|s| - 1]);
        StickyAppend(c, step.asked, Insert(c, step.err, x, s[..|s| - 1]).asked,
                     Insert(c, step.err, x, s[..|s| - 1]).err);
      }
    }
  }

  /** The comparator's sticky error, over the whole sort: once a question
      fails, no further question is asked, and `sortRefs` returns that
      failure's error. */
  lemma {:induction false} SortRefsSticky(c: Client, refs: seq<Ref>)
    ensures Sticky(c, SortRefs(c, refs).asked, SortRefs(c, refs).err)
    decreases |refs|
  {
    if |refs| > 0 {
      var init := refs[..|refs| - 1];
      var p := SortRefs(c, init);
      SortRefsSticky(c, init);
      var ins := Insert(c, p.err, refs[|refs| - 1], p.refs);
      if p.err.None? {
        InsertSticky(c, refs[|refs| - 1], p.refs);
        StickyAppend(c, p.asked, ins.asked, ins.err);
      } else {
        assert p.asked + ins.asked == p.asked;
      }
    }
  }

  /** Inserting `x` only asks whether `x` is an ancestor of a ref already
      in place. */
  lemma {:induction false} InsertAsks(c: Client, err: Option<Error>, x: Ref, s: seq<Ref>)
    ensures forall q :: q in Insert(c, err, x, s).asked ==> q.a == x && q.b in s
    decreases |s|
  {
    if |s| > 0 {
      var step := Compare(c, err, x, s[|s| - 1]);
      if step.order < 0 {
        InsertAsks(c, step.err, x, s[..|s| - 1]);
        assert forall y :: y in s[..|s| - 1] ==> y in s;
      }
    }
  }

  /** The sort only asks about pairs of the refs it sorts. */
  lemma {:induction false} SortRefsAsks(c: Client, refs: seq<Ref>)
    ensures forall q :: q in SortRefs(c, refs).asked ==> q.a in refs && q.b in refs
    decreases |refs|
  {
    if |refs| > 0 {
      var init := refs[..|refs| - 1];
      var p := SortRefs(c, init);
      SortRefsAsks(c, init);
      InsertAsks(c, p.err, refs[|refs| - 1], p.refs);
      forall y | y in p.refs
        ensures y in refs
      {
        assert y in multiset(init);
        assert y in init;
      }
      assert forall y :: y in init ==> y in refs;
    }
  }

  // ---------------------------------------------------------------------
  // Ordering along a chain

  /** Git's answers order the refs `xs` strictly and totally: every pair of
      distinct refs gets an answer, exactly one of the two is an ancestor of
      the other, and ancestry is transitive. */
  ghost predicate Chain(c: Client, xs: seq<Ref>) {
    && (forall a, b :: a in xs && b in xs && a != b ==> c.isAncestor(a, b).Success?)
    && (forall a, b :: a in xs && b in xs && a != b ==> (Before(c, a, b) <==> !Before(c, b, a)))
    && (forall a, b, d :: a in xs && b in xs && d in xs && Before(c, a, b) && Before(c, b, d) ==>
                           Before(c, a, d))
  }

  /** Every ref is an ancestor of every ref after it. */
  ghost predicate Ascending(c: Client, s: seq<Ref>) {
    forall i, j :: 0 <= i < j < |s| ==> Before(c, s[i], s[j])
  }

  /** Appending a ref that every listed ref is an ancestor of keeps an
      arrangement ascending. */
  lemma SnocAscending(c: Client, s: seq<Ref>, y: Ref)
    requires Ascending(c, s)
    requires forall z :: z in s ==> Before(c, z, y)
    ensures Ascending(c, s + [y])
  {
    var r := s + [y];
    forall i, j | 0 <= i < j < |r|
      ensures Before(c, r[i], r[j])
    {
      assert r[i] == s[i] && r[i] in s;
      if j < |s| {
        assert r[j] == s[j];
      }
    }
  }

  /** Along a chain, a descendant of the last ref of an ascending
      arrangement is a descendant of every ref in it. */
  lemma AllBefore(c: Client, xs: seq<Ref>, s: seq<Ref>, y: Ref)
    requires Chain(c, xs) && y in xs && (forall z :: z in s ==> z in xs)
    requires |s| > 0 && Ascending(c, s) && Before(c, s[|s| - 1], y)
    ensures forall z :: z in s ==> Before(c, z, y)
  {
    forall z | z in s
      ensures Before(c, z, y)
    {
      var k :| 0 <= k < |s| && s[k] == z;
      if k < |s| - 1 {
        assert Before(c, z, s[|s| - 1]);
        assert s[|s| - 1] in s;
      }
    }
  }

  /** Every ref before the last of an ascending arrangement is its
      ancestor. */
  lemma AscendingLast(c: Client, s: seq<Ref>, init: seq<Ref>)
    requires |s| > 0 && init == s[..|s| - 1] && Ascending(c, s)
    ensures forall z :: z in init ==> Before(c, z, s[|s| - 1])
  {
    forall z | z in init
      ensures Before(c, z, s[|s| - 1])
    {
      var k :| 0 <= k < |init| && init[k] == z;
      assert s[k] == z;
    }
  }

  /** Inserting into an arrangement of refs from `xs` that are all ancestors
      of `y` yields refs that are all ancestors of `y`. */
  lemma InsertedBefore(c: Client, x: Ref, init: seq<Ref>, s: seq<Ref>, y: Ref)
    requires Before(c, x, y)
    requires forall z :: z in init ==> Before(c, z, y)
    requires multiset(s) == multiset(init) + multiset{x}
    ensures forall z :: z in s ==> Before(c, z, y)
  {
    forall z | z in s
      ensures Before(c, z, y)
    {
      assert z in multiset(s);
      if z != x {
        assert z in multiset(init);
      }
    }
  }

  lemma {:induction false} InsertAscending(c: Client, xs: seq<Ref>, x: Ref, s: seq<Ref>)
    requires Chain(c, xs)
    requires x in xs && (forall y :: y in s ==> y in xs) && x !in s
    requires Ascending(c, s)
    ensures Insert(c, None, x, s).err.None?
    ensures Ascending(c, Insert(c, None, x, s).refs)
    decreases |s|
  {
    if |s| > 0 {
      var last := s[|s| - 1];
      var init := s[..|s| - 1];
      assert last in s;
      if Compare(c, None, x, last).order < 0 {
        assert forall y :: y in init ==> y in s;
        InsertAscending(c, xs, x, init);
        var rest := Insert(c, None, x, init);
        AscendingLast(c, s, init);
        InsertedBefore(c, x, init, rest.refs, last);
        SnocAscending(c, rest.refs, last);
      } else {
        assert Before(c, last, x);
        AllBefore(c, xs, s, x);
        SnocAscending(c, s, x);
      }
    }
  }

  lemma {:induction false} SortRefsAscendingWithin(c: Client, xs: seq<Ref>, refs: seq<Ref>)
    requires Chain(c, xs)
    requires forall y :: y in refs ==> y in xs
    requires Distinct(refs)
    ensures SortRefs(c, refs).err.None?
    ensures Ascending(c, SortRefs(c, refs).refs)
    decreases |refs|
  {
    if |refs| > 0 {
      var init := refs[..|refs| - 1];
      var x := refs[|refs| - 1];
      assert forall y :: y in init ==> y in refs;
      SortRefsAscendingWithin(c, xs, init);
      var p := SortRefs(c, init);
      forall y | y in p.refs
        ensures y in xs && y != x
      {
        assert y in multiset(init);
        assert y in init;
      }
      InsertAscending(c, xs, x, p.refs);
    }
  }

  /** Distinct refs on which git's answers form a chain are sorted without
      error, each ref before every ref it is an ancestor of. */
  lemma SortRefsAscending(c: Client, refs: seq<Ref>)
    requires Chain(c, refs) && Distinct(refs)
    ensures SortRefs(c, refs).err.None?
    ensures Ascending(c, SortRefs(c, refs).refs)
  {
    SortRefsAscendingWithin(c, refs, refs);
  }

  /** The first ref of an ascending arrangement is an ancestor of all the
      others. */
  lemma AscendingFirst(c: Client, a: seq<Ref>)
    requires |a| > 0 && Ascending(c, a)
    ensures forall z :: z in a && z != a[0] ==> Before(c, a[0], z)
  {
    forall z | z in a && z != a[0]
      ensures Before(c, a[0], z)
    {
      var k :| 0 <= k < |a| && a[k] == z;
    }
  }

  lemma ChainWithin(c: Client, xs: seq<Ref>, ys: seq<Ref>)
    requires Chain(c, xs)
    requires forall z :: z in ys ==> z in xs
    ensures Chain(c, ys)
  {
  }

  /** Two ascending arrangements of the same refs along a chain start with
      the same ref. */
  lemma AscendingHead(c: Client, a: seq<Ref>, b: seq<Ref>)
    requires Chain(c, a) && |a| > 0
    requires forall z :: z in a <==> z in b
    requires Ascending(c, a) && Ascending(c, b)
    ensures |b| > 0 && a[0] == b[0]
  {
    assert a[0] in b;
    AscendingFirst(c, a);
    AscendingFirst(c, b);
    assert b[0] in a;
  }

  /** Dropping a common first element from two distinct listings of the same
      refs leaves listings of the same refs. */
  lemma SameTails(a: seq<Ref>, b: seq<Ref>)
    requires Distinct(a) && Distinct(b) && |a| > 0 && |b| > 0 && a[0] == b[0]
    requires forall z :: z in a <==> z in b
    ensures forall z :: z in a[1..] <==> z in b[1..]
    ensures Distinct(a[1..]) && Distinct(b[1..])
  {
    forall z
      ensures z in a[1..] <==> z in b[1..]
    {
      assert z in a[1..] ==> z in a && z != a[0];
      assert z in b[1..] ==> z in b && z != b[0];
      assert z in a && z != a[0] ==> z in a[1..];
      assert z in b && z != b[0] ==> z in b[1..];
    }
  }

  lemma AscendingTail(c: Client, a: seq<Ref>)
    requires |a| > 0 && Ascending(c, a)
    ensures Ascending(c, a[1..])
  {
  }

  /** Along a chain there is only one ascending arrangement of a set of
      distinct refs, so the order the sort starts from (Go's map iteration
      order, in `run`) does not change the result. */
  lemma {:induction false} AscendingUnique(c: Client, a: seq<Ref>, b: seq<Ref>)
    requires Chain(c, a) && Distinct(a) && Distinct(b)
    requires forall z :: z in a <==> z in b
    requires Ascending(c, a) && Ascending(c, b)
    ensures a == b
    decreases |a|
  {
    assert |b| > 0 ==> b[0] in a;
    if |a| > 0 {
      AscendingHead(c, a, b);
      SameTails(a, b);
      ChainWithin(c, a, a[1..]);
      AscendingTail(c, a);
      AscendingTail(c, b);
      AscendingUnique(c, a[1..], b[1..]);
      assert a == [a[0]] + a[1..] && b == [b[0]] + b[1..];
    }
  }
}
