/** Failure-carrying datatypes shared by the whole model: Go's `(value, error)`
    returns become `Result`, and the error values the tool can produce are
    gathered in one `Error` datatype. */
module Outcomes {

  datatype Option<+T> = None | Some(value: T) {

    /** The carried value, or `default` when there is none. */
    function GetOr(default: T): T {
      match this
      case Some(v) => v
      case None => default
    }
  }

  /** Every error the modelled code returns or raises. */
  datatype Error =
    /** A git subprocess exited with a status other than the ones the caller handles. */
    | ExitError(code: int)
    /** A git subprocess could not be started at all. */
    | StartError(reason: string)
    /** `unexpected ref name: "<name>"` */
    | UnexpectedRefName(name: string)
    /** `unexpected log line: "<line>"` */
    | UnexpectedLogLine(line: string)
    /** Go's run-time panic for `parts[1]` on a line without a tab. */
    | IndexOutOfRange(line: string)
    /** `fmt.Errorf("<context>: %w", cause)` */
    | Wrapped(context: string, cause: Error)

  datatype Result<+T> = Success(value: T) | Failure(error: Error)

  /** Applies `f` to each element in order and stops at the first failure,
      the shape of every `for ... { if err != nil { return nil, err } }` loop
      in the source. */
  function Collect<A, B>(xs: seq<A>, f: A -> Result<B>): (r: Result<seq<B>>)
    ensures r.Success? <==> forall i :: 0 <= i < |xs| ==> f(xs[i]).Success?
    ensures r.Success? ==>
              && |r.value| == |xs|
              && forall i :: 0 <= i < |xs| ==> f(xs[i]) == Success(r.value[i])
    ensures r.Failure? ==>
              exists k :: && 0 <= k < |xs|
                          && f(xs[k]) == Failure(r.error)
                          && forall i :: 0 <= i < k ==> f(xs[i]).Success?
    decreases |xs|
  {
    if |xs| == 0 then Success([])
    else
      match f(xs[0])
      case Failure(e) => Failure(e)
      case Success(y) =>
        var rest := Collect(xs[1..], f);
        match rest
        case Failure(e) =>
          assert forall i :: 1 <= i < |xs| ==> xs[i] == xs[1..][i - 1];
          Failure(e)
        case Success(ys) =>
          assert forall i :: 1 <= i < |xs| ==> xs[i] == xs[1..][i - 1];
          Success([y] + ys)
  }

  /** When every element is known to map to a given value, `Collect` returns
      exactly those values. */
  lemma CollectAll<A, B>(xs: seq<A>, f: A -> Result<B>, ys: seq<B>)
    requires |xs| == |ys|
    requires forall i :: 0 <= i < |xs| ==> f(xs[i]) == Success(ys[i])
    ensures Collect(xs, f) == Success(ys)
  {
    var r := Collect(xs, f);
    assert r.Success?;
    assert r.value == ys;
  }
}
