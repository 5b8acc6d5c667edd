/**
 Failure-compatible result types shared by every stage of the pipeline, and the
 exception taxonomy the Python code raises.
 */
module Base {

  datatype Option<+T> = None | Some(value: T) {
    predicate IsFailure() {
      None?
    }

    function PropagateFailure<U>(): Option<U>
      requires None?
    {
      None
    }

    function Extract(): T
      requires Some?
    {
      value
    }

    /** The zero-or-one element sequence a branch contributes to a list. */
    function ToSeq(): (s: seq<T>)
      ensures |s| <= 1
      ensures Some? <==> |s| == 1
      ensures Some? ==> s[0] == value
    {
      match this
      case Some(v) => [v]
      case None => []
    }
  }

  /** What went wrong underneath an exception. */
  datatype Cause =
    | JsonDecode          // json.loads raised JSONDecodeError
    | InvalidShape        // decoded data of the wrong shape or missing a field (TypeError, pydantic)
    | NoJsonArray         // "No JSON array found in LLM response"
    | NotANumber          // float() rejected a string
    | NoReply             // the backend call raised, or returned no content
    | EmptyTurnRange      // random.randint(min_turns, max_turns) with min_turns > max_turns
    | UnboundCandidate    // an unterminated code fence left the JSON candidate unassigned

  /** The Python exception class that leaves a stage. */
  datatype Failure =
    | ValueError(cause: Cause)
    | RuntimeError(cause: Cause)
    | UnboundLocalError
    | ZeroDivisionError

  datatype Result<+R> = Success(value: R) | Fail(error: Failure) {
    predicate IsFailure() {
      Fail?
    }

    function PropagateFailure<U>(): Result<U>
      requires Fail?
    {
      Fail(error)
    }

    function Extract(): R
      requires Success?
    {
      value
    }

    /** The zero-or-one element sequence a `try` branch contributes to a list. */
    function ToSeq(): (s: seq<R>)
      ensures |s| <= 1
      ensures Success? <==> |s| == 1
      ensures Success? ==> s[0] == value
    {
      match this
      case Success(v) => [v]
      case Fail(_) => []
    }
  }

  /** A `for` loop that appends one result per input, in order, and lets the first
      exception escape: the batch methods of every stage. `f(k, x)` handles the input
      at position `k`. */
  function Batch<X, Y>(xs: seq<X>, f: (nat, X) -> Result<Y>): (r: Result<seq<Y>>)
    ensures r.Success? <==> forall k :: 0 <= k < |xs| ==> f(k, xs[k]).Success?
    ensures r.Success? ==> |r.value| == |xs|
    ensures r.Success? ==> forall k :: 0 <= k < |xs| ==> r.value[k] == f(k, xs[k]).value
    ensures r.Fail? ==> exists k :: 0 <= k < |xs| && f(k, xs[k]) == Fail(r.error)
                                 && forall j :: 0 <= j < k ==> f(j, xs[j]).Success?
  {
    if |xs| == 0 then Success([])
    else
      var n := |xs| - 1;
      match Batch(xs[..n], f)
      case Fail(e) => Fail(e)
      case Success(prev) =>
        match f(n, xs[n])
        case Fail(e) => Fail(e)
        case Success(y) => Success(prev + [y])
  }

  /** No element occurs twice. */
  predicate Distinct<T(==)>(s: seq<T>) {
    forall a, b :: 0 <= a < b < |s| ==> s[a] != s[b]
  }

  /** A non-empty prefix is the shorter prefix and one more element. */
  lemma PrefixStep<T>(s: seq<T>, n: nat)
    requires 0 < n <= |s|
    ensures s[..n] == s[..n - 1] + [s[n - 1]]
  {
  }
}
