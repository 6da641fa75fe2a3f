/** Failure-compatible wrappers used by every other module: `Option` for
    lookups that may find nothing, `Result` for computations that the Java
    code lets throw. */
module Results {

  datatype Option<+T> = None | Some(value: T) {

    predicate IsFailure() {
      None?
    }

    function PropagateFailure<U>(): Option<U>
      requires None?
    {
      None
    }

    function Extract(): T
      requires Some?
    {
      value
    }
  }

  datatype Result<+T, +E> = Ok(value: T) | Err(error: E) {

    predicate IsFailure() {
      Err?
    }

    function PropagateFailure<U>(): Result<U, E>
      requires Err?
    {
      Err(error)
    }

    function Extract(): T
      requires Ok?
    {
      value
    }
  }

  /** Applies `f` to each element in order and stops at the first
      failure, as a Java `map` whose function throws does. */
  function MapAll<A, B(==), E(==)>(xs: seq<A>, f: A -> Result<B, E>): (r: Result<seq<B>, E>)
    ensures r.Ok? <==> forall i | 0 <= i < |xs| :: f(xs[i]).Ok?
    ensures r.Ok? ==> |r.value| == |xs| && forall i | 0 <= i < |xs| :: r.value[i] == f(xs[i]).value
    ensures r.Err? ==> exists i | 0 <= i < |xs| :: f(xs[i]) == Err(r.error) && forall j | 0 <= j < i :: f(xs[j]).Ok?
    decreases |xs|
  {
    if |xs| == 0 then Ok([])
    else
      match f(xs[0])
      case Err(e) => Err(e)
      case Ok(y) =>
        match MapAll(xs[1..], f)
        case Err(e) =>
          var i :| 0 <= i < |xs[1..]| && f(xs[1..][i]) == Err(e) && forall j | 0 <= j < i :: f(xs[1..][j]).Ok?;
          assert f(xs[i + 1]) == Err(e);
          assert forall j | 1 <= j < i + 1 :: xs[j] == xs[1..][j - 1];
          Err(e)
        case Ok(ys) =>
          assert forall i | 1 <= i < |xs| :: xs[i] == xs[1..][i - 1];
          Ok([y] + ys)
  }

  /** `ys` is `xs` with some elements left out, the rest in order. */
  predicate IsSubsequence<A(==)>(ys: seq<A>, xs: seq<A>)
    decreases |xs|
  {
    if |ys| == 0 then true
    else if |xs| == 0 then false
    else if ys[0] == xs[0] then IsSubsequence(ys[1..], xs[1..])
    else IsSubsequence(ys, xs[1..])
  }

  /** Keeps, in order, the elements that `keep` accepts and stops at the
      first failure, as a Java `filter` whose predicate throws does. */
  function FilterAll<A(==), E(==)>(xs: seq<A>, keep: A -> Result<bool, E>): (r: Result<seq<A>, E>)
    ensures r.Ok? <==> forall i | 0 <= i < |xs| :: keep(xs[i]).Ok?
    ensures r.Ok? ==>
              && IsSubsequence(r.value, xs)
              && (forall i | 0 <= i < |r.value| :: keep(r.value[i]) == Ok(true))
              && (forall i | 0 <= i < |xs| :: keep(xs[i]) == Ok(true) ==> xs[i] in r.value)
    ensures r.Err? ==> exists i | 0 <= i < |xs| :: keep(xs[i]) == Err(r.error) && forall j | 0 <= j < i :: keep(xs[j]).Ok?
    decreases |xs|
  {
    if |xs| == 0 then Ok([])
    else
      match keep(xs[0])
      case Err(e) => Err(e)
      case Ok(b) =>
        match FilterAll(xs[1..], keep)
        case Err(e) =>
          var i :| 0 <= i < |xs[1..]| && keep(xs[1..][i]) == Err(e) && forall j | 0 <= j < i :: keep(xs[1..][j]).Ok?;
          assert keep(xs[i + 1]) == Err(e);
          assert forall j | 1 <= j < i + 1 :: xs[j] == xs[1..][j - 1];
          Err(e)
        case Ok(ys) =>
          assert forall i | 1 <= i < |xs| :: xs[i] == xs[1..][i - 1];
          if b then
            assert ([xs[0]] + ys)[1..] == ys;
            Ok([xs[0]] + ys)
          else
            SubsequenceSkip(ys, xs);
            Ok(ys)
  }

  /** A successful filter keeps each accepted element as often as it
      occurs, and no other element. */
  lemma {:induction false} FilterAllCounts<A, E>(xs: seq<A>, keep: A -> Result<bool, E>)
    ensures FilterAll(xs, keep).Ok? ==> KeepsCounts(FilterAll(xs, keep).value, xs, keep)
    decreases |xs|
  {
    if |xs| > 0 && FilterAll(xs, keep).Ok? {
      FilterAllCounts(xs[1..], keep);
      KeepsCountsCons(xs, FilterAll(xs[1..], keep).value, keep);
    }
  }

  /** `ys` holds every element of `xs` that `keep` accepts as often as
      `xs` does, and nothing else. */
  predicate KeepsCounts<A(==), E(==)>(ys: seq<A>, xs: seq<A>, keep: A -> Result<bool, E>) {
    && multiset(ys) <= multiset(xs)
    && forall i | 0 <= i < |xs| ::
         multiset(ys)[xs[i]] == if keep(xs[i]) == Ok(true) then multiset(xs)[xs[i]] else 0
  }

  /** One more element in front: kept once more when accepted, and
      otherwise not at all. */
  lemma KeepsCountsCons<A, E>(xs: seq<A>, ys: seq<A>, keep: A -> Result<bool, E>)
    requires |xs| > 0 && keep(xs[0]).Ok? && KeepsCounts(ys, xs[1..], keep)
    ensures KeepsCounts(if keep(xs[0]) == Ok(true) then [xs[0]] + ys else ys, xs, keep)
  {
    var x, rest := xs[0], xs[1..];
    assert xs == [x] + rest;
    var r := if keep(x) == Ok(true) then [x] + ys else ys;
    assert multiset(xs) == multiset{x} + multiset(rest);
    assert multiset(r) == (if keep(x) == Ok(true) then multiset{x} else multiset{}) + multiset(ys);
    forall i | 0 <= i < |xs|
      ensures multiset(r)[xs[i]] == if keep(xs[i]) == Ok(true) then multiset(xs)[xs[i]] else 0
    {
      var y := xs[i];
      if y in rest {
        var j :| 0 <= j < |rest| && rest[j] == y;
        assert multiset(ys)[rest[j]] == if keep(rest[j]) == Ok(true) then multiset(rest)[rest[j]] else 0;
      } else {
        assert multiset(rest)[y] == 0;
      }
    }
  }

  lemma {:induction false} SubsequenceSkip<A>(ys: seq<A>, xs: seq<A>)
    requires |xs| > 0 && IsSubsequence(ys, xs[1..])
    ensures IsSubsequence(ys, xs)
    decreases |xs|, 0
  {
    if |ys| > 0 && ys[0] == xs[0] {
      SubsequenceTail(ys, xs[1..]);
    }
  }

  lemma {:induction false} SubsequenceTail<A>(ys: seq<A>, xs: seq<A>)
    requires |ys| > 0 && IsSubsequence(ys, xs)
    ensures IsSubsequence(ys[1..], xs)
    decreases |xs|, 1
  {
    if ys[0] == xs[0] {
      SubsequenceSkip(ys[1..], xs);
    } else {
      SubsequenceTail(ys, xs[1..]);
      SubsequenceSkip(ys[1..], xs);
    }
  }
}
