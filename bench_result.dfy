/**
 * `BenchResult`, the outcome of one trial, and its `Ord` implementation.
 */
module BenchResults {
  import opened Wrappers
  import opened Ordering

  /** `std::time::Duration`, counted in nanoseconds. */
  type Duration = nat

  /**
   * `found_index`: `Ok(Some(rank))` when a target word appeared at that rank of
   * the candidate stream, `Ok(None)` when none appeared, `Err(message)` when
   * the search engine could not start.
   */
  type FoundIndex = Result<Option<nat>, string>

  datatype BenchResult = BenchResult(foundIndex: FoundIndex, elapsed: Duration) {
    /** `is_found`: the trial found its target. */
    predicate IsFound() {
      foundIndex.Ok? && foundIndex.value.Some?
    }
  }

  /** The kind of a result, in the order `cmp` ranks kinds: errors, found, not found. */
  function Kind(r: BenchResult): nat {
    match r.foundIndex
    case Err(_) => 0
    case Ok(Some(_)) => 1
    case Ok(None) => 2
  }

  /** The `Ord` that Rust derives for `Option<usize>`: `None` first, then by value. */
  function CmpOption(a: Option<nat>, b: Option<nat>): Ordering {
    match (a, b)
    case (None, None) => Equal
    case (None, Some(_)) => Less
    case (Some(_), None) => Greater
    case (Some(i), Some(j)) => CmpNat(i, j)
  }

  /** The `Ord` that Rust derives for `Result<Option<usize>, String>`: `Ok` first. */
  function CmpFoundIndex(a: FoundIndex, b: FoundIndex): Ordering {
    match (a, b)
    case (Ok(x), Ok(y)) => CmpOption(x, y)
    case (Ok(_), Err(_)) => Less
    case (Err(_), Ok(_)) => Greater
    case (Err(m), Err(n)) => StringCmp(m, n)
  }

  /**
   * `Ord::cmp` for `BenchResult`: two guards settle results of different kinds,
   * and otherwise the pair (`found_index`, `elapsed`) is compared
   * lexicographically with the derived orders.
   */
  function Cmp(a: BenchResult, b: BenchResult): Ordering {
    match (a.foundIndex, b.foundIndex)
    case (Ok(_), Err(_)) => Greater
    case (Ok(None), Ok(Some(_))) => Greater
    case (Err(_), Ok(_)) => Less
    case (Ok(Some(_)), Ok(None)) => Less
    case _ => Then(CmpFoundIndex(a.foundIndex, b.foundIndex), CmpNat(a.elapsed, b.elapsed))
  }

  /** `is_found` holds exactly for `Ok(Some(_))`, whatever the elapsed time. */
  lemma IsFoundCases(index: nat, message: string, elapsed: Duration)
    ensures BenchResult(Ok(Some(index)), elapsed).IsFound()
    ensures !BenchResult(Ok(None), elapsed).IsFound()
    ensures !BenchResult(Err(message), elapsed).IsFound()
  {}

  /**
   * Results of different kinds are ordered by kind: every error is less than
   * every found result, which is less than every not-found result. Errors come
   * FIRST, whatever their elapsed time.
   */
  lemma CmpKinds(a: BenchResult, b: BenchResult)
    requires Kind(a) != Kind(b)
    ensures Cmp(a, b) == CmpNat(Kind(a), Kind(b))
  {}

  /**
   * Within a kind: found results by rank then elapsed time, errors by message
   * text then elapsed time, not-found results by elapsed time.
   */
  lemma CmpWithinKind(a: BenchResult, b: BenchResult)
    requires Kind(a) == Kind(b)
    ensures a.IsFound() ==>
      Cmp(a, b) == Then(CmpNat(a.foundIndex.value.value, b.foundIndex.value.value), CmpNat(a.elapsed, b.elapsed))
    ensures a.foundIndex.Err? ==>
      Cmp(a, b) == Then(StringCmp(a.foundIndex.error, b.foundIndex.error), CmpNat(a.elapsed, b.elapsed))
    ensures a.foundIndex == Ok(None) ==> Cmp(a, b) == CmpNat(a.elapsed, b.elapsed)
  {}

  /** `cmp` is a strict total order on `BenchResult`s. */
  lemma CmpTotal()
    ensures TotalOrder(Cmp)
  {
    StringCmpTotal();
    forall a, b ensures Cmp(a, b) == Equal <==> a == b {
      if Kind(a) == Kind(b) && a.foundIndex.Err? {
        assert StringCmp(a.foundIndex.error, b.foundIndex.error) == Equal
          <==> a.foundIndex.error == b.foundIndex.error;
      }
    }
    forall a, b ensures Cmp(b, a) == Cmp(a, b).Reverse() {
      if Kind(a) == Kind(b) && a.foundIndex.Err? {
        assert StringCmp(b.foundIndex.error, a.foundIndex.error)
          == StringCmp(a.foundIndex.error, b.foundIndex.error).Reverse();
      }
    }
    forall a, b, c | Cmp(a, b) == Less && Cmp(b, c) == Less ensures Cmp(a, c) == Less {
      if Kind(a) == Kind(b) == Kind(c) && a.foundIndex.Err? {
        var m, n, o := a.foundIndex.error, b.foundIndex.error, c.foundIndex.error;
        assert StringCmp(m, n) == Equal ==> m == n;
        assert StringCmp(n, o) == Equal ==> n == o;
      }
    }
  }

  /**
   * `compile_run_results`: the least result of a non-empty history
   * (`iter().min().unwrap()`; an empty history panics, hence the requires).
   */
  function CompileRunResults(results: seq<BenchResult>): (r: BenchResult)
    requires |results| > 0
    ensures r in results
    ensures forall x :: x in results ==> Cmp(r, x) != Greater
  {
    CmpTotal();
    if |results| == 1 then results[0]
    else
      var init := results[..|results| - 1];
      var last := results[|results| - 1];
      var m := CompileRunResults(init);
      assert results == init + [last];
      if Cmp(m, last) == Greater then last else m
  }

  /** The least result is unique: any result no greater than all others is it. */
  lemma CompileRunResultsUnique(results: seq<BenchResult>, m: BenchResult)
    requires |results| > 0
    requires m in results && forall x :: x in results ==> Cmp(m, x) != Greater
    ensures CompileRunResults(results) == m
  {
    CmpTotal();
    var r := CompileRunResults(results);
    assert Cmp(m, r) != Greater && Cmp(r, m) != Greater;
  }

  /**
   * Because errors sort first, a history holding any error compiles to an
   * error; a history without errors and with a success compiles to the success
   * of least rank.
   */
  lemma CompileRunResultsPrefersErrors(results: seq<BenchResult>)
    requires |results| > 0
    ensures (exists x :: x in results && x.foundIndex.Err?) ==> CompileRunResults(results).foundIndex.Err?
    ensures (forall x :: x in results ==> x.foundIndex.Ok?) && (exists x :: x in results && x.IsFound()) ==>
      && CompileRunResults(results).IsFound()
      && forall x :: x in results && x.IsFound() ==>
           CompileRunResults(results).foundIndex.value.value <= x.foundIndex.value.value
  {
    var r := CompileRunResults(results);
    if x :| x in results && x.foundIndex.Err? {
      assert Cmp(r, x) != Greater;
    }
    if (forall x :: x in results ==> x.foundIndex.Ok?) && (exists x :: x in results && x.IsFound()) {
      var y :| y in results && y.IsFound();
      assert Cmp(r, y) != Greater;
      forall x | x in results && x.IsFound()
        ensures r.foundIndex.value.value <= x.foundIndex.value.value
      {
        assert Cmp(r, x) != Greater;
      }
    }
  }
}
