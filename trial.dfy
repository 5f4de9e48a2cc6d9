/**
 * One trial of one start word, described declaratively: the candidate stream,
 * the ranks of the words in it, the first hit of a target set, the point at
 * which the matching loop of `run_benches_for_word` stops, and the result it
 * records for each target set.
 */
module Trial {
  import opened Wrappers
  import opened BenchResults
  import opened Runner

  /** One step of the candidate stream: a word at the next rank, or `None` for engine work that produced no word. */
  type Step = Option<string>

  /** The candidate stream of one search, as far as the engine yields it. */
  type Stream = seq<Step>

  /** `BuscaCfg::search(start_word)`: the candidate stream, or the engine's error message. */
  type SearchStart = Result<Stream, string>

  /**
   * The clock of one trial: its k-th `start_time.elapsed()` call returns
   * `clock[k]`. A trial reads it at most twice per step and once at the end.
   */
  type Clock = seq<Duration>

  /** The clock holds every reading a trial over `stream` can take. */
  predicate Covers(clock: Clock, stream: Stream) {
    2 * |stream| < |clock|
  }

  /** The clock holds every reading the trial of `search` can take: one when the search cannot start. */
  predicate ClockFor(search: SearchStart, clock: Clock) {
    match search
    case Ok(stream) => Covers(clock, stream)
    case Err(_) => 0 < |clock|
  }

  /** The actual words of a stream, without the `None` steps. */
  function Words(stream: Stream): seq<string> {
    if stream == [] then []
    else (if stream[0].Some? then [stream[0].value] else []) + Words(stream[1..])
  }

  /** The number of words the first `n` steps yield: the rank the next word gets. */
  function WordsBefore(stream: Stream, n: nat): (rank: nat)
    requires n <= |stream|
    ensures rank <= n
  {
    if n == 0 then 0 else WordsBefore(stream, n - 1) + (if stream[n - 1].Some? then 1 else 0)
  }

  /** Step `p` yields a word of target set `t`. */
  predicate HitAt(stream: Stream, t: TargetSet, p: nat)
    requires p < |stream|
  {
    stream[p].Some? && stream[p].value in t
  }

  /** The first step among the first `n` that yields a word of `t`, if any. */
  function FirstHit(stream: Stream, t: TargetSet, n: nat): (r: Option<nat>)
    requires n <= |stream|
    ensures r.Some? ==> r.value < n
  {
    if n == 0 then None
    else match FirstHit(stream, t, n - 1)
      case Some(p) => Some(p)
      case None => if HitAt(stream, t, n - 1) then Some(n - 1) else None
  }

  /** `FirstHit` finds the earliest hit, and finds none only when there is none. */
  lemma {:induction false} FirstHitSpec(stream: Stream, t: TargetSet, n: nat)
    requires n <= |stream|
    ensures FirstHit(stream, t, n).Some? ==> HitAt(stream, t, FirstHit(stream, t, n).value)
    ensures FirstHit(stream, t, n).Some? ==> forall q :: 0 <= q < FirstHit(stream, t, n).value ==> !HitAt(stream, t, q)
    ensures FirstHit(stream, t, n).None? <==> forall q :: 0 <= q < n ==> !HitAt(stream, t, q)
  {
    if n > 0 {
      FirstHitSpec(stream, t, n - 1);
    }
  }

  /** Every target set of `sched` has been hit within the first `n` steps. */
  predicate AllHit(stream: Stream, sched: set<TargetSet>, n: nat)
    requires n <= |stream|
  {
    forall t :: t in sched ==> FirstHit(stream, t, n).Some?
  }

  /**
   * Where the matching loop stops when it reaches step `i`: at once when every
   * scheduled target set is hit or the stream is exhausted; otherwise it
   * consumes step `i`, reads the clock, and stops after it when the elapsed
   * time has reached the timeout.
   */
  ghost function StopFrom(stream: Stream, sched: set<TargetSet>, clock: Clock, timeout: Duration, i: nat): (n: nat)
    requires i <= |stream|
    requires Covers(clock, stream)
    ensures i <= n <= |stream|
    decreases |stream| - i
  {
    if AllHit(stream, sched, i) || i == |stream| then i
    else if clock[i + WordsBefore(stream, i + 1)] >= timeout then i + 1
    else StopFrom(stream, sched, clock, timeout, i + 1)
  }

  /** The loop stops at once when every target set is hit or the stream is exhausted. */
  lemma StopFromHere(stream: Stream, sched: set<TargetSet>, clock: Clock, timeout: Duration, i: nat)
    requires Covers(clock, stream)
    requires i <= |stream| && (AllHit(stream, sched, i) || i == |stream|)
    ensures StopFrom(stream, sched, clock, timeout, i) == i
  {}

  /** Otherwise it consumes step `i` and stops after it exactly when the clock has reached the timeout. */
  lemma StopFromNext(stream: Stream, sched: set<TargetSet>, clock: Clock, timeout: Duration, i: nat)
    requires Covers(clock, stream)
    requires i < |stream| && !AllHit(stream, sched, i)
    ensures StopFrom(stream, sched, clock, timeout, i)
      == if clock[i + WordsBefore(stream, i + 1)] >= timeout then i + 1 else StopFrom(stream, sched, clock, timeout, i + 1)
  {}

  /** The timeout check after step `i`, read at `now`, ends the loop or hands it on to step `i + 1`. */
  lemma StopAfterStep(stream: Stream, sched: set<TargetSet>, clock: Clock, timeout: Duration, i: nat, n: nat, now: Duration)
    requires Covers(clock, stream)
    requires i < |stream| && !AllHit(stream, sched, i) && StopFrom(stream, sched, clock, timeout, i) == n
    requires now == clock[i + WordsBefore(stream, i + 1)]
    ensures now >= timeout ==> n == i + 1
    ensures now < timeout ==> StopFrom(stream, sched, clock, timeout, i + 1) == n
  {
    StopFromNext(stream, sched, clock, timeout, i);
  }

  /** The number of steps the matching loop consumes. */
  ghost function StopPoint(stream: Stream, sched: set<TargetSet>, clock: Clock, timeout: Duration): nat
    requires Covers(clock, stream)
  {
    StopFrom(stream, sched, clock, timeout, 0)
  }

  /**
   * The loop may stop after `n` steps: it never found all target sets hit or
   * the time out at an earlier check, and one of its three exits applies at `n`.
   */
  ghost predicate StopsAt(stream: Stream, sched: set<TargetSet>, clock: Clock, timeout: Duration, n: nat)
    requires Covers(clock, stream)
  {
    && n <= |stream|
    && (forall q :: 0 <= q < n ==> !AllHit(stream, sched, q))
    && (forall q :: 0 < q < n ==> clock[q - 1 + WordsBefore(stream, q)] < timeout)
    && (n == |stream| || AllHit(stream, sched, n) || (n > 0 && clock[n - 1 + WordsBefore(stream, n)] >= timeout))
  }

  /**
   * The result recorded for target set `t` when the loop consumed `n` steps:
   * found at the rank of its first hit, with the clock as read at that hit, or
   * not found with the clock as read after the loop.
   */
  function TrialResult(stream: Stream, t: TargetSet, n: nat, clock: Clock): BenchResult
    requires Covers(clock, stream)
    requires n <= |stream|
  {
    match FirstHit(stream, t, n)
    case Some(p) => BenchResult(Ok(Some(WordsBefore(stream, p))), clock[p + WordsBefore(stream, p)])
    case None => BenchResult(Ok(None), clock[n + WordsBefore(stream, n)])
  }

  /** The rank of a word is its position among the words the stream yields: `None` steps take no rank. */
  lemma {:induction false} RankIsWordPosition(stream: Stream, p: nat)
    requires p < |stream| && stream[p].Some?
    ensures WordsBefore(stream, p) < |Words(stream)|
    ensures Words(stream)[WordsBefore(stream, p)] == stream[p].value
  {
    WordsPrefix(stream, p);
    WordsPrefix(stream, p + 1);
    assert stream[..p + 1] == stream[..p] + [stream[p]];
    WordsAppend(stream[..p], [stream[p]]);
    assert Words(stream[..p + 1]) == Words(stream[..p]) + [stream[p].value];
    assert stream == stream[..p + 1] + stream[p + 1..];
    WordsAppend(stream[..p + 1], stream[p + 1..]);
  }

  lemma {:induction false} WordsAppend(a: Stream, b: Stream)
    ensures Words(a + b) == Words(a) + Words(b)
  {
    if a == [] {
      assert a + b == b;
    } else {
      assert (a + b)[1..] == a[1..] + b;
      WordsAppend(a[1..], b);
    }
  }

  /** `WordsBefore` counts the words of the prefix. */
  lemma {:induction false} WordsPrefix(stream: Stream, n: nat)
    requires n <= |stream|
    ensures |Words(stream[..n])| == WordsBefore(stream, n)
  {
    if n > 0 {
      WordsPrefix(stream, n - 1);
      assert stream[..n] == stream[..n - 1] + [stream[n - 1]];
      WordsAppend(stream[..n - 1], [stream[n - 1]]);
    }
  }

  /** The loop's stopping point satisfies the stopping rule. */
  lemma {:induction false} StopFromStops(stream: Stream, sched: set<TargetSet>, clock: Clock, timeout: Duration, i: nat)
    requires Covers(clock, stream)
    requires i <= |stream|
    requires forall q :: 0 <= q < i ==> !AllHit(stream, sched, q)
    requires forall q :: 0 < q <= i ==> clock[q - 1 + WordsBefore(stream, q)] < timeout
    ensures StopsAt(stream, sched, clock, timeout, StopFrom(stream, sched, clock, timeout, i))
    decreases |stream| - i
  {
    if AllHit(stream, sched, i) || i == |stream| {
    } else if clock[i + WordsBefore(stream, i + 1)] >= timeout {
    } else {
      StopFromStops(stream, sched, clock, timeout, i + 1);
    }
  }

  /** The stopping rule determines the stopping point. */
  lemma StopsAtUnique(stream: Stream, sched: set<TargetSet>, clock: Clock, timeout: Duration, n: nat, m: nat)
    requires Covers(clock, stream)
    requires StopsAt(stream, sched, clock, timeout, n) && StopsAt(stream, sched, clock, timeout, m)
    ensures n == m
  {}

  /** `StopPoint` is the one point where the stopping rule holds. */
  lemma StopPointIsStop(stream: Stream, sched: set<TargetSet>, clock: Clock, timeout: Duration)
    requires Covers(clock, stream)
    ensures StopsAt(stream, sched, clock, timeout, StopPoint(stream, sched, clock, timeout))
    ensures forall n :: StopsAt(stream, sched, clock, timeout, n) ==> n == StopPoint(stream, sched, clock, timeout)
  {
    StopFromStops(stream, sched, clock, timeout, 0);
    forall n | StopsAt(stream, sched, clock, timeout, n) ensures n == StopPoint(stream, sched, clock, timeout) {
      StopsAtUnique(stream, sched, clock, timeout, n, StopPoint(stream, sched, clock, timeout));
    }
  }

  /**
   * What a trial records for a target set: found exactly when a word of it
   * occurs among the consumed steps, then at the rank of its first occurrence,
   * which is that word's position among the words the stream yields.
   */
  lemma TrialResultMeaning(stream: Stream, t: TargetSet, n: nat, clock: Clock)
    requires Covers(clock, stream)
    requires n <= |stream|
    ensures TrialResult(stream, t, n, clock).foundIndex.Ok?
    ensures TrialResult(stream, t, n, clock).IsFound() <==> exists p :: 0 <= p < n && HitAt(stream, t, p)
    ensures TrialResult(stream, t, n, clock).IsFound() ==>
      var rank := TrialResult(stream, t, n, clock).foundIndex.value.value;
      rank < |Words(stream)| && Words(stream)[rank] in t
      && forall q :: 0 <= q < n && HitAt(stream, t, q) ==> rank <= WordsBefore(stream, q)
    ensures !TrialResult(stream, t, n, clock).IsFound() ==>
      TrialResult(stream, t, n, clock).elapsed == clock[n + WordsBefore(stream, n)]
  {
    FirstHitSpec(stream, t, n);
    match FirstHit(stream, t, n)
    case None =>
    case Some(p) =>
      RankIsWordPosition(stream, p);
      forall q | 0 <= q < n && HitAt(stream, t, q) ensures WordsBefore(stream, p) <= WordsBefore(stream, q) {
        WordsBeforeMonotone(stream, p, q);
      }
  }

  lemma {:induction false} WordsBeforeMonotone(stream: Stream, p: nat, q: nat)
    requires p <= q <= |stream|
    ensures WordsBefore(stream, p) <= WordsBefore(stream, q)
    decreases q - p
  {
    if p < q {
      WordsBeforeMonotone(stream, p, q - 1);
    }
  }
}
