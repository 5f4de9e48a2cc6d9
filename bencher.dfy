/**
 * `Bencher`, the ledger of trial results: for every start word, for every
 * target set registered under it, the history of results in trial order;
 * and the operations that register benches, run trials and compile results.
 */
module Ledger {
  import opened Wrappers
  import opened Ordering
  import opened BenchResults
  import opened Runner
  import opened Trial
  import opened Compile
  import BenchFile

  /**
   * `BenchRunCfg` as far as running is concerned: passes after the warm-up,
   * the failure count after which a bench is skipped, and the timeout of one
   * trial. The file paths and the verbosity only choose inputs and log lines.
   */
  datatype RunCfg = RunCfg(repeat: nat, repeatFailed: nat, timeout: Duration)

  /** The ledger after registering `targets` under `startWord` (`entry(..).or_default()` twice). */
  function WithBench(b: Benches, startWord: string, targets: TargetSet): (r: Benches)
    ensures r.Keys == b.Keys + {startWord}
    ensures r[startWord].Keys == (if startWord in b then b[startWord].Keys else {}) + {targets}
    ensures forall s :: s in b && s != startWord ==> r[s] == b[s]
    ensures forall t :: startWord in b && t in b[startWord] ==> r[startWord][t] == b[startWord][t]
    ensures startWord !in b || targets !in b[startWord] ==> r[startWord][targets] == []
    ensures startWord in b && targets in b[startWord] ==> r == b
  {
    var inner := if startWord in b then b[startWord] else map[];
    b[startWord := if targets in inner then inner else inner[targets := []]]
  }

  /** Registering is idempotent. */
  lemma WithBenchIdempotent(b: Benches, startWord: string, targets: TargetSet)
    ensures WithBench(WithBench(b, startWord, targets), startWord, targets) == WithBench(b, startWord, targets)
  {}

  /** The target words of a group, as the set `add_bench` keys it by (order and repeats dropped). */
  function SetOf(words: seq<string>): (r: TargetSet)
    ensures forall w :: w in r <==> w in words
  {
    set w | w in words
  }

  /* ----- load_benches ----- */

  /** `BenchError::ParseErr`: the number of the failing line, counted from 1, and the text `eof` found left. */
  datatype LoadError = ParseErr(lineNo: nat, text: string)

  /**
   * The inner loop of `load_benches` for one start word: each target group
   * is registered under `word`, then under `bare` (its unaccented form) when
   * that differs.
   */
  function AddGroups(b: Benches, word: string, bare: string, groups: seq<seq<string>>): Benches
    decreases |groups|
  {
    if groups == [] then b
    else
      var n := |groups| - 1;
      var withWord := WithBench(AddGroups(b, word, bare, groups[..n]), word, SetOf(groups[n]));
      if bare != word then WithBench(withWord, bare, SetOf(groups[n])) else withWord
  }

  /** What one parsed bench line registers: every target group under each start word in turn. */
  function AddLine(b: Benches, words: seq<string>, groups: seq<seq<string>>, unaccent: string -> string): Benches
    decreases |words|
  {
    if words == [] then b
    else
      var n := |words| - 1;
      AddGroups(AddLine(b, words[..n], groups, unaccent), words[n], unaccent(words[n]), groups)
  }

  /** What the parser makes of one line: its bench or blank, or the text it could not parse. */
  type LineParse = Result<BenchFile.Parsed<Option<BenchFile.BenchDef>>, string>

  /** Each line of a bench file, parsed on its own. */
  function ParseLines(alnum: char -> bool, lines: seq<string>): (r: seq<LineParse>)
    ensures |r| == |lines|
    ensures forall i :: 0 <= i < |lines| ==> r[i] == BenchFile.BenchLine(alnum, lines[i])
  {
    seq(|lines|, i requires 0 <= i < |lines| => BenchFile.BenchLine(alnum, lines[i]))
  }

  /** What one parsed line adds to the benches. */
  function LineBenches(b: Benches, parse: BenchFile.Parsed<Option<BenchFile.BenchDef>>, unaccent: string -> string): Benches {
    if parse.value.Some? then AddLine(b, parse.value.value.0, parse.value.value.1, unaccent) else b
  }

  /**
   * `load_benches` over the parsed lines, the first of which has 0-based
   * number `lineNo`: register the benches of each line in turn, and stop at
   * the first line that does not parse, reporting it with its 1-based
   * number. Lines before it stay registered.
   */
  function Load(b: Benches, parses: seq<LineParse>, lineNo: nat, unaccent: string -> string)
    : (Benches, Result<Unit, LoadError>)
    decreases |parses|
  {
    if parses == [] then (b, Ok(Unit))
    else
      match parses[0]
      case Err(text) => (b, Err(ParseErr(lineNo + 1, text)))
      case Ok(parse) => Load(LineBenches(b, parse, unaccent), parses[1..], lineNo + 1, unaccent)
  }

  /**
   * `after` keeps every key and history of `before`, and every bench it adds
   * starts with an empty history.
   */
  ghost predicate Extends(before: Benches, after: Benches) {
    && (forall s :: s in before ==> s in after && before[s].Keys <= after[s].Keys)
    && (forall s, t :: s in before && t in before[s] ==> after[s][t] == before[s][t])
    && (forall s, t :: s in after && t in after[s] && !(s in before && t in before[s]) ==> after[s][t] == [])
  }

  lemma ExtendsTrans(a: Benches, b: Benches, c: Benches)
    requires Extends(a, b) && Extends(b, c)
    ensures Extends(a, c)
  {
  }

  /** `targets` is registered under `startWord`. */
  ghost predicate Registered(b: Benches, startWord: string, targets: TargetSet) {
    startWord in b && targets in b[startWord]
  }

  /** Registering one bench extends the ledger by it. */
  lemma WithBenchExtends(b: Benches, startWord: string, targets: TargetSet)
    ensures Extends(b, WithBench(b, startWord, targets))
    ensures Registered(WithBench(b, startWord, targets), startWord, targets)
  {
  }

  /** An extension keeps what was registered. */
  lemma ExtendsRegistered(a: Benches, b: Benches, startWord: string, targets: TargetSet)
    requires Extends(a, b) && Registered(a, startWord, targets)
    ensures Registered(b, startWord, targets)
  {
  }

  /** Registering the groups of a start word under it and, when it differs, under its unaccented form. */
  lemma {:induction false} AddGroupsEffect(b: Benches, word: string, bare: string, groups: seq<seq<string>>)
    ensures Extends(b, AddGroups(b, word, bare, groups))
    ensures forall g :: g in groups ==> Registered(AddGroups(b, word, bare, groups), word, SetOf(g))
    ensures forall g :: g in groups ==> Registered(AddGroups(b, word, bare, groups), bare, SetOf(g))
    decreases |groups|
  {
    if groups != [] {
      var n := |groups| - 1;
      var prev := AddGroups(b, word, bare, groups[..n]);
      var r := AddGroups(b, word, bare, groups);
      AddGroupsEffect(b, word, bare, groups[..n]);
      var withWord := WithBench(prev, word, SetOf(groups[n]));
      WithBenchExtends(prev, word, SetOf(groups[n]));
      if bare != word {
        WithBenchExtends(withWord, bare, SetOf(groups[n]));
        ExtendsTrans(prev, withWord, r);
        ExtendsRegistered(withWord, r, word, SetOf(groups[n]));
      }
      ExtendsTrans(b, prev, r);
      forall g | g in groups
        ensures Registered(r, word, SetOf(g)) && Registered(r, bare, SetOf(g))
      {
        if g != groups[n] {
          assert g in groups[..n];
          ExtendsRegistered(prev, r, word, SetOf(g));
          ExtendsRegistered(prev, r, bare, SetOf(g));
        }
      }
    }
  }

  /** A parsed line registers every one of its groups under every start word and its unaccented form. */
  lemma {:induction false} AddLineEffect(b: Benches, words: seq<string>, groups: seq<seq<string>>, unaccent: string -> string)
    ensures Extends(b, AddLine(b, words, groups, unaccent))
    ensures forall w, g :: w in words && g in groups ==>
      Registered(AddLine(b, words, groups, unaccent), w, SetOf(g)) && Registered(AddLine(b, words, groups, unaccent), unaccent(w), SetOf(g))
    decreases |words|
  {
    if words != [] {
      var n := |words| - 1;
      var prev := AddLine(b, words[..n], groups, unaccent);
      var r := AddLine(b, words, groups, unaccent);
      AddLineEffect(b, words[..n], groups, unaccent);
      AddGroupsEffect(prev, words[n], unaccent(words[n]), groups);
      ExtendsTrans(b, prev, r);
      forall w, g | w in words && g in groups
        ensures Registered(r, w, SetOf(g)) && Registered(r, unaccent(w), SetOf(g))
      {
        if w != words[n] {
          assert w in words[..n];
          ExtendsRegistered(prev, r, w, SetOf(g));
          ExtendsRegistered(prev, r, unaccent(w), SetOf(g));
        }
      }
    }
  }

  /** Loading succeeds exactly when every line parses. */
  lemma {:induction false} LoadOkIff(b: Benches, parses: seq<LineParse>, lineNo: nat, unaccent: string -> string)
    ensures Load(b, parses, lineNo, unaccent).1.Ok? <==> forall i :: 0 <= i < |parses| ==> parses[i].Ok?
    decreases |parses|
  {
    if parses != [] && parses[0].Ok? {
      LoadOkIff(LineBenches(b, parses[0].value, unaccent), parses[1..], lineNo + 1, unaccent);
      assert forall i :: 1 <= i < |parses| ==> parses[i] == parses[1..][i - 1];
    }
  }

  /** A load that fails reports the first line that does not parse, by its 1-based number, with the text left there. */
  lemma {:induction false} LoadFirstError(b: Benches, parses: seq<LineParse>, lineNo: nat, unaccent: string -> string, f: nat)
    requires f < |parses| && parses[f].Err?
    requires forall i :: 0 <= i < f ==> parses[i].Ok?
    ensures Load(b, parses, lineNo, unaccent).1 == Err(ParseErr(lineNo + f + 1, parses[f].error))
    decreases f
  {
    if f > 0 {
      assert parses[0].Ok?;
      assert forall i :: 0 <= i < f - 1 ==> parses[1..][i] == parses[i + 1];
      LoadFirstError(LineBenches(b, parses[0].value, unaccent), parses[1..], lineNo + 1, unaccent, f - 1);
    }
  }

  /** The parse of a line is a bench with start word `w` and target group `g`. */
  ghost predicate Declares(parse: LineParse, w: string, g: seq<string>) {
    parse.Ok? && parse.value.value.Some? && w in parse.value.value.value.0 && g in parse.value.value.value.1
  }

  /**
   * Loading only adds benches, each with an empty history; after a load
   * that succeeds, every group of every line is registered under every
   * start word of that line and under its unaccented form.
   */
  lemma {:induction false} LoadEffect(b: Benches, parses: seq<LineParse>, lineNo: nat, unaccent: string -> string)
    ensures Extends(b, Load(b, parses, lineNo, unaccent).0)
    ensures Load(b, parses, lineNo, unaccent).1.Ok? ==>
      forall i, w, g :: 0 <= i < |parses| && Declares(parses[i], w, g) ==>
        Registered(Load(b, parses, lineNo, unaccent).0, w, SetOf(g))
        && Registered(Load(b, parses, lineNo, unaccent).0, unaccent(w), SetOf(g))
    decreases |parses|
  {
    if parses != [] && parses[0].Ok? {
      var parse := parses[0].value;
      var next := LineBenches(b, parse, unaccent);
      var r := Load(b, parses, lineNo, unaccent);
      assert r == Load(next, parses[1..], lineNo + 1, unaccent);
      if parse.value.Some? {
        AddLineEffect(b, parse.value.value.0, parse.value.value.1, unaccent);
      }
      LoadEffect(next, parses[1..], lineNo + 1, unaccent);
      ExtendsTrans(b, next, r.0);
      if r.1.Ok? {
        forall i, w, g | 0 <= i < |parses| && Declares(parses[i], w, g)
          ensures Registered(r.0, w, SetOf(g)) && Registered(r.0, unaccent(w), SetOf(g))
        {
          if i == 0 {
            ExtendsRegistered(next, r.0, w, SetOf(g));
            ExtendsRegistered(next, r.0, unaccent(w), SetOf(g));
          } else {
            assert parses[i] == parses[1..][i - 1];
          }
        }
      }
    }
  }

  /** The histories with every history emptied. */
  function ClearedHistories(hs: Histories): Histories {
    map t | t in hs :: []
  }

  /** The ledger with every history emptied and every key kept. */
  function Cleared(b: Benches): Benches {
    map s | s in b :: ClearedHistories(b[s])
  }

  /** The results of a history that are not found results, in their order. */
  function Unfound(h: History): History {
    if h == [] then []
    else (if h[0].IsFound() then [] else [h[0]]) + Unfound(h[1..])
  }

  function UnfoundHistories(hs: Histories): Histories {
    map t | t in hs :: Unfound(hs[t])
  }

  /** The ledger with every found result removed and every key kept. */
  function WithoutSuccesses(b: Benches): Benches {
    map s | s in b :: UnfoundHistories(b[s])
  }

  /** `Unfound` keeps exactly the results that are not found results. */
  lemma {:induction false} UnfoundMembers(h: History)
    ensures forall x :: x in Unfound(h) <==> x in h && !x.IsFound()
  {
    if h != [] {
      UnfoundMembers(h[1..]);
      assert h == [h[0]] + h[1..];
    }
  }

  /** `Unfound` keeps the order: it filters each part of a history separately. */
  lemma {:induction false} UnfoundAppend(a: History, b: History)
    ensures Unfound(a + b) == Unfound(a) + Unfound(b)
  {
    if a == [] {
      assert a + b == b;
    } else {
      assert (a + b)[1..] == a[1..] + b;
      UnfoundAppend(a[1..], b);
    }
  }

  /** Removing the successes twice removes nothing more. */
  lemma {:induction false} UnfoundIdempotent(h: History)
    ensures Unfound(Unfound(h)) == Unfound(h)
  {
    if h != [] {
      UnfoundIdempotent(h[1..]);
      var head := if h[0].IsFound() then [] else [h[0]];
      UnfoundAppend(head, Unfound(h[1..]));
    }
  }

  /**
   * Clearing keeps every start word and every target set and leaves every
   * history empty; clearing the successes afterwards changes nothing.
   */
  lemma ClearedShape(b: Benches)
    ensures Cleared(b).Keys == b.Keys
    ensures forall s :: s in b ==> Cleared(b)[s].Keys == b[s].Keys
    ensures forall s, t :: s in b && t in b[s] ==> Cleared(b)[s][t] == []
    ensures WithoutSuccesses(Cleared(b)) == Cleared(b)
  {
    assert Unfound([]) == [];
    forall s | s in b
      ensures WithoutSuccesses(Cleared(b))[s] == Cleared(b)[s]
    {
      assert forall t :: t in Cleared(b)[s] ==> WithoutSuccesses(Cleared(b))[s][t] == [];
    }
  }

  /**
   * Clearing the successes keeps every key, keeps exactly the results that
   * are not found results, and is idempotent.
   */
  lemma WithoutSuccessesMeaning(b: Benches)
    ensures WithoutSuccesses(b).Keys == b.Keys
    ensures forall s :: s in b ==> WithoutSuccesses(b)[s].Keys == b[s].Keys
    ensures forall s, t, x :: s in b && t in b[s] ==> (x in WithoutSuccesses(b)[s][t] <==> x in b[s][t] && !x.IsFound())
    ensures WithoutSuccesses(WithoutSuccesses(b)) == WithoutSuccesses(b)
  {
    forall s, t | s in b && t in b[s]
      ensures forall x :: x in WithoutSuccesses(b)[s][t] <==> x in b[s][t] && !x.IsFound()
      ensures WithoutSuccesses(WithoutSuccesses(b))[s][t] == WithoutSuccesses(b)[s][t]
    {
      UnfoundMembers(b[s][t]);
      UnfoundIdempotent(b[s][t]);
    }
    assert forall s :: s in b ==> WithoutSuccesses(WithoutSuccesses(b))[s] == WithoutSuccesses(b)[s];
  }

  /** `results.iter().any(BenchResult::is_found)`. */
  predicate AnyFound(h: History) {
    exists i :: 0 <= i < |h| && h[i].IsFound()
  }

  /** The skip rule: a bench is tried while it has fewer than `repeatFailed` results or has ever been found. */
  predicate Schedulable(h: History, repeatFailed: nat) {
    |h| < repeatFailed || AnyFound(h)
  }

  /** The target sets a trial of this start word schedules. */
  function Scheduled(hs: Histories, repeatFailed: nat): (sched: set<TargetSet>)
    ensures sched <= hs.Keys
  {
    set t | t in hs && Schedulable(hs[t], repeatFailed)
  }

  /** The histories with `r` appended to the history of every target set in `ts`. */
  function Appended(hs: Histories, ts: set<TargetSet>, r: BenchResult): Histories {
    map t | t in hs :: if t in ts then hs[t] + [r] else hs[t]
  }

  /** The histories after a trial that consumed `n` steps: one result per scheduled target set. */
  function TrialHistories(hs: Histories, stream: Stream, sched: set<TargetSet>, clock: Clock, n: nat): Histories
    requires Covers(clock, stream)
    requires n <= |stream|
  {
    map t | t in hs :: if t in sched then hs[t] + [TrialResult(stream, t, n, clock)] else hs[t]
  }

  /**
   * The histories of one start word after `run_benches_for_word`: unchanged
   * when the skip rule schedules nothing; an error result for EVERY target set
   * when the search cannot start; otherwise one trial result for each
   * scheduled target set, with the loop stopped where the stopping rule says.
   */
  ghost function AfterTrial(hs: Histories, search: SearchStart, clock: Clock, cfg: RunCfg): (r: Histories)
    requires ClockFor(search, clock)
    ensures r.Keys == hs.Keys
  {
    var sched := Scheduled(hs, cfg.repeatFailed);
    if sched == {} then hs
    else match search
      case Err(message) => Appended(hs, hs.Keys, BenchResult(Err(message), clock[0]))
      case Ok(stream) => TrialHistories(hs, stream, sched, clock, StopPoint(stream, sched, clock, cfg.timeout))
  }

  /**
   * One history during the matching loop: a scheduled target set hit within
   * the first `i` steps already has its result.
   */
  function Recorded(h: History, scheduled: bool, stream: Stream, t: TargetSet, clock: Clock, i: nat): History
    requires Covers(clock, stream)
    requires i <= |stream|
  {
    if scheduled && FirstHit(stream, t, i).Some? then h + [TrialResult(stream, t, i, clock)] else h
  }

  /** A step records a found result exactly for the waiting scheduled target sets containing its word. */
  lemma RecordedStep(h: History, scheduled: bool, stream: Stream, t: TargetSet, clock: Clock, i: nat)
    requires Covers(clock, stream)
    requires i < |stream|
    ensures Recorded(h, scheduled, stream, t, clock, i + 1)
      == if scheduled && FirstHit(stream, t, i).None? && HitAt(stream, t, i)
         then h + [BenchResult(Ok(Some(WordsBefore(stream, i))), clock[i + WordsBefore(stream, i)])]
         else Recorded(h, scheduled, stream, t, clock, i)
  {
    FirstHitStep(stream, t, i);
  }

  /** One more step: the first hit stays, or is this step when it hits. */
  lemma FirstHitStep(stream: Stream, t: TargetSet, i: nat)
    requires i < |stream|
    ensures FirstHit(stream, t, i).Some? ==> FirstHit(stream, t, i + 1) == FirstHit(stream, t, i)
    ensures FirstHit(stream, t, i).None? ==> FirstHit(stream, t, i + 1) == if HitAt(stream, t, i) then Some(i) else None
  {}

  /** Histories that agree with `TrialHistories` key by key are `TrialHistories`. */
  lemma TrialHistoriesPointwise(res: Histories, hs: Histories, stream: Stream, sched: set<TargetSet>, clock: Clock, n: nat)
    requires Covers(clock, stream)
    requires n <= |stream| && res.Keys == hs.Keys
    requires forall t :: t in res ==> res[t] == if t in sched then hs[t] + [TrialResult(stream, t, n, clock)] else hs[t]
    ensures res == TrialHistories(hs, stream, sched, clock, n)
  {
    var r := TrialHistories(hs, stream, sched, clock, n);
    assert r.Keys == hs.Keys;
  }

  /** Histories that agree with `Appended` key by key are `Appended`. */
  lemma AppendedPointwise(res: Histories, hs: Histories, ts: set<TargetSet>, r: BenchResult)
    requires res.Keys == hs.Keys
    requires forall t :: t in res ==> res[t] == if t in ts then hs[t] + [r] else hs[t]
    ensures res == Appended(hs, ts, r)
  {
    var a := Appended(hs, ts, r);
    assert a.Keys == hs.Keys;
  }

  /** Two sequences splitting a sequence without repeats have no repeats. */
  lemma DistinctSplit<T(!new)>(a: seq<T>, b: seq<T>, s: seq<T>)
    requires multiset(a) + multiset(b) == multiset(s) && Distinct(s)
    ensures Distinct(a) && Distinct(b)
  {
    forall x ensures multiset(a)[x] <= 1 && multiset(b)[x] <= 1 {
      assert multiset(s)[x] == multiset(a)[x] + multiset(b)[x];
    }
  }

  /** In a sequence without repeats, no element occurs before its own position. */
  lemma DistinctAt<T(!new)>(s: seq<T>, j: nat)
    requires Distinct(s) && j < |s|
    ensures s[j] !in s[..j]
  {
    assert s == s[..j] + s[j..];
    assert multiset(s)[s[j]] == multiset(s[..j])[s[j]] + multiset(s[j..])[s[j]];
    assert s[j] in s[j..];
  }

  /** Dropping the last element of a sequence without repeats leaves one without repeats and without that element. */
  lemma DistinctSnoc<T(!new)>(s: seq<T>)
    requires Distinct(s) && |s| > 0
    ensures Distinct(s[..|s| - 1]) && s[|s| - 1] !in s[..|s| - 1]
  {
    var k := |s| - 1;
    assert s == s[..k] + [s[k]];
    forall x ensures multiset(s[..k])[x] <= 1 {
      assert multiset(s)[x] == multiset(s[..k])[x] + multiset([s[k]])[x];
    }
    assert multiset(s)[s[k]] == multiset(s[..k])[s[k]] + 1;
  }

  /** Two sequences splitting a sequence hold exactly its members. */
  lemma SplitMembers<T>(a: seq<T>, b: seq<T>, s: seq<T>)
    requires multiset(a) + multiset(b) == multiset(s)
    ensures forall x :: x in s <==> x in a || x in b
  {
    forall x ensures x in s <==> x in a || x in b {
      assert multiset(s)[x] == multiset(a)[x] + multiset(b)[x];
    }
  }

  /** Append `r` to the history of each target set of `targets` (each push of the callback or of the final loop). */
  method PushEach(hs: Histories, targets: seq<TargetSet>, r: BenchResult) returns (res: Histories)
    requires Distinct(targets)
    requires forall t :: t in targets ==> t in hs
    ensures res.Keys == hs.Keys
    ensures forall t :: t in res ==> res[t] == if t in targets then hs[t] + [r] else hs[t]
  {
    res := hs;
    var j := 0;
    while j < |targets|
      invariant j <= |targets|
      invariant res.Keys == hs.Keys
      invariant forall t :: t in res ==> res[t] == if t in targets[..j] then hs[t] + [r] else hs[t]
    {
      var t := targets[j];
      DistinctAt(targets, j);
      res := res[t := res[t] + [r]];
      assert targets[..j + 1] == targets[..j] + [t];
      j := j + 1;
    }
    assert targets[..j] == targets;
  }

  /** Append `r` to every history (`for result_vec in benches.values_mut()`). */
  method PushAll(hs: Histories, r: BenchResult) returns (res: Histories)
    ensures res == Appended(hs, hs.Keys, r)
  {
    res := hs;
    var todo := hs.Keys;
    while todo != {}
      invariant todo <= hs.Keys && res.Keys == hs.Keys
      invariant forall t :: t in res ==> res[t] == if t in todo then hs[t] else hs[t] + [r]
      decreases todo
    {
      var t :| t in todo;
      res := res[t := res[t] + [r]];
      todo := todo - {t};
    }
    AppendedPointwise(res, hs, hs.Keys, r);
  }

  /** The in-place `remove` loop of `clear_successes` over one history. */
  method RemoveFound(v: History) returns (w: History)
    ensures w == Unfound(v)
  {
    w := v;
    var i := 0;
    ghost var k := 0;
    while i < |w|
      invariant k <= |v| && i <= |w|
      invariant w[..i] == Unfound(v[..k]) && w[i..] == v[k..]
      decreases |w| - i
    {
      assert w[i] == v[k] && w[i + 1..] == v[k + 1..] by {
        assert w[i..][0] == w[i] && w[i..][1..] == w[i + 1..];
      }
      assert v[..k + 1] == v[..k] + [v[k]];
      UnfoundAppend(v[..k], [v[k]]);
      assert Unfound([v[k]]) == (if v[k].IsFound() then [] else [v[k]]);
      if w[i].IsFound() {
        var rest := w[i + 1..];
        w := w[..i] + rest;
        assert w[..i] == Unfound(v[..k + 1]) && w[i..] == rest;
      } else {
        assert w[..i + 1] == w[..i] + [w[i]];
        i := i + 1;
      }
      k := k + 1;
    }
    assert v[..k] == v;
  }

  /** `bench_map.values_mut().for_each(Vec::clear)`. */
  method ClearHistories(hs: Histories) returns (res: Histories)
    ensures res == ClearedHistories(hs)
  {
    res := hs;
    var todo := hs.Keys;
    while todo != {}
      invariant todo <= hs.Keys && res.Keys == hs.Keys
      invariant forall t :: t in res ==> res[t] == if t in todo then hs[t] else []
      decreases todo
    {
      var t :| t in todo;
      res := res[t := []];
      todo := todo - {t};
    }
  }

  /** The inner loops of `clear_successes` over the histories of one start word. */
  method RemoveFoundAll(hs: Histories) returns (res: Histories)
    ensures res == UnfoundHistories(hs)
  {
    res := hs;
    var todo := hs.Keys;
    while todo != {}
      invariant todo <= hs.Keys && res.Keys == hs.Keys
      invariant forall t :: t in res ==> res[t] == if t in todo then hs[t] else Unfound(hs[t])
      decreases todo
    {
      var t :| t in todo;
      var kept := RemoveFound(res[t]);
      res := res[t := kept];
      todo := todo - {t};
    }
  }

  /** Queue every target set the skip rule schedules (the first loop of `run_benches_for_word`). */
  method Schedule(hs: Histories, repeatFailed: nat) returns (runner: BenchRunner)
    ensures fresh(runner) && runner.Valid()
    ensures Distinct(runner.remainingTargets)
    ensures forall t :: t in runner.remainingTargets <==> t in Scheduled(hs, repeatFailed)
  {
    runner := new BenchRunner();
    var todo := hs.Keys;
    while todo != {}
      invariant todo <= hs.Keys
      invariant fresh(runner) && runner.Valid()
      invariant Distinct(runner.remainingTargets)
      invariant forall t :: t in runner.remainingTargets <==> t in hs && t !in todo && Schedulable(hs[t], repeatFailed)
      decreases todo
    {
      var targets :| targets in todo;
      if Schedulable(hs[targets], repeatFailed) {
        ghost var before := runner.remainingTargets;
        runner.AddTargets(targets);
        assert multiset(runner.remainingTargets) == multiset(before) + multiset{targets};
      }
      todo := todo - {targets};
    }
  }

  /**
   * The state of the matching loop after `i` steps: the waiting target sets,
   * without repeats, are the scheduled ones not hit yet, and every history has
   * the result of a target set hit so far.
   */
  ghost predicate Matching(cur: Histories, hs: Histories, stream: Stream, sched: set<TargetSet>, clock: Clock,
                           waiting: seq<TargetSet>, i: nat)
  {
    && i <= |stream| && Covers(clock, stream)
    && sched <= hs.Keys && cur.Keys == hs.Keys && Distinct(waiting)
    && (forall t :: t in waiting <==> t in sched && FirstHit(stream, t, i).None?)
    && (forall t :: t in cur ==> cur[t] == Recorded(hs[t], t in sched, stream, t, clock, i))
  }

  /**
   * The matching loop of `run_benches_for_word` for a search that started:
   * feed each word to the runner, record the hits, stop when the runner is
   * done, the stream ends or the timeout is reached, and record the waiting
   * target sets as not found.
   */
  method RunTrial(hs: Histories, stream: Stream, ghost sched: set<TargetSet>, runner: BenchRunner,
                  clock: Clock, timeout: Duration)
    returns (res: Histories)
    requires Covers(clock, stream)
    requires runner.Valid() && Distinct(runner.remainingTargets)
    requires forall t :: t in runner.remainingTargets <==> t in sched
    requires sched <= hs.Keys
    modifies runner
    ensures res == TrialHistories(hs, stream, sched, clock, StopPoint(stream, sched, clock, timeout))
  {
    var i, clockReads;
    res, i, clockReads := MatchLoop(hs, stream, sched, runner, clock, timeout);
    res := FinishTrial(res, hs, stream, sched, runner.remainingTargets, clock, i, clockReads);
  }

  /** The `while !runner.is_done()` loop: feed the stream to the runner until it is done, exhausted or timed out. */
  method MatchLoop(hs: Histories, stream: Stream, ghost sched: set<TargetSet>, runner: BenchRunner,
                   clock: Clock, timeout: Duration)
    returns (res: Histories, i: nat, clockReads: nat)
    requires Covers(clock, stream)
    requires runner.Valid() && Distinct(runner.remainingTargets)
    requires forall t :: t in runner.remainingTargets <==> t in sched
    requires sched <= hs.Keys
    modifies runner
    ensures i == StopPoint(stream, sched, clock, timeout)
    ensures Matching(res, hs, stream, sched, clock, runner.remainingTargets, i)
    ensures clockReads == i + WordsBefore(stream, i)
  {
    ghost var n := StopPoint(stream, sched, clock, timeout);
    res := hs;
    i := 0;
    var wordIdx := 0;
    clockReads := 0;
    MatchingStart(hs, stream, sched, clock, runner.remainingTargets);
    var stop := false;
    while !stop && !runner.IsDone()
      invariant i <= |stream| && runner.Valid()
      invariant Matching(res, hs, stream, sched, clock, runner.remainingTargets, i)
      invariant stop ==> i == n
      invariant !stop ==> StopFrom(stream, sched, clock, timeout, i) == n
      invariant wordIdx == WordsBefore(stream, i) && clockReads == i + wordIdx
      decreases |stream| - i, !stop
    {
      res, i, wordIdx, clockReads, stop := MatchStep(res, hs, stream, sched, runner, clock, timeout, i, wordIdx, clockReads, n);
    }
    if !stop {
      WaitingNotAllHit(runner.remainingTargets, stream, sched, i);
      StopFromHere(stream, sched, clock, timeout, i);
    }
  }

  /**
   * One turn of the matching loop while some target set is waiting: at the
   * end of the stream the loop stops where it is; otherwise one step is
   * taken and the timeout checked.
   */
  method MatchStep(cur: Histories, ghost hs: Histories, stream: Stream, ghost sched: set<TargetSet>, runner: BenchRunner,
                   clock: Clock, timeout: Duration, i: nat, wordIdx: nat, clockReads: nat, ghost n: nat)
    returns (res: Histories, i': nat, wordIdx': nat, clockReads': nat, stop: bool)
    requires i <= |stream| && runner.Valid() && |runner.remainingTargets| > 0
    requires Matching(cur, hs, stream, sched, clock, runner.remainingTargets, i)
    requires StopFrom(stream, sched, clock, timeout, i) == n
    requires wordIdx == WordsBefore(stream, i) && clockReads == i + wordIdx
    modifies runner
    ensures i' <= |stream| && runner.Valid()
    ensures Matching(res, hs, stream, sched, clock, runner.remainingTargets, i')
    ensures wordIdx' == WordsBefore(stream, i') && clockReads' == i' + wordIdx'
    ensures stop ==> i' == n
    ensures !stop ==> i' == i + 1 && StopFrom(stream, sched, clock, timeout, i') == n
  {
    if i == |stream| {
      StopFromHere(stream, sched, clock, timeout, i);
      return cur, i, wordIdx, clockReads, true;
    }
    WaitingNotAllHit(runner.remainingTargets, stream, sched, i);
    res, wordIdx', clockReads', stop := TrialIteration(cur, hs, stream, sched, runner, clock, timeout, i, wordIdx, clockReads, n);
    i' := i + 1;
  }

  /** Before the first step nothing is recorded and every scheduled target set is waiting. */
  lemma MatchingStart(hs: Histories, stream: Stream, sched: set<TargetSet>, clock: Clock, waiting: seq<TargetSet>)
    requires Covers(clock, stream) && Distinct(waiting) && sched <= hs.Keys
    requires forall t :: t in waiting <==> t in sched
    ensures Matching(hs, hs, stream, sched, clock, waiting, 0)
  {
  }

  /** Every scheduled target set is hit exactly when none is left waiting. */
  lemma WaitingNotAllHit(waiting: seq<TargetSet>, stream: Stream, sched: set<TargetSet>, i: nat)
    requires i <= |stream|
    requires forall t :: t in waiting <==> t in sched && FirstHit(stream, t, i).None?
    ensures AllHit(stream, sched, i) <==> waiting == []
  {
    if waiting != [] {
      assert waiting[0] in waiting;
    }
  }

  /**
   * One pass of the matching loop at step `i`: consume the step, then read
   * the clock and tell whether the timeout ends the loop.
   */
  method TrialIteration(cur: Histories, ghost hs: Histories, stream: Stream, ghost sched: set<TargetSet>, runner: BenchRunner,
                        clock: Clock, timeout: Duration, i: nat, wordIdx: nat, clockReads: nat, ghost n: nat)
    returns (res: Histories, wordIdx': nat, clockReads': nat, stop: bool)
    requires i < |stream| && runner.Valid()
    requires Matching(cur, hs, stream, sched, clock, runner.remainingTargets, i)
    requires !AllHit(stream, sched, i) && StopFrom(stream, sched, clock, timeout, i) == n
    requires wordIdx == WordsBefore(stream, i) && clockReads == i + wordIdx
    modifies runner
    ensures runner.Valid()
    ensures Matching(res, hs, stream, sched, clock, runner.remainingTargets, i + 1)
    ensures wordIdx' == WordsBefore(stream, i + 1) && clockReads' == i + 1 + wordIdx'
    ensures stop ==> n == i + 1
    ensures !stop ==> StopFrom(stream, sched, clock, timeout, i + 1) == n
  {
    res := TrialStep(cur, hs, stream, sched, runner, clock, i, wordIdx, clockReads);
    wordIdx' := wordIdx;
    clockReads' := clockReads;
    if stream[i].Some? {
      clockReads' := clockReads' + 1;
      wordIdx' := wordIdx' + 1;
    }
    assert wordIdx' == WordsBefore(stream, i + 1) && clockReads' == i + wordIdx' && clockReads' < |clock| by {
      assert Covers(clock, stream);
    }
    var now := clock[clockReads'];
    clockReads' := clockReads' + 1;
    stop := now >= timeout;
    assert stop ==> n == i + 1 by {
      StopAfterStep(stream, sched, clock, timeout, i, n, now);
    }
    assert !stop ==> StopFrom(stream, sched, clock, timeout, i + 1) == n by {
      StopAfterStep(stream, sched, clock, timeout, i, n, now);
    }
  }

  /** The final loop of `run_benches_for_word`: read the clock once more and record the waiting target sets as not found. */
  method FinishTrial(cur: Histories, ghost hs: Histories, stream: Stream, ghost sched: set<TargetSet>, waiting: seq<TargetSet>,
                     clock: Clock, n: nat, clockReads: nat)
    returns (res: Histories)
    requires Matching(cur, hs, stream, sched, clock, waiting, n)
    requires clockReads == n + WordsBefore(stream, n)
    ensures res == TrialHistories(hs, stream, sched, clock, n)
  {
    var elapsed := clock[clockReads];
    var r := BenchResult(Ok(None), elapsed);
    res := PushEach(cur, waiting, r);
    FinishRecorded(cur, res, hs, stream, sched, clock, n, waiting, elapsed, r);
    TrialHistoriesPointwise(res, hs, stream, sched, clock, n);
  }

  /** After the loop, the target sets still waiting get their not-found result. */
  lemma FinishRecorded(cur: Histories, res: Histories, hs: Histories, stream: Stream, sched: set<TargetSet>, clock: Clock,
                       n: nat, waiting: seq<TargetSet>, elapsed: Duration, r: BenchResult)
    requires Covers(clock, stream)
    requires n <= |stream| && cur.Keys == hs.Keys && res.Keys == hs.Keys
    requires elapsed == clock[n + WordsBefore(stream, n)] && r == BenchResult(Ok(None), elapsed)
    requires forall t :: t in cur ==> cur[t] == Recorded(hs[t], t in sched, stream, t, clock, n)
    requires forall t :: t in waiting <==> t in sched && FirstHit(stream, t, n).None?
    requires forall t :: t in res ==> res[t] == if t in waiting then cur[t] + [r] else cur[t]
    ensures forall t :: t in res ==> res[t] == if t in sched then hs[t] + [TrialResult(stream, t, n, clock)] else hs[t]
  {
  }

  /** Step `i` of the matching loop: when it yields a word, read the clock and record the target sets it completes. */
  method TrialStep(cur: Histories, ghost hs: Histories, stream: Stream, ghost sched: set<TargetSet>, runner: BenchRunner,
                   clock: Clock, i: nat, wordIdx: nat, clockReads: nat)
    returns (res: Histories)
    requires i < |stream| && runner.Valid()
    requires Matching(cur, hs, stream, sched, clock, runner.remainingTargets, i)
    requires wordIdx == WordsBefore(stream, i) && clockReads == i + wordIdx
    modifies runner
    ensures runner.Valid()
    ensures Matching(res, hs, stream, sched, clock, runner.remainingTargets, i + 1)
  {
    if stream[i].Some? {
      res := HitStep(cur, hs, stream, sched, runner, clock, i, wordIdx, clockReads);
    } else {
      res := cur;
      MissRecorded(cur, hs, stream, sched, clock, i);
      MissWaiting(runner.remainingTargets, stream, sched, i);
    }
  }

  /** A step that reads a word: time it, tell the runner, and record a result for each target set it completes. */
  method HitStep(cur: Histories, ghost hs: Histories, stream: Stream, ghost sched: set<TargetSet>, runner: BenchRunner,
                 clock: Clock, i: nat, wordIdx: nat, clockReads: nat)
    returns (res: Histories)
    requires i < |stream| && stream[i].Some? && runner.Valid()
    requires Matching(cur, hs, stream, sched, clock, runner.remainingTargets, i)
    requires wordIdx == WordsBefore(stream, i) && clockReads == i + wordIdx
    modifies runner
    ensures runner.Valid()
    ensures Matching(res, hs, stream, sched, clock, runner.remainingTargets, i + 1)
  {
    ghost var waiting := runner.remainingTargets;
    var elapsed := clock[clockReads];
    var hits := runner.OnWordFound(stream[i].value);
    ghost var rest := runner.remainingTargets;
    HitSplit(cur, hs, stream, sched, clock, waiting, hits, rest, i);
    res := PushEach(cur, hits, BenchResult(Ok(Some(wordIdx)), elapsed));
    HitMatches(cur, res, hs, stream, sched, clock, waiting, hits, rest, i, BenchResult(Ok(Some(wordIdx)), elapsed));
  }

  /** The target sets a word completes are distinct, and each has a history. */
  lemma HitSplit(cur: Histories, hs: Histories, stream: Stream, sched: set<TargetSet>, clock: Clock,
                 waiting: seq<TargetSet>, hits: seq<TargetSet>, rest: seq<TargetSet>, i: nat)
    requires Matching(cur, hs, stream, sched, clock, waiting, i)
    requires multiset(hits) + multiset(rest) == multiset(waiting)
    ensures Distinct(hits) && forall t :: t in hits ==> t in cur
  {
    DistinctSplit(hits, rest, waiting);
    SplitMembers(hits, rest, waiting);
  }

  /** After a word, the histories and the waiting target sets match the stream one step further. */
  lemma HitMatches(cur: Histories, res: Histories, hs: Histories, stream: Stream, sched: set<TargetSet>, clock: Clock,
                   waiting: seq<TargetSet>, hits: seq<TargetSet>, rest: seq<TargetSet>, i: nat, r: BenchResult)
    requires i < |stream| && stream[i].Some?
    requires Matching(cur, hs, stream, sched, clock, waiting, i)
    requires r == BenchResult(Ok(Some(WordsBefore(stream, i))), clock[i + WordsBefore(stream, i)])
    requires multiset(hits) + multiset(rest) == multiset(waiting)
    requires forall t :: t in hits ==> stream[i].value in t
    requires forall t :: t in rest ==> stream[i].value !in t
    requires res.Keys == cur.Keys
    requires forall t :: t in res ==> res[t] == if t in hits then cur[t] + [r] else cur[t]
    ensures Matching(res, hs, stream, sched, clock, rest, i + 1)
  {
    DistinctSplit(hits, rest, waiting);
    SplitMembers(hits, rest, waiting);
    HitRecorded(cur, res, hs, stream, sched, clock, i, hits, r);
    HitWaiting(waiting, rest, stream, sched, i);
  }

  /** A step without a word records nothing. */
  lemma MissRecorded(cur: Histories, hs: Histories, stream: Stream, sched: set<TargetSet>, clock: Clock, i: nat)
    requires Covers(clock, stream)
    requires i < |stream| && stream[i].None? && cur.Keys == hs.Keys
    requires forall t :: t in cur ==> cur[t] == Recorded(hs[t], t in sched, stream, t, clock, i)
    ensures forall t :: t in cur ==> cur[t] == Recorded(hs[t], t in sched, stream, t, clock, i + 1)
  {
    forall t | t in cur ensures cur[t] == Recorded(hs[t], t in sched, stream, t, clock, i + 1) {
      RecordedStep(hs[t], t in sched, stream, t, clock, i);
    }
  }

  /** A step without a word leaves the same target sets waiting. */
  lemma MissWaiting(waiting: seq<TargetSet>, stream: Stream, sched: set<TargetSet>, i: nat)
    requires i < |stream| && stream[i].None?
    requires forall t :: t in waiting <==> t in sched && FirstHit(stream, t, i).None?
    ensures forall t :: t in waiting <==> t in sched && FirstHit(stream, t, i + 1).None?
  {
    forall t ensures t in waiting <==> t in sched && FirstHit(stream, t, i + 1).None? {
      FirstHitStep(stream, t, i);
    }
  }

  /** A step with a word records a found result for exactly the target sets it completes. */
  lemma HitRecorded(cur: Histories, res: Histories, hs: Histories, stream: Stream, sched: set<TargetSet>, clock: Clock,
                    i: nat, hits: seq<TargetSet>, r: BenchResult)
    requires Covers(clock, stream)
    requires i < |stream| && stream[i].Some? && cur.Keys == hs.Keys && res.Keys == hs.Keys
    requires r == BenchResult(Ok(Some(WordsBefore(stream, i))), clock[i + WordsBefore(stream, i)])
    requires forall t :: t in cur ==> cur[t] == Recorded(hs[t], t in sched, stream, t, clock, i)
    requires forall t :: t in hits <==> t in sched && FirstHit(stream, t, i).None? && stream[i].value in t
    requires forall t :: t in res ==> res[t] == if t in hits then cur[t] + [r] else cur[t]
    ensures forall t :: t in res ==> res[t] == Recorded(hs[t], t in sched, stream, t, clock, i + 1)
  {
    forall t | t in res ensures res[t] == Recorded(hs[t], t in sched, stream, t, clock, i + 1) {
      HitRecordedAt(hs[t], cur[t], res[t], t in sched, stream, t, clock, i, t in hits);
    }
  }

  lemma HitRecordedAt(h: History, before: History, after: History, scheduled: bool, stream: Stream, t: TargetSet,
                      clock: Clock, i: nat, hit: bool)
    requires Covers(clock, stream)
    requires i < |stream| && stream[i].Some?
    requires before == Recorded(h, scheduled, stream, t, clock, i)
    requires hit <==> scheduled && FirstHit(stream, t, i).None? && stream[i].value in t
    requires after == if hit then before + [BenchResult(Ok(Some(WordsBefore(stream, i))), clock[i + WordsBefore(stream, i)])] else before
    ensures after == Recorded(h, scheduled, stream, t, clock, i + 1)
  {
    RecordedStep(h, scheduled, stream, t, clock, i);
  }

  /** A step with a word leaves waiting exactly the target sets without it. */
  lemma HitWaiting(waiting: seq<TargetSet>, rest: seq<TargetSet>, stream: Stream, sched: set<TargetSet>, i: nat)
    requires i < |stream| && stream[i].Some?
    requires forall t :: t in waiting <==> t in sched && FirstHit(stream, t, i).None?
    requires forall t :: t in rest <==> t in waiting && stream[i].value !in t
    ensures forall t :: t in rest <==> t in sched && FirstHit(stream, t, i + 1).None?
  {
    forall t ensures t in rest <==> t in sched && FirstHit(stream, t, i + 1).None? {
      FirstHitStep(stream, t, i);
    }
  }

  /**
   * The effect of one trial on each history: a skipped start word keeps every
   * history; a search that cannot start appends the same error result to every
   * history of the start word, scheduled or not; a search that starts appends
   * exactly one result, never an error, to each scheduled history and leaves
   * the others alone.
   */
  lemma AfterTrialEffect(hs: Histories, search: SearchStart, clock: Clock, cfg: RunCfg, t: TargetSet)
    requires ClockFor(search, clock)
    requires t in hs
    ensures Scheduled(hs, cfg.repeatFailed) == {} ==> AfterTrial(hs, search, clock, cfg) == hs
    ensures Scheduled(hs, cfg.repeatFailed) != {} && search.Err? ==>
      AfterTrial(hs, search, clock, cfg)[t] == hs[t] + [BenchResult(Err(search.error), clock[0])]
    ensures search.Ok? && t !in Scheduled(hs, cfg.repeatFailed) ==> AfterTrial(hs, search, clock, cfg)[t] == hs[t]
    ensures search.Ok? && t in Scheduled(hs, cfg.repeatFailed) ==>
      var after := AfterTrial(hs, search, clock, cfg)[t];
      |after| == |hs[t]| + 1 && after[..|hs[t]|] == hs[t] && after[|hs[t]|].foundIndex.Ok?
  {
    var sched := Scheduled(hs, cfg.repeatFailed);
    if sched != {} && search.Ok? {
      var stream := search.value;
      var n := StopPoint(stream, sched, clock, cfg.timeout);
      TrialResultMeaning(stream, t, n, clock);
      if t in sched {
        var after := AfterTrial(hs, search, clock, cfg)[t];
        assert after == hs[t] + [TrialResult(stream, t, n, clock)];
        assert after[..|hs[t]|] == hs[t];
      }
    }
  }

  /**
   * Every history of `after` is the history of `before` with at most `k`
   * results appended, and no start word or target set appears or vanishes.
   */
  ghost predicate GrewBy(before: Benches, after: Benches, k: nat) {
    && after.Keys == before.Keys
    && (forall s :: s in before ==> after[s].Keys == before[s].Keys)
    && (forall s, t :: s in before && t in before[s] ==>
          before[s][t] <= after[s][t] && |after[s][t]| <= |before[s][t]| + k)
  }

  lemma GrewByTrans(a: Benches, b: Benches, c: Benches, j: nat, k: nat)
    requires GrewBy(a, b, j) && GrewBy(b, c, k)
    ensures GrewBy(a, c, j + k)
  {
    forall s, t | s in a && t in a[s] ensures a[s][t] <= c[s][t] && |c[s][t]| <= |a[s][t]| + j + k {
      assert b[s][t] <= c[s][t];
      assert a[s][t] == b[s][t][..|a[s][t]|] == c[s][t][..|a[s][t]|];
    }
  }

  /** The ledger the source's trials see: every word of the order and its search and clock. */
  ghost predicate Inputs(keys: set<string>, searches: map<string, SearchStart>, order: seq<string>, clocks: seq<Clock>) {
    && |clocks| == |order|
    && forall k :: 0 <= k < |order| ==>
         order[k] in keys && order[k] in searches && ClockFor(searches[order[k]], clocks[k])
  }

  /** `shuffle` of the start words: each key exactly once. */
  ghost predicate IsShuffle(order: seq<string>, keys: set<string>) {
    Distinct(order) && forall w :: w in order <==> w in keys
  }

  /**
   * One pass of `run_benches`: `run_benches_for_word` for each start word of
   * `order` in turn, the `k`-th timed by `clocks[k]`.
   */
  ghost function Pass(b: Benches, searches: map<string, SearchStart>, order: seq<string>, clocks: seq<Clock>, cfg: RunCfg): (r: Benches)
    requires Inputs(b.Keys, searches, order, clocks)
    ensures r.Keys == b.Keys
    decreases |order|
  {
    if order == [] then b
    else
      var k := |order| - 1;
      var prev := Pass(b, searches, order[..k], clocks[..k], cfg);
      var w := order[k];
      prev[w := AfterTrial(prev[w], searches[w], clocks[k], cfg)]
  }

  /** The passes of `orders`, one after the other. */
  ghost function Passes(b: Benches, searches: map<string, SearchStart>, orders: seq<seq<string>>, clocks: seq<seq<Clock>>, cfg: RunCfg): (r: Benches)
    requires |clocks| == |orders|
    requires forall p :: 0 <= p < |orders| ==> Inputs(b.Keys, searches, orders[p], clocks[p])
    ensures r.Keys == b.Keys
    decreases |orders|
  {
    if orders == [] then b
    else
      var p := |orders| - 1;
      var prev := Passes(b, searches, orders[..p], clocks[..p], cfg);
      Pass(prev, searches, orders[p], clocks[p], cfg)
  }

  /** The inputs of a whole `run_benches`: a warm-up pass and `repeat` more, each a shuffle of the start words. */
  ghost predicate RunInputs(b: Benches, searches: map<string, SearchStart>, orders: seq<seq<string>>, clocks: seq<seq<Clock>>, cfg: RunCfg) {
    && |orders| == cfg.repeat + 1
    && |clocks| == |orders|
    && forall p :: 0 <= p < |orders| ==> IsShuffle(orders[p], b.Keys) && Inputs(b.Keys, searches, orders[p], clocks[p])
  }

  /** The ledger after the warm-up pass and `clear_successes`. */
  ghost function WarmedUp(b: Benches, searches: map<string, SearchStart>, orders: seq<seq<string>>, clocks: seq<seq<Clock>>, cfg: RunCfg): (r: Benches)
    requires RunInputs(b, searches, orders, clocks, cfg)
    ensures r.Keys == b.Keys
  {
    WithoutSuccesses(Pass(b, searches, orders[0], clocks[0], cfg))
  }

  /** The ledger after `run_benches`: the warm-up, then `repeat` timed passes. */
  ghost function AfterRun(b: Benches, searches: map<string, SearchStart>, orders: seq<seq<string>>, clocks: seq<seq<Clock>>, cfg: RunCfg): Benches
    requires RunInputs(b, searches, orders, clocks, cfg)
  {
    Passes(WarmedUp(b, searches, orders, clocks, cfg), searches, orders[1..], clocks[1..], cfg)
  }

  /** A start word the pass does not visit keeps its histories. */
  lemma {:induction false} PassUntouched(b: Benches, searches: map<string, SearchStart>, order: seq<string>, clocks: seq<Clock>, cfg: RunCfg, s: string)
    requires Inputs(b.Keys, searches, order, clocks)
    requires s in b && s !in order
    ensures Pass(b, searches, order, clocks, cfg)[s] == b[s]
    decreases |order|
  {
    if order != [] {
      var k := |order| - 1;
      assert s != order[k];
      assert s !in order[..k];
      PassUntouched(b, searches, order[..k], clocks[..k], cfg, s);
    }
  }

  /** A pass that visits each start word at most once adds at most one result to each history. */
  lemma {:induction false} PassGrowth(b: Benches, searches: map<string, SearchStart>, order: seq<string>, clocks: seq<Clock>, cfg: RunCfg)
    requires Inputs(b.Keys, searches, order, clocks)
    requires Distinct(order)
    ensures GrewBy(b, Pass(b, searches, order, clocks, cfg), 1)
    decreases |order|
  {
    if order != [] {
      var k := |order| - 1;
      var w := order[k];
      DistinctSnoc(order);
      PassGrowth(b, searches, order[..k], clocks[..k], cfg);
      PassUntouched(b, searches, order[..k], clocks[..k], cfg, w);
      var prev := Pass(b, searches, order[..k], clocks[..k], cfg);
      var r := Pass(b, searches, order, clocks, cfg);
      forall t | t in b[w] ensures b[w][t] <= r[w][t] && |r[w][t]| <= |b[w][t]| + 1 {
        AfterTrialEffect(b[w], searches[w], clocks[k], cfg, t);
      }
    }
  }

  /** The passes add at most one result per pass to each history. */
  lemma {:induction false} PassesGrowth(b: Benches, searches: map<string, SearchStart>, orders: seq<seq<string>>, clocks: seq<seq<Clock>>, cfg: RunCfg)
    requires |clocks| == |orders|
    requires forall p :: 0 <= p < |orders| ==> Distinct(orders[p]) && Inputs(b.Keys, searches, orders[p], clocks[p])
    ensures GrewBy(b, Passes(b, searches, orders, clocks, cfg), |orders|)
    decreases |orders|
  {
    if orders == [] {
      assert Passes(b, searches, orders, clocks, cfg) == b;
    } else {
      var p := |orders| - 1;
      PassesGrowth(b, searches, orders[..p], clocks[..p], cfg);
      var prev := Passes(b, searches, orders[..p], clocks[..p], cfg);
      PassGrowth(prev, searches, orders[p], clocks[p], cfg);
      GrewByTrans(b, prev, Passes(b, searches, orders, clocks, cfg), p, 1);
    }
  }

  /**
   * What `run_benches` leaves: after the warm-up pass every history holds at
   * most one more result than before and, with the successes cleared, no
   * found result; the `repeat` timed passes then add at most one result each.
   */
  lemma RunGrowth(b: Benches, searches: map<string, SearchStart>, orders: seq<seq<string>>, clocks: seq<seq<Clock>>, cfg: RunCfg)
    requires RunInputs(b, searches, orders, clocks, cfg)
    ensures var warm := WarmedUp(b, searches, orders, clocks, cfg);
      && (forall s, t :: s in b && t in b[s] ==> t in warm[s] && |warm[s][t]| <= |b[s][t]| + 1)
      && (forall s, t, x: BenchResult :: s in warm && t in warm[s] && x in warm[s][t] ==> !x.IsFound())
      && GrewBy(warm, AfterRun(b, searches, orders, clocks, cfg), cfg.repeat)
  {
    var first := Pass(b, searches, orders[0], clocks[0], cfg);
    PassGrowth(b, searches, orders[0], clocks[0], cfg);
    var warm := WarmedUp(b, searches, orders, clocks, cfg);
    forall s, t | s in b && t in b[s] ensures t in warm[s] && |warm[s][t]| <= |b[s][t]| + 1 {
      UnfoundLength(first[s][t]);
    }
    forall s, t, x: BenchResult | s in warm && t in warm[s] && x in warm[s][t] ensures !x.IsFound() {
      UnfoundMembers(first[s][t]);
    }
    var rest := orders[1..];
    forall p | 0 <= p < |rest| ensures Distinct(rest[p]) && Inputs(warm.Keys, searches, rest[p], clocks[1..][p]) {
      assert rest[p] == orders[p + 1];
    }
    PassesGrowth(warm, searches, rest, clocks[1..], cfg);
  }

  /** Removing results never lengthens a history. */
  lemma {:induction false} UnfoundLength(h: History)
    ensures |Unfound(h)| <= |h|
  {
    if h != [] {
      UnfoundLength(h[1..]);
    }
  }

  class Bencher {
    var benches: Benches

    /** `Bencher::new`: an empty ledger. */
    constructor ()
      ensures benches == map[]
    {
      benches := map[];
    }

    /** `add_bench`: register a bench, keyed by the SET of its target words. */
    method AddBench(startWord: string, targets: seq<string>)
      modifies this
      ensures benches == WithBench(old(benches), startWord, SetOf(targets))
    {
      var key := SetOf(targets);
      var inner := if startWord in benches then benches[startWord] else map[];
      if key !in inner {
        inner := inner[key := []];
      }
      benches := benches[startWord := inner];
    }

    /**
     * `load_benches` over the lines of a bench file: register the benches of
     * each line, keyed by each start word and by its unaccented form; stop
     * at the first line that does not parse.
     */
    method LoadBenches(lines: seq<string>, alnum: char -> bool, unaccent: string -> string) returns (r: Result<Unit, LoadError>)
      modifies this
      ensures (benches, r) == Load(old(benches), ParseLines(alnum, lines), 0, unaccent)
    {
      ghost var parses := ParseLines(alnum, lines);
      for i := 0 to |lines|
        invariant Load(benches, parses[i..], i, unaccent) == Load(old(benches), parses, 0, unaccent)
      {
        assert parses[i..][1..] == parses[i + 1..];
        var parsed := BenchFile.BenchLine(alnum, lines[i]);
        assert parses[i..][0] == parsed;
        if parsed.Err? {
          return Err(ParseErr(i + 1, parsed.error));
        }
        if parsed.value.value.Some? {
          var startWords := parsed.value.value.value.0;
          var targetList := parsed.value.value.value.1;
          ghost var before := benches;
          for j := 0 to |startWords|
            invariant benches == AddLine(before, startWords[..j], targetList, unaccent)
          {
            assert startWords[..j + 1][..j] == startWords[..j];
            AddStartWord(startWords[j], unaccent(startWords[j]), targetList);
          }
          assert startWords[..|startWords|] == startWords;
        }
      }
      r := Ok(Unit);
    }

    /** The inner loop of `load_benches`: every target group under `startWord`, and under `unaccented` when it differs. */
    method AddStartWord(startWord: string, unaccented: string, targetList: seq<seq<string>>)
      modifies this
      ensures benches == AddGroups(old(benches), startWord, unaccented, targetList)
    {
      for k := 0 to |targetList|
        invariant benches == AddGroups(old(benches), startWord, unaccented, targetList[..k])
      {
        assert targetList[..k + 1][..k] == targetList[..k];
        AddBench(startWord, targetList[k]);
        if unaccented != startWord {
          AddBench(unaccented, targetList[k]);
        }
      }
      assert targetList[..|targetList|] == targetList;
    }

    /** `clear_results`: empty every history, keep every key. */
    method ClearResults()
      modifies this
      ensures benches == Cleared(old(benches))
    {
      var todo := benches.Keys;
      while todo != {}
        invariant todo <= benches.Keys && benches.Keys == old(benches).Keys
        invariant forall s :: s in benches ==>
          benches[s] == if s in todo then old(benches)[s] else ClearedHistories(old(benches)[s])
        decreases todo
      {
        var s :| s in todo;
        var cleared := ClearHistories(benches[s]);
        benches := benches[s := cleared];
        todo := todo - {s};
      }
    }

    /** `clear_successes`: remove every found result, keep the rest in order and every key. */
    method ClearSuccesses()
      modifies this
      ensures benches == WithoutSuccesses(old(benches))
    {
      var todo := benches.Keys;
      while todo != {}
        invariant todo <= benches.Keys && benches.Keys == old(benches).Keys
        invariant forall s :: s in benches ==>
          benches[s] == if s in todo then old(benches)[s] else UnfoundHistories(old(benches)[s])
        decreases todo
      {
        var s :| s in todo;
        var kept := RemoveFoundAll(benches[s]);
        benches := benches[s := kept];
        todo := todo - {s};
      }
    }

    /** The `for word in &start_words` loop of `run_benches`: one trial per start word of `order`. */
    method RunPass(searches: map<string, SearchStart>, order: seq<string>, clocks: seq<Clock>, cfg: RunCfg)
      requires Inputs(benches.Keys, searches, order, clocks)
      modifies this
      ensures benches == Pass(old(benches), searches, order, clocks, cfg)
    {
      for k := 0 to |order|
        invariant benches == Pass(old(benches), searches, order[..k], clocks[..k], cfg)
      {
        assert order[..k + 1][..k] == order[..k] && clocks[..k + 1][..k] == clocks[..k];
        RunBenchesForWord(searches[order[k]], clocks[k], cfg, order[k]);
      }
      assert order[..|order|] == order && clocks[..|clocks|] == clocks;
    }

    /**
     * `run_benches`: a warm-up pass over the start words in the order
     * `orders[0]`, `clear_successes`, then `repeat` passes in the orders
     * `orders[1..]`; `clocks[p][k]` times the `k`-th trial of pass `p`.
     */
    method RunBenches(searches: map<string, SearchStart>, orders: seq<seq<string>>, clocks: seq<seq<Clock>>, cfg: RunCfg)
      requires RunInputs(benches, searches, orders, clocks, cfg)
      modifies this
      ensures benches == AfterRun(old(benches), searches, orders, clocks, cfg)
    {
      RunPass(searches, orders[0], clocks[0], cfg);
      ClearSuccesses();
      assert benches == WarmedUp(old(benches), searches, orders, clocks, cfg);
      forall p | 0 <= p < |orders[1..]| ensures Inputs(benches.Keys, searches, orders[1..][p], clocks[1..][p]) {
        assert orders[1..][p] == orders[p + 1] && clocks[1..][p] == clocks[p + 1];
      }
      RunRepeats(searches, orders[1..], clocks[1..], cfg);
    }

    /** The `for _ in 0..run_cfg.repeat` loop of `run_benches`: one pass per order. */
    method RunRepeats(searches: map<string, SearchStart>, orders: seq<seq<string>>, clocks: seq<seq<Clock>>, cfg: RunCfg)
      requires |clocks| == |orders|
      requires forall p :: 0 <= p < |orders| ==> Inputs(benches.Keys, searches, orders[p], clocks[p])
      modifies this
      ensures benches == Passes(old(benches), searches, orders, clocks, cfg)
    {
      for p := 0 to |orders|
        invariant benches.Keys == old(benches).Keys
        invariant benches == Passes(old(benches), searches, orders[..p], clocks[..p], cfg)
      {
        assert orders[..p + 1][..p] == orders[..p] && clocks[..p + 1][..p] == clocks[..p];
        RunPass(searches, orders[p], clocks[p], cfg);
      }
      assert orders[..|orders|] == orders && clocks[..|clocks|] == clocks;
    }

    /**
     * `run_benches_for_word`: one trial of `startWord` against the engine's
     * answer `search`, timed by `clock`.
     */
    method RunBenchesForWord(search: SearchStart, clock: Clock, cfg: RunCfg, startWord: string)
      requires startWord in benches && ClockFor(search, clock)
      modifies this
      ensures benches == old(benches)[startWord := AfterTrial(old(benches)[startWord], search, clock, cfg)]
    {
      var hs := benches[startWord];
      var runner := Schedule(hs, cfg.repeatFailed);
      ghost var sched := Scheduled(hs, cfg.repeatFailed);
      if runner.IsDone() {
        assert sched == {};
        return;
      }
      assert sched != {} by {
        assert runner.remainingTargets[0] in runner.remainingTargets;
      }
      match search {
        case Err(message) =>
          var elapsed := clock[0];
          hs := PushAll(hs, BenchResult(Err(message), elapsed));
        case Ok(stream) =>
          hs := RunTrial(hs, stream, sched, runner, clock, cfg.timeout);
      }
      benches := benches[startWord := hs];
    }
    /**
     * `compile_results`: for each start word in ascending order, for each of
     * its target sets in ascending order, the bench name and the least result
     * of its history.
     */
    method CompileResults() returns (results: seq<(string, BenchResult)>)
      requires Compilable(benches)
      ensures results == Compiled(benches)
    {
      var words := Ascending(benches.Keys);
      results := [];
      for i := 0 to |words|
        invariant AllHaveResults(benches, KeysOf(benches, words[..i]))
        invariant results == Entries(benches, KeysOf(benches, words[..i]), BenchName)
      {
        results := CompileWord(words[i], KeysOf(benches, words[..i]), results);
        KeysOfSnoc(benches, words, i);
      }
      assert words[..|words|] == words;
    }

    /**
     * The inner loop of `compile_results`: the named results of the benches
     * of `startWord`, target sets ascending, appended to `acc`, the named
     * results of the benches `done`.
     */
    method CompileWord(startWord: string, ghost done: seq<BenchKey>, acc: seq<(string, BenchResult)>)
      returns (results: seq<(string, BenchResult)>)
      requires Compilable(benches) && startWord in benches
      requires AllHaveResults(benches, done) && acc == Entries(benches, done, BenchName)
      ensures AllHaveResults(benches, done + WordKeys(startWord, AscendingSets(benches[startWord].Keys)))
      ensures results == Entries(benches, done + WordKeys(startWord, AscendingSets(benches[startWord].Keys)), BenchName)
    {
      var hs := benches[startWord];
      var ts := AscendingSets(hs.Keys);
      results := acc;
      assert done + WordKeys(startWord, ts[..0]) == done;
      for j := 0 to |ts|
        invariant AllHaveResults(benches, done + WordKeys(startWord, ts[..j]))
        invariant results == Entries(benches, done + WordKeys(startWord, ts[..j]), BenchName)
      {
        var targets := ts[j];
        ghost var before := done + WordKeys(startWord, ts[..j]);
        WordKeysSnoc(startWord, ts, j);
        AppendAssoc(done, WordKeys(startWord, ts[..j]), (startWord, targets));
        assert done + WordKeys(startWord, ts[..j + 1]) == before + [(startWord, targets)];
        EntriesSnoc(benches, before, BenchName, (startWord, targets));
        results := results + [(BenchName(startWord, targets), CompileRunResults(hs[targets]))];
      }
      assert ts[..|ts|] == ts;
    }
  }
}
