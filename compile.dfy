/**
 * The shape of the ledger, and what `compile_results` makes of it: one
 * named result per bench, the benches listed in the order in which the
 * nested `BTreeMap`s visit them, each named by its bench-file line.
 */
module Compile {
  import opened Wrappers
  import opened Ordering
  import opened BenchResults
  import opened Runner
  import BenchFile

  /** The results of one bench, in trial order (a `Vec<BenchResult>`). */
  type History = seq<BenchResult>

  /** The benches of one start word: a history per target set. */
  type Histories = map<TargetSet, History>

  /** `Bencher::benches`: per start word, per target set, the history. */
  type Benches = map<string, Histories>

  /**
   * `Ord` on `BTreeSet<String>`: lexicographic over the two ascending
   * listings. It orders the target sets of one start word.
   */
  function TargetSetCmp(a: TargetSet, b: TargetSet): Ordering {
    LexCmp(Ascending(a), Ascending(b), StringCmp)
  }

  /** The words of a set in the order in which a `BTreeSet<String>` visits them. */
  function Ascending(words: set<string>): (r: seq<string>)
    ensures forall w :: w in r <==> w in words
  {
    StringCmpTotal();
    SortSet(words, StringCmp)
  }

  /** The target sets of one start word in the order in which its `BTreeMap` visits them. */
  function AscendingSets(ts: set<TargetSet>): (r: seq<TargetSet>)
    ensures forall t :: t in r <==> t in ts
    ensures StrictlySorted(r, TargetSetCmp)
  {
    TargetSetCmpTotal();
    SortSet(ts, TargetSetCmp)
  }

  lemma TargetSetCmpTotal()
    ensures TotalOrder(TargetSetCmp)
  {
    StringCmpTotal();
    forall a: TargetSet, b: TargetSet ensures TargetSetCmp(a, b) == Equal <==> a == b {
      LexCmpEqual(Ascending(a), Ascending(b), StringCmp);
      if Ascending(a) == Ascending(b) {
        SortSetInjective(a, b, StringCmp);
      }
    }
    forall a: TargetSet, b: TargetSet ensures TargetSetCmp(b, a) == TargetSetCmp(a, b).Reverse() {
      LexCmpReverse(Ascending(a), Ascending(b), StringCmp);
    }
    forall a: TargetSet, b: TargetSet, c: TargetSet | TargetSetCmp(a, b) == Less && TargetSetCmp(b, c) == Less
      ensures TargetSetCmp(a, c) == Less
    {
      LexCmpTransitive(Ascending(a), Ascending(b), Ascending(c), StringCmp);
    }
  }

  /** A bench's key: its start word and its target set. */
  type BenchKey = (string, TargetSet)

  /** The order in which the nested maps visit the benches: by start word, then by target set. */
  function KeyCmp(x: BenchKey, y: BenchKey): Ordering {
    Then(StringCmp(x.0, y.0), TargetSetCmp(x.1, y.1))
  }

  /**
   * The name `compile_results` gives a bench: the start word, `" = "`, and
   * the target words in ascending order joined by `" | "`.
   */
  function BenchName(startWord: string, targets: TargetSet): string {
    startWord + " = " + BenchFile.Join(Ascending(targets), " | ")
  }

  /** The keys of the benches of one start word, given its target sets. */
  function WordKeys(startWord: string, ts: seq<TargetSet>): (r: seq<BenchKey>)
    ensures |r| == |ts| && forall j :: 0 <= j < |ts| ==> r[j] == (startWord, ts[j])
  {
    if ts == [] then [] else [(startWord, ts[0])] + WordKeys(startWord, ts[1..])
  }

  /** The keys of the benches of `words`, word after word, each word's target sets ascending. */
  function KeysOf(b: Benches, words: seq<string>): seq<BenchKey>
    requires forall s :: s in words ==> s in b
  {
    if words == [] then []
    else
      var n := |words| - 1;
      KeysOf(b, words[..n]) + WordKeys(words[n], AscendingSets(b[words[n]].Keys))
  }

  /** The keys of every bench, in the order in which the nested maps visit them. */
  function BenchKeys(b: Benches): seq<BenchKey> {
    StringCmpTotal();
    KeysOf(b, Ascending(b.Keys))
  }

  /** `compile_run_results` unwraps the least result: every history must hold one. */
  ghost predicate Compilable(b: Benches) {
    forall s, t :: s in b && t in b[s] ==> |b[s][t]| > 0
  }

  /** `k` is a bench of `b` whose history holds a result. */
  ghost predicate HasResult(b: Benches, k: BenchKey) {
    k.0 in b && k.1 in b[k.0] && |b[k.0][k.1]| > 0
  }

  ghost predicate AllHaveResults(b: Benches, keys: seq<BenchKey>) {
    forall i :: 0 <= i < |keys| ==> HasResult(b, keys[i])
  }

  /**
   * The results of the benches with keys `keys`, in that order, each the
   * least result of its history and named by `name`.
   */
  function Entries(b: Benches, keys: seq<BenchKey>, name: (string, TargetSet) -> string): seq<(string, BenchResult)>
    requires AllHaveResults(b, keys)
  {
    if keys == [] then []
    else
      var n := |keys| - 1;
      var k := keys[n];
      Entries(b, keys[..n], name) + [(name(k.0, k.1), CompileRunResults(b[k.0][k.1]))]
  }

  /** What `compile_results` returns: one named result per bench, in visiting order. */
  function Compiled(b: Benches): seq<(string, BenchResult)>
    requires Compilable(b)
  {
    BenchKeysMembers(b);
    Entries(b, BenchKeys(b), BenchName)
  }

  lemma WordKeysMembers(startWord: string, ts: seq<TargetSet>)
    ensures forall k :: k in WordKeys(startWord, ts) <==> k.0 == startWord && k.1 in ts
  {
    forall k: BenchKey | k.0 == startWord && k.1 in ts ensures k in WordKeys(startWord, ts) {
      var j :| 0 <= j < |ts| && ts[j] == k.1;
      assert WordKeys(startWord, ts)[j] == k;
    }
  }

  /** `KeysOf` lists exactly the benches of the given words. */
  lemma {:induction false} KeysOfMembers(b: Benches, words: seq<string>)
    requires forall s :: s in words ==> s in b
    ensures forall k :: k in KeysOf(b, words) ==> k.0 in words && k.1 in b[k.0]
    ensures forall s, t :: s in words && t in b[s] ==> (s, t) in KeysOf(b, words)
  {
    if words != [] {
      var n := |words| - 1;
      var init := words[..n];
      var last := words[n];
      var back := WordKeys(last, AscendingSets(b[last].Keys));
      KeysOfMembers(b, init);
      WordKeysMembers(last, AscendingSets(b[last].Keys));
      assert words == init + [last];
      AppendMembers(b, init, last, KeysOf(b, init), back);
    }
  }

  /** The step of `KeysOfMembers`: the keys of one more start word. */
  lemma AppendMembers(b: Benches, init: seq<string>, last: string, front: seq<BenchKey>, back: seq<BenchKey>)
    requires forall s :: s in init ==> s in b
    requires last in b
    requires forall k :: k in front ==> k.0 in init && k.1 in b[k.0]
    requires forall s, t :: s in init && t in b[s] ==> (s, t) in front
    requires forall k :: k in back <==> k.0 == last && k.1 in b[last]
    ensures forall k :: k in front + back ==> k.0 in init + [last] && k.1 in b[k.0]
    ensures forall s, t :: s in init + [last] && t in b[s] ==> (s, t) in front + back
  {
    forall s, t | s in init + [last] && t in b[s] ensures (s, t) in front + back {
      if s == last {
        assert (s, t) in back;
      } else {
        assert s in init;
      }
    }
  }

  /** The keys of the ledger are exactly its benches. */
  lemma BenchKeysMembers(b: Benches)
    ensures forall k :: k in BenchKeys(b) ==> k.0 in b && k.1 in b[k.0]
    ensures Compilable(b) ==> AllHaveResults(b, BenchKeys(b))
    ensures forall s, t :: s in b && t in b[s] ==> (s, t) in BenchKeys(b)
  {
    StringCmpTotal();
    KeysOfMembers(b, Ascending(b.Keys));
  }

  /** Two ascending runs, the first wholly below the second, make one ascending run. */
  lemma SortedAppend<T>(front: seq<T>, back: seq<T>, cmp: (T, T) -> Ordering)
    requires StrictlySorted(front, cmp) && StrictlySorted(back, cmp)
    requires forall x, y :: x in front && y in back ==> cmp(x, y) == Less
    ensures StrictlySorted(front + back, cmp)
  {
    var all := front + back;
    forall i, j | 0 <= i < j < |all| ensures cmp(all[i], all[j]) == Less {
      if j < |front| {
        assert all[i] == front[i] && all[j] == front[j];
      } else if i >= |front| {
        assert all[i] == back[i - |front|] && all[j] == back[j - |front|];
      } else {
        assert all[i] in front && all[j] in back;
      }
    }
  }

  /** The keys of one start word are ascending when its target sets are. */
  lemma WordKeysSorted(startWord: string, ts: seq<TargetSet>)
    requires StrictlySorted(ts, TargetSetCmp)
    ensures StrictlySorted(WordKeys(startWord, ts), KeyCmp)
  {
    StringCmpTotal();
    assert StringCmp(startWord, startWord) == Equal;
  }

  /** Over ascending start words, `KeysOf` lists the keys in ascending order. */
  lemma {:induction false} KeysOfSorted(b: Benches, words: seq<string>)
    requires forall s :: s in words ==> s in b
    requires StrictlySorted(words, StringCmp)
    ensures StrictlySorted(KeysOf(b, words), KeyCmp)
  {
    if words != [] {
      var n := |words| - 1;
      var init := words[..n];
      var last := words[n];
      var ts := AscendingSets(b[last].Keys);
      var front := KeysOf(b, init);
      var back := WordKeys(last, ts);
      assert StrictlySorted(init, StringCmp) && forall s :: s in init ==> s in b;
      KeysOfSorted(b, init);
      BeforeLast(b, words);
      WordKeysMembers(last, ts);
      WordKeysSorted(last, ts);
      FrontBelowBack(front, back, last);
      SortedAppend(front, back, KeyCmp);
    }
  }

  /** Keys whose start word is below `last` come before the keys of `last`. */
  lemma FrontBelowBack(front: seq<BenchKey>, back: seq<BenchKey>, last: string)
    requires forall x :: x in front ==> StringCmp(x.0, last) == Less
    requires forall y :: y in back ==> y.0 == last
    ensures forall x, y :: x in front && y in back ==> KeyCmp(x, y) == Less
  {
  }

  /** Over ascending start words, every key of the earlier words has a start word below the last. */
  lemma BeforeLast(b: Benches, words: seq<string>)
    requires forall s :: s in words ==> s in b
    requires StrictlySorted(words, StringCmp) && words != []
    ensures forall x :: x in KeysOf(b, words[..|words| - 1]) ==> StringCmp(x.0, words[|words| - 1]) == Less
  {
    var n := |words| - 1;
    KeysOfMembers(b, words[..n]);
    forall x | x in KeysOf(b, words[..n]) ensures StringCmp(x.0, words[n]) == Less {
      var m :| 0 <= m < n && words[..n][m] == x.0;
      assert words[m] == x.0;
    }
  }

  /** The keys of the ledger are in ascending order, hence each bench is listed once. */
  lemma BenchKeysSorted(b: Benches)
    ensures StrictlySorted(BenchKeys(b), KeyCmp)
    ensures forall i, j :: 0 <= i < j < |BenchKeys(b)| ==> BenchKeys(b)[i] != BenchKeys(b)[j]
  {
    StringCmpTotal();
    KeysOfSorted(b, Ascending(b.Keys));
    forall i, j | 0 <= i < j < |BenchKeys(b)| ensures BenchKeys(b)[i] != BenchKeys(b)[j] {
      var k := BenchKeys(b)[i];
      assert KeyCmp(k, k) == Equal by {
        TargetSetCmpTotal();
      }
    }
  }

  /** Entry `i` of `Entries` is the named result of key `i`. */
  lemma {:induction false} EntriesLength(b: Benches, keys: seq<BenchKey>, name: (string, TargetSet) -> string)
    requires AllHaveResults(b, keys)
    ensures |Entries(b, keys, name)| == |keys|
  {
    if keys != [] {
      EntriesLength(b, keys[..|keys| - 1], name);
    }
  }

  /** Entry `i` of `Entries` is the named least result of key `i`. */
  lemma {:induction false} EntryAt(b: Benches, keys: seq<BenchKey>, name: (string, TargetSet) -> string, i: nat)
    requires AllHaveResults(b, keys) && i < |keys|
    ensures |Entries(b, keys, name)| == |keys|
    ensures var k := keys[i]; Entries(b, keys, name)[i] == (name(k.0, k.1), CompileRunResults(b[k.0][k.1]))
  {
    var n := |keys| - 1;
    EntriesLength(b, keys, name);
    EntriesLength(b, keys[..n], name);
    if i < n {
      EntryAt(b, keys[..n], name, i);
    }
  }

  lemma EntriesSnoc(b: Benches, keys: seq<BenchKey>, name: (string, TargetSet) -> string, k: BenchKey)
    requires AllHaveResults(b, keys) && HasResult(b, k)
    ensures AllHaveResults(b, keys + [k])
    ensures Entries(b, keys + [k], name) == Entries(b, keys, name) + [(name(k.0, k.1), CompileRunResults(b[k.0][k.1]))]
  {
    assert (keys + [k])[..|keys|] == keys;
  }

  lemma WordKeysSnoc(startWord: string, ts: seq<TargetSet>, j: nat)
    requires j < |ts|
    ensures WordKeys(startWord, ts[..j + 1]) == WordKeys(startWord, ts[..j]) + [(startWord, ts[j])]
  {
  }

  lemma AppendAssoc(front: seq<BenchKey>, back: seq<BenchKey>, k: BenchKey)
    ensures front + (back + [k]) == front + back + [k]
  {
  }

  /** `KeysOf` grows by the keys of one start word at a time. */
  lemma KeysOfSnoc(b: Benches, words: seq<string>, i: nat)
    requires forall s :: s in words ==> s in b
    requires i < |words|
    ensures KeysOf(b, words[..i + 1]) == KeysOf(b, words[..i]) + WordKeys(words[i], AscendingSets(b[words[i]].Keys))
  {
    assert words[..i + 1][..i] == words[..i];
  }

  /**
   * `compile_results` lists one entry per bench, in the order of the keys,
   * each the bench's name with its least result.
   */
  lemma CompiledAt(b: Benches)
    requires Compilable(b)
    ensures |Compiled(b)| == |BenchKeys(b)|
    ensures forall i :: 0 <= i < |BenchKeys(b)| ==>
      var k := BenchKeys(b)[i];
      k.0 in b && k.1 in b[k.0] && Compiled(b)[i] == (BenchName(k.0, k.1), CompileRunResults(b[k.0][k.1]))
  {
    BenchKeysMembers(b);
    EntriesLength(b, BenchKeys(b), BenchName);
    forall i | 0 <= i < |BenchKeys(b)|
      ensures var k := BenchKeys(b)[i];
        k.0 in b && k.1 in b[k.0] && Compiled(b)[i] == (BenchName(k.0, k.1), CompileRunResults(b[k.0][k.1]))
    {
      EntryAt(b, BenchKeys(b), BenchName, i);
    }
  }

  /** Every bench appears in the compiled results, under its name, with its least result. */
  lemma CompiledHasEvery(b: Benches, s: string, t: TargetSet)
    requires Compilable(b) && s in b && t in b[s]
    ensures (BenchName(s, t), CompileRunResults(b[s][t])) in Compiled(b)
  {
    BenchKeysMembers(b);
    CompiledAt(b);
    var i :| 0 <= i < |BenchKeys(b)| && BenchKeys(b)[i] == (s, t);
    assert Compiled(b)[i] == (BenchName(s, t), CompileRunResults(b[s][t]));
  }

  /** Every compiled entry is the named least result of some bench. */
  lemma CompiledOnlyBenches(b: Benches, e: (string, BenchResult))
    requires Compilable(b) && e in Compiled(b)
    ensures exists s, t :: s in b && t in b[s] && e == (BenchName(s, t), CompileRunResults(b[s][t]))
  {
    CompiledAt(b);
    var i :| 0 <= i < |Compiled(b)| && Compiled(b)[i] == e;
    var k := BenchKeys(b)[i];
    assert e == (BenchName(k.0, k.1), CompileRunResults(b[k.0][k.1]));
  }

  /**
   * A bench name is a line of a bench file: parsing it gives back the start
   * word and the target words, ascending, as one target group.
   */
  lemma BenchNameParses(alnum: char -> bool, s: string, t: TargetSet)
    requires BenchFile.AlnumSpec(alnum) && BenchFile.IsWord(alnum, s)
    requires t != {} && forall w :: w in t ==> BenchFile.IsWord(alnum, w)
    ensures BenchFile.BenchLine(alnum, BenchName(s, t)) == Ok(BenchFile.Parsed([], Some(([s], [Ascending(t)]))))
  {
    var def: BenchFile.BenchDef := ([s], [Ascending(t)]);
    BenchNameRenders(alnum, s, t);
    BenchFile.RenderAloneParses(alnum, def);
  }

  /** The bench name is the rendering of a well-formed one-group bench definition. */
  lemma BenchNameRenders(alnum: char -> bool, s: string, t: TargetSet)
    requires BenchFile.AlnumSpec(alnum) && BenchFile.IsWord(alnum, s)
    requires t != {} && forall w :: w in t ==> BenchFile.IsWord(alnum, w)
    ensures BenchFile.IsBenchDef(alnum, ([s], [Ascending(t)]))
    ensures BenchFile.Render(([s], [Ascending(t)])) == BenchName(s, t)
  {
    var g := Ascending(t);
    assert BenchFile.Join([s], ", ") == s by {
      assert BenchFile.SepEach([s][1..], ", ") == [];
    }
    assert BenchFile.JoinGroups([g]) == BenchFile.Join(g, " | ") by {
      assert BenchFile.SepEachGroup([g][1..]) == [];
    }
    assert BenchFile.IsGroup(alnum, g) by {
      StringCmpTotal();
      assert g[0] in g;
    }
  }

  /** A well-formed bench name determines its bench. */
  lemma BenchNameInjective(alnum: char -> bool, s: string, t: TargetSet, s': string, t': TargetSet)
    requires BenchFile.AlnumSpec(alnum) && BenchFile.IsWord(alnum, s) && BenchFile.IsWord(alnum, s')
    requires t != {} && forall w :: w in t ==> BenchFile.IsWord(alnum, w)
    requires t' != {} && forall w :: w in t' ==> BenchFile.IsWord(alnum, w)
    requires BenchName(s, t) == BenchName(s', t')
    ensures s == s' && t == t'
  {
    StringCmpTotal();
    BenchNameParses(alnum, s, t);
    BenchNameParses(alnum, s', t');
    assert [s] == [s'] && [Ascending(t)] == [Ascending(t')];
    assert [s][0] == [s'][0] && [Ascending(t)][0] == [Ascending(t')][0];
    SortSetInjective(t, t', StringCmp);
  }

  /** Every start word and every target word is a word of the bench-file grammar, and no target set is empty. */
  ghost predicate WordsOnly(alnum: char -> bool, b: Benches) {
    forall s :: s in b ==>
      && BenchFile.IsWord(alnum, s)
      && forall t :: t in b[s] ==> t != {} && forall w :: w in t ==> BenchFile.IsWord(alnum, w)
  }

  /** Over words, the compiled results carry pairwise distinct names. */
  lemma CompiledNamesDistinct(alnum: char -> bool, b: Benches)
    requires Compilable(b) && BenchFile.AlnumSpec(alnum) && WordsOnly(alnum, b)
    ensures forall i, j :: 0 <= i < j < |Compiled(b)| ==> Compiled(b)[i].0 != Compiled(b)[j].0
  {
    CompiledAt(b);
    BenchKeysSorted(b);
    var keys := BenchKeys(b);
    forall i, j | 0 <= i < j < |Compiled(b)| ensures Compiled(b)[i].0 != Compiled(b)[j].0 {
      var x := keys[i];
      var y := keys[j];
      if BenchName(x.0, x.1) == BenchName(y.0, y.1) {
        BenchNameInjective(alnum, x.0, x.1, y.0, y.1);
        assert false;
      }
    }
  }
}
