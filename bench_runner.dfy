/**
 * `BenchRunner`, the matcher of one trial: it holds the target sets still
 * waiting for a hit and the union of their words, and closes every waiting
 * target set that contains a word the search engine yields.
 */
module Runner {

  /** A target set: the acceptable answers of one bench (a `BTreeSet<String>`). */
  type TargetSet = set<string>

  /** A sequence in which no element occurs twice. */
  ghost predicate Distinct<T(!new)>(s: seq<T>) {
    forall x :: multiset(s)[x] <= 1
  }

  /** The target sets of `ts` that contain `word`, in their order. */
  function WithWord(ts: seq<TargetSet>, word: string): seq<TargetSet>
  {
    if ts == [] then [] else (if word in ts[0] then [ts[0]] else []) + WithWord(ts[1..], word)
  }

  /** The target sets of `ts` that do not contain `word`, in their order. */
  function WithoutWord(ts: seq<TargetSet>, word: string): seq<TargetSet>
  {
    if ts == [] then [] else (if word in ts[0] then [] else [ts[0]]) + WithoutWord(ts[1..], word)
  }

  /** How often each target set occurs in the two filters. */
  lemma {:induction false} FilterCounts(ts: seq<TargetSet>, word: string)
    ensures forall t :: multiset(WithWord(ts, word))[t] == if word in t then multiset(ts)[t] else 0
    ensures forall t :: multiset(WithoutWord(ts, word))[t] == if word in t then 0 else multiset(ts)[t]
  {
    if ts != [] {
      FilterCounts(ts[1..], word);
      assert ts == [ts[0]] + ts[1..];
    }
  }

  /**
   * A split of `ts` into target sets that contain `word` and target sets that
   * do not is, up to order, the pair of filters.
   */
  lemma SplitIsFilters(ts: seq<TargetSet>, hits: seq<TargetSet>, rest: seq<TargetSet>, word: string)
    requires multiset(hits) + multiset(rest) == multiset(ts)
    requires forall t :: t in hits ==> word in t
    requires forall t :: t in rest ==> word !in t
    ensures multiset(hits) == multiset(WithWord(ts, word))
    ensures multiset(rest) == multiset(WithoutWord(ts, word))
  {
    FilterCounts(ts, word);
    forall t ensures multiset(hits)[t] == multiset(WithWord(ts, word))[t]
      && multiset(rest)[t] == multiset(WithoutWord(ts, word))[t]
    {
      assert multiset(ts)[t] == multiset(hits)[t] + multiset(rest)[t];
      if word in t {
        assert t !in rest;
      } else {
        assert t !in hits;
      }
    }
  }

  class BenchRunner {
    var remainingTargets: seq<TargetSet>
    var allTargetWords: set<string>

    /** `all_target_words` holds every word of every remaining target set. */
    ghost predicate Valid()
      reads this
    {
      forall t, w :: t in remainingTargets && w in t ==> w in allTargetWords
    }

    constructor ()
      ensures Valid()
      ensures remainingTargets == [] && allTargetWords == {}
    {
      remainingTargets := [];
      allTargetWords := {};
    }

    /** `add_targets`: queue a target set and add its words to the union. */
    method AddTargets(targets: TargetSet)
      requires Valid()
      modifies this
      ensures Valid()
      ensures remainingTargets == old(remainingTargets) + [targets]
      ensures allTargetWords == old(allTargetWords) + targets
    {
      remainingTargets := remainingTargets + [targets];
      var rest := targets;
      while rest != {}
        invariant rest <= targets
        invariant allTargetWords == old(allTargetWords) + (targets - rest)
        invariant remainingTargets == old(remainingTargets) + [targets]
        decreases rest
      {
        var word :| word in rest;
        allTargetWords := allTargetWords + {word};
        rest := rest - {word};
      }
    }

    /**
     * `Vec::swap_remove` on `remaining_targets`: remove and return element
     * `i`, moving the last element into its place.
     */
    method SwapRemove(i: nat) returns (target: TargetSet)
      requires i < |remainingTargets|
      modifies this
      ensures target == old(remainingTargets[i])
      ensures |remainingTargets| == |old(remainingTargets)| - 1
      ensures forall k :: 0 <= k < i ==> remainingTargets[k] == old(remainingTargets[k])
      ensures multiset(remainingTargets) + multiset{target} == multiset(old(remainingTargets))
      ensures allTargetWords == old(allTargetWords)
    {
      var s := remainingTargets;
      var last := |s| - 1;
      target := s[i];
      if i == last {
        assert s == s[..i] + [s[i]];
        remainingTargets := s[..i];
      } else {
        assert s == s[..i] + [s[i]] + s[i + 1..last] + [s[last]];
        remainingTargets := s[..i] + [s[last]] + s[i + 1..last];
      }
    }

    /** `is_done`: no target set is waiting. */
    predicate IsDone()
      reads this
    {
      |remainingTargets| == 0
    }

    /**
     * `on_word_found`: every waiting target set containing `word` is removed
     * and reported once (the reports replace the source's callback); the
     * others stay, in a possibly different order. A word outside
     * `all_target_words` changes nothing.
     */
    method OnWordFound(word: string) returns (hits: seq<TargetSet>)
      requires Valid()
      modifies this
      ensures Valid()
      ensures allTargetWords == old(allTargetWords)
      ensures word !in allTargetWords ==> remainingTargets == old(remainingTargets) && hits == []
      ensures multiset(hits) + multiset(remainingTargets) == multiset(old(remainingTargets))
      ensures multiset(hits) == multiset(WithWord(old(remainingTargets), word))
      ensures multiset(remainingTargets) == multiset(WithoutWord(old(remainingTargets), word))
      ensures forall t :: t in hits ==> word in t
      ensures forall t :: t in remainingTargets ==> word !in t
    {
      if word in allTargetWords {
        hits := RemoveContaining(word);
      } else {
        hits := [];
      }
      SplitIsFilters(old(remainingTargets), hits, remainingTargets, word);
      forall t | t in remainingTargets ensures t in old(remainingTargets) {
        assert multiset(old(remainingTargets))[t] == multiset(hits)[t] + multiset(remainingTargets)[t];
      }
    }

    /** The `swap_remove` loop of `on_word_found`. */
    method RemoveContaining(word: string) returns (hits: seq<TargetSet>)
      modifies this
      ensures allTargetWords == old(allTargetWords)
      ensures multiset(hits) + multiset(remainingTargets) == multiset(old(remainingTargets))
      ensures forall t :: t in hits ==> word in t
      ensures forall t :: t in remainingTargets ==> word !in t
    {
      hits := [];
      var i := 0;
      while i < |remainingTargets|
        invariant 0 <= i <= |remainingTargets|
        invariant forall k :: 0 <= k < i ==> word !in remainingTargets[k]
        invariant multiset(hits) + multiset(remainingTargets) == multiset(old(remainingTargets))
        invariant forall t :: t in hits ==> word in t
        invariant allTargetWords == old(allTargetWords)
        decreases |remainingTargets| - i
      {
        if word in remainingTargets[i] {
          var target := SwapRemove(i);
          hits := hits + [target];
        } else {
          i := i + 1;
        }
      }
    }
  }
}
