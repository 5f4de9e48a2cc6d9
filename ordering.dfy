/**
 * Rust's `std::cmp::Ordering`, the lexicographic order that Rust derives for
 * sequences, strings and tuples, and the order in which a `BTreeMap` or a
 * `BTreeSet` visits its keys (ascending under that order).
 */
module Ordering {

  datatype Ordering = Less | Equal | Greater {
    /** `Ordering::reverse`: the answer with the two sides swapped. */
    function Reverse(): Ordering {
      match this
      case Less => Greater
      case Equal => Equal
      case Greater => Less
    }
  }

  /** `Ordering::then`: break a tie with a second comparison. */
  function Then(first: Ordering, second: Ordering): Ordering {
    if first == Equal then second else first
  }

  /** `cmp` on unsigned integers. */
  function CmpNat(a: nat, b: nat): Ordering {
    if a < b then Less else if a == b then Equal else Greater
  }

  /** `cmp` on `char`: by code point. */
  function CmpChar(a: char, b: char): Ordering {
    if a < b then Less else if a == b then Equal else Greater
  }

  /**
   * A strict total order, given as a three-way comparison: `Equal` exactly on
   * equal values, swapping the sides reverses the answer, and `Less` is
   * transitive.
   */
  ghost predicate TotalOrder<T(!new)>(cmp: (T, T) -> Ordering) {
    && (forall x, y :: cmp(x, y) == Equal <==> x == y)
    && (forall x, y :: cmp(y, x) == cmp(x, y).Reverse())
    && (forall x, y, z :: cmp(x, y) == Less && cmp(y, z) == Less ==> cmp(x, z) == Less)
  }

  /**
   * Lexicographic comparison, as Rust derives it for slices, `Vec`, `str` and
   * `String`: the first differing element decides, and a proper prefix is less.
   */
  function LexCmp<T>(a: seq<T>, b: seq<T>, cmp: (T, T) -> Ordering): (r: Ordering)
    decreases |a|
  {
    if |a| == 0 then (if |b| == 0 then Equal else Less)
    else if |b| == 0 then Greater
    else Then(cmp(a[0], b[0]), LexCmp(a[1..], b[1..], cmp))
  }

  /**
   * Comparison of Rust strings. Rust compares `str` by its UTF-8 bytes; UTF-8
   * preserves code point order, so this is lexicographic order on characters.
   */
  function StringCmp(a: string, b: string): Ordering {
    LexCmp(a, b, CmpChar)
  }

  lemma CmpNatTotal()
    ensures TotalOrder(CmpNat)
  {}

  lemma CmpCharTotal()
    ensures TotalOrder(CmpChar)
  {}

  lemma {:induction false} LexCmpEqual<T(!new)>(a: seq<T>, b: seq<T>, cmp: (T, T) -> Ordering)
    requires TotalOrder(cmp)
    ensures LexCmp(a, b, cmp) == Equal <==> a == b
    decreases |a|
  {
    if |a| > 0 && |b| > 0 {
      LexCmpEqual(a[1..], b[1..], cmp);
      if cmp(a[0], b[0]) == Equal && a[1..] == b[1..] {
        assert a == [a[0]] + a[1..] && b == [b[0]] + b[1..];
      }
    }
  }

  lemma {:induction false} LexCmpReverse<T(!new)>(a: seq<T>, b: seq<T>, cmp: (T, T) -> Ordering)
    requires TotalOrder(cmp)
    ensures LexCmp(b, a, cmp) == LexCmp(a, b, cmp).Reverse()
    decreases |a|
  {
    if |a| > 0 && |b| > 0 {
      LexCmpReverse(a[1..], b[1..], cmp);
    }
  }

  lemma {:induction false} LexCmpTransitive<T(!new)>(a: seq<T>, b: seq<T>, c: seq<T>, cmp: (T, T) -> Ordering)
    requires TotalOrder(cmp)
    requires LexCmp(a, b, cmp) == Less && LexCmp(b, c, cmp) == Less
    ensures LexCmp(a, c, cmp) == Less
    decreases |a|
  {
    if |a| > 0 && |b| > 0 && |c| > 0 {
      if cmp(a[0], b[0]) == Equal && cmp(b[0], c[0]) == Equal {
        LexCmpTransitive(a[1..], b[1..], c[1..], cmp);
      }
    }
  }

  /** Lexicographic order over a strict total order is a strict total order. */
  lemma LexCmpTotal<T(!new)>(cmp: (T, T) -> Ordering)
    requires TotalOrder(cmp)
    ensures TotalOrder((a: seq<T>, b: seq<T>) => LexCmp(a, b, cmp))
  {
    forall a: seq<T>, b: seq<T> ensures LexCmp(a, b, cmp) == Equal <==> a == b {
      LexCmpEqual(a, b, cmp);
    }
    forall a: seq<T>, b: seq<T> ensures LexCmp(b, a, cmp) == LexCmp(a, b, cmp).Reverse() {
      LexCmpReverse(a, b, cmp);
    }
    forall a: seq<T>, b: seq<T>, c: seq<T> | LexCmp(a, b, cmp) == Less && LexCmp(b, c, cmp) == Less
      ensures LexCmp(a, c, cmp) == Less
    {
      LexCmpTransitive(a, b, c, cmp);
    }
  }

  lemma StringCmpTotal()
    ensures TotalOrder(StringCmp)
  {
    CmpCharTotal();
    forall a: string, b: string ensures StringCmp(a, b) == Equal <==> a == b {
      LexCmpEqual(a, b, CmpChar);
    }
    forall a: string, b: string ensures StringCmp(b, a) == StringCmp(a, b).Reverse() {
      LexCmpReverse(a, b, CmpChar);
    }
    forall a: string, b: string, c: string | StringCmp(a, b) == Less && StringCmp(b, c) == Less
      ensures StringCmp(a, c) == Less
    {
      LexCmpTransitive(a, b, c, CmpChar);
    }
  }

  /** A sequence in strictly ascending order under `cmp` (so without repeats). */
  ghost predicate StrictlySorted<T>(s: seq<T>, cmp: (T, T) -> Ordering) {
    forall i, j :: 0 <= i < j < |s| ==> cmp(s[i], s[j]) == Less
  }

  lemma {:induction false} LeastExists<T(!new)>(s: set<T>, cmp: (T, T) -> Ordering)
    requires TotalOrder(cmp) && s != {}
    ensures exists m :: m in s && forall x :: x in s && x != m ==> cmp(m, x) == Less
    decreases |s|
  {
    var y :| y in s;
    if s != {y} {
      var rest := s - {y};
      LeastExists(rest, cmp);
      var m :| m in rest && forall x :: x in rest && x != m ==> cmp(m, x) == Less;
      if cmp(m, y) == Less {
        assert forall x :: x in s && x != m ==> cmp(m, x) == Less;
      } else {
        assert cmp(y, m) == Less;
        assert forall x :: x in s && x != y ==> cmp(y, x) == Less;
      }
    }
  }

  /** The least element of a finite non-empty set. */
  function Least<T(!new)>(s: set<T>, cmp: (T, T) -> Ordering): (m: T)
    requires TotalOrder(cmp) && s != {}
    ensures m in s && forall x :: x in s && x != m ==> cmp(m, x) == Less
  {
    LeastExists(s, cmp);
    var m :| m in s && forall x :: x in s && x != m ==> cmp(m, x) == Less;
    m
  }

  /**
   * The elements of a finite set in ascending order: the order in which a
   * `BTreeSet` or the keys of a `BTreeMap` are visited.
   */
  function SortSet<T(!new)>(s: set<T>, cmp: (T, T) -> Ordering): (r: seq<T>)
    requires TotalOrder(cmp)
    ensures |r| == |s|
    ensures forall x :: x in r <==> x in s
    ensures StrictlySorted(r, cmp)
    decreases |s|
  {
    if s == {} then []
    else
      var m := Least(s, cmp);
      var rest := SortSet(s - {m}, cmp);
      assert forall j :: 0 <= j < |rest| ==> cmp(m, rest[j]) == Less by {
        forall j | 0 <= j < |rest| ensures cmp(m, rest[j]) == Less {
          assert rest[j] in s - {m};
        }
      }
      [m] + rest
  }

  /** Two sets with the same ascending listing are the same set. */
  lemma SortSetInjective<T(!new)>(s: set<T>, t: set<T>, cmp: (T, T) -> Ordering)
    requires TotalOrder(cmp)
    requires SortSet(s, cmp) == SortSet(t, cmp)
    ensures s == t
  {
    assert forall x :: x in s <==> x in SortSet(s, cmp);
    assert forall x :: x in t <==> x in SortSet(t, cmp);
  }
}
