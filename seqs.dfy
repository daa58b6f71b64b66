/**
 * Sequence facts shared by the grouping and counting code: the distinct values of a
 * sequence in order of first appearance, occurrence counts, and their sums.
 */
module Seqs {

  ghost predicate NoDuplicates<T>(s: seq<T>) {
    forall i, j :: 0 <= i < j < |s| ==> s[i] != s[j]
  }

  /** Number of occurrences of `x` in `s`. */
  function Count<T(==)>(s: seq<T>, x: T): (n: nat)
    ensures n <= |s|
    ensures n > 0 <==> x in s
  {
    if s == [] then 0
    else
      assert s == s[..|s| - 1] + [s[|s| - 1]];
      Count(s[..|s| - 1], x) + (if s[|s| - 1] == x then 1 else 0)
  }

  /** The distinct values of `s`, each once, in the order in which they first appear. */
  function Distinct<T(==)>(s: seq<T>): (d: seq<T>)
    ensures |d| <= |s|
  {
    if s == [] then []
    else
      var d := Distinct(s[..|s| - 1]);
      if s[|s| - 1] in d then d else d + [s[|s| - 1]]
  }

  /** The distinct values are exactly the values of the input. */
  lemma {:induction false} DistinctHas<T>(s: seq<T>, x: T)
    ensures x in Distinct(s) <==> x in s
  {
    if s != [] {
      var init, m := s[..|s| - 1], s[|s| - 1];
      assert s == init + [m];
      DistinctHas(init, x);
    }
  }

  /** The distinct values hold no value twice. */
  lemma {:induction false} DistinctUnique<T>(s: seq<T>)
    ensures NoDuplicates(Distinct(s))
  {
    if s != [] {
      DistinctUnique(s[..|s| - 1]);
    }
  }

  lemma DistinctSnoc<T>(s: seq<T>, x: T)
    ensures Distinct(s + [x]) == if x in Distinct(s) then Distinct(s) else Distinct(s) + [x]
  {
    assert (s + [x])[..|s|] == s;
  }

  /** A sequence without duplicates is its own list of distinct values. */
  lemma {:induction false} DistinctOfUnique<T>(s: seq<T>)
    requires NoDuplicates(s)
    ensures Distinct(s) == s
  {
    if s != [] {
      var init := s[..|s| - 1];
      DistinctOfUnique(init);
      assert s == init + [s[|s| - 1]];
    }
  }

  /** Position of the first occurrence of `x` in `s`. */
  function FirstIndex<T(==)>(s: seq<T>, x: T): (i: nat)
    requires x in s
    ensures i < |s| && s[i] == x && x !in s[..i]
  {
    if s[0] == x then 0 else 1 + FirstIndex(s[1..], x)
  }

  /** Sum of `Count(s, k)` over the keys `keys`. */
  function TotalCount<T(==)>(keys: seq<T>, s: seq<T>): nat {
    if keys == [] then 0
    else TotalCount(keys[..|keys| - 1], s) + Count(s, keys[|keys| - 1])
  }

  lemma {:induction false} CountSnoc<T>(s: seq<T>, m: T, x: T)
    ensures Count(s + [m], x) == Count(s, x) + (if m == x then 1 else 0)
  {
    assert (s + [m])[..|s|] == s;
  }

  lemma {:induction false} FirstIndexSnoc<T>(s: seq<T>, m: T, x: T)
    requires x in s
    ensures FirstIndex(s + [m], x) == FirstIndex(s, x)
  {
    if s[0] != x {
      assert (s + [m])[1..] == s[1..] + [m];
      FirstIndexSnoc(s[1..], m, x);
    }
  }

  /** In a sequence without duplicates, a member occurs exactly once. */
  lemma {:induction false} CountOfUnique<T>(keys: seq<T>, x: T)
    requires NoDuplicates(keys)
    ensures Count(keys, x) == if x in keys then 1 else 0
  {
    if keys != [] {
      var init := keys[..|keys| - 1];
      assert keys == init + [keys[|keys| - 1]];
      CountOfUnique(init, x);
    }
  }

  /** Appending one value to `s` raises the total over `keys` by the number of times `keys` names it. */
  lemma {:induction false} TotalCountSnoc<T>(keys: seq<T>, s: seq<T>, m: T)
    ensures TotalCount(keys, s + [m]) == TotalCount(keys, s) + Count(keys, m)
  {
    if keys != [] {
      TotalCountSnoc(keys[..|keys| - 1], s, m);
      CountSnoc(s, m, keys[|keys| - 1]);
    }
  }

  /**
   * Distinct keeps first-appearance order: an earlier distinct value first
   * occurs earlier in the input.
   */
  lemma {:induction false} DistinctFirstAppearanceOrder<T>(s: seq<T>, a: nat, b: nat)
    requires a < b < |Distinct(s)|
    ensures Distinct(s)[a] in s && Distinct(s)[b] in s
    ensures FirstIndex(s, Distinct(s)[a]) < FirstIndex(s, Distinct(s)[b])
  {
    DistinctHas(s, Distinct(s)[a]);
    DistinctHas(s, Distinct(s)[b]);
    var init := s[..|s| - 1];
    var m := s[|s| - 1];
    assert s == init + [m];
    var d := Distinct(init);
    DistinctHas(init, m);
    DistinctHas(init, Distinct(s)[a]);
    DistinctHas(init, Distinct(s)[b]);
    if m in d {
      DistinctFirstAppearanceOrder(init, a, b);
      FirstIndexSnoc(init, m, d[a]);
      FirstIndexSnoc(init, m, d[b]);
    } else {
      if b < |d| {
        DistinctFirstAppearanceOrder(init, a, b);
        FirstIndexSnoc(init, m, d[a]);
        FirstIndexSnoc(init, m, d[b]);
      } else {
        FirstIndexSnoc(init, m, d[a]);
        var i := FirstIndex(s, m);
        assert m !in init;
        assert i == |init|;
      }
    }
  }

  /** The occurrence counts of the distinct values add up to the length of the input. */
  lemma {:induction false} DistinctCountsSum<T>(s: seq<T>)
    ensures TotalCount(Distinct(s), s) == |s|
  {
    if s != [] {
      var init := s[..|s| - 1];
      var m := s[|s| - 1];
      assert s == init + [m];
      var d := Distinct(init);
      DistinctCountsSum(init);
      DistinctUnique(init);
      DistinctHas(init, m);
      TotalCountSnoc(d, init, m);
      CountOfUnique(d, m);
      if m !in d {
        assert Distinct(s) == d + [m];
        assert (d + [m])[..|d|] == d;
        CountSnoc(init, m, m);
        assert Count(init, m) == 0;
      }
    }
  }

  /**
   * Equal values stand next to each other, as they do in a sequence sorted on them:
   * every value that occurred before repeats the element just before it.
   */
  ghost predicate Clustered<T>(s: seq<T>) {
    s == [] || (Clustered(s[..|s| - 1]) && (s[|s| - 1] in s[..|s| - 1] ==> s[|s| - 2] == s[|s| - 1]))
  }

  /** In a clustered sequence the last distinct value is the last element. */
  lemma {:induction false} ClusteredDistinctLast<T>(s: seq<T>)
    requires Clustered(s) && s != []
    ensures Distinct(s) != [] && Distinct(s)[|Distinct(s)| - 1] == s[|s| - 1]
  {
    var init, m := s[..|s| - 1], s[|s| - 1];
    assert s == init + [m];
    DistinctSnoc(init, m);
    DistinctHas(init, m);
    if m in init {
      ClusteredDistinctLast(init);
    }
  }

  /** A clustered sequence stays clustered without its last element, and a repeated last value repeats the one before it. */
  lemma ClusteredSnoc<T>(s: seq<T>, x: T)
    requires Clustered(s + [x])
    ensures Clustered(s)
    ensures x in s ==> s[|s| - 1] == x
  {
    assert (s + [x])[..|s|] == s;
  }

  /** In a clustered sequence, a value that repeats is the last distinct value seen so far. */
  lemma ClusteredRepeatIsLastDistinct<T>(s: seq<T>, x: T)
    requires Clustered(s + [x]) && x in s
    ensures Distinct(s) != [] && Distinct(s)[|Distinct(s)| - 1] == x
  {
    ClusteredSnoc(s, x);
    ClusteredDistinctLast(s);
  }
}
