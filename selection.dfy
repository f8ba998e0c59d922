/**
 * `sorted(all_entries.keys(), key=str.lower, reverse=True)`: the menu order,
 * case-insensitively descending. Python's sort is stable also with
 * `reverse=True`, so keys whose lower-case forms are equal keep their
 * insertion order; the insertion sort below places each key after every
 * key already placed that is not smaller.
 */
module Selection {
  import opened Text

  /** `a` comes at or after `b` in ascending order of `str.lower`. */
  predicate KeyLe(a: string, b: string) {
    LexLe(Lower(a), Lower(b))
  }

  /** The sort key is idempotent: comparing lower-cased keys orders them as comparing the keys. */
  lemma KeyLeLowered(a: string, b: string)
    ensures KeyLe(Lower(a), Lower(b)) <==> KeyLe(a, b)
  {
    LowerIdempotent(a);
    LowerIdempotent(b);
  }

  /** Each element is not greater than the one before it, comparing lower-case forms. */
  predicate NonIncreasing(s: seq<string>) {
    forall i :: 0 < i < |s| ==> KeyLe(s[i], s[i - 1])
  }

  /** Inserts `x` into a list sorted in descending order, after every element not smaller than `x`. */
  function Insert(x: string, s: seq<string>): (r: seq<string>)
    requires NonIncreasing(s)
    ensures multiset(r) == multiset(s) + multiset{x}
    ensures NonIncreasing(r)
    ensures |r| == |s| + 1 && (r[0] == x || (|s| > 0 && r[0] == s[0]))
    decreases |s|
  {
    if s == [] then [x]
    else if !KeyLe(x, s[0]) then
      LexLeTotal(Lower(x), Lower(s[0]));
      [x] + s
    else
      assert s == [s[0]] + s[1..];
      [s[0]] + Insert(x, s[1..])
  }

  /** The selection list: the keys, case-insensitively in descending order. */
  function SortDescending(keys: seq<string>): (r: seq<string>)
    ensures multiset(r) == multiset(keys)
    ensures NonIncreasing(r)
    decreases |keys|
  {
    if keys == [] then []
    else
      var n := |keys| - 1;
      assert keys == keys[..n] + [keys[n]];
      Insert(keys[n], SortDescending(keys[..n]))
  }

  /** Non-increasing between neighbours means non-increasing between any two positions. */
  lemma {:induction false} NonIncreasingPairwise(s: seq<string>, i: int, j: int)
    requires NonIncreasing(s) && 0 <= i < j < |s|
    ensures KeyLe(s[j], s[i])
    decreases j - i
  {
    if i + 1 < j {
      NonIncreasingPairwise(s, i + 1, j);
      LexLeTransitive(Lower(s[j]), Lower(s[i + 1]), Lower(s[i]));
    }
  }

  lemma {:induction false} DistinctOccursOnce(s: seq<string>, x: string)
    requires Distinct(s)
    ensures multiset(s)[x] <= 1
    decreases |s|
  {
    if s != [] {
      assert s == [s[0]] + s[1..];
      DistinctOccursOnce(s[1..], x);
      if x == s[0] {
        assert x !in s[1..];
      }
    }
  }

  /** A permutation of a list without duplicates has none either. */
  lemma DistinctPermutation(a: seq<string>, b: seq<string>)
    requires Distinct(a) && multiset(a) == multiset(b)
    ensures Distinct(b)
  {
    forall i, j | 0 <= i < j < |b| ensures b[i] != b[j] {
      if b[i] == b[j] {
        var x := b[i];
        assert b == b[..j] + [b[j]] + b[j + 1..];
        assert x in b[..j];
        assert multiset(b)[x] >= 2;
        DistinctOccursOnce(a, x);
        assert false;
      }
    }
  }

  /**
   * The selection list holds exactly the given keys, each once when they are
   * distinct, in case-insensitively descending order; two keys whose
   * lower-case forms differ appear strictly in that order, so only keys equal
   * up to case can trade places.
   */
  lemma SortDescendingSpec(keys: seq<string>)
    requires Distinct(keys)
    ensures var r := SortDescending(keys);
      && Distinct(r)
      && |r| == |keys|
      && (forall k :: k in r <==> k in keys)
      && (forall i, j :: 0 <= i < j < |r| ==> KeyLe(r[j], r[i]))
      && (forall i, j :: 0 <= i < j < |r| && Lower(r[i]) != Lower(r[j]) ==> !KeyLe(r[i], r[j]))
  {
    var r := SortDescending(keys);
    DistinctPermutation(keys, r);
    assert forall k :: k in r <==> k in multiset(r);
    assert forall k :: k in keys <==> k in multiset(keys);
    forall i, j | 0 <= i < j < |r| ensures KeyLe(r[j], r[i]) {
      NonIncreasingPairwise(r, i, j);
    }
    forall i, j | 0 <= i < j < |r| && Lower(r[i]) != Lower(r[j]) ensures !KeyLe(r[i], r[j]) {
      NonIncreasingPairwise(r, i, j);
      if KeyLe(r[i], r[j]) {
        LexLeAntisymmetric(Lower(r[i]), Lower(r[j]));
      }
    }
  }

  /** Case is ignored: alpha, Beta, gamma are offered as gamma, Beta, alpha. */
  lemma SortExample()
    ensures SortDescending(["alpha", "Beta", "gamma"]) == ["gamma", "Beta", "alpha"]
  {
    assert Lower("Beta") == "beta";
    assert ["alpha", "Beta", "gamma"][..2] == ["alpha", "Beta"];
    assert ["alpha", "Beta"][..1] == ["alpha"];
    assert KeyLe("alpha", "Beta");
    assert !KeyLe("gamma", "Beta");
  }
}
