/** Index permutations and the index sort (numpy's `argsort`) that the imputer uses
    to order columns by missing count, observed rows by distance, and candidate
    predictor columns by a random priority. */
module Ordering {

  /** The indices 0, 1, ..., n-1 in ascending order (numpy's `arange(n)`). */
  function Iota(n: nat): seq<nat>
  {
    seq(n, i => i)
  }

  /** The elements of `s` back to front (numpy's `[::-1]`). */
  function Reverse<T>(s: seq<T>): seq<T>
  {
    seq(|s|, i requires 0 <= i < |s| => s[|s| - 1 - i])
  }

  predicate Distinct(s: seq<nat>)
  {
    forall i, j :: 0 <= i < j < |s| ==> s[i] != s[j]
  }

  predicate AllBelow(p: seq<nat>, n: nat)
  {
    forall i :: 0 <= i < |p| ==> p[i] < n
  }

  /** `p` lists every index below `n` exactly once. */
  predicate IsPermutation(p: seq<nat>, n: nat)
  {
    && |p| == n
    && Distinct(p)
    && AllBelow(p, n)
    && forall j: nat :: j < n ==> j in p
  }

  /** Walking `p` from front to back meets non-decreasing keys. */
  predicate SortedBy(keys: seq<real>, p: seq<nat>)
  {
    && AllBelow(p, |keys|)
    && forall i, j :: 0 <= i < j < |p| ==> keys[p[i]] <= keys[p[j]]
  }

  /** Walking `p` from front to back meets non-increasing keys. */
  predicate SortedDescendingBy(keys: seq<real>, p: seq<nat>)
  {
    && AllBelow(p, |keys|)
    && forall i, j :: 0 <= i < j < |p| ==> keys[p[i]] >= keys[p[j]]
  }

  /** Inserts index `x` into the key-sorted `s`, after every index whose key is not larger. */
  function InsertByKey(keys: seq<real>, x: nat, s: seq<nat>): (t: seq<nat>)
    requires x < |keys| && SortedBy(keys, s)
    ensures multiset(t) == multiset(s) + multiset{x}
    ensures SortedBy(keys, t)
    decreases |s|
  {
    if |s| == 0 then [x]
    else if keys[x] < keys[s[0]] then [x] + s
    else
      var rest := InsertByKey(keys, x, s[1..]);
      assert s == [s[0]] + s[1..];
      HeadBelowRest(keys, s[0], x, s[1..], rest);
      [s[0]] + rest
  }

  /** Consing `h` onto a sorted `rest` whose elements all come from `tail` or are `x`
      keeps it sorted when `h`'s key is at most theirs. */
  lemma HeadBelowRest(keys: seq<real>, h: nat, x: nat, tail: seq<nat>, rest: seq<nat>)
    requires h < |keys| && x < |keys| && keys[h] <= keys[x]
    requires SortedBy(keys, [h] + tail)
    requires SortedBy(keys, rest)
    requires multiset(rest) == multiset(tail) + multiset{x}
    ensures SortedBy(keys, [h] + rest)
  {
    var t := [h] + rest;
    forall i, j | 0 <= i < j < |t|
      ensures keys[t[i]] <= keys[t[j]]
    {
      if i == 0 {
        var y := rest[j - 1];
        assert t[0] == h && t[j] == y;
        assert y in multiset(rest);
        if y != x {
          assert y in tail;
          var k :| 0 <= k < |tail| && tail[k] == y;
          assert ([h] + tail)[0] == h && ([h] + tail)[k + 1] == y;
        }
      } else {
        assert t[i] == rest[i - 1] && t[j] == rest[j - 1];
      }
    }
  }

  /** A sequence whose multiset is that of `Iota(n)` is a permutation of the indices below `n`. */
  lemma {:induction false} MultisetPermutation(p: seq<nat>, n: nat)
    requires multiset(p) == multiset(Iota(n))
    ensures IsPermutation(p, n)
  {
    assert |p| == |multiset(p)| == |Iota(n)|;
    forall i | 0 <= i < |p|
      ensures p[i] < n
    {
      assert p[i] in multiset(Iota(n));
    }
    forall j: nat | j < n
      ensures j in p
    {
      assert Iota(n)[j] == j;
      assert j in multiset(p);
    }
    forall i, j | 0 <= i < j < |p|
      ensures p[i] != p[j]
    {
      if p[i] == p[j] {
        TwoOccurrences(p, i, j);
        IotaOnce(n, p[i]);
        assert false;
      }
    }
  }

  /** A value found at two positions of `p` has multiplicity at least two. */
  lemma TwoOccurrences(p: seq<nat>, i: nat, j: nat)
    requires i < j < |p| && p[i] == p[j]
    ensures multiset(p)[p[i]] >= 2
  {
    var v := p[i];
    assert p == p[..j] + [p[j]] + p[j + 1..];
    assert p[..j][i] == v;
    assert multiset(p[..j])[v] >= 1;
  }

  /** Each index occurs at most once in `Iota(n)`. */
  lemma {:induction false} IotaOnce(n: nat, v: nat)
    ensures multiset(Iota(n))[v] <= 1
  {
    if n > 0 {
      IotaOnce(n - 1, v);
      assert Iota(n) == Iota(n - 1) + [n - 1];
      if v == n - 1 {
        assert v !in Iota(n - 1);
      }
    }
  }

  /** Insertion sort of the indices below `n` by their keys. */
  function SortPrefix(keys: seq<real>, n: nat): (p: seq<nat>)
    requires n <= |keys|
    ensures multiset(p) == multiset(Iota(n))
    ensures SortedBy(keys, p)
  {
    if n == 0 then []
    else
      var s := SortPrefix(keys, n - 1);
      assert Iota(n) == Iota(n - 1) + [n - 1];
      InsertByKey(keys, n - 1, s)
  }

  /** numpy's `argsort`: a permutation of the indices of `keys` that lists them by
      non-decreasing key.  numpy leaves the order among equal keys unspecified;
      this one keeps equal keys in ascending index order. */
  function ArgSort(keys: seq<real>): (p: seq<nat>)
    ensures IsPermutation(p, |keys|)
    ensures SortedBy(keys, p)
  {
    var p := SortPrefix(keys, |keys|);
    MultisetPermutation(p, |keys|);
    p
  }

  lemma IotaPermutation(n: nat)
    ensures IsPermutation(Iota(n), n)
  {
    forall j: nat | j < n
      ensures j in Iota(n)
    {
      assert Iota(n)[j] == j;
    }
  }

  /** Reversing a permutation gives a permutation, and reverses the sort direction. */
  lemma ReversePermutation(keys: seq<real>, p: seq<nat>, n: nat)
    requires IsPermutation(p, n)
    ensures IsPermutation(Reverse(p), n)
    ensures SortedBy(keys, p) ==> SortedDescendingBy(keys, Reverse(p))
  {
    var r := Reverse(p);
    forall j: nat | j < n
      ensures j in r
    {
      assert j in p;
      var k :| 0 <= k < |p| && p[k] == j;
      assert r[|p| - 1 - k] == j;
    }
  }

  /** Reversing twice is the identity. */
  lemma ReverseReverse<T>(s: seq<T>)
    ensures Reverse(Reverse(s)) == s
  {
  }

  /** The `k` indices with the smallest keys (numpy's `argpartition(keys, k)[:k]`):
      distinct indices of `keys`, none of them farther than any index left out. */
  function Smallest(keys: seq<real>, k: nat): (nn: seq<nat>)
    requires k <= |keys|
    ensures |nn| == k
    ensures Distinct(nn)
    ensures AllBelow(nn, |keys|)
    ensures forall q, j :: 0 <= q < |nn| && 0 <= j < |keys| && j !in nn ==> keys[nn[q]] <= keys[j]
  {
    var p := ArgSort(keys);
    SortedPrefixSmallest(keys, p, k);
    p[..k]
  }

  /** The first `k` entries of a key-sorted permutation have keys no larger than any index left out. */
  lemma SortedPrefixSmallest(keys: seq<real>, p: seq<nat>, k: nat)
    requires IsPermutation(p, |keys|) && SortedBy(keys, p) && k <= |keys|
    ensures forall q, j :: 0 <= q < k && 0 <= j < |keys| && j !in p[..k] ==> keys[p[q]] <= keys[j]
  {
    forall q, j | 0 <= q < k && 0 <= j < |keys| && j !in p[..k]
      ensures keys[p[q]] <= keys[j]
    {
      assert j in p;
      var pos :| 0 <= pos < |p| && p[pos] == j;
      assert pos >= k by {
        assert forall i :: 0 <= i < k ==> p[..k][i] == p[i];
      }
    }
  }

  /** The first `n` of `cands`, ordered by ascending priority: a draw of `n` candidates
      without replacement in which every ordered choice is reachable by some priorities. */
  function TakeByPriority(cands: seq<nat>, priority: seq<real>, n: nat): (chosen: seq<nat>)
    requires |priority| == |cands| && n <= |cands|
    ensures |chosen| == n
    ensures forall i :: 0 <= i < n ==> chosen[i] in cands
    ensures Distinct(cands) ==> Distinct(chosen)
  {
    var order := ArgSort(priority);
    seq(n, i requires 0 <= i < n => cands[order[i]])
  }

  /** The set of values occurring in `s`. */
  function Elements(s: seq<nat>): set<nat>
  {
    set x | x in s
  }

  /** A sequence of length `k` holds at most `k` different values. */
  lemma {:induction false} ElementsBound(s: seq<nat>)
    ensures |Elements(s)| <= |s|
  {
    if |s| > 0 {
      ElementsBound(s[1..]);
      var tail := Elements(s[1..]);
      assert Elements(s) == tail + {s[0]};
      if s[0] in tail {
        assert tail + {s[0]} == tail;
      } else {
        assert |tail + {s[0]}| == |tail| + 1;
      }
    }
  }

  lemma SubsetCardinality<T>(a: set<T>, b: set<T>)
    requires a <= b
    ensures |a| <= |b|
  {
    assert b == a + (b - a);
  }

  /** The first `n` entries of `visit` hold `j` exactly when the first `n - 1` do or
      entry `n - 1` is `j`. */
  lemma EarlierVisited(visit: seq<nat>, n: nat, j: nat)
    requires 0 < n <= |visit|
    ensures j in visit[..n] <==> j in visit[..n - 1] || j == visit[n - 1]
  {
    assert visit[..n] == visit[..n - 1] + [visit[n - 1]];
  }
}
