// The exchange sort the peer uses twice (on its triplets and on its
// framework operations): for every position i, every later element j with a
// smaller key is swapped into position i. It is not stable, so the exact pass
// structure is the specification, and sortedness and permutation are proved
// about it.

module ExchangeSort {

  ghost predicate Sorted<T>(s: seq<T>, key: T -> int)
  {
    forall a, b :: 0 <= a < b < |s| ==> key(s[a]) <= key(s[b])
  }

  /** One comparison of the inner loop: swap positions i and j when s[i] has the larger key. */
  function SwapIfGreater<T>(s: seq<T>, i: nat, j: nat, key: T -> int): (r: seq<T>)
    requires i < j < |s|
    ensures |r| == |s|
  {
    if key(s[i]) > key(s[j]) then s[i := s[j]][j := s[i]] else s
  }

  /** The inner loop for position i, from j to the end. */
  function InnerPass<T>(s: seq<T>, i: nat, j: nat, key: T -> int): (r: seq<T>)
    requires i < j <= |s|
    ensures |r| == |s|
    decreases |s| - j
  {
    if j == |s| then s
    else
      var s' := SwapIfGreater(s, i, j, key);
      InnerPass(s', i, j + 1, key)
  }

  /** The outer loop, from position i to the end. */
  function OuterPass<T>(s: seq<T>, i: nat, key: T -> int): (r: seq<T>)
    requires i <= |s|
    decreases |s| - i
  {
    if i == |s| then s else OuterPass(InnerPass(s, i, i + 1, key), i + 1, key)
  }

  function Sort<T>(s: seq<T>, key: T -> int): (r: seq<T>)
  {
    OuterPass(s, 0, key)
  }

  /** One comparison keeps the prefix, permutes the rest, and keeps s[i] a minimum of s[i+1..j]. */
  lemma SwapStep<T>(s: seq<T>, i: nat, j: nat, key: T -> int)
    requires i < j < |s|
    requires forall k :: i < k < j ==> key(s[i]) <= key(s[k])
    ensures var s' := SwapIfGreater(s, i, j, key);
      && s'[..i] == s[..i]
      && multiset(s'[i..]) == multiset(s[i..])
      && forall k :: i < k <= j ==> key(s'[i]) <= key(s'[k])
  {
    var s' := SwapIfGreater(s, i, j, key);
    if key(s[i]) > key(s[j]) {
      assert s'[i..] == s[i..][0 := s[j]][j - i := s[i]];
    }
  }

  lemma {:induction false} InnerPassFacts<T>(s: seq<T>, i: nat, j: nat, key: T -> int)
    requires i < j <= |s|
    requires forall k :: i < k < j ==> key(s[i]) <= key(s[k])
    ensures var r := InnerPass(s, i, j, key);
      && r[..i] == s[..i]
      && multiset(r[i..]) == multiset(s[i..])
      && forall k :: i < k < |r| ==> key(r[i]) <= key(r[k])
    decreases |s| - j
  {
    if j < |s| {
      SwapStep(s, i, j, key);
      InnerPassFacts(SwapIfGreater(s, i, j, key), i, j + 1, key);
    }
  }

  /** After the inner pass for i, the prefix up to i + 1 is sorted and bounds the rest. */
  lemma PassExtendsPrefix<T>(s: seq<T>, s': seq<T>, i: nat, key: T -> int)
    requires i < |s| == |s'|
    requires forall a, b :: 0 <= a < b < i ==> key(s[a]) <= key(s[b])
    requires forall a, b :: 0 <= a < i <= b < |s| ==> key(s[a]) <= key(s[b])
    requires s'[..i] == s[..i] && multiset(s'[i..]) == multiset(s[i..])
    requires forall k :: i < k < |s'| ==> key(s'[i]) <= key(s'[k])
    ensures forall a, b :: 0 <= a < b < i + 1 ==> key(s'[a]) <= key(s'[b])
    ensures forall a, b :: 0 <= a < i + 1 <= b < |s'| ==> key(s'[a]) <= key(s'[b])
  {
    forall a, b | 0 <= a < i <= b < |s'|
      ensures key(s'[a]) <= key(s'[b])
    {
      assert s'[b] == s'[i..][b - i];
      assert s'[b] in multiset(s[i..]);
      var c :| 0 <= c < |s[i..]| && s[i..][c] == s'[b];
      assert s'[a] == s[..i][a] == s[a];
      assert s[i..][c] == s[i + c];
    }
    forall a, b | 0 <= a < b < i
      ensures key(s'[a]) <= key(s'[b])
    {
      assert s'[a] == s'[..i][a] == s[a] && s'[b] == s'[..i][b] == s[b];
    }
  }

  lemma {:induction false} OuterPassFacts<T>(s: seq<T>, i: nat, key: T -> int)
    requires i <= |s|
    requires forall a, b :: 0 <= a < b < i ==> key(s[a]) <= key(s[b])
    requires forall a, b :: 0 <= a < i <= b < |s| ==> key(s[a]) <= key(s[b])
    ensures Sorted(OuterPass(s, i, key), key)
    ensures multiset(OuterPass(s, i, key)) == multiset(s)
    ensures |OuterPass(s, i, key)| == |s|
    decreases |s| - i
  {
    if i < |s| {
      var s' := InnerPass(s, i, i + 1, key);
      InnerPassFacts(s, i, i + 1, key);
      PassExtendsPrefix(s, s', i, key);
      assert s == s[..i] + s[i..] && s' == s'[..i] + s'[i..];
      OuterPassFacts(s', i + 1, key);
    }
  }

  /** The exchange sort puts the sequence in non-decreasing key order and only permutes it. */
  lemma SortCorrect<T>(s: seq<T>, key: T -> int)
    ensures |Sort(s, key)| == |s|
    ensures Sorted(Sort(s, key), key)
    ensures multiset(Sort(s, key)) == multiset(s)
  {
    OuterPassFacts(s, 0, key);
  }

  /**
   * The nested swap loops of sendTriplets and sendNotificationsFromFramework,
   * run on a copy of the sequence; the result is the exchange-sorted
   * sequence, hence sorted and a permutation.
   */
  method SortByKey<T>(s: seq<T>, key: T -> int) returns (r: seq<T>)
    ensures r == Sort(s, key)
    ensures Sorted(r, key) && multiset(r) == multiset(s)
  {
    r := s;
    var i := 0;
    while i < |r|
      invariant |r| == |s| && 0 <= i <= |r|
      invariant OuterPass(r, i, key) == Sort(s, key)
    {
      var j := i + 1;
      while j < |r|
        invariant |r| == |s| && i < j <= |r|
        invariant OuterPass(InnerPass(r, i, j, key), i + 1, key) == Sort(s, key)
      {
        if key(r[i]) > key(r[j]) {
          var aux := r[i];
          r := r[i := r[j]];
          r := r[j := aux];
        }
        j := j + 1;
      }
      i := i + 1;
    }
    SortCorrect(s, key);
  }
}
