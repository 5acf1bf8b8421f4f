/**
 * ArrayUtil.shuffle: an in-place Fisher-Yates shuffle driven by a random
 * number generator. The generator is the sequence `draws` of the values its
 * successive nextInt(bound) calls return; the k-th call is made with bound
 * count - k, and nextInt promises a value in [0, bound).
 */
module ArrayUtil {
  import opened JavaLang

  /** The bit pattern of a Java double: shuffling only moves values. */
  type Double = bv64

  /** Every draw the shuffle of `count` elements makes fits its bound. */
  predicate DrawsFit(draws: seq<int>, count: nat)
  {
    && |draws| >= count - 1
    && forall k :: 0 <= k < count - 1 ==> 0 <= draws[k] < count - k
  }

  /** The bounds passed to nextInt when shuffling `count` elements:
      index + 1 for index = count - 1 down to 1. */
  function Bounds(count: nat): (r: seq<int>)
    ensures |r| == if count <= 1 then 0 else count - 1
    ensures forall k :: 0 <= k < |r| ==> r[k] == count - k
  {
    if count <= 1 then [] else [count] + Bounds(count - 1)
  }

  function Swap<T>(s: seq<T>, i: nat, j: nat): (r: seq<T>)
    requires i < |s| && j < |s|
    ensures |r| == |s| && r[i] == s[j] && r[j] == s[i]
    ensures forall k :: 0 <= k < |s| && k != i && k != j ==> r[k] == s[k]
  {
    s[i := s[j]][j := s[i]]
  }

  /** The steps of the shuffle for index, index - 1, ..., 1; the step for
      `index` swaps it with the draw made for it, which lies in [0, index]. */
  function ShuffleDown<T>(s: seq<T>, index: int, draws: seq<int>): (r: seq<T>)
    requires index < |s| && DrawsFit(draws, |s|)
    ensures |r| == |s|
    decreases index
  {
    if index <= 0 then s
    else ShuffleDown(Swap(s, index, draws[|s| - 1 - index]), index - 1, draws)
  }

  /** The whole shuffle: arrays of fewer than two elements are left alone. */
  function Shuffled<T>(s: seq<T>, draws: seq<int>): seq<T>
    requires DrawsFit(draws, |s|)
  {
    if |s| <= 1 then s else ShuffleDown(s, |s| - 1, draws)
  }

  /** shuffle(array, random) for an array of references; `a == null` is a
      null array. Returns the bounds the generator was asked for. */
  method Shuffle<T>(a: array?<T>, draws: seq<int>) returns (bounds: seq<int>)
    requires a != null ==> DrawsFit(draws, a.Length)
    modifies a
    ensures a == null ==> bounds == []
    ensures a != null ==> a[..] == Shuffled(old(a[..]), draws) && bounds == Bounds(a.Length)
  {
    bounds := [];
    if a != null && a.Length > 1 {
      var count := a.Length;
      var index := count - 1;
      while index > 0
        invariant 0 <= index <= count - 1
        invariant ShuffleDown(a[..], index, draws) == Shuffled(old(a[..]), draws)
        invariant |bounds| == count - 1 - index
        invariant forall k :: 0 <= k < |bounds| ==> bounds[k] == count - k
        decreases index
      {
        var newIndex := draws[count - 1 - index];
        bounds := bounds + [index + 1];
        ghost var before := a[..];
        var temp := a[index];
        a[index] := a[newIndex];
        a[newIndex] := temp;
        assert a[..] == Swap(before, index, newIndex);
        index := index - 1;
      }
      assert bounds == Bounds(count);
    }
  }

  /** shuffle(double[], random): the same algorithm on doubles. */
  method ShuffleDoubles(a: array?<Double>, draws: seq<int>) returns (bounds: seq<int>)
    requires a != null ==> DrawsFit(draws, a.Length)
    modifies a
    ensures a == null ==> bounds == []
    ensures a != null ==> a[..] == Shuffled(old(a[..]), draws) && bounds == Bounds(a.Length)
  {
    bounds := Shuffle(a, draws);
  }

  /** shuffle(int[], random): the same algorithm on ints. */
  method ShuffleInts(a: array?<Int32>, draws: seq<int>) returns (bounds: seq<int>)
    requires a != null ==> DrawsFit(draws, a.Length)
    modifies a
    ensures a == null ==> bounds == []
    ensures a != null ==> a[..] == Shuffled(old(a[..]), draws) && bounds == Bounds(a.Length)
  {
    bounds := Shuffle(a, draws);
  }

  /** shuffle(long[], random): the same algorithm on longs. */
  method ShuffleLongs(a: array?<Int64>, draws: seq<int>) returns (bounds: seq<int>)
    requires a != null ==> DrawsFit(draws, a.Length)
    modifies a
    ensures a == null ==> bounds == []
    ensures a != null ==> a[..] == Shuffled(old(a[..]), draws) && bounds == Bounds(a.Length)
  {
    bounds := Shuffle(a, draws);
  }

  // ---------------------------------------------------------------------------
  // Properties of the shuffle
  // ---------------------------------------------------------------------------

  lemma SwapPermutes<T>(s: seq<T>, i: nat, j: nat)
    requires i < |s| && j < |s|
    ensures multiset(Swap(s, i, j)) == multiset(s)
  {
    var u := s[i := s[j]];
    assert multiset(u) == multiset(s) - multiset{s[i]} + multiset{s[j]};
    assert u[j] == s[j];
    assert multiset(u[j := s[i]]) == multiset(u) - multiset{s[j]} + multiset{s[i]};
  }

  /** Each step is a swap, so the steps together permute the elements. */
  lemma {:induction false} ShuffleDownPermutes<T>(s: seq<T>, index: int, draws: seq<int>)
    requires index < |s| && DrawsFit(draws, |s|)
    ensures multiset(ShuffleDown(s, index, draws)) == multiset(s)
    decreases index
  {
    if index > 0 {
      var t := Swap(s, index, draws[|s| - 1 - index]);
      SwapPermutes(s, index, draws[|s| - 1 - index]);
      ShuffleDownPermutes(t, index - 1, draws);
    }
  }

  /** The shuffled array is a permutation of the original. */
  lemma ShuffledPermutes<T>(s: seq<T>, draws: seq<int>)
    requires DrawsFit(draws, |s|)
    ensures |Shuffled(s, draws)| == |s|
    ensures multiset(Shuffled(s, draws)) == multiset(s)
  {
    if |s| > 1 {
      ShuffleDownPermutes(s, |s| - 1, draws);
    }
  }

  /** The steps for index and below never write a cell above index: once the
      step for index is done, cells index..count-1 are final. */
  lemma {:induction false} ShuffleDownKeepsAbove<T>(s: seq<T>, index: int, draws: seq<int>)
    requires 0 <= index < |s| && DrawsFit(draws, |s|)
    ensures forall j :: index < j < |s| ==> ShuffleDown(s, index, draws)[j] == s[j]
    decreases index
  {
    if index > 0 {
      var t := Swap(s, index, draws[|s| - 1 - index]);
      ShuffleDownKeepsAbove(t, index - 1, draws);
    }
  }

  /** The last cell ends up holding the element the first draw picked. */
  lemma ShuffledLast<T>(s: seq<T>, draws: seq<int>)
    requires |s| > 1 && DrawsFit(draws, |s|)
    ensures |Shuffled(s, draws)| == |s|
    ensures Shuffled(s, draws)[|s| - 1] == s[draws[0]]
  {
    var t := Swap(s, |s| - 1, draws[0]);
    ShuffleDownKeepsAbove(t, |s| - 2, draws);
  }

  /** Draws that always pick the current index make every swap a no-op. */
  lemma {:induction false} ShuffleDownIdentity<T>(s: seq<T>, index: int, draws: seq<int>)
    requires index < |s| && DrawsFit(draws, |s|)
    requires forall k :: 0 <= k < |s| - 1 ==> draws[k] == |s| - 1 - k
    ensures ShuffleDown(s, index, draws) == s
    decreases index
  {
    if index > 0 {
      assert Swap(s, index, draws[|s| - 1 - index]) == s;
      ShuffleDownIdentity(s, index - 1, draws);
    }
  }

  lemma ShuffledIdentity<T>(s: seq<T>, draws: seq<int>)
    requires DrawsFit(draws, |s|)
    requires forall k :: 0 <= k < |s| - 1 ==> draws[k] == |s| - 1 - k
    ensures Shuffled(s, draws) == s
  {
    if |s| > 1 {
      ShuffleDownIdentity(s, |s| - 1, draws);
    }
  }
}
