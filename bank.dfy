/**
 * Question-bank handling (app.js:12-14): flattenBank collects the leaves of
 * a nested array, shuffle is a Fisher-Yates shuffle on a copy, and pickN
 * keeps a prefix of a shuffled copy.  The random draws `Math.floor(
 * Math.random()*(i+1))` are supplied by the caller: `draws[i]` is the draw
 * made at step `i`, a value in 0..i.
 */
module Bank {

  /** A question bank: a leaf value, or an array of nested banks. */
  datatype Tree<T> = Leaf(value: T) | Nest(children: seq<Tree<T>>)

  /** Concatenation of a sequence of sequences, in order. */
  function Concat<T>(ss: seq<seq<T>>): seq<T>
  {
    if ss == [] then [] else Concat(ss[..|ss| - 1]) + ss[|ss| - 1]
  }

  function BagSum<T>(bs: seq<multiset<T>>): multiset<T>
  {
    if bs == [] then multiset{} else BagSum(bs[..|bs| - 1]) + bs[|bs| - 1]
  }

  /** The leaves of a bank, depth-first and left to right. */
  function Leaves<T>(t: Tree<T>): seq<T>
    decreases t
  {
    match t
    case Leaf(x) => [x]
    case Nest(cs) => Concat(seq(|cs|, k requires 0 <= k < |cs| => Leaves(cs[k])))
  }

  /** The leaves of a bank, counted with multiplicity and without order. */
  function LeafBag<T>(t: Tree<T>): multiset<T>
    decreases t
  {
    match t
    case Leaf(x) => multiset{x}
    case Nest(cs) => BagSum(seq(|cs|, k requires 0 <= k < |cs| => LeafBag(cs[k])))
  }

  lemma {:induction false} ConcatBag<T>(ss: seq<seq<T>>, bs: seq<multiset<T>>)
    requires |ss| == |bs|
    requires forall k :: 0 <= k < |ss| ==> multiset(ss[k]) == bs[k]
    ensures multiset(Concat(ss)) == BagSum(bs)
    decreases |ss|
  {
    if ss != [] {
      ConcatBag(ss[..|ss| - 1], bs[..|bs| - 1]);
    }
  }

  /** Flattening loses no leaf and invents none; its length is the number of leaves. */
  lemma {:induction false} LeavesAreLeafBag<T>(t: Tree<T>)
    ensures multiset(Leaves(t)) == LeafBag(t)
    ensures |Leaves(t)| == |LeafBag(t)|
    decreases t
  {
    match t
    case Leaf(x) =>
    case Nest(cs) =>
      forall k | 0 <= k < |cs| ensures multiset(Leaves(cs[k])) == LeafBag(cs[k]) {
        LeavesAreLeafBag(cs[k]);
      }
      ConcatBag(seq(|cs|, k requires 0 <= k < |cs| => Leaves(cs[k])),
                seq(|cs|, k requires 0 <= k < |cs| => LeafBag(cs[k])));
  }

  /** The walker `w` of flattenBank: pushes the leaves of `y` onto `out`. */
  method Walk<T>(y: Tree<T>, out: seq<T>) returns (out': seq<T>)
    ensures out' == out + Leaves(y)
    decreases y
  {
    match y
    case Leaf(x) =>
      out' := out + [x];
    case Nest(cs) =>
      ghost var parts := seq(|cs|, k requires 0 <= k < |cs| => Leaves(cs[k]));
      out' := out;
      for k := 0 to |cs|
        invariant out' == out + Concat(parts[..k])
      {
        out' := Walk(cs[k], out');
        assert parts[..k + 1][..k] == parts[..k];
      }
      assert parts[..|cs|] == parts;
  }

  /** flattenBank: the leaves of the bank in depth-first, left-to-right order. */
  method FlattenBank<T>(x: Tree<T>) returns (out: seq<T>)
    ensures out == Leaves(x)
    ensures multiset(out) == LeafBag(x)
  {
    out := Walk(x, []);
    LeavesAreLeafBag(x);
  }

  // ---------------------------------------------------------------------
  // shuffle and pickN
  // ---------------------------------------------------------------------

  /** The draws suffice for shuffling `n` elements: the draw at step i lies in 0..i. */
  predicate DrawsFit(draws: seq<nat>, n: nat)
  {
    n <= |draws| && forall i :: 0 < i < n ==> draws[i] <= i
  }

  function Swap<T>(s: seq<T>, i: nat, j: nat): (r: seq<T>)
    requires i < |s| && j < |s|
    ensures |r| == |s|
  {
    s[i := s[j]][j := s[i]]
  }

  /** Fisher-Yates steps i, i-1, ..., 1 applied to `s`. */
  function FisherYates<T>(s: seq<T>, draws: seq<nat>, i: int): (r: seq<T>)
    requires i < |s| && DrawsFit(draws, |s|)
    ensures |r| == |s|
    decreases i
  {
    if i <= 0 then s else FisherYates(Swap(s, i, draws[i]), draws, i - 1)
  }

  lemma SwapPermutes<T>(s: seq<T>, i: nat, j: nat)
    requires i < |s| && j < |s|
    ensures multiset(Swap(s, i, j)) == multiset(s)
  {
    var t := s[i := s[j]];
    assert multiset(t) == multiset(s) - multiset{s[i]} + multiset{s[j]};
    assert t[j] == (if i == j then s[j] else s[j]);
  }

  /** Every Fisher-Yates run is a permutation of its input. */
  lemma {:induction false} FisherYatesPermutes<T>(s: seq<T>, draws: seq<nat>, i: int)
    requires i < |s| && DrawsFit(draws, |s|)
    ensures multiset(FisherYates(s, draws, i)) == multiset(s)
    decreases i
  {
    if i > 0 {
      SwapPermutes(s, i, draws[i]);
      FisherYatesPermutes(Swap(s, i, draws[i]), draws, i - 1);
    }
  }

  /** shuffle: copies `arr` and runs the Fisher-Yates loop on the copy. */
  method Shuffle<T>(arr: seq<T>, draws: seq<nat>) returns (r: seq<T>)
    requires DrawsFit(draws, |arr|)
    ensures r == FisherYates(arr, draws, |arr| - 1)
    ensures |r| == |arr| && multiset(r) == multiset(arr)
  {
    var a := new T[|arr|](k requires 0 <= k < |arr| => arr[k]);
    assert a[..] == arr;
    var i := a.Length - 1;
    while i > 0
      invariant -1 <= i < a.Length
      invariant FisherYates(a[..], draws, i) == FisherYates(arr, draws, |arr| - 1)
    {
      var j := draws[i];
      ghost var before := a[..];
      a[i], a[j] := a[j], a[i];
      assert a[..] == Swap(before, i, j);
      i := i - 1;
    }
    r := a[..];
    FisherYatesPermutes(arr, draws, |arr| - 1);
  }

  function Min(a: nat, b: nat): nat
  {
    if a <= b then a else b
  }

  /**
   * pickN: the first `n` elements of the shuffled copy.  It has
   * min(n, |arr|) elements, each taken from a different position of `arr`.
   */
  function PickN<T>(arr: seq<T>, n: nat, draws: seq<nat>): (r: seq<T>)
    requires DrawsFit(draws, |arr|)
    ensures |r| == Min(n, |arr|)
    ensures multiset(r) <= multiset(arr)
    ensures n >= |arr| ==> multiset(r) == multiset(arr)
  {
    var sh := FisherYates(arr, draws, |arr| - 1);
    FisherYatesPermutes(arr, draws, |arr| - 1);
    var r := sh[..Min(n, |arr|)];
    assert sh == r + sh[Min(n, |arr|)..];
    assert n >= |arr| ==> r == sh;
    r
  }

  /** Sampling from a bank of distinct questions yields distinct questions. */
  lemma PickNDistinct<T>(arr: seq<T>, n: nat, draws: seq<nat>)
    requires DrawsFit(draws, |arr|)
    requires forall i, j :: 0 <= i < j < |arr| ==> arr[i] != arr[j]
    ensures var r := PickN(arr, n, draws);
      forall i, j :: 0 <= i < j < |r| ==> r[i] != r[j]
  {
    var r := PickN(arr, n, draws);
    forall i, j | 0 <= i < j < |r| ensures r[i] != r[j] {
      MultiplicityOfDistinct(arr, r[i]);
      RepeatedMultiplicity(r, i, j);
    }
  }

  lemma RepeatedMultiplicity<T>(s: seq<T>, i: nat, j: nat)
    requires i < j < |s|
    ensures s[i] == s[j] ==> multiset(s)[s[i]] >= 2
  {
    assert s == s[..i] + [s[i]] + s[i + 1..j] + [s[j]] + s[j + 1..];
  }

  lemma {:induction false} MultiplicityOfDistinct<T>(s: seq<T>, x: T)
    requires forall i, j :: 0 <= i < j < |s| ==> s[i] != s[j]
    ensures multiset(s)[x] <= 1
  {
    if s != [] {
      MultiplicityOfDistinct(s[1..], x);
      assert s == [s[0]] + s[1..];
      if s[0] == x {
        assert x !in s[1..];
      }
    }
  }
}
