/**
 * The train/validation split: the samples are reordered by a permutation of
 * their positions and the first `nTest` of that order are held out for
 * validation, images and targets moving together.
 */
module Split {

  function Range(n: nat): (r: seq<nat>)
    ensures |r| == n && forall i :: 0 <= i < n ==> r[i] == i
  {
    seq(n, i => i)
  }

  /** `perm` lists each position 0..n-1 exactly once. */
  predicate IsPermutation(perm: seq<nat>, n: nat) {
    multiset(perm) == multiset(Range(n))
  }

  lemma PermutationBounded(perm: seq<nat>, n: nat)
    requires IsPermutation(perm, n)
    ensures |perm| == n && Below(perm, n)
  {
    assert |perm| == |multiset(perm)| == |multiset(Range(n))| == n;
    forall i | 0 <= i < |perm| ensures perm[i] < n {
      assert perm[i] in multiset(perm);
      assert perm[i] in Range(n);
    }
  }

  /** The elements of `s` at the positions `idx`, in that order (`s[idx]` in numpy). */
  function Gather<T>(s: seq<T>, idx: seq<nat>): (r: seq<T>)
    requires Below(idx, |s|)
  {
    seq(|idx|, i requires 0 <= i < |idx| => s[idx[i]])
  }

  function Zip<X, Y>(xs: seq<X>, ys: seq<Y>): (r: seq<(X, Y)>)
    requires |xs| == |ys|
  {
    seq(|xs|, i requires 0 <= i < |xs| => (xs[i], ys[i]))
  }

  /** The four parts of a split: training and validation images, training and validation targets. */
  datatype Partition<X, Y> = Partition(xTrain: seq<X>, xTest: seq<X>, yTrain: seq<Y>, yTest: seq<Y>)

  /**
   * `train_test_split(X, y, ...)` for a given shuffle `perm` and validation
   * size `nTest`: validation takes the positions perm[..nTest], training the rest.
   */
  function TrainTestSplit<X, Y>(xs: seq<X>, ys: seq<Y>, perm: seq<nat>, nTest: nat): (p: Partition<X, Y>)
    requires |xs| == |ys| && IsPermutation(perm, |xs|) && nTest <= |xs|
    ensures |perm| == |xs|
    ensures |p.xTrain| == |p.yTrain| == |xs| - nTest && |p.xTest| == |p.yTest| == nTest
    ensures forall i :: 0 <= i < nTest ==> perm[i] < |xs| && p.xTest[i] == xs[perm[i]] && p.yTest[i] == ys[perm[i]]
    ensures forall i :: 0 <= i < |xs| - nTest ==>
      perm[nTest + i] < |xs| && p.xTrain[i] == xs[perm[nTest + i]] && p.yTrain[i] == ys[perm[nTest + i]]
  {
    PermutationBounded(perm, |xs|);
    Partition(Gather(xs, perm[nTest..]), Gather(xs, perm[..nTest]),
              Gather(ys, perm[nTest..]), Gather(ys, perm[..nTest]))
  }

  /** Every position in `idx` is below `n`. */
  predicate Below(idx: seq<nat>, n: nat) {
    forall i :: 0 <= i < |idx| ==> idx[i] < n
  }

  lemma GatherAppend<T>(s: seq<T>, a: seq<nat>, b: seq<nat>)
    requires Below(a, |s|) && Below(b, |s|)
    ensures Below(a + b, |s|)
    ensures Gather(s, a + b) == Gather(s, a) + Gather(s, b)
  {
  }

  /** Takes one occurrence of `x` out of `q`. */
  lemma RemoveOne(q: seq<nat>, x: nat, n: nat) returns (a: seq<nat>, b: seq<nat>)
    requires x in q && Below(q, n)
    ensures q == a + [x] + b
    ensures multiset(a + b) == multiset(q) - multiset{x}
    ensures Below(a, n) && Below(b, n)
  {
    var j :| 0 <= j < |q| && q[j] == x;
    a, b := q[..j], q[j + 1..];
    assert q == a + [x] + b;
    assert multiset(q) == multiset(a) + multiset{x} + multiset(b);
    assert multiset(a + b) == multiset(a) + multiset(b);
    assert Below(a, n) by { assert forall i :: 0 <= i < |a| ==> a[i] == q[i]; }
    assert Below(b, n) by { assert forall i :: 0 <= i < |b| ==> b[i] == q[j + 1 + i]; }
  }

  lemma {:induction false} GatherMultiset<T>(s: seq<T>, p: seq<nat>, q: seq<nat>)
    requires Below(p, |s|) && Below(q, |s|)
    requires multiset(p) == multiset(q)
    ensures multiset(Gather(s, p)) == multiset(Gather(s, q))
  {
    assert |q| == |multiset(q)| == |multiset(p)| == |p|;
    if p != [] {
      var x, rest := p[0], p[1..];
      assert p == [x] + rest;
      assert x in multiset(p);
      assert x in q;
      var a, b := RemoveOne(q, x, |s|);
      assert Below(rest, |s|);
      assert multiset(rest) == multiset(p) - multiset{x};
      assert multiset(rest) == multiset(a + b);
      GatherAppend(s, a, b);
      GatherMultiset(s, rest, a + b);
      GatherAppend(s, [x], rest);
      GatherAppend(s, a, [x]);
      GatherAppend(s, a + [x], b);
      var ga, gb, gx, gr := Gather(s, a), Gather(s, b), Gather(s, [x]), Gather(s, rest);
      calc {
        multiset(Gather(s, q));
        multiset(ga + gx + gb);
        multiset(gx) + multiset(ga + gb);
        multiset(gx) + multiset(gr);
        multiset(gx + gr);
        multiset(Gather(s, p));
      }
    }
  }

  /** Gathering along a permutation reorders the sequence and loses or repeats nothing. */
  lemma GatherPermutation<T>(s: seq<T>, perm: seq<nat>)
    requires IsPermutation(perm, |s|)
    ensures Below(perm, |s|)
    ensures multiset(Gather(s, perm)) == multiset(s)
  {
    PermutationBounded(perm, |s|);
    GatherMultiset(s, perm, Range(|s|));
    assert Gather(s, Range(|s|)) == s;
  }

  /**
   * Validation and training together hold every (image, target) pair of the
   * input exactly as often as the input does, each image still beside its own target.
   */
  lemma SplitIsPartition<X, Y>(xs: seq<X>, ys: seq<Y>, perm: seq<nat>, nTest: nat)
    requires |xs| == |ys| && IsPermutation(perm, |xs|) && nTest <= |xs|
    ensures var p := TrainTestSplit(xs, ys, perm, nTest);
      multiset(Zip(p.xTest, p.yTest) + Zip(p.xTrain, p.yTrain)) == multiset(Zip(xs, ys))
  {
    var p := TrainTestSplit(xs, ys, perm, nTest);
    var pairs := Zip(xs, ys);
    GatherPermutation(pairs, perm);
    assert Zip(p.xTest, p.yTest) + Zip(p.xTrain, p.yTrain) == Gather(pairs, perm);
  }
}
