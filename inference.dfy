/**
 * The predictor: the loaded label file maps decimal index strings to class
 * names; a prediction takes the first maximum of the network's output vector
 * and looks its index up as a string.
 */
module Inference {
  import opened Wrappers
  import opened Decimal
  import opened Maps
  import Dataset

  /** Every entry before `b` is below v[b], and every entry before `i` is at most v[b]. */
  predicate FirstMaxSoFar(v: seq<real>, i: nat, b: nat) {
    b < i <= |v|
    && (forall j :: 0 <= j < i ==> v[j] <= v[b])
    && (forall j :: 0 <= j < b ==> v[j] < v[b])
  }

  function FirstMaxFrom(v: seq<real>, i: nat, b: nat): (r: nat)
    requires FirstMaxSoFar(v, i, b)
    ensures FirstMaxSoFar(v, |v|, r)
    decreases |v| - i
  {
    if i == |v| then b
    else if v[i] > v[b] then FirstMaxFrom(v, i + 1, i)
    else FirstMaxFrom(v, i + 1, b)
  }

  /**
   * `np.argmax`: the lowest index holding the largest entry; none for an empty
   * vector, where numpy raises an error.
   */
  function ArgMax(v: seq<real>): (r: Option<nat>)
    ensures r.None? <==> v == []
    ensures r.Some? ==> r.value < |v|
    ensures r.Some? ==> forall j :: 0 <= j < |v| ==> v[j] <= v[r.value]
    ensures r.Some? ==> forall j :: 0 <= j < r.value ==> v[j] < v[r.value]
  {
    if v == [] then None else Some(FirstMaxFrom(v, 1, 0))
  }

  /** The first-maximum conditions single out one index. */
  lemma ArgMaxUnique(v: seq<real>, k: nat)
    requires k < |v|
    requires forall j :: 0 <= j < |v| ==> v[j] <= v[k]
    requires forall j :: 0 <= j < k ==> v[j] < v[k]
    ensures ArgMax(v) == Some(k)
  {
    var r := ArgMax(v).value;
    assert !(r < k) by { assert v[r] < v[k] || r >= k; }
    assert !(k < r);
  }

  /**
   * `predecir_simbolo` after the forward pass: the label stored under
   * `str(argmax)`; none when the vector is empty or that key is missing
   * (numpy's and the dictionary's errors).
   */
  function Predict(output: seq<real>, labelFile: map<string, string>): Option<string> {
    match ArgMax(output)
    case None => None
    case Some(i) => if Show(i) in labelFile then Some(labelFile[Show(i)]) else None
  }

  /** The predictor's class-to-key map: the loaded label file turned around. */
  function LabelToKey(labelFile: map<string, string>): map<string, string>
    requires Injective(labelFile)
  {
    Invert(labelFile)
  }

  /** The label file written by training holds the K classes under the keys "0".."K-1". */
  lemma LabelFileKeys(listing: seq<string>)
    ensures var file, classes := Dataset.LabelFile(listing), Dataset.SortedClasses(listing);
      && (forall i :: 0 <= i < |classes| ==> Show(i) in file && file[Show(i)] == classes[i])
      && (forall k :: k in file ==> IsDigits(k) && Value(k) < |classes| && Show(Value(k)) == k)
  {
    var classes := Dataset.SortedClasses(listing);
    var toLabel := Dataset.IndexToLabel(classes);
    var file := Dataset.LabelFile(listing);
    assert file == Dataset.JsonKeys(toLabel);
    Dataset.IndexToLabelKeys(classes);
    Dataset.JsonKeysDecimal(toLabel);
    forall i | 0 <= i < |classes| ensures Show(i) in file && file[Show(i)] == classes[i] {
      assert i in toLabel;
    }
    forall k | k in file ensures Value(k) < |classes| {
      assert Value(k) in toLabel;
    }
  }

  /** ... and no class is stored under two keys. */
  lemma LabelFileShape(listing: seq<string>)
    ensures var file, classes := Dataset.LabelFile(listing), Dataset.SortedClasses(listing);
      && Injective(file)
      && (forall i :: 0 <= i < |classes| ==> Show(i) in file && file[Show(i)] == classes[i])
      && (forall k :: k in file ==> IsDigits(k) && Value(k) < |classes| && Show(Value(k)) == k)
  {
    var classes := Dataset.SortedClasses(listing);
    var file := Dataset.LabelFile(listing);
    LabelFileKeys(listing);
    Dataset.AscendingDistinctAll(classes);
    forall a, b | a in file && b in file && file[a] == file[b] ensures a == b {
      assert classes[Value(a)] == classes[Value(b)];
    }
  }

  /** The predictor's inverse map sends each class to the decimal string of its training index. */
  lemma LabelToKeyRoundTrip(listing: seq<string>)
    ensures Injective(Dataset.LabelFile(listing))
    ensures var file, toKey := Dataset.LabelFile(listing), LabelToKey(Dataset.LabelFile(listing));
      forall c :: c in Dataset.ClassIndex(listing) ==>
        c in toKey && toKey[c] == Show(Dataset.ClassIndex(listing)[c]) && file[toKey[c]] == c
  {
    LabelFileShape(listing);
    var file := Dataset.LabelFile(listing);
    var toKey := LabelToKey(file);
    var index := Dataset.ClassIndex(listing);
    var classes := Dataset.SortedClasses(listing);
    forall c | c in index ensures c in toKey && toKey[c] == Show(index[c]) && file[toKey[c]] == c {
      var i := index[c];
      assert file[Show(i)] == classes[i] == c;
    }
  }

  /** Index i has a key in the run's label file exactly when it is below K, and that key holds the i-th class. */
  lemma LabelFileLookup(listing: seq<string>, i: nat)
    ensures var file, classes := Dataset.LabelFile(listing), Dataset.SortedClasses(listing);
      && (Show(i) in file <==> i < |classes|)
      && (i < |classes| ==> file[Show(i)] == classes[i])
  {
    LabelFileKeys(listing);
    ValueShow(i);
  }

  /**
   * With the label file of the same training run, a prediction succeeds
   * exactly when the output is non-empty and its first maximum is below K, and
   * then names the class at that index; an index without a key is the only way
   * a non-empty output can fail.
   */
  lemma PredictAfterTraining(listing: seq<string>, output: seq<real>)
    ensures var classes := Dataset.SortedClasses(listing);
      var p := Predict(output, Dataset.LabelFile(listing));
      && (p.Some? <==> output != [] && ArgMax(output).value < |classes|)
      && (p.Some? ==> p.value == classes[ArgMax(output).value]
                      && p.value in Dataset.ClassSet(listing))
  {
    var classes := Dataset.SortedClasses(listing);
    if output != [] {
      var i := ArgMax(output).value;
      LabelFileLookup(listing, i);
      if i < |classes| {
        assert classes[i] in classes;
      }
    }
  }

  /** For a non-empty folder, an output vector of length K always gives a prediction: the class at its first maximum. */
  lemma PredictFullOutput(listing: seq<string>, output: seq<real>)
    requires |output| == |Dataset.SortedClasses(listing)|
    ensures var p := Predict(output, Dataset.LabelFile(listing));
      && (p.Some? <==> listing != [])
      && (p.Some? ==> p.value == Dataset.SortedClasses(listing)[ArgMax(output).value])
  {
    PredictAfterTraining(listing, output);
    if listing != [] {
      assert Dataset.ClassOf(listing[0]) in Dataset.SortedClasses(listing);
    }
  }

  /** The first maximum of a one-hot row is its class. */
  lemma OneHotArgMax(c: nat, k: nat)
    requires c < k
    ensures ArgMax(Dataset.OneHot(c, k)) == Some(c)
  {
    Dataset.OneHotShape(c, k);
    ArgMaxUnique(Dataset.OneHot(c, k), c);
  }

  /** Decoding the one-hot training target of a stored file gives back that file's class. */
  lemma TargetDecodes(listing: seq<string>, i: nat)
    requires i < |listing|
    ensures var ys := Dataset.Targets(listing, Dataset.ClassIndex(listing));
      var k := |Dataset.ClassIndex(listing)|;
      && i < |ys| && ys[i] < k
      && Predict(Dataset.OneHot(ys[i], k), Dataset.LabelFile(listing))
         == Some(Dataset.ClassOf(listing[i]))
  {
    Dataset.SamplesAligned(listing);
    Dataset.ClassIndexSize(listing);
    var ys := Dataset.Targets(listing, Dataset.ClassIndex(listing));
    var k := |Dataset.ClassIndex(listing)|;
    OneHotArgMax(ys[i], k);
    PredictAfterTraining(listing, Dataset.OneHot(ys[i], k));
  }
}
