/**
 * Dataset construction in the training script: the class of each stored file,
 * the sorted class list and its index maps, the label file written for the
 * predictor, the sample loop and the one-hot targets.
 */
module Dataset {
  import opened Wrappers
  import opened Decimal
  import opened Ordering
  import opened Maps
  import Collector

  /** `name.split('_')[0]`: the text before the first underscore, or all of it. */
  function ClassOf(name: string): (c: string)
    ensures c <= name && '_' !in c
    ensures |c| < |name| ==> name[|c|] == '_'
  {
    if name == [] then []
    else if name[0] == '_' then []
    else [name[0]] + ClassOf(name[1..])
  }

  /** The three facts in ClassOf's contract single out its result. */
  lemma ClassOfUnique(name: string, c: string)
    requires c <= name && '_' !in c
    requires |c| < |name| ==> name[|c|] == '_'
    ensures c == ClassOf(name)
  {
    var d := ClassOf(name);
    assert forall k :: 0 <= k < |d| ==> d[k] == name[k];
    assert forall k :: 0 <= k < |c| ==> c[k] == name[k];
    assert |c| == |d|;
  }

  /** The class of a stored sample is the class of its canonical label. */
  lemma {:induction false} ClassOfSavedSample(typed: string, listing: seq<string>)
    requires typed != ""
    ensures ClassOf(Collector.SaveName(typed, listing).value) == ClassOf(Collector.Normalize(typed))
    ensures '_' !in Collector.Normalize(typed) ==>
      ClassOf(Collector.SaveName(typed, listing).value) == Collector.Normalize(typed)
  {
    var tag := Collector.Normalize(typed);
    var name := Collector.SaveName(typed, listing).value;
    var c := ClassOf(tag);
    assert name == tag + "_" + Show(Collector.CountWithPrefix(listing, tag)) + ".png";
    assert name[..|tag|] == tag;
    if |c| == |tag| {
      assert name[|c|] == '_';
    }
    ClassOfUnique(name, c);
  }

  /** Every digit string is stored under `num_...` and so lands in the single class `num`. */
  lemma DigitsShareOneClass(typed: string, listing: seq<string>)
    requires IsDigits(typed)
    ensures ClassOf(Collector.SaveName(typed, listing).value) == "num"
  {
    ClassOfSavedSample(typed, listing);
    var tag := Collector.Normalize(typed);
    assert tag == "num_" + typed;
    ClassOfUnique(tag, "num");
  }

  /** `x` and `*` are stored as `mult_x_...` and `mult_...`, and both land in class `mult`. */
  lemma TimesAndXShareOneClass(listing: seq<string>)
    ensures ClassOf(Collector.SaveName("x", listing).value) == "mult"
    ensures ClassOf(Collector.SaveName("*", listing).value) == "mult"
  {
    Collector.NormalizeTable("x");
    Collector.NormalizeTable("*");
    ClassOfSavedSample("x", listing);
    ClassOfSavedSample("*", listing);
    ClassOfUnique("mult_x", "mult");
    ClassOfUnique("mult", "mult");
  }

  /** The set of classes named by a listing. */
  function ClassSet(listing: seq<string>): set<string> {
    set i | 0 <= i < |listing| :: ClassOf(listing[i])
  }

  /** Adds `x` to a strictly ascending sequence, keeping it strictly ascending and free of repeats. */
  function InsertSorted(s: seq<string>, x: string): (r: seq<string>)
    requires StrictlyAscending(s)
    ensures StrictlyAscending(r)
    ensures forall y :: y in r <==> y in s || y == x
  {
    if s == [] then [x]
    else if x == s[0] then s
    else if Less(x, s[0]) then
      assert forall j :: 0 < j < |s| ==> Less(x, s[j]) by {
        forall j | 0 < j < |s| ensures Less(x, s[j]) { LessTransitive(x, s[0], s[j]); }
      }
      [x] + s
    else
      LessTotal(x, s[0]);
      var rest := InsertSorted(s[1..], x);
      assert forall y :: y in rest ==> Less(s[0], y) by {
        forall y | y in rest ensures Less(s[0], y) {
          if y != x {
            var j :| 0 <= j < |s[1..]| && s[1..][j] == y;
            assert s[j + 1] == y;
          }
        }
      }
      assert s == [s[0]] + s[1..];
      [s[0]] + rest
  }

  /** The distinct classes of the listed files, in ascending string order. */
  function SortedClasses(listing: seq<string>): (r: seq<string>)
    ensures StrictlyAscending(r)
    ensures forall c :: c in r <==> c in ClassSet(listing)
  {
    if listing == [] then []
    else
      var prev := listing[..|listing| - 1];
      var r := InsertSorted(SortedClasses(prev), ClassOf(listing[|listing| - 1]));
      assert forall c :: c in ClassSet(listing) <==> c in ClassSet(prev) || c == ClassOf(listing[|listing| - 1]) by {
        forall c ensures c in ClassSet(listing) <==> c in ClassSet(prev) || c == ClassOf(listing[|listing| - 1]) {
          if c in ClassSet(listing) {
            var i :| 0 <= i < |listing| && ClassOf(listing[i]) == c;
            if i < |prev| { assert prev[i] == listing[i]; }
          }
          if c in ClassSet(prev) {
            var i :| 0 <= i < |prev| && ClassOf(prev[i]) == c;
            assert listing[i] == prev[i];
          }
        }
      }
      r
  }

  /** Any strictly ascending list of exactly the classes is the one `sorted` returns. */
  lemma SortedClassesIsSorted(listing: seq<string>, s: seq<string>)
    requires StrictlyAscending(s)
    requires forall c :: c in s <==> c in ClassSet(listing)
    ensures s == SortedClasses(listing)
  {
    AscendingUnique(s, SortedClasses(listing));
  }

  lemma AscendingDistinctAll(s: seq<string>)
    requires StrictlyAscending(s)
    ensures forall i, j :: 0 <= i < |s| && 0 <= j < |s| && s[i] == s[j] ==> i == j
  {
    forall i, j | 0 <= i < |s| && 0 <= j < |s| && s[i] == s[j] ensures i == j {
      if i != j { AscendingDistinct(s, i, j); }
    }
  }

  /** Numbers the classes by their position in the sorted list, from 0. */
  function LabelToIndex(classes: seq<string>): (m: map<string, nat>)
    requires StrictlyAscending(classes)
    ensures forall c :: c in m <==> c in classes
    ensures forall i :: 0 <= i < |classes| ==> m[classes[i]] == i
    ensures forall c :: c in m ==> m[c] < |classes| && classes[m[c]] == c
  {
    AscendingDistinctAll(classes);
    map i | 0 <= i < |classes| :: classes[i] := i
  }

  /** Distinct classes get distinct indices. */
  lemma LabelToIndexInjective(classes: seq<string>)
    requires StrictlyAscending(classes)
    ensures Injective(LabelToIndex(classes))
  {
  }

  /** The index-to-class map that training writes out: the index map turned around. */
  function IndexToLabel(classes: seq<string>): (m: map<nat, string>)
    requires StrictlyAscending(classes)
  {
    LabelToIndexInjective(classes);
    Invert(LabelToIndex(classes))
  }

  /**
   * The index map and its inverse are a bijection between the classes and
   * 0..K-1, the i-th class in sorted order having index i, and each undoes the other.
   */
  lemma IndexMapsBijection(classes: seq<string>)
    requires StrictlyAscending(classes)
    ensures var toIndex, toLabel := LabelToIndex(classes), IndexToLabel(classes);
      && |toIndex| == |classes|
      && (forall i: nat :: i in toLabel <==> i < |classes|)
      && (forall i :: 0 <= i < |classes| ==> toLabel[i] == classes[i])
      && (forall c :: c in toIndex ==> toIndex[c] in toLabel && toLabel[toIndex[c]] == c)
      && (forall i :: i in toLabel ==> toLabel[i] in toIndex && toIndex[toLabel[i]] == i)
  {
    var toIndex, toLabel := LabelToIndex(classes), IndexToLabel(classes);
    LabelToIndexInjective(classes);
    forall i | 0 <= i < |classes| ensures i in toLabel && toLabel[i] == classes[i] {
      assert toIndex[classes[i]] == i;
    }
    assert toIndex.Keys == set x | x in classes;
    AscendingCardinality(classes);
  }

  /** A folder's index map has one entry per class. */
  lemma ClassIndexSize(listing: seq<string>)
    ensures |ClassIndex(listing)| == |SortedClasses(listing)|
  {
    IndexMapsBijection(SortedClasses(listing));
  }

  /** The index-to-class map is keyed by 0..K-1 and index i names the i-th class. */
  lemma IndexToLabelKeys(classes: seq<string>)
    requires StrictlyAscending(classes)
    ensures forall i: nat :: i in IndexToLabel(classes) <==> i < |classes|
    ensures forall i :: 0 <= i < |classes| ==> IndexToLabel(classes)[i] == classes[i]
  {
    IndexMapsBijection(classes);
  }

  lemma {:induction false} AscendingCardinality(s: seq<string>)
    requires StrictlyAscending(s)
    ensures |set x | x in s| == |s|
  {
    if s != [] {
      var p, last := s[..|s| - 1], s[|s| - 1];
      assert s == p + [last];
      AscendingCardinality(p);
      assert (set x | x in s) == (set x | x in p) + {last};
      forall i | 0 <= i < |p| ensures p[i] != last {
        assert Less(s[i], s[|s| - 1]);
        LessIrreflexive(last);
      }
    }
  }

  /** What `json.dump` writes for a map with integer keys: each key as its decimal string. */
  function JsonKeys(m: map<nat, string>): (r: map<string, string>)
    ensures r.Keys == set i | i in m :: Show(i)
    ensures forall i :: i in m ==> r[Show(i)] == m[i]
  {
    ShowInjectiveAll();
    map i | i in m :: Show(i) := m[i]
  }

  /** Reading the label file back: every key is a decimal string naming an index of the map. */
  lemma JsonKeysDecimal(m: map<nat, string>)
    ensures forall k :: k in JsonKeys(m) ==>
      IsDigits(k) && Value(k) in m && Show(Value(k)) == k && JsonKeys(m)[k] == m[Value(k)]
  {
    forall k | k in JsonKeys(m)
      ensures IsDigits(k) && Value(k) in m && Show(Value(k)) == k && JsonKeys(m)[k] == m[Value(k)]
    {
      var i :| i in m && Show(i) == k;
      ValueShow(i);
    }
  }

  /** The index map of a sample folder, and the label file written from it. */
  function ClassIndex(listing: seq<string>): map<string, nat> {
    LabelToIndex(SortedClasses(listing))
  }

  function LabelFile(listing: seq<string>): map<string, string> {
    JsonKeys(IndexToLabel(SortedClasses(listing)))
  }

  lemma ExampleClassSet()
    ensures forall c :: c in ["minus", "plus"] <==> c in ClassSet(["plus_0", "plus_1", "minus_0"])
  {
    var listing := ["plus_0", "plus_1", "minus_0"];
    ClassOfUnique(listing[0], "plus");
    ClassOfUnique(listing[1], "plus");
    ClassOfUnique(listing[2], "minus");
    assert ClassSet(listing) == {ClassOf(listing[0]), ClassOf(listing[1]), ClassOf(listing[2])};
  }

  lemma ExampleClasses()
    ensures SortedClasses(["plus_0", "plus_1", "minus_0"]) == ["minus", "plus"]
  {
    var s := ["minus", "plus"];
    assert Less(s[0], s[1]);
    ExampleClassSet();
    SortedClassesIsSorted(["plus_0", "plus_1", "minus_0"], s);
  }

  /** A folder with exactly two classes numbers the smaller 0 and the larger 1. */
  lemma TwoClassIndex(listing: seq<string>, a: string, b: string)
    requires SortedClasses(listing) == [a, b]
    ensures var m := ClassIndex(listing);
      m.Keys == {a, b} && m[a] == 0 && m[b] == 1
  {
    var s := SortedClasses(listing);
    assert s[0] == a && s[1] == b;
  }

  /** For files `plus_0`, `plus_1`, `minus_0` the classes are `minus`, `plus`, indexed 0 and 1. */
  lemma IndexExample()
    ensures var m := ClassIndex(["plus_0", "plus_1", "minus_0"]);
      m.Keys == {"minus", "plus"} && m["minus"] == 0 && m["plus"] == 1
  {
    ExampleClasses();
    TwoClassIndex(["plus_0", "plus_1", "minus_0"], "minus", "plus");
  }

  /** The files the sample loop loads, in listing order: those whose class has an index. */
  function Kept(listing: seq<string>, index: map<string, nat>): (kept: seq<string>)
    ensures forall i :: 0 <= i < |kept| ==> ClassOf(kept[i]) in index
  {
    if listing == [] then []
    else
      var f := listing[|listing| - 1];
      Kept(listing[..|listing| - 1], index) + (if ClassOf(f) in index then [f] else [])
  }

  /** The class index of each file, position by position. */
  function Targets(files: seq<string>, index: map<string, nat>): (ys: seq<nat>)
    requires forall i :: 0 <= i < |files| ==> ClassOf(files[i]) in index
  {
    seq(|files|, i requires 0 <= i < |files| => index[ClassOf(files[i])])
  }

  /**
   * The sample loop: each listed file whose class is known is loaded into X
   * (represented here by the file itself) and its class index appended to y.
   */
  method LoadSamples(listing: seq<string>, index: map<string, nat>) returns (xs: seq<string>, ys: seq<nat>)
    ensures xs == Kept(listing, index)
    ensures |ys| == |xs|
    ensures forall i :: 0 <= i < |xs| ==> ClassOf(xs[i]) in index && ys[i] == index[ClassOf(xs[i])]
    ensures ys == Targets(xs, index)
  {
    xs, ys := [], [];
    for n := 0 to |listing|
      invariant xs == Kept(listing[..n], index)
      invariant |ys| == |xs|
      invariant forall i :: 0 <= i < |xs| ==> ys[i] == index[ClassOf(xs[i])]
    {
      var file := listing[n];
      assert listing[..n + 1][..n] == listing[..n];
      var tag := ClassOf(file);
      if tag in index {
        xs := xs + [file];
        ys := ys + [index[tag]];
      }
    }
    assert listing[..|listing|] == listing;
  }

  /** A loop keeps every file whose class has an index. */
  lemma {:induction false} KeptAll(listing: seq<string>, index: map<string, nat>)
    requires forall i :: 0 <= i < |listing| ==> ClassOf(listing[i]) in index
    ensures Kept(listing, index) == listing
  {
    if listing != [] {
      KeptAll(listing[..|listing| - 1], index);
    }
  }

  /**
   * Built from the same listing, the index map knows every file's class: the
   * loop keeps every file, and each target is below K and names that file's class.
   */
  lemma SamplesAligned(listing: seq<string>)
    ensures Kept(listing, ClassIndex(listing)) == listing
    ensures var ys := Targets(listing, ClassIndex(listing));
      && |ys| == |listing|
      && forall i :: 0 <= i < |listing| ==>
           ys[i] < |SortedClasses(listing)| && SortedClasses(listing)[ys[i]] == ClassOf(listing[i])
  {
    forall i | 0 <= i < |listing| ensures ClassOf(listing[i]) in ClassIndex(listing) {
      assert ClassOf(listing[i]) in ClassSet(listing);
    }
    KeptAll(listing, ClassIndex(listing));
  }

  /** A one-hot row: 1 at position c of k, 0 elsewhere. */
  function OneHot(c: nat, k: nat): (row: seq<real>)
    requires c < k
  {
    seq(k, j => if j == c then 1.0 else 0.0)
  }

  function Sum(s: seq<real>): real {
    if s == [] then 0.0 else s[0] + Sum(s[1..])
  }

  /** The largest target. */
  function Largest(ys: seq<nat>): (m: nat)
    requires ys != []
    ensures m in ys && forall i :: 0 <= i < |ys| ==> ys[i] <= m
  {
    if |ys| == 1 then ys[0]
    else
      var m := Largest(ys[1..]);
      assert forall i :: 1 <= i < |ys| ==> ys[i] == ys[1..][i - 1];
      if ys[0] >= m then ys[0] else m
  }

  /**
   * The number of classes one-hot encoding uses: k, or, when k is 0 (which
   * Keras reads as "not given"), one more than the largest target.
   */
  function ClassCount(ys: seq<nat>, k: nat): (n: nat)
    requires k > 0 || ys != []
    ensures n > 0 && (k > 0 ==> n == k)
    ensures k == 0 ==> forall i :: 0 <= i < |ys| ==> ys[i] < n
    ensures k == 0 ==> exists i :: 0 <= i < |ys| && ys[i] == n - 1
  {
    if k > 0 then k else Largest(ys) + 1
  }

  /**
   * Keras's one-hot encoding of targets `ys` into k classes. With k = 0 the
   * class count is derived from the targets, and on no targets at all there is
   * no largest one and the call fails; with k > 0, a target not below k is an
   * index error.
   */
  function ToCategorical(ys: seq<nat>, k: nat): (r: Option<seq<seq<real>>>)
    ensures r.Some? <==> if k == 0 then ys != [] else forall i :: 0 <= i < |ys| ==> ys[i] < k
    ensures r.Some? ==> |r.value| == |ys| && forall i :: 0 <= i < |ys| ==>
      ys[i] < ClassCount(ys, k) && r.value[i] == OneHot(ys[i], ClassCount(ys, k))
  {
    if k == 0 && ys == [] then None
    else if k == 0 || forall i :: 0 <= i < |ys| ==> ys[i] < k then
      var n := ClassCount(ys, k);
      Some(seq(|ys|, i requires 0 <= i < |ys| && ys[i] < n => OneHot(ys[i], n)))
    else None
  }

  lemma {:induction false} SumZeros(s: seq<real>)
    requires forall j :: 0 <= j < |s| ==> s[j] == 0.0
    ensures Sum(s) == 0.0
  {
    if s != [] { SumZeros(s[1..]); }
  }

  lemma {:induction false} SumOneAt(s: seq<real>, c: nat)
    requires c < |s|
    requires forall j :: 0 <= j < |s| ==> s[j] == if j == c then 1.0 else 0.0
    ensures Sum(s) == 1.0
  {
    if c == 0 {
      SumZeros(s[1..]);
    } else {
      SumOneAt(s[1..], c - 1);
    }
  }

  /** A one-hot row has length k, sums to 1, and its only non-zero entry is the class. */
  lemma OneHotShape(c: nat, k: nat)
    requires c < k
    ensures |OneHot(c, k)| == k && OneHot(c, k)[c] == 1.0 && Sum(OneHot(c, k)) == 1.0
    ensures forall j :: 0 <= j < k && j != c ==> OneHot(c, k)[j] == 0.0
  {
    SumOneAt(OneHot(c, k), c);
  }

  /**
   * The targets built from a listing encode exactly when the listing is not
   * empty, one row per file, each the one-hot row of its class index among the K
   * classes; an empty folder gives K = 0 and no targets, and encoding fails.
   */
  lemma TargetsEncode(listing: seq<string>)
    ensures var ys, k := Targets(listing, ClassIndex(listing)), |ClassIndex(listing)|;
      var r := ToCategorical(ys, k);
      && (r.Some? <==> listing != [])
      && (r.Some? ==> k == |SortedClasses(listing)| && |r.value| == |listing|
                      && forall i :: 0 <= i < |listing| ==> r.value[i] == OneHot(ys[i], k))
  {
    SamplesAligned(listing);
    ClassIndexSize(listing);
    if listing != [] {
      assert ClassOf(listing[0]) in SortedClasses(listing);
    }
  }
}
