/**
 * The sample collector: canonical labels for typed annotations and the file
 * name under which a new drawing is stored.
 */
module Collector {
  import opened Wrappers
  import opened Decimal

  /** The fixed symbol table. */
  const Replacements: map<string, string> := map[
    "*" := "mult",
    "/" := "div",
    "+" := "plus",
    "-" := "minus",
    "=" := "equal",
    "\U{F7}" := "div2",
    "x" := "mult_x"
  ]

  /** Canonical label of a typed annotation. */
  function Normalize(raw: string): string {
    if IsDigits(raw) then "num_" + raw
    else if raw in Replacements then Replacements[raw]
    else raw
  }

  /** Every table key is one non-digit character; every value is at least three characters and does not start with a digit. */
  lemma TableShape()
    ensures forall k :: k in Replacements ==>
      |k| == 1 && !IsDigit(k[0]) && |Replacements[k]| >= 3 && !IsDigit(Replacements[k][0])
  {
  }

  /** Each of the seven table keys normalises to its table value. */
  lemma NormalizeTable(k: string)
    requires k in Replacements
    ensures Normalize(k) == Replacements[k]
  {
    TableShape();
  }

  /** The digit and pass-through policies on sample inputs: no trimming, no case folding. */
  lemma NormalizeExamples()
    ensures Normalize("7") == "num_7" && Normalize("42") == "num_42"
    ensures Normalize("plus") == "plus" && Normalize("X") == "X" && Normalize(" x") == " x"
    ensures Normalize("") == ""
  {
    assert IsDigits("7") && IsDigits("42");
    assert !IsDigit("plus"[0]) && !IsDigit("X"[0]) && !IsDigit(" x"[0]);
  }

  /** The label of a digit string is the digits behind a `num_` tag. */
  lemma NormalizeDigits(s: string)
    requires IsDigits(s)
    ensures Normalize(s) == "num_" + s
    ensures |Normalize(s)| > 4 && Normalize(s)[4..] == s
  {
  }

  /** A string is its own label exactly when it is neither all digits nor a table key. */
  lemma NormalizeFixedPoint(s: string)
    ensures Normalize(s) == s <==> !IsDigits(s) && s !in Replacements
  {
    if IsDigits(s) {
      assert |Normalize(s)| == |s| + 4;
    } else {
      TableShape();
    }
  }

  /** No canonical label is all digits. */
  lemma NormalizeNeverDigits(s: string)
    ensures !IsDigits(Normalize(s))
  {
    TableShape();
    if IsDigits(s) {
      assert Normalize(s)[0] == 'n';
    }
  }

  /** Normalising a canonical label changes nothing. */
  lemma NormalizeIdempotent(s: string)
    ensures Normalize(Normalize(s)) == Normalize(s)
  {
    var t := Normalize(s);
    NormalizeNeverDigits(s);
    TableShape();
    if IsDigits(s) {
      assert |t| == |s| + 4;
    }
    NormalizeFixedPoint(t);
  }

  /** Number of names in the listing that start with `prefix` (`f.startswith(prefix)`). */
  function CountWithPrefix(names: seq<string>, prefix: string): (n: nat)
    ensures n <= |names|
  {
    if names == [] then 0
    else CountWithPrefix(names[..|names| - 1], prefix) + (if prefix <= names[|names| - 1] then 1 else 0)
  }

  /** The count is 0 exactly when no listed name has the prefix. */
  lemma {:induction false} CountWithPrefixNone(names: seq<string>, prefix: string)
    ensures CountWithPrefix(names, prefix) == 0 <==> forall i :: 0 <= i < |names| ==> !(prefix <= names[i])
  {
    if names != [] {
      var prev := names[..|names| - 1];
      CountWithPrefixNone(prev, prefix);
      assert forall i :: 0 <= i < |prev| ==> prev[i] == names[i];
    }
  }

  /** The count is the whole listing exactly when every listed name has the prefix. */
  lemma {:induction false} CountWithPrefixAll(names: seq<string>, prefix: string)
    ensures CountWithPrefix(names, prefix) == |names| <==> forall i :: 0 <= i < |names| ==> prefix <= names[i]
  {
    if names != [] {
      var prev := names[..|names| - 1];
      CountWithPrefixAll(prev, prefix);
      assert forall i :: 0 <= i < |prev| ==> prev[i] == names[i];
    }
  }

  /** The name of the n-th sample of a label: the label, an underscore, the decimal count and `.png`. */
  function FileName(tag: string, n: nat): string {
    tag + "_" + Show(n) + ".png"
  }

  /**
   * The file a save writes, given the typed text and the folder listing; none
   * when the typed text is empty (the collector then only prints a reminder).
   */
  function SaveName(typed: string, listing: seq<string>): Option<string> {
    if typed == [] then None
    else
      var tag := Normalize(typed);
      Some(FileName(tag, CountWithPrefix(listing, tag)))
  }

  lemma CountAppend(names: seq<string>, x: string, prefix: string)
    ensures CountWithPrefix(names + [x], prefix)
            == CountWithPrefix(names, prefix) + (if prefix <= x then 1 else 0)
  {
    assert (names + [x])[..|names|] == names;
  }

  /**
   * A save writes `label_n.png` with `n` the number of listed names that start
   * with the tag; the name starts with the tag itself, so once it is listed
   * the next save of that tag numbers one higher.
   */
  lemma SaveNameNumbering(typed: string, listing: seq<string>)
    ensures SaveName(typed, listing).None? <==> typed == ""
    ensures typed != "" ==>
      var tag := Normalize(typed);
      var name := SaveName(typed, listing).value;
      && tag <= name
      && name == tag + "_" + Show(CountWithPrefix(listing, tag)) + ".png"
      && CountWithPrefix(listing + [name], tag) == CountWithPrefix(listing, tag) + 1
  {
    if typed != "" {
      var tag := Normalize(typed);
      var name := SaveName(typed, listing).value;
      assert name[..|tag|] == tag;
      CountAppend(listing, name, tag);
    }
  }

  /** With `sep` missing from both tails, a longer tail would contain `sep`. */
  lemma LastSeparator(a: string, s: string, b: string, t: string, sep: char)
    requires a + [sep] + s == b + [sep] + t
    ensures |s| < |t| ==> sep in t
  {
    if |s| < |t| {
      var u := a + [sep] + s;
      assert u[|a|] == sep;
      assert t[|t| - 1 - |s|] == u[|a|];
    }
  }

  /** Different labels or numbers always give different file names. */
  lemma FileNameInjective(l1: string, n1: nat, l2: string, n2: nat)
    requires FileName(l1, n1) == FileName(l2, n2)
    ensures l1 == l2 && n1 == n2
  {
    var s1, s2 := Show(n1) + ".png", Show(n2) + ".png";
    assert FileName(l1, n1) == l1 + ['_'] + s1;
    assert FileName(l2, n2) == l2 + ['_'] + s2;
    assert '_' !in s1 && '_' !in s2 by {
      forall i | 0 <= i < |s1| ensures s1[i] != '_' {
        if i < |Show(n1)| { assert IsDigit(s1[i]); }
      }
      forall i | 0 <= i < |s2| ensures s2[i] != '_' {
        if i < |Show(n2)| { assert IsDigit(s2[i]); }
      }
    }
    LastSeparator(l1, s1, l2, s2, '_');
    LastSeparator(l2, s2, l1, s1, '_');
    var u := FileName(l1, n1);
    assert |s1| == |s2| && |l1| == |l2|;
    assert l1 == u[..|l1|] == l2;
    assert s1 == u[|l1| + 1..] == s2;
    assert Show(n1) == s1[..|s1| - 4] == s2[..|s2| - 4] == Show(n2);
    ShowInjective(n1, n2);
  }

  /**
   * The folder listing after saving each typed text in turn into an empty
   * folder: at most one file per save, and exactly one when no text is empty.
   */
  function Session(typed: seq<string>): (listing: seq<string>)
    ensures |listing| <= |typed|
    ensures (forall i :: 0 <= i < |typed| ==> typed[i] != "") ==> |listing| == |typed|
  {
    if typed == [] then []
    else
      var listing := Session(typed[..|typed| - 1]);
      match SaveName(typed[|typed| - 1], listing)
      case None => listing
      case Some(name) => listing + [name]
  }

  predicate NoDuplicates(s: seq<string>) {
    forall i, j :: 0 <= i < j < |s| ==> s[i] != s[j]
  }

  datatype Entry = Entry(tag: string, n: nat)

  /** Every saved name is `label_n.png` with `n` below the current count for `tag`. */
  lemma {:induction false} SessionEntries(typed: seq<string>) returns (es: seq<Entry>)
    ensures |es| == |Session(typed)|
    ensures forall i :: 0 <= i < |es| ==>
      Session(typed)[i] == FileName(es[i].tag, es[i].n)
      && es[i].n < CountWithPrefix(Session(typed), es[i].tag)
  {
    if typed == [] {
      es := [];
    } else {
      var prev := typed[..|typed| - 1];
      var listing := Session(prev);
      var es0 := SessionEntries(prev);
      var t := typed[|typed| - 1];
      if t == "" {
        es := es0;
      } else {
        var tag := Normalize(t);
        var n := CountWithPrefix(listing, tag);
        var name := FileName(tag, n);
        assert Session(typed) == listing + [name];
        SaveNameNumbering(t, listing);
        es := es0 + [Entry(tag, n)];
        forall i | 0 <= i < |es0|
          ensures CountWithPrefix(listing, es0[i].tag) <= CountWithPrefix(listing + [name], es0[i].tag)
        {
          CountAppend(listing, name, es0[i].tag);
        }
      }
    }
  }

  /** A session never writes one file name twice, so no stored sample is overwritten. */
  lemma {:induction false} SessionNeverOverwrites(typed: seq<string>)
    ensures NoDuplicates(Session(typed))
  {
    if typed != [] {
      var prev := typed[..|typed| - 1];
      var listing := Session(prev);
      SessionNeverOverwrites(prev);
      var t := typed[|typed| - 1];
      if t != "" {
        var tag := Normalize(t);
        var n := CountWithPrefix(listing, tag);
        var name := FileName(tag, n);
        assert Session(typed) == listing + [name];
        var es := SessionEntries(prev);
        forall k | 0 <= k < |listing| ensures listing[k] != name {
          if listing[k] == name {
            FileNameInjective(es[k].tag, es[k].n, tag, n);
          }
        }
      }
    }
  }
}
