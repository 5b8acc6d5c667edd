/**
 `DataProcessor`: reading intents out of an in-memory CLINC150-style corpus. The corpus
 maps split names to items; an item that is a list of at least two cells is an
 (utterance, intent) pair, anything else is ignored. Intent labels are collected over the
 `train`, `val` and `test` splits, sorted, `oos` is skipped, at most half the target
 dataset size are kept, and each keeps a bounded run of its utterances as examples.
 */
module DataProcessor {

  import opened Base
  import opened PyText
  import opened Models

  // ---------------------------------------------------------------------------
  // Domain and action from an intent name
  // ---------------------------------------------------------------------------

  /** `extract_domain_action`: a name with an underscore splits at the first one into
      domain and action, which rejoin to the name; a name without one is filed under
      "general". Either way the domain holds no underscore. */
  function ExtractDomainAction(name: string): (r: (string, string))
    ensures '_' !in r.0
    ensures '_' in name ==> r.0 + "_" + r.1 == name
    ensures '_' in name ==> r.0 == name[..IndexOf(name, '_').value]
    ensures '_' !in name ==> r == ("general", name)
  {
    var parts := Split(name, '_');
    if |parts| >= 2 then
      assert name == parts[0] + ['_'] + Join(parts[1..], '_');
      assert name[..|parts[0]|] == parts[0];
      assert name[|parts[0]|] == '_';
      (parts[0], Join(parts[1..], '_'))
    else
      assert name == parts[0];
      ("general", name)
  }

  // ---------------------------------------------------------------------------
  // The corpus
  // ---------------------------------------------------------------------------

  /** One entry of a split: a JSON list of string cells, or anything else. */
  datatype Item = Row(cells: seq<string>) | NotAList

  type Corpus = map<string, seq<Item>>

  /** The splits read, in reading order. */
  const Splits: seq<string> := ["train", "val", "test"]

  /** `isinstance(item, list) and len(item) >= 2`. */
  predicate Pair(item: Item) {
    item.Row? && |item.cells| >= 2
  }

  /** The labels of the pairs among `items`, in order, with repetitions. */
  function LabelsIn(items: seq<Item>): (ls: seq<string>)
    ensures forall l :: l in ls <==> exists k :: 0 <= k < |items| && Pair(items[k]) && items[k].cells[1] == l
  {
    if |items| == 0 then []
    else
      var n := |items| - 1;
      assert forall k :: 0 <= k < n ==> items[..n][k] == items[k];
      LabelsIn(items[..n]) + (if Pair(items[n]) then [items[n].cells[1]] else [])
  }

  /** The labels over the present splits among `splits`, in reading order. */
  function AllLabels(data: Corpus, splits: seq<string>): (ls: seq<string>)
    ensures forall l :: l in ls <==> exists s :: s in splits && s in data && l in LabelsIn(data[s])
  {
    if |splits| == 0 then []
    else
      var n := |splits| - 1;
      var tail := if splits[n] in data then LabelsIn(data[splits[n]]) else [];
      assert forall s :: s in splits <==> s in splits[..n] || s == splits[n];
      AllLabels(data, splits[..n]) + tail
  }

  // ---------------------------------------------------------------------------
  // `sorted(set(...))`
  // ---------------------------------------------------------------------------

  /** Strictly increasing in Python's string order. */
  predicate Sorted(s: seq<string>) {
    forall a, b :: 0 <= a < b < |s| ==> LexLess(s[a], s[b])
  }

  lemma SortedIsDistinct(s: seq<string>)
    requires Sorted(s)
    ensures Distinct(s)
  {
    forall a, b | 0 <= a < b < |s|
      ensures s[a] != s[b]
    {
      LexLessIrreflexive(s[a]);
    }
  }

  /** Adds `x` to a sorted list, keeping it sorted and free of repeats. */
  function Insert(s: seq<string>, x: string): (r: seq<string>)
    requires Sorted(s)
    ensures Sorted(r)
    ensures forall y :: y in r <==> y in s || y == x
  {
    if |s| == 0 then [x]
    else if x == s[0] then s
    else if LexLess(x, s[0]) then
      forall b | 0 < b < |s|
        ensures LexLess(x, s[b])
      {
        LexLessTransitive(x, s[0], s[b]);
      }
      [x] + s
    else
      LexLessTotal(x, s[0]);
      var rest := Insert(s[1..], x);
      assert forall y :: y in rest ==> LexLess(s[0], y);
      [s[0]] + rest
  }

  /** `sorted(set(xs))`. */
  function SortDistinct(xs: seq<string>): (r: seq<string>)
    ensures Sorted(r)
    ensures forall y :: y in r <==> y in xs
  {
    if |xs| == 0 then []
    else
      var n := |xs| - 1;
      assert forall y :: y in xs <==> y in xs[..n] || y == xs[n];
      Insert(SortDistinct(xs[..n]), xs[n])
  }

  /** The distinct labels of the corpus in sorted order. */
  function SortedLabels(data: Corpus): (r: seq<string>)
    ensures Sorted(r)
    ensures forall l :: l in r <==> l in AllLabels(data, Splits)
  {
    SortDistinct(AllLabels(data, Splits))
  }

  // ---------------------------------------------------------------------------
  // Choosing the intents
  // ---------------------------------------------------------------------------

  /** The labels other than "oos", in order. */
  function NotOos(ls: seq<string>): (r: seq<string>)
    ensures forall l :: l in r <==> l in ls && l != "oos"
    ensures |r| <= |ls|
  {
    if |ls| == 0 then []
    else (if ls[0] == "oos" then [] else [ls[0]]) + NotOos(ls[1..])
  }

  /** The intent loop of `process_intents`: "oos" is skipped, and once `count` reaches
      `cap` every later intent is skipped too. */
  function SelectLabels(ls: seq<string>, count: nat, cap: int): (r: seq<string>)
    decreases |ls|
  {
    if |ls| == 0 then []
    else if ls[0] == "oos" || count >= cap then SelectLabels(ls[1..], count, cap)
    else [ls[0]] + SelectLabels(ls[1..], count + 1, cap)
  }

  function Min(a: int, b: int): int {
    if a <= b then a else b
  }

  function Max(a: int, b: int): int {
    if a >= b then a else b
  }

  /** The loop keeps exactly the first `cap - count` labels other than "oos". */
  lemma {:induction false} SelectIsPrefix(ls: seq<string>, count: nat, cap: int)
    ensures var n := Min(|NotOos(ls)|, Max(0, cap - count));
            SelectLabels(ls, count, cap) == NotOos(ls)[..n]
    decreases |ls|
  {
    if |ls| > 0 {
      if ls[0] == "oos" {
        SelectIsPrefix(ls[1..], count, cap);
        assert NotOos(ls) == NotOos(ls[1..]);
      } else if count >= cap {
        SelectIsPrefix(ls[1..], count, cap);
      } else {
        SelectIsPrefix(ls[1..], count + 1, cap);
        assert NotOos(ls) == [ls[0]] + NotOos(ls[1..]);
      }
    }
  }

  // ---------------------------------------------------------------------------
  // Collecting examples
  // ---------------------------------------------------------------------------

  /** `item[1] == intent_name` for a pair. */
  predicate Labelled(item: Item, intent: string) {
    Pair(item) && item.cells[1] == intent
  }

  /** The utterances labelled `intent` among `items`, in order. */
  function UtterancesIn(items: seq<Item>, intent: string): seq<string> {
    if |items| == 0 then []
    else (if Labelled(items[0], intent) then [items[0].cells[0]] else [])
         + UtterancesIn(items[1..], intent)
  }

  /** A pair labelled `intent` contributes an utterance. */
  lemma {:induction false} LabelledHasUtterance(items: seq<Item>, intent: string, k: nat)
    requires k < |items| && Labelled(items[k], intent)
    ensures |UtterancesIn(items, intent)| > 0
  {
    if k > 0 && !Labelled(items[0], intent) {
      assert items[1..][k - 1] == items[k];
      LabelledHasUtterance(items[1..], intent, k - 1);
    }
  }

  /** The utterances labelled `intent` over the present splits among `splits`. */
  function Utterances(data: Corpus, splits: seq<string>, intent: string): seq<string> {
    if |splits| == 0 then []
    else (if splits[0] in data then UtterancesIn(data[splits[0]], intent) else [])
         + Utterances(data, splits[1..], intent)
  }

  predicate IsPrefix(p: seq<string>, s: seq<string>) {
    |p| <= |s| && s[..|p|] == p
  }

  /** The inner loop: append each matching utterance, stopping as soon as the list
      reaches `max`. */
  function ScanItems(items: seq<Item>, intent: string, acc: seq<string>, max: int)
    : seq<string>
    decreases |items|
  {
    if |items| == 0 then acc
    else if Labelled(items[0], intent) then
      var grown := acc + [items[0].cells[0]];
      if |grown| >= max then grown else ScanItems(items[1..], intent, grown, max)
    else
      ScanItems(items[1..], intent, acc, max)
  }

  /** The inner loop extends `acc` by a prefix of the matching utterances, up to the
      bound or, when `acc` already reaches it, by exactly one utterance if there is one. */
  lemma {:induction false} ScanItemsTakes(items: seq<Item>, intent: string, acc: seq<string>,
                                          max: int)
    ensures var r := ScanItems(items, intent, acc, max);
            && |acc| <= |r| && r[..|acc|] == acc
            && IsPrefix(r[|acc|..], UtterancesIn(items, intent))
            && |r| == Min(|acc| + |UtterancesIn(items, intent)|, Max(max, |acc| + 1))
    decreases |items|
  {
    if |items| > 0 {
      if Labelled(items[0], intent) {
        var x, u := items[0].cells[0], UtterancesIn(items[1..], intent);
        assert UtterancesIn(items, intent) == [x] + u;
        var grown := acc + [x];
        if |grown| >= max {
          ItemStops(acc, x, u, max);
        } else {
          ScanItemsTakes(items[1..], intent, grown, max);
          ItemGoesOn(acc, x, ScanItems(items[1..], intent, grown, max), u, max);
        }
      } else {
        assert UtterancesIn(items, intent) == UtterancesIn(items[1..], intent);
        ScanItemsTakes(items[1..], intent, acc, max);
      }
    }
  }

  /** The outer loop over the splits, which also stops once the list reaches `max`. */
  function ScanSplits(data: Corpus, splits: seq<string>, intent: string, acc: seq<string>,
                      max: int): seq<string>
    decreases |splits|
  {
    if |splits| == 0 then acc
    else if splits[0] in data then
      var mid := ScanItems(data[splits[0]], intent, acc, max);
      if |mid| >= max then mid
      else ScanSplits(data, splits[1..], intent, mid, max)
    else
      ScanSplits(data, splits[1..], intent, acc, max)
  }

  /** The outer loop extends `acc` by a prefix of the utterances of the splits it
      reads; starting short of the bound it fills the list up to the bound or runs out,
      and it never passes the bound by more than the one utterance that reaches it. */
  lemma {:induction false} ScanSplitsTakes(data: Corpus, splits: seq<string>, intent: string,
                                           acc: seq<string>, max: int)
    ensures var r := ScanSplits(data, splits, intent, acc, max);
            && |acc| <= |r| && r[..|acc|] == acc
            && IsPrefix(r[|acc|..], Utterances(data, splits, intent))
            && (|acc| < max ==> |r| == Min(|acc| + |Utterances(data, splits, intent)|, max))
            && |r| <= Max(max, |acc| + 1)
    decreases |splits|
  {
    if |splits| > 0 {
      var u2 := Utterances(data, splits[1..], intent);
      if splits[0] in data {
        var mid := ScanItems(data[splits[0]], intent, acc, max);
        var u1 := UtterancesIn(data[splits[0]], intent);
        ScanItemsTakes(data[splits[0]], intent, acc, max);
        assert Utterances(data, splits, intent) == u1 + u2;
        if |mid| >= max {
          ScanStops(acc, mid, u1, u2, max);
        } else {
          ScanSplitsTakes(data, splits[1..], intent, mid, max);
          ScanGoesOn(acc, mid, ScanSplits(data, splits[1..], intent, mid, max), u1, u2, max);
        }
      } else {
        assert Utterances(data, splits, intent) == u2;
        ScanSplitsTakes(data, splits[1..], intent, acc, max);
      }
    }
  }

  /** The inner loop breaks on the utterance that fills the list. */
  lemma ItemStops(acc: seq<string>, x: string, u: seq<string>, max: int)
    requires |acc| + 1 >= max
    ensures var r := acc + [x];
            && |acc| <= |r| && r[..|acc|] == acc
            && IsPrefix(r[|acc|..], [x] + u)
            && |r| == Min(|acc| + |[x] + u|, Max(max, |acc| + 1))
  {
    var r := acc + [x];
    assert r[..|acc|] == acc && r[|acc|..] == [x];
  }

  /** The inner loop goes on after an utterance that left the list short of the bound. */
  lemma ItemGoesOn(acc: seq<string>, x: string, r: seq<string>, u: seq<string>, max: int)
    requires |acc| + 1 < max
    requires |acc + [x]| <= |r| && r[..|acc + [x]|] == acc + [x]
    requires IsPrefix(r[|acc + [x]|..], u)
    requires |r| == Min(|acc + [x]| + |u|, Max(max, |acc + [x]| + 1))
    ensures |acc| <= |r| && r[..|acc|] == acc
    ensures IsPrefix(r[|acc|..], [x] + u)
    ensures |r| == Min(|acc| + |[x] + u|, Max(max, |acc| + 1))
  {
    PrefixCons(acc, x, r, u);
  }

  /** The outer loop breaks after a split that filled the list. */
  lemma ScanStops(acc: seq<string>, mid: seq<string>, u1: seq<string>, u2: seq<string>, max: int)
    requires |acc| <= |mid| && mid[..|acc|] == acc
    requires IsPrefix(mid[|acc|..], u1)
    requires |mid| == Min(|acc| + |u1|, Max(max, |acc| + 1))
    requires |mid| >= max
    ensures IsPrefix(mid[|acc|..], u1 + u2)
    ensures |acc| < max ==> |mid| == Min(|acc| + |u1 + u2|, max)
    ensures |mid| <= Max(max, |acc| + 1)
  {
    PrefixGrow(mid[|acc|..], u1, u2);
  }

  /** The outer loop goes on after a split that left the list short of the bound. */
  lemma ScanGoesOn(acc: seq<string>, mid: seq<string>, r: seq<string>, u1: seq<string>,
                   u2: seq<string>, max: int)
    requires |acc| <= |mid| && mid[..|acc|] == acc
    requires IsPrefix(mid[|acc|..], u1)
    requires |mid| == Min(|acc| + |u1|, Max(max, |acc| + 1))
    requires |mid| < max
    requires |mid| <= |r| && r[..|mid|] == mid
    requires IsPrefix(r[|mid|..], u2)
    requires |r| == Min(|mid| + |u2|, max)
    ensures |acc| <= |r| && r[..|acc|] == acc
    ensures IsPrefix(r[|acc|..], u1 + u2)
    ensures |r| == Min(|acc| + |u1 + u2|, max)
    ensures |r| <= Max(max, |acc| + 1)
  {
    PrefixChain(acc, mid, r, u1, u2);
  }

  /** One utterance appended ahead of the rest of the scan. */
  lemma PrefixCons<T>(acc: seq<T>, x: T, r: seq<T>, u: seq<T>)
    requires |acc| + 1 <= |r| && r[..|acc| + 1] == acc + [x]
    requires |r| - |acc| - 1 <= |u| && u[..|r| - |acc| - 1] == r[|acc| + 1..]
    ensures r[..|acc|] == acc
    ensures |r| - |acc| <= |[x] + u| && ([x] + u)[..|r| - |acc|] == r[|acc|..]
  {
    assert r[..|acc|] == r[..|acc| + 1][..|acc|];
    assert r[|acc|..] == [x] + r[|acc| + 1..];
  }

  /** A split scanned to its end followed by the rest: the two appended pieces add up. */
  lemma PrefixChain<T>(acc: seq<T>, mid: seq<T>, r: seq<T>, u1: seq<T>, u2: seq<T>)
    requires |acc| <= |mid| <= |r| && mid[..|acc|] == acc && r[..|mid|] == mid
    requires |mid| == |acc| + |u1| && u1 == mid[|acc|..][..|u1|]
    requires |r| - |mid| <= |u2| && u2[..|r| - |mid|] == r[|mid|..]
    ensures r[..|acc|] == acc
    ensures |r| - |acc| <= |u1 + u2| && (u1 + u2)[..|r| - |acc|] == r[|acc|..]
  {
    assert r[..|acc|] == r[..|mid|][..|acc|];
    assert r[|acc|..] == mid[|acc|..] + r[|mid|..];
  }

  lemma PrefixGrow(p: seq<string>, s: seq<string>, t: seq<string>)
    requires IsPrefix(p, s)
    ensures IsPrefix(p, s + t)
  {
    assert (s + t)[..|p|] == s[..|p|];
  }

  /** The examples of one intent: a prefix of its utterances in train, val, test
      order, never longer than `max(1, max_samples_per_intent)`, and as long as the
      bound allows once that bound is at least one. */
  function Examples(data: Corpus, intent: string, max: int): (r: seq<string>)
    ensures IsPrefix(r, Utterances(data, Splits, intent))
    ensures |r| <= Max(1, max)
    ensures max >= 1 ==> |r| == Min(|Utterances(data, Splits, intent)|, max)
  {
    var r := ScanSplits(data, Splits, intent, [], max);
    ScanSplitsTakes(data, Splits, intent, [], max);
    assert r[0..] == r;
    r
  }

  // ---------------------------------------------------------------------------
  // `process_intents`
  // ---------------------------------------------------------------------------

  /** `process_intents` on an in-memory corpus: one intent per chosen label, with empty
      domain and action and its collected examples. */
  function ProcessIntents(data: Corpus, target: int, maxSamples: int): (r: seq<Intent>)
    ensures var chosen := NotOos(SortedLabels(data));
            && |r| == Min(|chosen|, Max(0, target / 2))
            && (forall k :: 0 <= k < |r| ==> r[k].intentName == chosen[k])
    ensures forall k :: 0 <= k < |r| ==>
              r[k].domain == "" && r[k].action == ""
              && r[k].examples == Examples(data, r[k].intentName, maxSamples)
  {
    var ls := SelectLabels(SortedLabels(data), 0, target / 2);
    SelectIsPrefix(SortedLabels(data), 0, target / 2);
    seq(|ls|, k requires 0 <= k < |ls| => Intent("", "", ls[k], Examples(data, ls[k], maxSamples)))
  }

  /** The chosen intents are never "oos", strictly increasing, at most half the
      target, and each intent really occurs in a pair of some split. */
  lemma IntentsChosen(data: Corpus, target: int, maxSamples: int)
    ensures var r := ProcessIntents(data, target, maxSamples);
            && |r| <= Max(0, target / 2)
            && (forall k :: 0 <= k < |r| ==> r[k].intentName != "oos")
            && (forall a, b :: 0 <= a < b < |r| ==> LexLess(r[a].intentName, r[b].intentName))
            && (forall k :: 0 <= k < |r| ==> r[k].intentName in AllLabels(data, Splits))
  {
    var r := ProcessIntents(data, target, maxSamples);
    var sorted := SortedLabels(data);
    var chosen := NotOos(sorted);
    NotOosSorted(sorted);
    forall k | 0 <= k < |r|
      ensures r[k].intentName != "oos" && r[k].intentName in AllLabels(data, Splits)
    {
      assert chosen[k] in chosen;
    }
  }

  lemma {:induction false} NotOosSorted(ls: seq<string>)
    requires Sorted(ls)
    ensures Sorted(NotOos(ls))
  {
    if |ls| > 0 {
      NotOosSorted(ls[1..]);
      var rest := NotOos(ls[1..]);
      assert forall y :: y in rest ==> y in ls[1..];
      assert forall y :: y in ls[1..] ==> LexLess(ls[0], y);
    }
  }

  /** A intent that was collected has an utterance in some split. */
  lemma {:induction false} LabelHasUtterance(data: Corpus, splits: seq<string>, intent: string)
    requires intent in AllLabels(data, splits)
    ensures |Utterances(data, splits, intent)| > 0
    decreases |splits|
  {
    var s :| s in splits && s in data && intent in LabelsIn(data[s]);
    var k :| 0 <= k < |data[s]| && Pair(data[s][k]) && data[s][k].cells[1] == intent;
    assert Labelled(data[s][k], intent);
    if splits[0] == s {
      LabelledHasUtterance(data[s], intent, k);
    } else {
      assert intent in AllLabels(data, splits[1..]) by {
        assert s in splits[1..];
      }
      LabelHasUtterance(data, splits[1..], intent);
    }
  }

  /** With a positive sample bound every produced intent has at least one example. */
  lemma EveryIntentHasExamples(data: Corpus, target: int, maxSamples: int)
    requires maxSamples >= 1
    ensures forall i :: i in ProcessIntents(data, target, maxSamples) ==> |i.examples| >= 1
  {
    var r := ProcessIntents(data, target, maxSamples);
    IntentsChosen(data, target, maxSamples);
    forall k | 0 <= k < |r|
      ensures |r[k].examples| >= 1
    {
      LabelHasUtterance(data, Splits, r[k].intentName);
    }
  }

  /** Two intents, one in the train split and one in the validation split. */
  function TwoSplitCorpus(): Corpus {
    map["train" := [Row(["hi", "a"])], "val" := [Row(["yo", "b"])]]
  }

  lemma TwoSplitLabels()
    ensures SortedLabels(TwoSplitCorpus()) == ["a", "b"]
  {
    TwoSplitReadingOrder();
    assert ["a", "b"][..1] == ["a"] && ["a"][..0] == [];
    assert LexLess("a", "b");
  }

  lemma TwoSplitReadingOrder()
    ensures AllLabels(TwoSplitCorpus(), Splits) == ["a", "b"]
  {
    var data := TwoSplitCorpus();
    assert LabelsIn([Row(["hi", "a"])]) == ["a"] by {
      assert [Row(["hi", "a"])][..0] == [];
    }
    assert LabelsIn([Row(["yo", "b"])]) == ["b"] by {
      assert [Row(["yo", "b"])][..0] == [];
    }
    assert Splits[..2] == ["train", "val"] && ["train", "val"][..1] == ["train"];
    assert ["train"][..0] == [];
    assert AllLabels(data, ["train"]) == ["a"];
    assert AllLabels(data, ["train", "val"]) == ["a", "b"];
  }

  lemma TwoSplitChosen()
    ensures NotOos(SortedLabels(TwoSplitCorpus())) == ["a", "b"]
  {
    TwoSplitLabels();
    assert NotOos(["b"]) == ["b"] by {
      assert ["b"][1..] == [];
    }
    assert NotOos(["a", "b"]) == ["a"] + NotOos(["b"]) by {
      assert ["a", "b"][1..] == ["b"];
    }
  }

  lemma TwoSplitExamples()
    ensures Examples(TwoSplitCorpus(), "a", 0) == ["hi"]
    ensures Examples(TwoSplitCorpus(), "b", 0) == []
  {
    var data := TwoSplitCorpus();
    var train := [Row(["hi", "a"])];
    assert data["train"] == train;
    assert ScanItems(train, "a", [], 0) == ["hi"];
    assert ScanItems(train[1..], "b", [], 0) == [];
    assert ScanItems(train, "b", [], 0) == [];
  }

  /** With a sample bound of zero or less the outer loop stops after the first split
      present, so an intent whose label first appears in a later split gets no
      examples at all, while one appearing in the first split gets one. */
  lemma NonPositiveBoundDropsExamples()
    ensures ProcessIntents(TwoSplitCorpus(), 4, 0)
            == [Intent("", "", "a", ["hi"]), Intent("", "", "b", [])]
  {
    TwoSplitChosen();
    TwoSplitExamples();
    TwoIntents(TwoSplitCorpus(), 4, 0, "a", "b", ["hi"], []);
  }

  /** A corpus with two labels other than "oos" and room for both keeps both. */
  lemma TwoIntents(data: Corpus, target: int, maxSamples: int, a: string, b: string,
                   ea: seq<string>, eb: seq<string>)
    requires NotOos(SortedLabels(data)) == [a, b] && target / 2 >= 2
    requires Examples(data, a, maxSamples) == ea && Examples(data, b, maxSamples) == eb
    ensures ProcessIntents(data, target, maxSamples)
            == [Intent("", "", a, ea), Intent("", "", b, eb)]
  {
    var r := ProcessIntents(data, target, maxSamples);
    assert |r| == 2;
    assert r[0] == Intent("", "", a, ea);
    assert r[1] == Intent("", "", b, eb);
  }
}
