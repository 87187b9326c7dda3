/**
 * The owner's dashboard, pure part: the "top 5 categories" ranking, the
 * sentiment chart, and the list updates after a delete and after an edit.
 */
module DashboardData {
  import opened Common

  /**
   * One feedback as the dashboard receives it. `categories` is None when the
   * record has no array there; `sentiment` is None while no analysis exists.
   */
  datatype Feedback = Feedback(
    id: string,
    customerName: string,
    email: string,
    content: string,
    categories: Option<seq<string>>,
    sentiment: Option<string>,
    actionRequired: bool,
    suggestedResponse: Option<string>)

  // ---------------------------------------------------------------------------
  // Category counting

  /** The categories a feedback contributes to the count: none unless it carries an array. */
  function CategoriesOf(f: Feedback): seq<string>
  {
    match f.categories
    case Some(cs) => cs
    case None => []
  }

  /** How many times `c` occurs in `cats`. */
  function CountIn(cats: seq<string>, c: string): nat
  {
    if cats == [] then 0
    else CountIn(cats[..|cats| - 1], c) + (if cats[|cats| - 1] == c then 1 else 0)
  }

  /** How many times `c` occurs across the category lists of all feedbacks. */
  function Occurrences(fs: seq<Feedback>, c: string): nat
  {
    if fs == [] then 0
    else Occurrences(fs[..|fs| - 1], c) + CountIn(CategoriesOf(fs[|fs| - 1]), c)
  }

  /** `categoryCount[c] || 0`. */
  function Lookup(m: map<string, nat>, c: string): nat
  {
    if c in m then m[c] else 0
  }

  /**
   * The counting loops: every category of every feedback that carries an
   * array bumps its entry. `keys` lists the entries in first-insertion order,
   * the order in which the dictionary enumerates them.
   */
  method CountCategories(feedbacks: seq<Feedback>) returns (counts: map<string, nat>, keys: seq<string>)
    ensures forall c :: Lookup(counts, c) == Occurrences(feedbacks, c)
    ensures forall c :: c in counts ==> counts[c] >= 1
    ensures NoDup(keys) && forall c :: c in keys <==> c in counts
  {
    counts, keys := map[], [];
    var i := 0;
    while i < |feedbacks|
      invariant 0 <= i <= |feedbacks|
      invariant forall c :: Lookup(counts, c) == Occurrences(feedbacks[..i], c)
      invariant forall c :: c in counts ==> counts[c] >= 1
      invariant NoDup(keys) && forall c :: c in keys <==> c in counts
    {
      var f := feedbacks[i];
      assert feedbacks[..i + 1][..i] == feedbacks[..i] && feedbacks[..i + 1][i] == f;
      if f.categories.Some? {
        counts, keys := CountInto(counts, keys, f.categories.value);
      }
      i := i + 1;
    }
    assert feedbacks[..|feedbacks|] == feedbacks;
  }

  /** The inner loop: every category of one feedback bumps its entry. */
  method CountInto(counts0: map<string, nat>, keys0: seq<string>, cats: seq<string>)
    returns (counts: map<string, nat>, keys: seq<string>)
    requires forall c :: c in counts0 ==> counts0[c] >= 1
    requires NoDup(keys0) && forall c :: c in keys0 <==> c in counts0
    ensures forall c :: Lookup(counts, c) == Lookup(counts0, c) + CountIn(cats, c)
    ensures forall c :: c in counts ==> counts[c] >= 1
    ensures NoDup(keys) && forall c :: c in keys <==> c in counts
    ensures keys0 <= keys && forall i :: |keys0| <= i < |keys| ==> keys[i] !in counts0
  {
    counts, keys := counts0, keys0;
    var j := 0;
    while j < |cats|
      invariant 0 <= j <= |cats|
      invariant forall c :: Lookup(counts, c) == Lookup(counts0, c) + CountIn(cats[..j], c)
      invariant forall c :: c in counts ==> counts[c] >= 1
      invariant NoDup(keys) && forall c :: c in keys <==> c in counts
      invariant keys0 <= keys && forall i :: |keys0| <= i < |keys| ==> keys[i] !in counts0
    {
      var cat := cats[j];
      assert cats[..j + 1][..j] == cats[..j] && cats[..j + 1][j] == cat;
      if cat !in counts {
        keys := keys + [cat];
      }
      counts := counts[cat := Lookup(counts, cat) + 1];
      j := j + 1;
    }
    assert cats[..|cats|] == cats;
  }

  // ---------------------------------------------------------------------------
  // Ranking

  /** One ranking row: a category and how often it was mentioned. */
  datatype Entry = Entry(category: string, count: nat)

  predicate SortedDesc(s: seq<Entry>)
  {
    forall i, j :: 0 <= i < j < |s| ==> s[i].count >= s[j].count
  }

  predicate DistinctCategories(s: seq<Entry>)
  {
    forall i, j :: 0 <= i < j < |s| ==> s[i].category != s[j].category
  }

  /** Insert `e` before the first entry with a strictly smaller count. */
  function InsertDesc(e: Entry, s: seq<Entry>): (r: seq<Entry>)
    ensures multiset(r) == multiset(s) + multiset{e}
    ensures |r| == |s| + 1
    ensures r[0] == e || (s != [] && r[0] == s[0])
  {
    if s == [] || e.count >= s[0].count then [e] + s
    else
      assert s == [s[0]] + s[1..];
      [s[0]] + InsertDesc(e, s[1..])
  }

  lemma SortedCons(h: Entry, t: seq<Entry>)
    requires SortedDesc(t) && (t == [] || h.count >= t[0].count)
    ensures SortedDesc([h] + t)
  {
    var r := [h] + t;
    forall i, j | 0 <= i < j < |r| ensures r[i].count >= r[j].count {
      assert r[j] == t[j - 1];
      if i > 0 {
        assert r[i] == t[i - 1];
      } else {
        assert t[0].count >= t[j - 1].count;
      }
    }
  }

  lemma {:induction false} InsertDescSorted(e: Entry, s: seq<Entry>)
    requires SortedDesc(s)
    ensures SortedDesc(InsertDesc(e, s))
  {
    if s == [] || e.count >= s[0].count {
      SortedCons(e, s);
    } else {
      var t := s[1..];
      assert SortedDesc(t) by {
        forall i, j | 0 <= i < j < |t| ensures t[i].count >= t[j].count {
          assert t[i] == s[i + 1] && t[j] == s[j + 1];
        }
      }
      InsertDescSorted(e, t);
      var rest := InsertDesc(e, t);
      assert rest[0] == e || rest[0] == t[0];
      SortedCons(s[0], rest);
    }
  }

  lemma {:induction false} InsertDescDistinct(e: Entry, s: seq<Entry>)
    requires DistinctCategories(s)
    requires forall i :: 0 <= i < |s| ==> s[i].category != e.category
    ensures DistinctCategories(InsertDesc(e, s))
  {
    if !(s == [] || e.count >= s[0].count) {
      InsertDescDistinct(e, s[1..]);
      var rest := InsertDesc(e, s[1..]);
      var r := InsertDesc(e, s);
      assert r == [s[0]] + rest;
      forall j | 0 <= j < |rest| ensures rest[j].category != s[0].category {
        assert rest[j] in multiset(rest);
        if rest[j] != e {
          assert rest[j] in s[1..];
        }
      }
      forall i, j | 0 <= i < j < |r| ensures r[i].category != r[j].category {
        if i > 0 {
          assert r[i] == rest[i - 1] && r[j] == rest[j - 1];
        } else {
          assert r[j] == rest[j - 1];
        }
      }
    }
  }

  /** A stable sort by count, largest first (`sort(([, a], [, b]) => b - a)`). */
  function SortDesc(s: seq<Entry>): (r: seq<Entry>)
    ensures SortedDesc(r)
    ensures multiset(r) == multiset(s)
    ensures |r| == |s|
  {
    if s == [] then []
    else
      assert s == [s[0]] + s[1..];
      var t := SortDesc(s[1..]);
      InsertDescSorted(s[0], t);
      InsertDesc(s[0], t)
  }

  lemma {:induction false} SortDescDistinct(s: seq<Entry>)
    requires DistinctCategories(s)
    ensures DistinctCategories(SortDesc(s))
  {
    if s != [] {
      SortDescDistinct(s[1..]);
      var t := SortDesc(s[1..]);
      forall i | 0 <= i < |t| ensures t[i].category != s[0].category {
        assert t[i] in multiset(s[1..]);
        var k :| 0 <= k < |s[1..]| && s[1..][k] == t[i];
        assert s[k + 1] == t[i];
      }
      InsertDescDistinct(s[0], t);
    }
  }

  /** The categories of a ranking, in order. */
  function CategoryList(s: seq<Entry>): (r: seq<string>)
    ensures |r| == |s| && forall i :: 0 <= i < |s| ==> r[i] == s[i].category
  {
    seq(|s|, i requires 0 <= i < |s| => s[i].category)
  }

  const RankingSize: nat := 5

  /** `Object.entries(categoryCount)`: one entry per key, in key order. */
  function EntriesOf(keys: seq<string>, counts: map<string, nat>): (r: seq<Entry>)
    requires NoDup(keys) && forall c :: c in keys ==> c in counts
    ensures |r| == |keys| && DistinctCategories(r)
    ensures forall k :: 0 <= k < |keys| ==> r[k] == Entry(keys[k], counts[keys[k]])
  {
    seq(|keys|, k requires 0 <= k < |keys| => Entry(keys[k], counts[keys[k]]))
  }

  /** `slice(0, 5)`. */
  function TakeTop(s: seq<Entry>): (r: seq<Entry>)
    ensures |r| <= RankingSize && |r| <= |s| && r == s[..|r|]
    ensures |s| <= RankingSize ==> r == s
    ensures |s| > RankingSize ==> |r| == RankingSize
  {
    if |s| <= RankingSize then s else s[..RankingSize]
  }

  /** An entry of a sorted list that did not make the cut counts no more than the last kept one. */
  lemma LeftOutBound(sorted: seq<Entry>, m: nat)
    requires SortedDesc(sorted) && m < |sorted|
    requires sorted[m].category !in CategoryList(TakeTop(sorted))
    ensures |TakeTop(sorted)| == RankingSize
    ensures sorted[m].count <= TakeTop(sorted)[RankingSize - 1].count
  {
  }

  /** What the counting loops establish about `counts` and `keys`. */
  ghost predicate Tallies(feedbacks: seq<Feedback>, counts: map<string, nat>, keys: seq<string>)
  {
    && (forall c :: Lookup(counts, c) == Occurrences(feedbacks, c))
    && (forall c :: c in counts ==> counts[c] >= 1)
    && NoDup(keys) && (forall c :: c in keys <==> c in counts)
  }

  /** Every sorted entry carries its category's true count. */
  lemma SortedEntryCorrect(feedbacks: seq<Feedback>, counts: map<string, nat>, keys: seq<string>, x: Entry)
    requires Tallies(feedbacks, counts, keys)
    requires x in multiset(SortDesc(EntriesOf(keys, counts)))
    ensures x.count == Occurrences(feedbacks, x.category) && x.count >= 1
  {
    var entries := EntriesOf(keys, counts);
    assert x in multiset(entries);
    var k :| 0 <= k < |entries| && entries[k] == x;
    assert Lookup(counts, keys[k]) == Occurrences(feedbacks, keys[k]);
  }

  /** Every mentioned category has an entry somewhere in the sorted list. */
  lemma MentionedCategorySorted(feedbacks: seq<Feedback>, counts: map<string, nat>, keys: seq<string>, c: string)
    returns (m: nat)
    requires Tallies(feedbacks, counts, keys)
    requires Occurrences(feedbacks, c) >= 1
    ensures m < |SortDesc(EntriesOf(keys, counts))|
    ensures SortDesc(EntriesOf(keys, counts))[m] == Entry(c, Occurrences(feedbacks, c))
  {
    var entries := EntriesOf(keys, counts);
    var sorted := SortDesc(entries);
    assert Lookup(counts, c) >= 1;
    var k :| 0 <= k < |keys| && keys[k] == c;
    assert entries[k] in multiset(sorted);
    m :| 0 <= m < |sorted| && sorted[m] == entries[k];
  }

  /**
   * The ranking: count, list the entries, sort by count descending and keep
   * the first five. Among equal counts the order is not specified.
   */
  method Ranking(feedbacks: seq<Feedback>) returns (top: seq<Entry>)
    ensures |top| <= RankingSize
    ensures SortedDesc(top)
    ensures DistinctCategories(top)
    ensures forall i :: 0 <= i < |top| ==>
      top[i].count == Occurrences(feedbacks, top[i].category) && top[i].count >= 1
    ensures forall c :: Occurrences(feedbacks, c) >= 1 && c !in CategoryList(top) ==>
      |top| == RankingSize && Occurrences(feedbacks, c) <= top[RankingSize - 1].count
  {
    var counts, keys := CountCategories(feedbacks);
    assert Tallies(feedbacks, counts, keys);
    top := TakeTop(SortDesc(EntriesOf(keys, counts)));
    RankingOfTallies(feedbacks, counts, keys);
  }

  /** The top five of correct tallies has every property the ranking promises. */
  lemma RankingOfTallies(feedbacks: seq<Feedback>, counts: map<string, nat>, keys: seq<string>)
    requires Tallies(feedbacks, counts, keys)
    ensures var top := TakeTop(SortDesc(EntriesOf(keys, counts)));
      && |top| <= RankingSize
      && SortedDesc(top)
      && DistinctCategories(top)
      && (forall i :: 0 <= i < |top| ==>
            top[i].count == Occurrences(feedbacks, top[i].category) && top[i].count >= 1)
      && (forall c :: Occurrences(feedbacks, c) >= 1 && c !in CategoryList(top) ==>
            |top| == RankingSize && Occurrences(feedbacks, c) <= top[RankingSize - 1].count)
  {
    var entries := EntriesOf(keys, counts);
    SortDescDistinct(entries);
    TopCountsCorrect(feedbacks, counts, keys);
    TopCoversMentioned(feedbacks, counts, keys);
  }

  /** Every entry of the top five carries its category's true count. */
  lemma TopCountsCorrect(feedbacks: seq<Feedback>, counts: map<string, nat>, keys: seq<string>)
    requires Tallies(feedbacks, counts, keys)
    ensures var top := TakeTop(SortDesc(EntriesOf(keys, counts)));
      forall i :: 0 <= i < |top| ==>
        top[i].count == Occurrences(feedbacks, top[i].category) && top[i].count >= 1
  {
    var sorted := SortDesc(EntriesOf(keys, counts));
    var top := TakeTop(sorted);
    forall i | 0 <= i < |top|
      ensures top[i].count == Occurrences(feedbacks, top[i].category) && top[i].count >= 1
    {
      assert top[i] == sorted[i];
      assert sorted[i] in multiset(sorted);
      SortedEntryCorrect(feedbacks, counts, keys, sorted[i]);
    }
  }

  /** A mentioned category missing from the top five means the top five is full of larger counts. */
  lemma TopCoversMentioned(feedbacks: seq<Feedback>, counts: map<string, nat>, keys: seq<string>)
    requires Tallies(feedbacks, counts, keys)
    ensures var top := TakeTop(SortDesc(EntriesOf(keys, counts)));
      forall c :: Occurrences(feedbacks, c) >= 1 && c !in CategoryList(top) ==>
        |top| == RankingSize && Occurrences(feedbacks, c) <= top[RankingSize - 1].count
  {
    var sorted := SortDesc(EntriesOf(keys, counts));
    var top := TakeTop(sorted);
    forall c | Occurrences(feedbacks, c) >= 1 && c !in CategoryList(top)
      ensures |top| == RankingSize && Occurrences(feedbacks, c) <= top[RankingSize - 1].count
    {
      var m := MentionedCategorySorted(feedbacks, counts, keys, c);
      LeftOutBound(sorted, m);
    }
  }

  // ---------------------------------------------------------------------------
  // Sentiment chart

  /** One pie slice. */
  datatype Slice = Slice(name: string, value: nat, color: string)

  /** How many feedbacks carry exactly the sentiment `sentimentLabel`. */
  function CountSentiment(fs: seq<Feedback>, sentimentLabel: string): nat
  {
    if fs == [] then 0
    else CountSentiment(fs[1..], sentimentLabel) + (if fs[0].sentiment == Some(sentimentLabel) then 1 else 0)
  }

  /** The sentiment is one of the three labels the analysis produces. */
  predicate Analysed(f: Feedback)
  {
    f.sentiment == Some("POSITIVE") || f.sentiment == Some("NEGATIVE") || f.sentiment == Some("NEUTRAL")
  }

  /** How many feedbacks have no sentiment or one outside the three labels. */
  function CountUnanalysed(fs: seq<Feedback>): nat
  {
    if fs == [] then 0
    else CountUnanalysed(fs[1..]) + (if Analysed(fs[0]) then 0 else 1)
  }

  /** The four slices before empty ones are dropped. */
  function Buckets(fs: seq<Feedback>): (b: seq<Slice>)
    ensures |b| == 4
    ensures b[0].name == "Positivo" && b[0].value == CountSentiment(fs, "POSITIVE")
    ensures b[1].name == "Negativo" && b[1].value == CountSentiment(fs, "NEGATIVE")
    ensures b[2].name == "Neutro" && b[2].value == CountSentiment(fs, "NEUTRAL")
    ensures b[3].name == "Sem Análise" && b[3].value == CountUnanalysed(fs)
  {
    [ Slice("Positivo", CountSentiment(fs, "POSITIVE"), "#10b981"),
      Slice("Negativo", CountSentiment(fs, "NEGATIVE"), "#ef4444"),
      Slice("Neutro", CountSentiment(fs, "NEUTRAL"), "#64748b"),
      Slice("Sem Análise", CountUnanalysed(fs), "#334155") ]
  }

  /** `filter(d => d.value > 0)`. */
  function KeepNonEmpty(s: seq<Slice>): (r: seq<Slice>)
    ensures forall x :: x in r <==> x in s && x.value > 0
    ensures |r| <= |s|
  {
    if s == [] then []
    else if s[0].value > 0 then [s[0]] + KeepNonEmpty(s[1..])
    else KeepNonEmpty(s[1..])
  }

  /** The filter keeps the order: it distributes over concatenation. */
  lemma {:induction false} KeepNonEmptyAppend(a: seq<Slice>, b: seq<Slice>)
    ensures KeepNonEmpty(a + b) == KeepNonEmpty(a) + KeepNonEmpty(b)
  {
    if a == [] {
      assert a + b == b;
    } else {
      assert (a + b)[0] == a[0] && (a + b)[1..] == a[1..] + b;
      KeepNonEmptyAppend(a[1..], b);
    }
  }

  function SumValues(s: seq<Slice>): nat
  {
    if s == [] then 0 else s[0].value + SumValues(s[1..])
  }

  /** The chart's data. */
  function ChartData(fs: seq<Feedback>): (r: seq<Slice>)
    ensures forall x :: x in r <==> x in Buckets(fs) && x.value > 0
    ensures |r| <= 4
  {
    KeepNonEmpty(Buckets(fs))
  }

  /** The four buckets partition the feedbacks: every feedback is in exactly one. */
  lemma {:induction false} BucketsPartition(fs: seq<Feedback>)
    ensures CountSentiment(fs, "POSITIVE") + CountSentiment(fs, "NEGATIVE")
          + CountSentiment(fs, "NEUTRAL") + CountUnanalysed(fs) == |fs|
  {
    if fs != [] {
      BucketsPartition(fs[1..]);
    }
  }

  lemma {:induction false} KeepNonEmptySum(s: seq<Slice>)
    ensures SumValues(KeepNonEmpty(s)) == SumValues(s)
  {
    if s != [] {
      KeepNonEmptySum(s[1..]);
    }
  }

  /**
   * The chart: its slices add up to the number of feedbacks, every slice
   * shown is non-empty, and a bucket is shown exactly when it is non-empty.
   */
  lemma ChartDataProperties(fs: seq<Feedback>)
    ensures SumValues(ChartData(fs)) == |fs|
    ensures forall x :: x in ChartData(fs) ==> x.value > 0
    ensures forall x :: x in Buckets(fs) ==> (x in ChartData(fs) <==> x.value > 0)
    ensures fs == [] <==> ChartData(fs) == []
  {
    BucketsPartition(fs);
    KeepNonEmptySum(Buckets(fs));
    var b := Buckets(fs);
    assert b[3..][1..] == [] && b[2..][1..] == b[3..] && b[1..][1..] == b[2..];
    assert SumValues(b[3..]) == b[3].value;
    assert SumValues(b[2..]) == b[2].value + b[3].value;
    assert SumValues(b[1..]) == b[1].value + b[2].value + b[3].value;
    if fs != [] {
      assert SumValues(ChartData(fs)) > 0;
    }
  }

  /** A feedback without one of the three labels, null included, is counted under "Sem Análise". */
  lemma UnlabelledGoesToSemAnalise(f: Feedback)
    requires !Analysed(f)
    ensures ChartData([f]) == [Slice("Sem Análise", 1, "#334155")]
  {
    assert [f][1..] == [];
    assert CountSentiment([f], "POSITIVE") == CountSentiment([], "POSITIVE") == 0;
    assert CountSentiment([f], "NEGATIVE") == CountSentiment([], "NEGATIVE") == 0;
    assert CountSentiment([f], "NEUTRAL") == CountSentiment([], "NEUTRAL") == 0;
    assert CountUnanalysed([f]) == CountUnanalysed([]) + 1 == 1;
    var b := Buckets([f]);
    assert b[3..][1..] == [] && b[2..][1..] == b[3..] && b[1..][1..] == b[2..];
    assert KeepNonEmpty(b[3..]) == [b[3]] + KeepNonEmpty([]) == [b[3]];
    assert KeepNonEmpty(b[2..]) == KeepNonEmpty(b[3..]);
    assert KeepNonEmpty(b[1..]) == KeepNonEmpty(b[2..]);
    assert KeepNonEmpty(b) == KeepNonEmpty(b[1..]);
  }

  // ---------------------------------------------------------------------------
  // List updates

  /** The list after a confirmed delete: `filter(item => item.id !== id)`. */
  function RemoveById(fs: seq<Feedback>, id: string): (r: seq<Feedback>)
    ensures forall f :: f in r <==> f in fs && f.id != id
    ensures |r| <= |fs|
  {
    if fs == [] then []
    else if fs[0].id == id then RemoveById(fs[1..], id)
    else [fs[0]] + RemoveById(fs[1..], id)
  }

  /** Deleting is done item by item: it commutes with concatenation, so order is kept. */
  lemma {:induction false} RemoveByIdAppend(a: seq<Feedback>, b: seq<Feedback>, id: string)
    ensures RemoveById(a + b, id) == RemoveById(a, id) + RemoveById(b, id)
  {
    if a == [] {
      assert a + b == b;
    } else {
      assert (a + b)[0] == a[0] && (a + b)[1..] == a[1..] + b;
      RemoveByIdAppend(a[1..], b, id);
    }
  }

  /** With no item of that id, nothing is removed. */
  lemma {:induction false} RemoveByIdAbsent(fs: seq<Feedback>, id: string)
    requires forall i :: 0 <= i < |fs| ==> fs[i].id != id
    ensures RemoveById(fs, id) == fs
  {
    if fs != [] {
      RemoveByIdAbsent(fs[1..], id);
    }
  }

  /** The list after saving an edit: `map(item => item.id === id ? { ...item, suggestedResponse } : item)`. */
  function ApplyEdit(fs: seq<Feedback>, id: string, text: string): (r: seq<Feedback>)
    ensures |r| == |fs|
    ensures forall i :: 0 <= i < |fs| && fs[i].id == id ==> r[i].suggestedResponse == Some(text)
    ensures forall i :: 0 <= i < |fs| ==> r[i].(suggestedResponse := fs[i].suggestedResponse) == fs[i]
    ensures forall i :: 0 <= i < |fs| && fs[i].id != id ==> r[i] == fs[i]
  {
    if fs == [] then []
    else
      var head := if fs[0].id == id then fs[0].(suggestedResponse := Some(text)) else fs[0];
      var rest := ApplyEdit(fs[1..], id, text);
      assert forall i :: 1 <= i < |fs| ==> ([head] + rest)[i] == rest[i - 1];
      [head] + rest
  }

  /** An edit changes neither categories nor sentiments, so the ranking counts and the chart stay. */
  lemma {:induction false} ApplyEditKeepsAggregates(fs: seq<Feedback>, id: string, text: string)
    ensures ChartData(ApplyEdit(fs, id, text)) == ChartData(fs)
    ensures forall c :: Occurrences(ApplyEdit(fs, id, text), c) == Occurrences(fs, c)
  {
    var r := ApplyEdit(fs, id, text);
    SentimentCountsAgree(r, fs);
    forall c ensures Occurrences(r, c) == Occurrences(fs, c) {
      OccurrencesAgree(r, fs, c);
    }
  }

  lemma {:induction false} SentimentCountsAgree(a: seq<Feedback>, b: seq<Feedback>)
    requires |a| == |b| && forall i :: 0 <= i < |a| ==> a[i].sentiment == b[i].sentiment
    ensures Buckets(a) == Buckets(b)
  {
    if a != [] {
      SentimentCountsAgree(a[1..], b[1..]);
    }
  }

  lemma {:induction false} OccurrencesAgree(a: seq<Feedback>, b: seq<Feedback>, c: string)
    requires |a| == |b| && forall i :: 0 <= i < |a| ==> a[i].categories == b[i].categories
    ensures Occurrences(a, c) == Occurrences(b, c)
  {
    if a != [] {
      OccurrencesAgree(a[..|a| - 1], b[..|b| - 1], c);
    }
  }
}
