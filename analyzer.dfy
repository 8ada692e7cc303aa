/**
  The co-occurrence heuristic of the collection analyzer.

  Terms whose document frequency lies in `[freqMin, freqMax]` are grouped by
  frequency, each group keeping the order in which the terms come out of the
  frequency table. Frequencies are then visited in ascending order, and within
  a group every pair `i < j` in lexicographic order; the first pair whose
  posting lists share more than half of the frequency is returned with the
  size of that overlap. The threshold `overlap > 0.5 * freq` is the integer
  test `2 * overlap > freq`.
 */
module Analyzer {
  import opened Options
  import opened Postings

  /** The answer: two terms, their common frequency and the size of their overlap. */
  datatype Pair = Pair(first: string, second: string, freq: int, overlap: int)

  /** The positions of `items` whose frequency is `f`. */
  ghost function EntriesWith(items: seq<(string, int)>, f: int): set<int> {
    set k | 0 <= k < |items| && items[k].1 == f
  }

  /** The terms of `items` with frequency `f`, in the order of `items`: every such
      entry contributes its term, and nothing else is in the bucket. */
  function Bucket(items: seq<(string, int)>, f: int): (r: seq<string>)
    ensures |r| <= |items|
    ensures forall t :: t in r ==> (t, f) in items
  {
    if items == [] then []
    else
      var last := items[|items| - 1];
      Bucket(items[..|items| - 1], f) + (if last.1 == f then [last.0] else [])
  }

  /** Every entry of frequency `f` contributes its term to the bucket. */
  lemma {:induction false} BucketComplete(items: seq<(string, int)>, f: int, k: int)
    requires 0 <= k < |items| && items[k].1 == f
    ensures items[k].0 in Bucket(items, f)
  {
    var n := |items| - 1;
    if k < n {
      var init := items[..n];
      assert init[k] == items[k];
      BucketComplete(init, f, k);
    }
  }

  /** The bucket holds one term per entry of frequency `f`: none is dropped or repeated. */
  lemma {:induction false} BucketCount(items: seq<(string, int)>, f: int)
    ensures |Bucket(items, f)| == |EntriesWith(items, f)|
  {
    if items != [] {
      var n := |items| - 1;
      var init := items[..n];
      BucketCount(init, f);
      assert forall k :: 0 <= k < n ==> init[k] == items[k];
      assert EntriesWith(items, f) == EntriesWith(init, f) + (if items[n].1 == f then {n} else {});
    }
  }

  /** Table order: the bucket of a prefix of the table is a prefix of the bucket. */
  lemma {:induction false} BucketPrefix(items: seq<(string, int)>, k: nat, f: int)
    requires k <= |items|
    ensures Bucket(items[..k], f) <= Bucket(items, f)
    decreases |items| - k
  {
    if k < |items| {
      BucketPrefix(items, k + 1, f);
      BucketStep(items, k, f);
    } else {
      assert items[..k] == items;
    }
  }

  lemma BucketStep(items: seq<(string, int)>, k: nat, f: int)
    requires k < |items|
    ensures Bucket(items[..k + 1], f)
         == Bucket(items[..k], f) + (if items[k].1 == f then [items[k].0] else [])
  {
    assert items[..k + 1][..k] == items[..k];
  }

  /** `freq_to_terms[f]` on a defaultdict(list). */
  function Group(buckets: map<int, seq<string>>, f: int): seq<string> {
    if f in buckets then buckets[f] else []
  }

  /** The terms at positions `i < j` of `terms` share more than half of `f` documents. */
  ghost predicate Qualifies(index: map<string, seq<int>>, terms: seq<string>, f: int, i: int, j: int) {
    && 0 <= i < j < |terms|
    && 2 * |IntersectOf(Lookup(index, terms[i]), Lookup(index, terms[j]))| > f
  }

  /** `(i, j)` is the first qualifying pair of `terms` in the order of the nested loops. */
  ghost predicate FirstQualifying(index: map<string, seq<int>>, terms: seq<string>, f: int, i: int, j: int) {
    && Qualifies(index, terms, f, i, j)
    && forall i', j' :: (i' < i || (i' == i && j' < j)) ==> !Qualifies(index, terms, f, i', j')
  }

  /** The two terms at positions `i < j` of the in-range frequency group `f`
      overlap in more than half of `f` documents. */
  ghost predicate Found(items: seq<(string, int)>, index: map<string, seq<int>>,
                        freqMin: int, freqMax: int, f: int, i: int, j: int)
  {
    freqMin <= f <= freqMax && Qualifies(index, Bucket(items, f), f, i, j)
  }

  /** `(f', i', j')` comes before `(f, i, j)` in the search order. */
  predicate SearchedBefore(f': int, i': int, j': int, f: int, i: int, j: int) {
    f' < f || (f' == f && (i' < i || (i' == i && j' < j)))
  }

  /** `p` is what the search reports for the qualifying triple `(f, i, j)`. */
  ghost predicate Reports(items: seq<(string, int)>, index: map<string, seq<int>>,
                          freqMin: int, freqMax: int, p: Pair, f: int, i: int, j: int)
  {
    var terms := Bucket(items, f);
    && Found(items, index, freqMin, freqMax, f, i, j)
    && p == Pair(terms[i], terms[j], f, |IntersectOf(Lookup(index, terms[i]), Lookup(index, terms[j]))|)
    && forall f', i', j' :: SearchedBefore(f', i', j', f, i, j) ==> !Found(items, index, freqMin, freqMax, f', i', j')
  }

  predicate IsLeast(s: set<int>, m: int) {
    m in s && forall g :: g in s ==> m <= g
  }

  lemma {:induction false} LeastExists(s: set<int>)
    requires s != {}
    ensures exists m :: IsLeast(s, m)
    decreases |s|
  {
    if forall y :: y !in s {
      assert false;
    }
    var x :| x in s;
    var rest := s - {x};
    if rest == {} {
      forall g | g in s ensures x <= g {
        assert g !in rest;
      }
      assert IsLeast(s, x);
    } else {
      LeastExists(rest);
      var m :| IsLeast(rest, m);
      var least := if x < m then x else m;
      forall g | g in s ensures least <= g {
        if g != x {
          assert g in rest;
        }
      }
      assert IsLeast(s, least);
    }
  }

  /** `buckets` holds the in-range terms of `items`, grouped by frequency. */
  ghost predicate Grouped(buckets: map<int, seq<string>>, items: seq<(string, int)>, freqMin: int, freqMax: int) {
    && (forall f :: Group(buckets, f) == if freqMin <= f <= freqMax then Bucket(items, f) else [])
    && (forall f :: f in buckets ==> buckets[f] != [])
  }

  /** One more entry of the table: an in-range term joins the end of its group. */
  lemma GroupedStep(buckets: map<int, seq<string>>, items: seq<(string, int)>, k: nat, freqMin: int, freqMax: int)
    requires k < |items| && Grouped(buckets, items[..k], freqMin, freqMax)
    ensures var (term, freq) := items[k];
      Grouped(if freqMin <= freq <= freqMax then buckets[freq := Group(buckets, freq) + [term]] else buckets,
              items[..k + 1], freqMin, freqMax)
  {
    var (term, freq) := items[k];
    var after := if freqMin <= freq <= freqMax then buckets[freq := Group(buckets, freq) + [term]] else buckets;
    forall f ensures Group(after, f) == if freqMin <= f <= freqMax then Bucket(items[..k + 1], f) else [] {
      BucketStep(items, k, f);
      assert Group(buckets, f) == if freqMin <= f <= freqMax then Bucket(items[..k], f) else [];
    }
  }

  /** The grouping loop: the in-range terms by frequency, in table order. */
  method GroupByFrequency(items: seq<(string, int)>, freqMin: int, freqMax: int)
    returns (buckets: map<int, seq<string>>)
    ensures Grouped(buckets, items, freqMin, freqMax)
  {
    buckets := map[];
    for k := 0 to |items|
      invariant Grouped(buckets, items[..k], freqMin, freqMax)
    {
      GroupedStep(buckets, items, k, freqMin, freqMax);
      var (term, freq) := items[k];
      if freqMin <= freq <= freqMax {
        buckets := buckets[freq := Group(buckets, freq) + [term]];
      }
    }
    assert items[..|items|] == items;
  }

  /** `p` reports the first qualifying pair `(i, j)` of the group `terms` of frequency `f`. */
  ghost predicate GroupAnswer(index: map<string, seq<int>>, terms: seq<string>, f: int, p: Pair, i: int, j: int) {
    && FirstQualifying(index, terms, f, i, j)
    && p == Pair(terms[i], terms[j], f, |IntersectOf(Lookup(index, terms[i]), Lookup(index, terms[j]))|)
  }

  /** The first qualifying pair of the least frequency still to be searched is the answer. */
  lemma AnswerOfLeastGroup(items: seq<(string, int)>, index: map<string, seq<int>>, freqMin: int, freqMax: int,
                           remaining: set<int>, f: int, p: Pair, i: int, j: int)
    requires forall f', i', j' :: Found(items, index, freqMin, freqMax, f', i', j') ==> f' in remaining
    requires IsLeast(remaining, f) && freqMin <= f <= freqMax
    requires GroupAnswer(index, Bucket(items, f), f, p, i, j)
    ensures Reports(items, index, freqMin, freqMax, p, f, i, j)
  {
    forall f', i', j' | SearchedBefore(f', i', j', f, i, j)
      ensures !Found(items, index, freqMin, freqMax, f', i', j')
    {
      if f' < f {
        assert f' !in remaining;
      }
    }
  }

  /** The pair loops over one frequency group: every `i < j`, first by `i`, then by `j`. */
  method SearchGroup(index: map<string, seq<int>>, terms: seq<string>, f: int) returns (r: Option<Pair>)
    ensures r.None? <==> forall i, j :: !Qualifies(index, terms, f, i, j)
    ensures r.Some? ==> exists i, j :: GroupAnswer(index, terms, f, r.value, i, j)
  {
    if |terms| > 1 {
      for i := 0 to |terms|
        invariant forall i', j' :: i' < i ==> !Qualifies(index, terms, f, i', j')
      {
        for j := i + 1 to |terms|
          invariant forall i', j' :: i' < i ==> !Qualifies(index, terms, f, i', j')
          invariant forall j' :: j' < j ==> !Qualifies(index, terms, f, i, j')
        {
          var common := Intersect(Lookup(index, terms[i]), Lookup(index, terms[j]));
          if 2 * |common| > f {
            assert GroupAnswer(index, terms, f, Pair(terms[i], terms[j], f, |common|), i, j);
            return Some(Pair(terms[i], terms[j], f, |common|));
          }
        }
      }
    }
    return None;
  }

  /** `_find_cooccurring_pair`, with `items` the entries of the frequency table in
      its iteration order and `index` the posting lists. */
  method FindCooccurringPair(items: seq<(string, int)>, index: map<string, seq<int>>,
                             freqMin: int, freqMax: int) returns (r: Option<Pair>)
    ensures r.None? <==> forall f, i, j :: !Found(items, index, freqMin, freqMax, f, i, j)
    ensures r.Some? ==> exists f, i, j :: Reports(items, index, freqMin, freqMax, r.value, f, i, j)
  {
    var buckets := GroupByFrequency(items, freqMin, freqMax);
    var remaining := buckets.Keys;
    while remaining != {}
      invariant remaining <= buckets.Keys
      invariant forall f, i, j :: Found(items, index, freqMin, freqMax, f, i, j) ==> f in remaining
      decreases remaining
    {
      LeastExists(remaining);
      var f :| IsLeast(remaining, f);
      assert Group(buckets, f) == Bucket(items, f) && freqMin <= f <= freqMax;
      r := SearchGroup(index, buckets[f], f);
      if r.Some? {
        ghost var i, j :| GroupAnswer(index, buckets[f], f, r.value, i, j);
        AnswerOfLeastGroup(items, index, freqMin, freqMax, remaining, f, r.value, i, j);
        return;
      }
      remaining := remaining - {f};
    }
    return None;
  }

  /** The two reported terms both have the reported, in-range frequency, and their
      overlap is above half of it. */
  lemma ReportedTermsShareFrequency(items: seq<(string, int)>, index: map<string, seq<int>>,
                                    freqMin: int, freqMax: int, p: Pair, f: int, i: int, j: int)
    requires Reports(items, index, freqMin, freqMax, p, f, i, j)
    ensures (p.first, p.freq) in items && (p.second, p.freq) in items
    ensures freqMin <= p.freq <= freqMax && 2 * p.overlap > p.freq
  {
  }

  /** When every frequency is the length of the term's posting list, as in a
      consistent index, the overlap never exceeds the frequency. */
  lemma OverlapAtMostFrequency(items: seq<(string, int)>, index: map<string, seq<int>>,
                               freqMin: int, freqMax: int, p: Pair, f: int, i: int, j: int)
    requires forall t, g :: (t, g) in items ==> g == |Lookup(index, t)|
    requires Reports(items, index, freqMin, freqMax, p, f, i, j)
    ensures p.freq < 2 * p.overlap && p.overlap <= p.freq
  {
    var terms := Bucket(items, f);
    assert (terms[i], f) in items;
  }
}
