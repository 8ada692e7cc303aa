/**
  Construction of the inverted index from the raw collection.

  A collection file is cut into document segments at each `<DOC>` marker (the
  text before the first marker is dropped). A segment is accepted when it is
  not blank and has a `<DOCNO>...</DOCNO>` field; an accepted document gets the
  next dense internal id, its stripped DOCNO is recorded as its external id,
  and its id is appended once to the posting list of every distinct token of
  its space-joined `<TEXT>` bodies, whose document frequency grows by one.

  The class keeps, next to the source's four fields, the ghost sequence `Docs`
  of accepted documents in id order; `Valid()` states what the four fields are
  in terms of it.
 */
module Indexing {
  import opened Options
  import opened Text
  import opened Postings

  /** An accepted document: its external id and the whitespace tokens of its text. */
  datatype Document = Document(externalId: string, tokens: seq<string>)

  /** `content.split('<DOC>')[1:]`: the document segments of one file. Each is the
      text between one `<DOC>` and the next, and the text before the first is dropped. */
  function Segments(content: string): (r: seq<string>)
    ensures forall i :: 0 <= i < |r| ==> !Contains(r[i], "<DOC>")
    ensures exists head :: !Contains(head, "<DOC>") && JoinWith([head] + r, "<DOC>") == content
  {
    var parts := SplitOn(content, "<DOC>");
    assert parts == [parts[0]] + parts[1..];
    parts[1..]
  }

  /** The document a segment yields, or None when the segment is skipped. */
  function ParseSegment(segment: string): (r: Option<Document>)
    ensures r.None? <==>
      (forall k :: 0 <= k < |segment| ==> IsSpace(segment[k]))
      || Between(segment, "<DOCNO>", "</DOCNO>").None?
    ensures r.Some? ==> r.value.tokens == WordsOfEach(AllBetween(segment, "<TEXT>", "</TEXT>"))
    ensures r.Some? ==> r.value.externalId == Strip(Between(segment, "<DOCNO>", "</DOCNO>").value)
  {
    if Strip(segment) == [] then None
    else
      match Between(segment, "<DOCNO>", "</DOCNO>")
      case None => None
      case Some(docno) =>
        var texts := AllBetween(segment, "<TEXT>", "</TEXT>");
        WordsOfJoin(texts);
        Some(Document(Strip(docno), Words(JoinWith(texts, " "))))
  }

  /** The document a segment contributes: none or one. */
  function AcceptedOne(segment: string): seq<Document> {
    match ParseSegment(segment)
    case None => []
    case Some(d) => [d]
  }

  /** The documents accepted from a run of segments, in order: at most one per
      segment, each parsed from one of them. */
  function Accepted(segments: seq<string>): (r: seq<Document>)
    ensures |r| <= |segments|
    ensures forall d :: d in r ==> exists k :: 0 <= k < |segments| && d in AcceptedOne(segments[k])
  {
    if segments == [] then []
    else
      var n := |segments| - 1;
      var init := segments[..n];
      assert forall k :: 0 <= k < n ==> init[k] == segments[k];
      Accepted(init) + AcceptedOne(segments[n])
  }

  /** The documents accepted from a run of files, in order. */
  function AcceptedInFiles(files: seq<string>): seq<Document> {
    if files == [] then []
    else AcceptedInFiles(files[..|files| - 1]) + Accepted(Segments(files[|files| - 1]))
  }

  /** Every document accepted from a run of files comes from one of the files. */
  lemma {:induction false} AcceptedFromSomeFile(files: seq<string>, d: Document)
    requires d in AcceptedInFiles(files)
    ensures exists k :: 0 <= k < |files| && d in Accepted(Segments(files[k]))
  {
    var n := |files| - 1;
    var init := files[..n];
    if d in AcceptedInFiles(init) {
      AcceptedFromSomeFile(init, d);
      var k :| 0 <= k < n && d in Accepted(Segments(init[k]));
      assert init[k] == files[k];
    } else {
      assert d in Accepted(Segments(files[n]));
    }
  }

  lemma AcceptedStep(segments: seq<string>, k: nat)
    requires k < |segments|
    ensures Accepted(segments[..k + 1]) == Accepted(segments[..k]) + AcceptedOne(segments[k])
  {
    assert segments[..k + 1][..k] == segments[..k];
  }

  lemma AcceptedInFilesStep(files: seq<string>, k: nat)
    requires k < |files|
    ensures AcceptedInFiles(files[..k + 1]) == AcceptedInFiles(files[..k]) + Accepted(Segments(files[k]))
  {
    assert files[..k + 1][..k] == files[..k];
  }

  /** Everything up to and including the first `<DOC>` marker is discarded: two files
      that agree from their first marker on yield the same segments. */
  lemma TextBeforeFirstMarkerIgnored(a: string, b: string, ka: nat, kb: nat)
    requires Find(a, "<DOC>", 0) == Some(ka) && Find(b, "<DOC>", 0) == Some(kb)
    requires a[ka..] == b[kb..]
    ensures Segments(a) == Segments(b)
  {
    assert a[ka + 5..] == a[ka..][5..] == b[kb..][5..] == b[kb + 5..];
  }

  /** A file without a `<DOC>` marker holds no documents. */
  lemma NoMarkerNoDocuments(content: string)
    requires Find(content, "<DOC>", 0).None?
    ensures Accepted(Segments(content)) == []
  {
  }

  /** The set of internal ids of the documents among `docs` that contain `term`. */
  ghost function DocsWith(docs: seq<Document>, term: string): set<int> {
    set d | 0 <= d < |docs| && term in docs[d].tokens
  }

  /** `self.doc_freq[term]` on a defaultdict(int). */
  function Count(docFreq: map<string, int>, term: string): int {
    if term in docFreq then docFreq[term] else 0
  }

  /** `index` after `index[t].append(id)` for each term `t` of `terms`. */
  ghost function WithPosting(index: map<string, seq<int>>, terms: set<string>, id: int): (r: map<string, seq<int>>)
    ensures r.Keys == index.Keys + terms
    ensures forall t :: Lookup(r, t) == if t in terms then Lookup(index, t) + [id] else Lookup(index, t)
  {
    map t | t in index.Keys + terms :: if t in terms then Lookup(index, t) + [id] else index[t]
  }

  /** `docFreq` after `doc_freq[t] += 1` for each term `t` of `terms`. */
  ghost function WithCount(docFreq: map<string, int>, terms: set<string>): (r: map<string, int>)
    ensures r.Keys == docFreq.Keys + terms
    ensures forall t :: Count(r, t) == if t in terms then Count(docFreq, t) + 1 else Count(docFreq, t)
  {
    map t | t in docFreq.Keys + terms :: if t in terms then Count(docFreq, t) + 1 else docFreq[t]
  }

  /** Posting one more term extends the set of terms already posted. */
  lemma WithPostingStep(index: map<string, seq<int>>, done: set<string>, id: int, t: string)
    requires t !in done
    ensures WithPosting(index, done + {t}, id)
         == WithPosting(index, done, id)[t := Lookup(WithPosting(index, done, id), t) + [id]]
  {
  }

  /** Counting one more term extends the set of terms already counted. */
  lemma WithCountStep(docFreq: map<string, int>, done: set<string>, t: string)
    requires t !in done
    ensures WithCount(docFreq, done + {t}) == WithCount(docFreq, done)[t := Count(WithCount(docFreq, done), t) + 1]
  {
  }

  /** Document `d` of `docs` exists and has `t` among its tokens. */
  ghost predicate HasToken(docs: seq<Document>, d: int, t: string) {
    0 <= d < |docs| && t in docs[d].tokens
  }

  /** What the index's four tables are, given the accepted documents in id order. */
  ghost predicate Consistent(index: map<string, seq<int>>, docidMap: map<int, string>,
                             docFreq: map<string, int>, docCount: int, docs: seq<Document>)
  {
    && docCount == |docs|
    // internal ids are exactly 0 .. docCount-1, each mapped to its document's DOCNO
    && (forall d :: d in docidMap <==> 0 <= d < docCount)
    && (forall d :: 0 <= d < docCount ==> docidMap[d] == docs[d].externalId)
    // the vocabulary is the same in both tables; a frequency is its posting list's length
    && index.Keys == docFreq.Keys
    && (forall t :: t in index ==> index[t] != [] && docFreq[t] == |index[t]| && Ascending(index[t]))
    // id d is posted under t exactly when t is a token of document d
    && (forall t, d :: d in Lookup(index, t) <==> HasToken(docs, d, t))
  }

  /** Indexing one more document, as IndexDocument does, keeps the tables consistent. */
  lemma ConsistentAfterDocument(
    index: map<string, seq<int>>, docidMap: map<int, string>, docFreq: map<string, int>,
    docs: seq<Document>, doc: Document,
    index': map<string, seq<int>>, docidMap': map<int, string>, docFreq': map<string, int>)
    requires Consistent(index, docidMap, docFreq, |docs|, docs)
    requires docidMap' == docidMap[|docs| := doc.externalId]
    requires index'.Keys == docFreq'.Keys == index.Keys + set t | t in doc.tokens
    requires index' == WithPosting(index, set t | t in doc.tokens, |docs|)
    requires docFreq' == WithCount(docFreq, set t | t in doc.tokens)
    ensures Consistent(index', docidMap', docFreq', |docs| + 1, docs + [doc])
  {
    var n := |docs|;
    var docs' := docs + [doc];
    forall t | t in index'
      ensures index'[t] != [] && docFreq'[t] == |index'[t]| && Ascending(index'[t])
    {
      assert index'[t] == Lookup(index', t);
      assert docFreq'[t] == Count(docFreq', t);
      if t in doc.tokens {
        assert Count(docFreq, t) == |Lookup(index, t)|;
        forall y | y in Lookup(index, t) ensures y < n {
          assert HasToken(docs, y, t);
        }
        AscendingSnoc(Lookup(index, t), n);
      } else {
        assert t in index;
        assert index[t] == Lookup(index, t);
      }
    }
    forall t, d ensures d in Lookup(index', t) <==> HasToken(docs', d, t) {
      assert d in Lookup(index, t) <==> HasToken(docs, d, t);
      if 0 <= d < n {
        assert docs'[d] == docs[d];
      }
      if t in doc.tokens {
        assert Lookup(index', t) == Lookup(index, t) + [n];
        assert d in Lookup(index', t) <==> d in Lookup(index, t) || d == n;
      } else {
        assert Lookup(index', t) == Lookup(index, t);
      }
    }
    forall d | 0 <= d < n + 1 ensures docidMap'[d] == docs'[d].externalId {
      if d < n {
        assert docs'[d] == docs[d];
      }
    }
  }

  /** The four tables are a function of the accepted documents: two consistent
      states over the same documents are equal. In particular a skipped segment,
      which adds no document, leaves every table as it was. */
  lemma StateDeterminedByDocuments(
    index1: map<string, seq<int>>, docidMap1: map<int, string>, docFreq1: map<string, int>,
    index2: map<string, seq<int>>, docidMap2: map<int, string>, docFreq2: map<string, int>,
    docs: seq<Document>)
    requires Consistent(index1, docidMap1, docFreq1, |docs|, docs)
    requires Consistent(index2, docidMap2, docFreq2, |docs|, docs)
    ensures index1 == index2 && docFreq1 == docFreq2 && docidMap1 == docidMap2
  {
    forall t ensures Lookup(index1, t) == Lookup(index2, t) {
      forall d ensures d in Lookup(index1, t) <==> d in Lookup(index2, t) {
        assert d in Lookup(index1, t) <==> HasToken(docs, d, t);
        assert d in Lookup(index2, t) <==> HasToken(docs, d, t);
      }
      AscendingUnique(Lookup(index1, t), Lookup(index2, t));
    }
    forall t ensures t in index1 <==> t in index2 {
      assert Lookup(index1, t) == Lookup(index2, t);
    }
    assert index1 == index2 by {
      forall t | t in index1 ensures index1[t] == index2[t] {
        assert Lookup(index1, t) == Lookup(index2, t);
      }
    }
    forall d ensures d in docidMap1 <==> d in docidMap2 {
      assert d in docidMap1 <==> 0 <= d < |docs|;
      assert d in docidMap2 <==> 0 <= d < |docs|;
    }
    assert docidMap1 == docidMap2 by {
      forall d | d in docidMap1 ensures docidMap1[d] == docidMap2[d] {
        assert 0 <= d < |docs|;
      }
    }
  }

  class InvertedIndex {
    var index: map<string, seq<int>>
    var docidMap: map<int, string>
    var docFreq: map<string, int>
    var docCount: nat
    /** The accepted documents, the one with internal id `d` at position `d`. */
    ghost var Docs: seq<Document>

    ghost predicate Valid()
      reads this
    {
      Consistent(index, docidMap, docFreq, docCount, Docs)
    }

    /** `__init__`: an empty index. */
    constructor ()
      ensures Valid()
      ensures index == map[] && docidMap == map[] && docFreq == map[] && docCount == 0
      ensures Docs == []
    {
      index := map[];
      docidMap := map[];
      docFreq := map[];
      docCount := 0;
      Docs := [];
    }

    /** The body of `create_index` for one accepted document: the next id, its DOCNO,
        and one posting per distinct token. */
    method IndexDocument(externalId: string, tokens: seq<string>)
      requires Valid()
      modifies this
      ensures Valid()
      ensures Docs == old(Docs) + [Document(externalId, tokens)]
      ensures docCount == old(docCount) + 1
      ensures docidMap == old(docidMap)[old(docCount) := externalId]
      ensures index == WithPosting(old(index), set t | t in tokens, old(docCount))
      ensures docFreq == WithCount(old(docFreq), set t | t in tokens)
    {
      var id := docCount;
      docidMap := docidMap[id := externalId];
      PostTerms((set t | t in tokens), id);
      ConsistentAfterDocument(old(index), old(docidMap), old(docFreq), Docs,
        Document(externalId, tokens), index, docidMap, docFreq);
      docCount := docCount + 1;
      Docs := Docs + [Document(externalId, tokens)];
    }

    /** The posting loop of `create_index`: `id` is appended to the list of each term
        of `terms`, whose frequency grows by one. */
    method PostTerms(terms: set<string>, id: int)
      modifies this
      ensures index == WithPosting(old(index), terms, id)
      ensures docFreq == WithCount(old(docFreq), terms)
      ensures docidMap == old(docidMap) && docCount == old(docCount) && Docs == old(Docs)
    {
      var pending := terms;
      ghost var done: set<string> := {};
      var postings, counts := index, docFreq;
      while pending != {}
        invariant pending !! done && pending + done == terms
        invariant postings == WithPosting(index, done, id)
        invariant counts == WithCount(docFreq, done)
        invariant unchanged(this)
        decreases pending
      {
        var t :| t in pending;
        WithPostingStep(index, done, id, t);
        WithCountStep(docFreq, done, t);
        postings := postings[t := Lookup(postings, t) + [id]];
        counts := counts[t := Count(counts, t) + 1];
        pending := pending - {t};
        done := done + {t};
      }
      assert done == terms;
      index, docFreq := postings, counts;
    }

    /** The body of `create_index` for one file's content. */
    method IndexFile(content: string)
      requires Valid()
      modifies this
      ensures Valid()
      ensures Docs == old(Docs) + Accepted(Segments(content))
    {
      var segments := SplitOn(content, "<DOC>")[1..];
      for k := 0 to |segments|
        invariant Valid()
        invariant Docs == old(Docs) + Accepted(segments[..k])
      {
        var segment := segments[k];
        AcceptedStep(segments, k);
        AppendAssoc(old(Docs), Accepted(segments[..k]), AcceptedOne(segment));
        if Strip(segment) == [] {
          continue;
        }
        var docno := Between(segment, "<DOCNO>", "</DOCNO>");
        if docno.None? {
          continue;
        }
        var texts := AllBetween(segment, "<TEXT>", "</TEXT>");
        var tokens := Words(JoinWith(texts, " "));
        assert AcceptedOne(segment) == [Document(Strip(docno.value), tokens)];
        IndexDocument(Strip(docno.value), tokens);
      }
      assert segments[..|segments|] == segments;
    }

    /** `create_index` over the collection's files, given as their contents in walk order. */
    method CreateIndex(files: seq<string>)
      requires Valid()
      modifies this
      ensures Valid()
      ensures Docs == old(Docs) + AcceptedInFiles(files)
    {
      for k := 0 to |files|
        invariant Valid()
        invariant Docs == old(Docs) + AcceptedInFiles(files[..k])
      {
        AcceptedInFilesStep(files, k);
        AppendAssoc(old(Docs), AcceptedInFiles(files[..k]), Accepted(Segments(files[k])));
        IndexFile(files[k]);
      }
      assert files[..|files|] == files;
    }
  }

  /** The document frequency of a term is the number of documents that contain it. */
  lemma DocFreqCountsDocuments(idx: InvertedIndex, t: string)
    requires idx.Valid() && t in idx.docFreq
    ensures idx.docFreq[t] == |DocsWith(idx.Docs, t)|
  {
    var p := idx.index[t];
    assert p == Lookup(idx.index, t);
    forall d ensures d in Elems(p) <==> d in DocsWith(idx.Docs, t) {
      assert d in Lookup(idx.index, t) <==> HasToken(idx.Docs, d, t);
    }
    assert Elems(p) == DocsWith(idx.Docs, t);
    AscendingCard(p);
  }
}
