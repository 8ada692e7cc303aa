/**
  Boolean retrieval over the inverted index with queries in Reverse Polish
  Notation.

  A query is split on whitespace. A token whose upper-case form is `AND`, `OR`
  or `NOT` pops two posting lists (the top one is the right operand) and pushes
  their intersection, union or difference; any other token pushes its posting
  list, the empty list for a term the index does not know. The answer is the
  top list at the end (the empty list for an empty stack), with each internal
  id mapped to its external id.

  `Run` is the stack machine on posting lists, `Denote` the same machine on
  sets of internal ids; `RunMeaning` proves that the first computes the second
  as ascending lists.
 */
module Retrieval {
  import opened Options
  import opened Text
  import opened Postings
  import Indexing

  datatype Operator = And | Or | Not

  /** A query token: an operator or a term to look up. */
  datatype Token = Op(op: Operator) | Term(word: string)

  /** Why a query has no answer: an operator found fewer than two lists on the
      stack (`IndexError`), or a result id has no external id (`KeyError`). */
  datatype QueryError = MissingOperand | UnknownDocId(id: int)

  datatype Result<T> = Ok(value: T) | Err(error: QueryError)

  function Keyword(o: Operator): string {
    match o
    case And => "AND"
    case Or => "OR"
    case Not => "NOT"
  }

  /** `c.upper()` for the ASCII letters. */
  function UpperChar(c: char): char {
    if 'a' <= c <= 'z' then (c as int - 32) as char else c
  }

  /** `s.upper()` on ASCII: each lower-case letter becomes its upper-case letter, no
      lower-case letter is left, and every other character stays where it was. */
  function Upper(s: string): (r: string)
    ensures |r| == |s|
    ensures forall k :: 0 <= k < |s| && 'a' <= s[k] <= 'z' ==> r[k] as int == s[k] as int - 32
    ensures forall k :: 0 <= k < |r| ==> !('a' <= r[k] <= 'z')
    ensures forall k :: 0 <= k < |s| && !('a' <= s[k] <= 'z') ==> r[k] == s[k]
  {
    seq(|s|, k requires 0 <= k < |s| => UpperChar(s[k]))
  }

  /** The test `token.upper() in ['AND', 'OR', 'NOT']` and the branch it selects. */
  function Classify(token: string): (r: Token)
    ensures r.Op? <==> exists o :: Upper(token) == Keyword(o)
    ensures r.Op? ==> Upper(token) == Keyword(r.op)
    ensures r.Term? ==> r.word == token
  {
    var u := Upper(token);
    if u == Keyword(And) then Op(And)
    else if u == Keyword(Or) then Op(Or)
    else if u == Keyword(Not) then Op(Not)
    else Term(token)
  }

  /** Operators are recognised whatever the case of their letters. */
  lemma ClassifyIgnoresCase(a: string, b: string)
    requires Upper(a) == Upper(b)
    ensures Classify(a).Op? <==> Classify(b).Op?
    ensures Classify(a).Op? ==> Classify(a) == Classify(b)
  {
  }

  /** `t` spells `kw` with any of its letters in lower case. */
  ghost predicate CaseVariant(t: string, kw: string) {
    |t| == |kw| && forall k :: 0 <= k < |t| ==> t[k] == kw[k] || t[k] as int == kw[k] as int + 32
  }

  /** A token is an operator exactly when it spells that operator's keyword in any
      mix of upper- and lower-case letters. */
  lemma ClassifyMatchesCaseVariants(token: string, o: Operator)
    ensures Classify(token) == Op(o) <==> CaseVariant(token, Keyword(o))
  {
    var kw := Keyword(o);
    UpperMatchesCaseVariant(token, kw);
    var r := Classify(token);
    if r.Op? && Upper(token) == kw {
      assert Keyword(r.op) == kw;
      assert r.op == o;
    }
  }

  lemma UpperMatchesCaseVariant(t: string, kw: string)
    requires forall k :: 0 <= k < |kw| ==> 'A' <= kw[k] <= 'Z'
    ensures Upper(t) == kw <==> CaseVariant(t, kw)
  {
    var u := Upper(t);
    if CaseVariant(t, kw) {
      forall k | 0 <= k < |t| ensures u[k] == kw[k] {
        if 'a' <= t[k] <= 'z' {
          assert t[k] as int == kw[k] as int + 32;
        }
      }
    }
    if u == kw {
      forall k | 0 <= k < |t| ensures t[k] == kw[k] || t[k] as int == kw[k] as int + 32 {
        if !('a' <= t[k] <= 'z') {
          assert u[k] == t[k];
        }
      }
    }
  }

  lemma OperatorSpellings()
    ensures Classify("and") == Op(And) && Classify("And") == Op(And)
    ensures Classify("or") == Op(Or) && Classify("nOt") == Op(Not)
    ensures Classify("ANDROID") == Term("ANDROID")
  {
    assert Upper("and") == "AND";
    assert Upper("And") == "AND";
    assert Upper("or") == "OR";
    assert Upper("nOt") == "NOT";
  }

  // ---------------------------------------------------------------------------
  // The stack machine

  /** The list an operator pushes: for AND the shorter list is passed first to
      the intersection, for NOT the right operand `p2` is the one subtracted. */
  ghost function Combine(o: Operator, p1: seq<int>, p2: seq<int>): (r: seq<int>)
    ensures o == And ==> forall x :: x in r ==> x in p1 && x in p2
    ensures o == Or ==> forall x :: x in r <==> x in p1 || x in p2
    ensures o == Not ==> forall x :: x in r ==> x in p1
  {
    match o
    case And => if |p1| < |p2| then IntersectOf(p1, p2) else IntersectOf(p2, p1)
    case Or => UnionOf(p1, p2)
    case Not => AndNotOf(p1, p2)
  }

  /** The stack after the tokens `words`, starting from `stack`, or the error the
      first operator without two operands raises. */
  ghost function Run(index: map<string, seq<int>>, words: seq<string>, stack: seq<seq<int>>)
    : (r: Result<seq<seq<int>>>)
    ensures r.Err? ==> r.error == MissingOperand
    decreases |words|
  {
    if words == [] then Ok(stack)
    else
      match Classify(words[0])
      case Term(w) => Run(index, words[1..], stack + [Lookup(index, w)])
      case Op(o) =>
        if |stack| < 2 then Err(MissingOperand)
        else Run(index, words[1..], stack[..|stack| - 2] + [Combine(o, stack[|stack| - 2], stack[|stack| - 1])])
  }

  /** `stack.pop() if stack else []`. */
  function Top(stack: seq<seq<int>>): (r: seq<int>)
    ensures stack == [] ==> r == []
    ensures stack != [] ==> r in stack
  {
    if stack == [] then [] else stack[|stack| - 1]
  }

  /** The first `i` ids are known, and id `i` is not. */
  ghost predicate FirstUnknown(ids: seq<int>, docidMap: map<int, string>, i: int) {
    0 <= i < |ids| && ids[i] !in docidMap && forall j :: 0 <= j < i ==> ids[j] in docidMap
  }

  /** `[docid_map[doc_id] for doc_id in ids]`: fails on the first unknown id. */
  function Externals(ids: seq<int>, docidMap: map<int, string>): (r: Result<seq<string>>)
    ensures r.Ok? <==> forall i :: 0 <= i < |ids| ==> ids[i] in docidMap
    ensures r.Ok? ==> |r.value| == |ids| && forall i :: 0 <= i < |ids| ==> r.value[i] == docidMap[ids[i]]
    ensures r.Err? ==> exists i :: FirstUnknown(ids, docidMap, i) && r.error == UnknownDocId(ids[i])
  {
    if ids == [] then Ok([])
    else if ids[0] !in docidMap then
      assert FirstUnknown(ids, docidMap, 0);
      Err(UnknownDocId(ids[0]))
    else
      match Externals(ids[1..], docidMap)
      case Err(e) =>
        assert exists i :: FirstUnknown(ids, docidMap, i) && e == UnknownDocId(ids[i]) by {
          var i :| FirstUnknown(ids[1..], docidMap, i) && e == UnknownDocId(ids[1..][i]);
          assert FirstUnknown(ids, docidMap, i + 1);
        }
        Err(e)
      case Ok(names) =>
        assert forall i :: 0 <= i < |ids| ==> ids[i] in docidMap by {
          forall i | 0 <= i < |ids| ensures ids[i] in docidMap {
            if i > 0 { assert ids[i] == ids[1..][i - 1]; }
          }
        }
        Ok([docidMap[ids[0]]] + names)
  }

  /** `retrieve(query)`. */
  ghost function Evaluate(index: map<string, seq<int>>, docidMap: map<int, string>, query: string)
    : (r: Result<seq<string>>)
    ensures r.Err? && r.error == MissingOperand <==> Run(index, Words(query), []).Err?
    ensures r.Ok? ==> forall n :: n in r.value ==> n in docidMap.Values
  {
    match Run(index, Words(query), [])
    case Err(e) => Err(e)
    case Ok(stack) => Externals(Top(stack), docidMap)
  }

  // ---------------------------------------------------------------------------
  // The same machine on sets of documents

  function CombineSets(o: Operator, a: set<int>, b: set<int>): set<int> {
    match o
    case And => a * b
    case Or => a + b
    case Not => a - b
  }

  /** The sets of internal ids the stack holds after the tokens `words`. */
  ghost function Denote(index: map<string, seq<int>>, words: seq<string>, stack: seq<set<int>>)
    : Result<seq<set<int>>>
    decreases |words|
  {
    if words == [] then Ok(stack)
    else
      match Classify(words[0])
      case Term(w) => Denote(index, words[1..], stack + [Elems(Lookup(index, w))])
      case Op(o) =>
        if |stack| < 2 then Err(MissingOperand)
        else Denote(index, words[1..], stack[..|stack| - 2] + [CombineSets(o, stack[|stack| - 2], stack[|stack| - 1])])
  }

  /** Each list of `lists` is ascending and holds exactly the matching set of `sets`. */
  ghost predicate Represents(lists: seq<seq<int>>, sets: seq<set<int>>) {
    |lists| == |sets| && forall i :: 0 <= i < |lists| ==> Ascending(lists[i]) && Elems(lists[i]) == sets[i]
  }

  ghost predicate PostingsAscending(index: map<string, seq<int>>) {
    forall t :: t in index ==> Ascending(index[t])
  }

  /** On ascending lists an operator computes the set operation, as an ascending list. */
  lemma CombineMeaning(o: Operator, p1: seq<int>, p2: seq<int>)
    requires Ascending(p1) && Ascending(p2)
    ensures Ascending(Combine(o, p1, p2))
    ensures Elems(Combine(o, p1, p2)) == CombineSets(o, Elems(p1), Elems(p2))
  {
    match o
    case And =>
      IntersectOfAscending(p1, p2);
      IntersectOfAscending(p2, p1);
    case Or =>
      UnionOfAscending(p1, p2);
    case Not =>
      AndNotOfAscending(p1, p2);
  }

  /** The length-based swap of the AND operands does not change the result. */
  lemma AndSwapHarmless(p1: seq<int>, p2: seq<int>)
    requires Ascending(p1) && Ascending(p2)
    ensures Combine(And, p1, p2) == IntersectOf(p1, p2) == Combine(And, p2, p1)
  {
    IntersectCommutes(p1, p2);
  }

  /** NOT keeps the ids of the lower operand that are not in the top one. */
  lemma NotSubtractsTop(p1: seq<int>, p2: seq<int>)
    requires Ascending(p1) && Ascending(p2)
    ensures forall x :: x in Combine(Not, p1, p2) <==> x in p1 && x !in p2
  {
    AndNotOfAscending(p1, p2);
  }

  /** The list machine computes the set machine: both fail together, and otherwise
      every list left on the stack is the ascending list of the matching set. */
  lemma {:induction false} RunMeaning(index: map<string, seq<int>>, words: seq<string>,
                                      lists: seq<seq<int>>, sets: seq<set<int>>)
    requires PostingsAscending(index)
    requires Represents(lists, sets)
    ensures Run(index, words, lists).Ok? <==> Denote(index, words, sets).Ok?
    ensures Run(index, words, lists).Ok? ==> Represents(Run(index, words, lists).value, Denote(index, words, sets).value)
    decreases |words|
  {
    if words != [] {
      match Classify(words[0])
      case Term(w) =>
        var l := Lookup(index, w);
        assert Ascending(l);
        var lists', sets' := lists + [l], sets + [Elems(l)];
        assert Represents(lists', sets') by {
          forall i | 0 <= i < |lists'| ensures Ascending(lists'[i]) && Elems(lists'[i]) == sets'[i] {
            if i < |lists| { assert lists'[i] == lists[i] && sets'[i] == sets[i]; }
          }
        }
        RunMeaning(index, words[1..], lists', sets');
      case Op(o) =>
        if |lists| >= 2 {
          var n := |lists|;
          assert Represents(lists, sets);
          assert Ascending(lists[n - 2]) && Elems(lists[n - 2]) == sets[n - 2];
          assert Ascending(lists[n - 1]) && Elems(lists[n - 1]) == sets[n - 1];
          CombineMeaning(o, lists[n - 2], lists[n - 1]);
          var lists' := lists[..n - 2] + [Combine(o, lists[n - 2], lists[n - 1])];
          var sets' := sets[..n - 2] + [CombineSets(o, sets[n - 2], sets[n - 1])];
          assert Represents(lists', sets') by {
            forall i | 0 <= i < |lists'| ensures Ascending(lists'[i]) && Elems(lists'[i]) == sets'[i] {
              if i < n - 2 { assert lists'[i] == lists[i] && sets'[i] == sets[i]; }
            }
          }
          RunMeaning(index, words[1..], lists', sets');
        }
    }
  }

  /** Every id in every list of `lists` belongs to `ids`. */
  ghost predicate AllWithin(lists: seq<seq<int>>, ids: set<int>) {
    forall i, x :: 0 <= i < |lists| && x in lists[i] ==> x in ids
  }

  /** The machine only ever pushes ids that occur in some posting list (or were on
      the stack already). */
  lemma {:induction false} RunStaysWithin(index: map<string, seq<int>>, words: seq<string>,
                                          stack: seq<seq<int>>, ids: set<int>)
    requires forall t, x :: t in index && x in index[t] ==> x in ids
    requires AllWithin(stack, ids)
    ensures Run(index, words, stack).Ok? ==> AllWithin(Run(index, words, stack).value, ids)
    decreases |words|
  {
    if words != [] {
      match Classify(words[0])
      case Term(w) =>
        var stack' := stack + [Lookup(index, w)];
        assert AllWithin(stack', ids) by {
          forall i, x | 0 <= i < |stack'| && x in stack'[i] ensures x in ids {
            if i < |stack| { assert stack'[i] == stack[i]; }
          }
        }
        RunStaysWithin(index, words[1..], stack', ids);
      case Op(o) =>
        if |stack| >= 2 {
          var n := |stack|;
          var c := Combine(o, stack[n - 2], stack[n - 1]);
          assert forall x :: x in c ==> x in stack[n - 2] || x in stack[n - 1];
          var stack' := stack[..n - 2] + [c];
          assert AllWithin(stack', ids) by {
            forall i, x | 0 <= i < |stack'| && x in stack'[i] ensures x in ids {
              if i < n - 2 { assert stack'[i] == stack[i]; }
            }
          }
          RunStaysWithin(index, words[1..], stack', ids);
        }
    }
  }

  /** On an index built by `InvertedIndex`, the id lookup at the end never fails:
      a query fails only for a missing operand. */
  lemma NoUnknownDocIds(index: map<string, seq<int>>, docidMap: map<int, string>,
                        docFreq: map<string, int>, docCount: int, docs: seq<Indexing.Document>, query: string)
    requires Indexing.Consistent(index, docidMap, docFreq, docCount, docs)
    ensures Evaluate(index, docidMap, query).Ok? <==> Run(index, Words(query), []).Ok?
    ensures Evaluate(index, docidMap, query).Err? ==> Evaluate(index, docidMap, query).error == MissingOperand
  {
    var ids := docidMap.Keys;
    forall t, x | t in index && x in index[t] ensures x in ids {
      assert index[t] == Lookup(index, t);
      assert Indexing.HasToken(docs, x, t);
    }
    RunStaysWithin(index, Words(query), [], ids);
    match Run(index, Words(query), [])
    case Err(e) =>
    case Ok(stack) =>
      if stack != [] {
        assert forall x :: x in Top(stack) ==> x in ids by {
          forall x | x in Top(stack) ensures x in ids {
            assert x in stack[|stack| - 1];
          }
        }
      }
  }

  /** What a query returns on a consistent index: the external ids, in ascending
      internal-id order, of exactly the documents the set machine leaves on top. */
  lemma QueryMeaning(index: map<string, seq<int>>, docidMap: map<int, string>,
                     docFreq: map<string, int>, docCount: int, docs: seq<Indexing.Document>, query: string)
    requires Indexing.Consistent(index, docidMap, docFreq, docCount, docs)
    ensures Evaluate(index, docidMap, query).Ok? <==> Denote(index, Words(query), []).Ok?
    ensures Evaluate(index, docidMap, query).Ok? ==>
      var ids := Top(Run(index, Words(query), []).value);
      var sets := Denote(index, Words(query), []).value;
      && Ascending(ids)
      && Elems(ids) == (if sets == [] then {} else sets[|sets| - 1])
      && Evaluate(index, docidMap, query).value == seq(|ids|, i requires 0 <= i < |ids| => docidMap[ids[i]])
  {
    NoUnknownDocIds(index, docidMap, docFreq, docCount, docs, query);
    assert PostingsAscending(index);
    RunMeaning(index, Words(query), [], []);
    if Evaluate(index, docidMap, query).Ok? {
      var stack := Run(index, Words(query), []).value;
      var sets := Denote(index, Words(query), []).value;
      if stack != [] {
        assert Ascending(stack[|stack| - 1]) && Elems(stack[|stack| - 1]) == sets[|sets| - 1];
      }
    }
  }

  /** A term the index does not know pushes the empty list rather than failing. */
  lemma UnknownTermPushesEmpty(index: map<string, seq<int>>, w: string, stack: seq<seq<int>>)
    requires w !in index && Classify(w).Term?
    ensures Run(index, [w], stack) == Ok(stack + [[]])
  {
  }

  /** A query with no tokens returns no documents. */
  lemma EmptyQuery(index: map<string, seq<int>>, docidMap: map<int, string>, query: string)
    requires forall k :: 0 <= k < |query| ==> IsSpace(query[k])
    ensures Evaluate(index, docidMap, query) == Ok([])
  {
    BlankHasNoWords(query);
  }

  /** `a b OP` with two terms: `b`, the later term, is the right operand. */
  lemma BinaryQuery(index: map<string, seq<int>>, a: string, b: string, op: string, stack: seq<seq<int>>)
    requires Classify(a).Term? && Classify(b).Term? && Classify(op).Op?
    ensures Run(index, [a, b, op], stack)
         == Ok(stack + [Combine(Classify(op).op, Lookup(index, a), Lookup(index, b))])
  {
    var s2 := stack + [Lookup(index, a)] + [Lookup(index, b)];
    assert [a, b, op][1..] == [b, op] && [b, op][1..] == [op];
    assert s2[..|s2| - 2] == stack;
    assert Run(index, [op], s2) == Ok(stack + [Combine(Classify(op).op, Lookup(index, a), Lookup(index, b))]);
  }

  /** Operands left over at the end are not an error: `a b` answers with `b` alone. */
  lemma LeftoverOperandsIgnored(index: map<string, seq<int>>, a: string, b: string)
    requires Classify(a).Term? && Classify(b).Term?
    ensures Run(index, [a, b], []) == Ok([Lookup(index, a), Lookup(index, b)])
    ensures Top(Run(index, [a, b], []).value) == Lookup(index, b)
  {
    var la, lb := Lookup(index, a), Lookup(index, b);
    assert [a, b][1..] == [b] && [b][1..] == [];
    assert Run(index, [], [la, lb]) == Ok([la, lb]);
    assert [la] + [lb] == [la, lb];
    assert Run(index, [b], [la]) == Ok([la, lb]);
    assert [] + [la] == [la];
  }

  // ---------------------------------------------------------------------------
  // The retriever

  class BooleanRetriever {
    const index: map<string, seq<int>>
    const docidMap: map<int, string>

    /** `__init__`: the retriever reads the indexer's postings and id table. */
    constructor (indexer: Indexing.InvertedIndex)
      ensures index == indexer.index && docidMap == indexer.docidMap
    {
      index := indexer.index;
      docidMap := indexer.docidMap;
    }

    /** The list an operator token pushes, computed by the merge loops. */
    method Apply(o: Operator, p1: seq<int>, p2: seq<int>) returns (result: seq<int>)
      ensures result == Combine(o, p1, p2)
    {
      match o
      case And =>
        if |p1| < |p2| {
          result := Intersect(p1, p2);
        } else {
          result := Intersect(p2, p1);
        }
      case Or =>
        result := Union(p1, p2);
      case Not =>
        result := AndNot(p1, p2);
    }

    /** `retrieve`: the RPN evaluation loop over the query's tokens. */
    method Retrieve(query: string) returns (r: Result<seq<string>>)
      ensures r == Evaluate(index, docidMap, query)
    {
      var tokens := Words(query);
      var stack: seq<seq<int>> := [];
      for k := 0 to |tokens|
        invariant Run(index, tokens, []) == Run(index, tokens[k..], stack)
      {
        assert tokens[k..][0] == tokens[k] && tokens[k..][1..] == tokens[k + 1..];
        match Classify(tokens[k])
        case Term(w) =>
          stack := stack + [Lookup(index, w)];
        case Op(o) =>
          if |stack| < 2 {
            return Err(MissingOperand);
          }
          var p2, p1 := stack[|stack| - 1], stack[|stack| - 2];
          var result := Apply(o, p1, p2);
          stack := stack[..|stack| - 2] + [result];
      }
      assert tokens[|tokens|..] == [];
      var finalIds := if stack != [] then stack[|stack| - 1] else [];
      r := Externals(finalIds, docidMap);
    }
  }
}
