/**
  The postings algebra of the Boolean retriever: intersection, union and
  difference of two posting lists by a two-pointer merge.

  Each operation has a recursive reference definition (IntersectOf, UnionOf,
  AndNotOf) that consumes the heads of the two lists exactly as one iteration
  of the source's loop does, and a method (Intersect, Union, AndNot) that runs
  the loop itself and is proved equal to it. The lemmas then say what the
  reference definitions mean on strictly ascending inputs: the set operation,
  in ascending order, each element once.
 */
module Postings {

  /** Strictly ascending: sorted, with no duplicates. Every posting list has this shape. */
  ghost predicate Ascending(s: seq<int>) {
    forall i, j :: 0 <= i < j < |s| ==> s[i] < s[j]
  }

  /** The elements of a posting list, as a set. */
  ghost function Elems(s: seq<int>): set<int> {
    set x | x in s
  }

  /** `index.get(term, [])`: a term missing from the index has the empty posting list. */
  function Lookup(index: map<string, seq<int>>, term: string): (r: seq<int>)
    ensures term in index ==> r == index[term]
    ensures term !in index ==> r == []
  {
    if term in index then index[term] else []
  }

  /** The elements of `p`, in the order of `p`, whose membership in `q` is `inQ`. */
  ghost function Keep(p: seq<int>, q: seq<int>, inQ: bool): (r: seq<int>)
    ensures forall x :: x in r <==> x in p && (x in q) == inQ
    ensures |r| <= |p|
  {
    if p == [] then []
    else (if (p[0] in q) == inQ then [p[0]] else []) + Keep(p[1..], q, inQ)
  }

  // ---------------------------------------------------------------------------
  // Reference definitions: one loop iteration per recursive step

  /** Intersection merge: equal heads are emitted once, the smaller head is skipped. */
  ghost function IntersectOf(p: seq<int>, q: seq<int>): (r: seq<int>)
    ensures forall x :: x in r ==> x in p && x in q
    ensures |r| <= |p| && |r| <= |q|
    decreases |p| + |q|
  {
    if p == [] || q == [] then []
    else if p[0] == q[0] then [p[0]] + IntersectOf(p[1..], q[1..])
    else if p[0] < q[0] then IntersectOf(p[1..], q)
    else IntersectOf(p, q[1..])
  }

  /** Union merge: the smaller head is emitted, equal heads are emitted once. */
  ghost function UnionOf(p: seq<int>, q: seq<int>): (r: seq<int>)
    ensures forall x :: x in r <==> x in p || x in q
    ensures |p| <= |r| && |q| <= |r| && |r| <= |p| + |q|
    decreases |p| + |q|
  {
    if p == [] then q
    else if q == [] then p
    else if p[0] < q[0] then [p[0]] + UnionOf(p[1..], q)
    else if q[0] < p[0] then [q[0]] + UnionOf(p, q[1..])
    else [p[0]] + UnionOf(p[1..], q[1..])
  }

  /** Difference merge ("p AND NOT q"): heads of `p` below the head of `q` are emitted,
      matched pairs are dropped, and what is left of `p` once `q` runs out is emitted. */
  ghost function AndNotOf(p: seq<int>, q: seq<int>): (r: seq<int>)
    ensures forall x :: x in r ==> x in p
    ensures |r| <= |p|
    decreases |p| + |q|
  {
    if p == [] then []
    else if q == [] then p
    else if p[0] < q[0] then [p[0]] + AndNotOf(p[1..], q)
    else if p[0] > q[0] then AndNotOf(p, q[1..])
    else AndNotOf(p[1..], q[1..])
  }

  // ---------------------------------------------------------------------------
  // Facts about ascending sequences

  lemma AscendingTail(s: seq<int>)
    requires Ascending(s) && s != []
    ensures Ascending(s[1..])
    ensures forall x :: x in s[1..] ==> s[0] < x
  {
  }

  lemma AscendingCons(h: int, t: seq<int>)
    requires Ascending(t)
    requires forall x :: x in t ==> h < x
    ensures Ascending([h] + t)
  {
    var s := [h] + t;
    forall i, j | 0 <= i < j < |s| ensures s[i] < s[j] {
      if i > 0 {
        assert s[i] == t[i - 1] && s[j] == t[j - 1];
      } else {
        assert s[j] == t[j - 1] && t[j - 1] in t;
      }
    }
  }

  /** Appending a value above every element keeps a list ascending. */
  lemma AscendingSnoc(s: seq<int>, x: int)
    requires Ascending(s)
    requires forall y :: y in s ==> y < x
    ensures Ascending(s + [x])
  {
    var t := s + [x];
    forall i, j | 0 <= i < j < |t| ensures t[i] < t[j] {
      if j == |s| {
        assert t[i] == s[i] && s[i] in s;
      }
    }
  }

  /** An ascending list holds each of its elements once: it is as long as its set. */
  lemma {:induction false} AscendingCard(s: seq<int>)
    requires Ascending(s)
    ensures |Elems(s)| == |s|
    decreases |s|
  {
    if s != [] {
      AscendingTail(s);
      AscendingCard(s[1..]);
      assert Elems(s) == {s[0]} + Elems(s[1..]);
      assert s[0] !in Elems(s[1..]);
    }
  }

  /** An ascending list is determined by its elements: two ascending lists with
      the same members are equal. */
  lemma {:induction false} AscendingUnique(a: seq<int>, b: seq<int>)
    requires Ascending(a) && Ascending(b)
    requires forall x :: x in a <==> x in b
    ensures a == b
    decreases |a|
  {
    if b != [] {
      assert b[0] in b;
    }
    if a != [] {
      assert a[0] in a;
      assert b != [] by { assert a[0] in b; }
      AscendingTail(a);
      AscendingTail(b);
      assert a[0] == b[0] by {
        assert a[0] in b;
        assert b[0] in b;
        assert b[0] in a;
      }
      forall x ensures x in a[1..] <==> x in b[1..] {
        if x in a[1..] {
          assert x in b && x != b[0];
        }
        if x in b[1..] {
          assert x in a && x != a[0];
        }
      }
      AscendingUnique(a[1..], b[1..]);
      assert a == [a[0]] + a[1..];
      assert b == [b[0]] + b[1..];
    }
  }

  /** Keeping a sub-list of an ascending list keeps it ascending. */
  lemma {:induction false} KeepAscending(p: seq<int>, q: seq<int>, inQ: bool)
    requires Ascending(p)
    ensures Ascending(Keep(p, q, inQ))
    decreases |p|
  {
    if p != [] {
      AscendingTail(p);
      KeepAscending(p[1..], q, inQ);
      if (p[0] in q) == inQ {
        AscendingCons(p[0], Keep(p[1..], q, inQ));
      }
    }
  }

  /** Dropping from `q` a value that does not occur in `p` does not change what `p` keeps. */
  lemma {:induction false} KeepDropHead(p: seq<int>, q: seq<int>, inQ: bool)
    requires q != [] && q[0] !in p
    ensures Keep(p, q, inQ) == Keep(p, q[1..], inQ)
    decreases |p|
  {
    if p != [] {
      assert p[0] != q[0];
      assert (p[0] in q) == (p[0] in q[1..]) by {
        assert q == [q[0]] + q[1..];
      }
      KeepDropHead(p[1..], q, inQ);
    }
  }

  lemma {:induction false} KeepAgainstEmpty(p: seq<int>)
    ensures Keep(p, [], false) == p
    decreases |p|
  {
    if p != [] {
      KeepAgainstEmpty(p[1..]);
      assert p == [p[0]] + p[1..];
    }
  }

  // ---------------------------------------------------------------------------
  // What the merges compute on ascending inputs

  /** On ascending inputs the intersection merge keeps exactly the elements of `p`
      that are also in `q`, in the order of `p`. */
  lemma {:induction false} IntersectOfIsCommon(p: seq<int>, q: seq<int>)
    requires Ascending(p) && Ascending(q)
    ensures IntersectOf(p, q) == Keep(p, q, true)
    decreases |p| + |q|
  {
    if p == [] {
    } else if q == [] {
      IntersectOfIsCommon(p[1..], q);
    } else {
      AscendingTail(p);
      AscendingTail(q);
      if p[0] == q[0] {
        IntersectOfIsCommon(p[1..], q[1..]);
        KeepDropHead(p[1..], q, true);
      } else if p[0] < q[0] {
        assert p[0] !in q;
        IntersectOfIsCommon(p[1..], q);
      } else {
        assert q[0] !in p;
        IntersectOfIsCommon(p, q[1..]);
        KeepDropHead(p, q, true);
      }
    }
  }

  /** On ascending inputs the difference merge keeps exactly the elements of `p`
      that are not in `q`, in the order of `p`. */
  lemma {:induction false} AndNotOfIsDifference(p: seq<int>, q: seq<int>)
    requires Ascending(p) && Ascending(q)
    ensures AndNotOf(p, q) == Keep(p, q, false)
    decreases |p| + |q|
  {
    if p == [] {
    } else if q == [] {
      KeepAgainstEmpty(p);
    } else {
      AscendingTail(p);
      AscendingTail(q);
      if p[0] < q[0] {
        assert p[0] !in q;
        AndNotOfIsDifference(p[1..], q);
      } else if p[0] > q[0] {
        assert q[0] !in p;
        AndNotOfIsDifference(p, q[1..]);
        KeepDropHead(p, q, false);
      } else {
        AndNotOfIsDifference(p[1..], q[1..]);
        KeepDropHead(p[1..], q, false);
      }
    }
  }

  /** Intersection of ascending lists: ascending, exactly the common elements. */
  lemma IntersectOfAscending(p: seq<int>, q: seq<int>)
    requires Ascending(p) && Ascending(q)
    ensures Ascending(IntersectOf(p, q))
    ensures forall x :: x in IntersectOf(p, q) <==> x in p && x in q
  {
    IntersectOfIsCommon(p, q);
    KeepAscending(p, q, true);
  }

  /** Difference of ascending lists: ascending, exactly the elements of `p` not in `q`. */
  lemma AndNotOfAscending(p: seq<int>, q: seq<int>)
    requires Ascending(p) && Ascending(q)
    ensures Ascending(AndNotOf(p, q))
    ensures forall x :: x in AndNotOf(p, q) <==> x in p && x !in q
  {
    AndNotOfIsDifference(p, q);
    KeepAscending(p, q, false);
  }

  /** Union of ascending lists: ascending (so every element appears once). */
  lemma {:induction false} UnionOfAscending(p: seq<int>, q: seq<int>)
    requires Ascending(p) && Ascending(q)
    ensures Ascending(UnionOf(p, q))
    decreases |p| + |q|
  {
    if p != [] && q != [] {
      AscendingTail(p);
      AscendingTail(q);
      if p[0] < q[0] {
        UnionOfAscending(p[1..], q);
        AscendingCons(p[0], UnionOf(p[1..], q));
      } else if q[0] < p[0] {
        UnionOfAscending(p, q[1..]);
        AscendingCons(q[0], UnionOf(p, q[1..]));
      } else {
        UnionOfAscending(p[1..], q[1..]);
        AscendingCons(p[0], UnionOf(p[1..], q[1..]));
      }
    }
  }

  /** Intersection is commutative on ascending inputs, so the retriever may pass
      the shorter list first without changing the answer. */
  lemma IntersectCommutes(p: seq<int>, q: seq<int>)
    requires Ascending(p) && Ascending(q)
    ensures IntersectOf(p, q) == IntersectOf(q, p)
  {
    IntersectOfAscending(p, q);
    IntersectOfAscending(q, p);
    AscendingUnique(IntersectOf(p, q), IntersectOf(q, p));
  }

  /** Union is commutative on ascending inputs. */
  lemma UnionCommutes(p: seq<int>, q: seq<int>)
    requires Ascending(p) && Ascending(q)
    ensures UnionOf(p, q) == UnionOf(q, p)
  {
    UnionOfAscending(p, q);
    UnionOfAscending(q, p);
    AscendingUnique(UnionOf(p, q), UnionOf(q, p));
  }

  /** A list intersected with itself is itself. */
  lemma {:induction false} IntersectSelf(p: seq<int>)
    ensures IntersectOf(p, p) == p
    decreases |p|
  {
    if p != [] {
      IntersectSelf(p[1..]);
      assert p == [p[0]] + p[1..];
    }
  }

  /** A list united with itself is itself. */
  lemma {:induction false} UnionSelf(p: seq<int>)
    ensures UnionOf(p, p) == p
    decreases |p|
  {
    if p != [] {
      UnionSelf(p[1..]);
      assert p == [p[0]] + p[1..];
    }
  }

  /** A list minus itself is empty. */
  lemma {:induction false} AndNotSelf(p: seq<int>)
    ensures AndNotOf(p, p) == []
    decreases |p|
  {
    if p != [] {
      AndNotSelf(p[1..]);
    }
  }

  // ---------------------------------------------------------------------------
  // The merge loops

  /** One iteration of the union loop, read off the reference definition. */
  lemma UnionOfStep(a: seq<int>, b: seq<int>)
    ensures a != [] && (b == [] || a[0] < b[0]) ==> UnionOf(a, b) == [a[0]] + UnionOf(a[1..], b)
    ensures b != [] && (a == [] || b[0] < a[0]) ==> UnionOf(a, b) == [b[0]] + UnionOf(a, b[1..])
    ensures a != [] && b != [] && a[0] == b[0] ==> UnionOf(a, b) == [a[0]] + UnionOf(a[1..], b[1..])
  {
    if a != [] && b == [] {
      assert UnionOf(a[1..], b) == a[1..];
      assert a == [a[0]] + a[1..];
    }
    if a == [] && b != [] {
      assert b == [b[0]] + b[1..];
    }
  }

  lemma AppendAssoc<T>(a: seq<T>, b: seq<T>, c: seq<T>)
    ensures a + b + c == a + (b + c)
  {
  }

  /** `_intersect`: the two-pointer intersection loop. */
  method Intersect(p1: seq<int>, p2: seq<int>) returns (result: seq<int>)
    ensures result == IntersectOf(p1, p2)
    ensures Ascending(p1) && Ascending(p2) ==>
      Ascending(result) && forall x :: x in result <==> x in p1 && x in p2
  {
    result := [];
    var i, j := 0, 0;
    while i < |p1| && j < |p2|
      invariant 0 <= i <= |p1| && 0 <= j <= |p2|
      invariant result + IntersectOf(p1[i..], p2[j..]) == IntersectOf(p1, p2)
      decreases (|p1| - i) + (|p2| - j)
    {
      assert p1[i..][1..] == p1[i + 1..] && p2[j..][1..] == p2[j + 1..];
      if p1[i] == p2[j] {
        AppendAssoc(result, [p1[i]], IntersectOf(p1[i + 1..], p2[j + 1..]));
        result := result + [p1[i]];
        i, j := i + 1, j + 1;
      } else if p1[i] < p2[j] {
        i := i + 1;
      } else {
        j := j + 1;
      }
    }
    if Ascending(p1) && Ascending(p2) {
      IntersectOfAscending(p1, p2);
    }
  }

  /** `_union`: the two-pointer union loop, which runs until both lists are used up. */
  method Union(p1: seq<int>, p2: seq<int>) returns (result: seq<int>)
    ensures result == UnionOf(p1, p2)
    ensures Ascending(p1) && Ascending(p2) ==> Ascending(result)
    ensures forall x :: x in result <==> x in p1 || x in p2
  {
    result := [];
    var i, j := 0, 0;
    while i < |p1| || j < |p2|
      invariant 0 <= i <= |p1| && 0 <= j <= |p2|
      invariant result + UnionOf(p1[i..], p2[j..]) == UnionOf(p1, p2)
      decreases (|p1| - i) + (|p2| - j)
    {
      UnionOfStep(p1[i..], p2[j..]);
      assert i < |p1| ==> p1[i..][1..] == p1[i + 1..];
      assert j < |p2| ==> p2[j..][1..] == p2[j + 1..];
      if i < |p1| && (j >= |p2| || p1[i] < p2[j]) {
        AppendAssoc(result, [p1[i]], UnionOf(p1[i + 1..], p2[j..]));
        result := result + [p1[i]];
        i := i + 1;
      } else if j < |p2| && (i >= |p1| || p2[j] < p1[i]) {
        AppendAssoc(result, [p2[j]], UnionOf(p1[i..], p2[j + 1..]));
        result := result + [p2[j]];
        j := j + 1;
      } else {
        AppendAssoc(result, [p1[i]], UnionOf(p1[i + 1..], p2[j + 1..]));
        result := result + [p1[i]];
        i, j := i + 1, j + 1;
      }
    }
    if Ascending(p1) && Ascending(p2) {
      UnionOfAscending(p1, p2);
    }
  }

  /** `_and_not`: the merge loop followed by the tail loop that copies what is left of `p1`. */
  method AndNot(p1: seq<int>, p2: seq<int>) returns (result: seq<int>)
    ensures result == AndNotOf(p1, p2)
    ensures Ascending(p1) && Ascending(p2) ==>
      Ascending(result) && forall x :: x in result <==> x in p1 && x !in p2
  {
    result := [];
    var i, j := 0, 0;
    while i < |p1| && j < |p2|
      invariant 0 <= i <= |p1| && 0 <= j <= |p2|
      invariant result + AndNotOf(p1[i..], p2[j..]) == AndNotOf(p1, p2)
      decreases (|p1| - i) + (|p2| - j)
    {
      assert p1[i..][1..] == p1[i + 1..] && p2[j..][1..] == p2[j + 1..];
      if p1[i] < p2[j] {
        AppendAssoc(result, [p1[i]], AndNotOf(p1[i + 1..], p2[j..]));
        result := result + [p1[i]];
        i := i + 1;
      } else if p1[i] > p2[j] {
        j := j + 1;
      } else {
        i, j := i + 1, j + 1;
      }
    }
    while i < |p1|
      invariant 0 <= i <= |p1|
      invariant result + p1[i..] == AndNotOf(p1, p2)
    {
      assert p1[i..] == [p1[i]] + p1[i + 1..];
      AppendAssoc(result, [p1[i]], p1[i + 1..]);
      result := result + [p1[i]];
      i := i + 1;
    }
    if Ascending(p1) && Ascending(p2) {
      AndNotOfAscending(p1, p2);
    }
  }
}
