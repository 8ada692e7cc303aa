/**
  The string routines the index builder and the query evaluator rely on, as
  Python defines them: whitespace `str.split()`, `str.strip()`, `str.split(sep)`,
  `sep.join(parts)`, and the two non-greedy tag patterns `<TAG>(.*?)</TAG>`
  used with `re.search` (first match) and `re.findall` (all matches).
 */
module Text {
  import opened Options

  /** Python's `str.isspace` for one character: ASCII tab to carriage return,
      the separators 0x1C-0x1F, space, NEL, no-break space and the Unicode spaces. */
  predicate IsSpace(c: char) {
    var n := c as int;
    || 0x09 <= n <= 0x0D
    || 0x1C <= n <= 0x20
    || n == 0x85 || n == 0xA0 || n == 0x1680
    || 0x2000 <= n <= 0x200A
    || n == 0x2028 || n == 0x2029 || n == 0x202F || n == 0x205F || n == 0x3000
  }

  predicate NoSpace(w: string) {
    forall k :: 0 <= k < |w| ==> !IsSpace(w[k])
  }

  // ---------------------------------------------------------------------------
  // str.split() with no separator

  /** Length of the leading run of non-space characters of `s`. */
  function RunLength(s: string): (n: nat)
    ensures n <= |s|
    ensures forall k :: 0 <= k < n ==> !IsSpace(s[k])
    ensures n < |s| ==> IsSpace(s[n])
  {
    if s == [] || IsSpace(s[0]) then 0 else 1 + RunLength(s[1..])
  }

  /** `s.split()`: the maximal runs of non-space characters, in order. */
  function Words(s: string): (r: seq<string>)
    ensures forall k :: 0 <= k < |r| ==> r[k] != [] && NoSpace(r[k])
    decreases |s|
  {
    if s == [] then []
    else if IsSpace(s[0]) then Words(s[1..])
    else
      var n := RunLength(s);
      [s[..n]] + Words(s[n..])
  }

  /** `sep.join(parts)`. */
  function JoinWith(parts: seq<string>, sep: string): string {
    if parts == [] then []
    else if |parts| == 1 then parts[0]
    else parts[0] + sep + JoinWith(parts[1..], sep)
  }

  /** The first part opens `sep.join(parts)` and the last part closes it. */
  lemma {:induction false} JoinWithEnds(parts: seq<string>, sep: string)
    requires parts != []
    ensures var r := JoinWith(parts, sep); |parts[0]| <= |r| && r[..|parts[0]|] == parts[0]
    ensures var r, last := JoinWith(parts, sep), parts[|parts| - 1]; |last| <= |r| && r[|r| - |last|..] == last
  {
    if |parts| > 1 {
      JoinWithEnds(parts[1..], sep);
      var r, rest, last := JoinWith(parts, sep), JoinWith(parts[1..], sep), parts[|parts| - 1];
      assert r == parts[0] + sep + rest;
      assert parts[1..][|parts| - 2] == last;
      assert r[..|parts[0]|] == parts[0];
      assert r[|r| - |last|..] == rest[|rest| - |last|..];
    }
  }

  /** The words of each part, one part after another. */
  function WordsOfEach(parts: seq<string>): seq<string> {
    if parts == [] then [] else Words(parts[0]) + WordsOfEach(parts[1..])
  }

  lemma RunLengthBeforeSpace(a: string, c: char, b: string)
    requires IsSpace(c)
    ensures RunLength(a + [c] + b) == RunLength(a)
  {
    var s := a + [c] + b;
    var n := RunLength(a);
    assert IsSpace(s[n]);
    assert forall k :: 0 <= k < n ==> s[k] == a[k];
  }

  /** A whitespace character between two strings separates their words: nothing
      is glued across it and nothing is lost. */
  lemma {:induction false} WordsAroundSpace(a: string, c: char, b: string)
    requires IsSpace(c)
    ensures Words(a + [c] + b) == Words(a) + Words(b)
    decreases |a|
  {
    var s := a + [c] + b;
    if a == [] {
      assert s[1..] == b;
    } else if IsSpace(a[0]) {
      assert s[1..] == a[1..] + [c] + b;
      WordsAroundSpace(a[1..], c, b);
    } else {
      RunLengthBeforeSpace(a, c, b);
      var n := RunLength(a);
      assert s[..n] == a[..n];
      assert s[n..] == a[n..] + [c] + b;
      WordsAroundSpace(a[n..], c, b);
    }
  }

  /** A string of whitespace only has no words. */
  lemma {:induction false} BlankHasNoWords(s: string)
    requires forall k :: 0 <= k < |s| ==> IsSpace(s[k])
    ensures Words(s) == []
    decreases |s|
  {
    if s != [] {
      BlankHasNoWords(s[1..]);
    }
  }

  /** A non-empty run without whitespace is one word, kept whole. With
      `WordsAroundSpace` and `BlankHasNoWords` this fixes `Words` on every string. */
  lemma {:induction false} OneWord(w: string)
    requires w != [] && NoSpace(w)
    ensures Words(w) == [w]
  {
    RunLengthOfWord(w);
    assert w[..|w|] == w && w[|w|..] == [];
    assert Words(w) == [w[..|w|]] + Words(w[|w|..]);
  }

  lemma {:induction false} RunLengthOfWord(w: string)
    requires NoSpace(w)
    ensures RunLength(w) == |w|
    decreases |w|
  {
    if w != [] {
      RunLengthOfWord(w[1..]);
    }
  }

  /** Splitting the space-joined parts yields the words of each part in turn. */
  lemma {:induction false} WordsOfJoin(parts: seq<string>)
    ensures Words(JoinWith(parts, " ")) == WordsOfEach(parts)
  {
    if |parts| == 1 {
      assert WordsOfEach(parts[1..]) == [];
    } else if |parts| > 1 {
      WordsOfJoin(parts[1..]);
      WordsAroundSpace(parts[0], ' ', JoinWith(parts[1..], " "));
    }
  }

  // ---------------------------------------------------------------------------
  // str.strip()

  /** The first position at or after `i` that does not hold whitespace, or `|s|`. */
  function TextStart(s: string, i: nat): (j: nat)
    requires i <= |s|
    ensures i <= j <= |s|
    ensures forall k :: i <= k < j ==> IsSpace(s[k])
    ensures j < |s| ==> !IsSpace(s[j])
    decreases |s| - i
  {
    if i < |s| && IsSpace(s[i]) then TextStart(s, i + 1) else i
  }

  /** The position just after the last non-whitespace character of `s[lo..j]`, or `lo`. */
  function TextEnd(s: string, lo: nat, j: nat): (e: nat)
    requires lo <= j <= |s|
    ensures lo <= e <= j
    ensures forall k :: e <= k < j ==> IsSpace(s[k])
    ensures lo < e ==> !IsSpace(s[e - 1])
  {
    if lo < j && IsSpace(s[j - 1]) then TextEnd(s, lo, j - 1) else j
  }

  /** `r` is the slice of `s` at offset `i`, and everything around it is whitespace. */
  ghost predicate StrippedAt(s: string, r: string, i: int) {
    && 0 <= i <= |s| - |r|
    && r == s[i..i + |r|]
    && (forall k :: 0 <= k < i ==> IsSpace(s[k]))
    && (forall k :: i + |r| <= k < |s| ==> IsSpace(s[k]))
  }

  /** `s.strip()`: `s` without its leading and trailing whitespace. */
  function Strip(s: string): (r: string)
    ensures exists i :: StrippedAt(s, r, i)
    ensures r != [] ==> !IsSpace(r[0]) && !IsSpace(r[|r| - 1])
    ensures r == [] <==> forall k :: 0 <= k < |s| ==> IsSpace(s[k])
  {
    var i := TextStart(s, 0);
    var e := TextEnd(s, i, |s|);
    assert StrippedAt(s, s[i..e], i);
    s[i..e]
  }

  // ---------------------------------------------------------------------------
  // Substring search

  /** `pat` occurs in `s` starting at position `k`. */
  predicate OccursAt(s: string, pat: string, k: int) {
    0 <= k && k + |pat| <= |s| && s[k..k + |pat|] == pat
  }

  ghost predicate Contains(s: string, pat: string) {
    exists k :: OccursAt(s, pat, k)
  }

  /** The first position at or after `from` where `pat` occurs. */
  function Find(s: string, pat: string, from: nat): (r: Option<nat>)
    requires from <= |s|
    ensures r.Some? ==> from <= r.value && OccursAt(s, pat, r.value)
    ensures r.Some? ==> forall k :: from <= k < r.value ==> !OccursAt(s, pat, k)
    ensures r.None? ==> forall k :: from <= k ==> !OccursAt(s, pat, k)
    decreases |s| - from
  {
    if from + |pat| > |s| then None
    else if s[from..from + |pat|] == pat then Some(from)
    else if from == |s| then None
    else Find(s, pat, from + 1)
  }

  /** An occurrence inside a slice is an occurrence in the whole string, shifted. */
  lemma OccursInSlice(s: string, pat: string, i: nat, j: nat, k: int)
    requires i <= j <= |s| && OccursAt(s[i..j], pat, k)
    ensures OccursAt(s, pat, i + k)
  {
    var u, w := s[i..j][k..k + |pat|], s[i + k..i + k + |pat|];
    forall t | 0 <= t < |pat| ensures u[t] == w[t] {
      assert s[i..j][k + t] == s[i + k + t];
    }
    assert u == w;
  }

  // ---------------------------------------------------------------------------
  // str.split(sep)

  /** `s.split(sep)`: the pieces between the non-overlapping occurrences of `sep`,
      found left to right. */
  function SplitOn(s: string, sep: string): (r: seq<string>)
    requires sep != []
    ensures |r| >= 1
    ensures JoinWith(r, sep) == s
    ensures forall i :: 0 <= i < |r| ==> !Contains(r[i], sep)
    decreases |s|
  {
    match Find(s, sep, 0)
    case None => [s]
    case Some(k) =>
      var rest := SplitOn(s[k + |sep|..], sep);
      var r := [s[..k]] + rest;
      assert r[1..] == rest && |r| > 1;
      assert JoinWith(r, sep) == s[..k] + sep + JoinWith(rest, sep);
      assert s == s[..k] + sep + s[k + |sep|..];
      assert !Contains(s[..k], sep) by {
        forall m | OccursAt(s[..k], sep, m) ensures false {
          assert s[..k] == s[0..k];
          OccursInSlice(s, sep, 0, k, m);
        }
      }
      r
  }

  // ---------------------------------------------------------------------------
  // The non-greedy tag patterns

  /** `open + v + close` occurs at `p`, and no `close` starts before the one that ends it:
      `v` is the shortest text the non-greedy group can take from `p`. */
  predicate FirstMatchAt(s: string, open: string, close: string, p: int, v: string) {
    && OccursAt(s, open + v + close, p)
    && forall k :: p + |open| <= k < p + |open| + |v| ==> !OccursAt(s, close, k)
  }

  /** Where the non-greedy pattern first matches: at `p`, the first `open`, with its
      body running up to `q`, the first `close` after that `open`. */
  function NextMatch(s: string, open: string, close: string): (m: Option<(nat, nat)>)
    ensures m.Some? ==> m.value.0 + |open| <= m.value.1 && m.value.1 + |close| <= |s|
  {
    match Find(s, open, 0)
    case None => None
    case Some(p) =>
      match Find(s, close, p + |open|)
      case None => None
      case Some(q) => Some((p, q))
  }

  /** `re.search(open + '(.*?)' + close, s, re.DOTALL).group(1)`: the text between the
      first `open` and the first `close` after it, or None. */
  function Between(s: string, open: string, close: string): (r: Option<string>)
    requires close != []
    ensures r.Some? ==> Find(s, open, 0).Some? && FirstMatchAt(s, open, close, Find(s, open, 0).value, r.value)
    ensures r.Some? ==> !Contains(r.value, close)
    ensures r.None? ==>
      forall p, q :: OccursAt(s, open, p) && OccursAt(s, close, q) ==> q < p + |open|
  {
    match NextMatch(s, open, close)
    case None =>
      NoMatch(s, open, close);
      None
    case Some((p, q)) =>
      MatchFound(s, open, close, p, q);
      Some(s[p + |open|..q])
  }

  lemma MatchFound(s: string, open: string, close: string, p: nat, q: nat)
    requires close != [] && NextMatch(s, open, close) == Some((p, q))
    ensures Find(s, open, 0) == Some(p)
    ensures FirstMatchAt(s, open, close, p, s[p + |open|..q])
    ensures !Contains(s[p + |open|..q], close)
  {
    var v := s[p + |open|..q];
    assert s[p..q + |close|] == open + v + close;
    assert !Contains(v, close) by {
      forall m | OccursAt(v, close, m) ensures false {
        OccursInSlice(s, close, p + |open|, q, m);
      }
    }
  }

  lemma NoMatch(s: string, open: string, close: string)
    requires close != [] && NextMatch(s, open, close).None?
    ensures forall p, q :: OccursAt(s, open, p) && OccursAt(s, close, q) ==> q < p + |open|
  {
  }

  /** `re.findall(open + '(.*?)' + close, s, re.DOTALL)`: each match's text, scanning on
      after the end of the previous match. */
  function AllBetween(s: string, open: string, close: string): (r: seq<string>)
    requires close != []
    decreases |s|
  {
    var m := NextMatch(s, open, close);
    if m.None? then [] else [s[m.value.0 + |open|..m.value.1]] + AllBetween(s[m.value.1 + |close|..], open, close)
  }

  /** No body `re.findall` returns holds `close`: each one stops at the first `close`. */
  lemma {:induction false} AllBetweenBodiesLackClose(s: string, open: string, close: string)
    requires close != []
    ensures forall i :: 0 <= i < |AllBetween(s, open, close)| ==> !Contains(AllBetween(s, open, close)[i], close)
    decreases |s|
  {
    match NextMatch(s, open, close)
    case None =>
    case Some((p, q)) =>
      var x, t := s[p + |open|..q], s[q + |close|..];
      AllBetweenAt(s, open, close, p, q, x, t);
      MatchFound(s, open, close, p, q);
      AllBetweenBodiesLackClose(t, open, close);
      var r := AllBetween(s, open, close);
      assert r[0] == x && r[1..] == AllBetween(t, open, close);
  }

  /** `Find` returns the first occurrence: an occurrence with none before it is the answer. */
  lemma FindFirst(s: string, pat: string, from: nat, p: int)
    requires from <= p && OccursAt(s, pat, p)
    requires forall k :: from <= k < p ==> !OccursAt(s, pat, k)
    ensures Find(s, pat, from) == Some(p)
  {
  }

  /** A slice of `u + v` that lies inside `u` or inside `v` is a slice of that part. */
  lemma SliceOfConcat(u: string, v: string, i: nat, j: nat)
    ensures i <= j <= |u| ==> (u + v)[i..j] == u[i..j]
    ensures |u| <= i <= j <= |u| + |v| ==> (u + v)[i..j] == v[i - |u|..j - |u|]
  {
  }

  /** The first occurrence of `pat` in `s = u + pat + v`, when none starts inside `u`
      (within `u + pat`), is the one right after `u`. */
  lemma FindAfterPrefix(s: string, u: string, pat: string, v: string, from: nat)
    requires s == u + pat + v && from <= |u|
    requires forall k :: from <= k < |u| ==> !OccursAt(u + pat, pat, k)
    ensures Find(s, pat, from) == Some(|u|)
  {
    SliceOfConcat(u + pat, v, |u|, |u| + |pat|);
    assert (u + pat)[|u|..|u| + |pat|] == pat;
    forall k | from <= k < |u| ensures !OccursAt(s, pat, k) {
      SliceOfConcat(u + pat, v, k, k + |pat|);
      assert !OccursAt(u + pat, pat, k);
    }
    FindFirst(s, pat, from, |u|);
  }

  /** `re.findall` finds something exactly when `re.search` does, and its first body
      is the one `re.search` returns. */
  lemma AllBetweenStartsWithBetween(s: string, open: string, close: string)
    requires close != []
    ensures AllBetween(s, open, close) != [] <==> Between(s, open, close).Some?
    ensures AllBetween(s, open, close) != [] ==> AllBetween(s, open, close)[0] == Between(s, open, close).value
  {
    match NextMatch(s, open, close)
    case None =>
    case Some((p, q)) =>
      var x, t := s[p + |open|..q], s[q + |close|..];
      AllBetweenAt(s, open, close, p, q, x, t);
      assert Between(s, open, close) == Some(x);
  }

  /** One step of `re.findall`: the first match's body, then the matches after it. */
  lemma AllBetweenAt(s: string, open: string, close: string, p: nat, q: nat, x: string, t: string)
    requires close != [] && NextMatch(s, open, close) == Some((p, q))
    requires x == s[p + |open|..q] && t == s[q + |close|..]
    ensures AllBetween(s, open, close) == [x] + AllBetween(t, open, close)
  {
  }

  /** A body without `close` inside `x + close` leaves no `close` starting inside it
      once `h` is put in front. */
  lemma NoCloseInBody(h: string, x: string, close: string)
    requires forall k :: 0 <= k < |x| ==> !OccursAt(x + close, close, k)
    ensures forall k :: |h| <= k < |h + x| ==> !OccursAt(h + x + close, close, k)
  {
    assert h + x + close == h + (x + close);
    forall k | |h| <= k < |h + x| ensures !OccursAt(h + x + close, close, k) {
      SliceOfConcat(h, x + close, k, k + |close|);
      assert !OccursAt(x + close, close, k - |h|);
    }
  }

  /** Where the pattern first matches in `a + open + x + close + b`. */
  lemma NextMatchOf(a: string, x: string, b: string, open: string, close: string)
    requires forall k :: 0 <= k < |a| ==> !OccursAt(a + open, open, k)
    requires forall k :: 0 <= k < |x| ==> !OccursAt(x + close, close, k)
    ensures NextMatch(a + open + x + close + b, open, close) == Some((|a|, |a| + |open| + |x|))
  {
    var s := a + open + x + close + b;
    assert s == a + open + (x + close + b);
    FindAfterPrefix(s, a, open, x + close + b, 0);
    NoCloseInBody(a + open, x, close);
    FindAfterPrefix(s, a + open + x, close, b, |a| + |open|);
  }

  /** `re.findall` takes the leftmost match and carries on after it: when the text
      before the first `open` holds no `open` and the matched body holds no `close`,
      the bodies are that body followed by the bodies of the rest. */
  lemma AllBetweenOfMatch(a: string, x: string, b: string, open: string, close: string)
    requires close != []
    requires forall k :: 0 <= k < |a| ==> !OccursAt(a + open, open, k)
    requires forall k :: 0 <= k < |x| ==> !OccursAt(x + close, close, k)
    ensures AllBetween(a + open + x + close + b, open, close) == [x] + AllBetween(b, open, close)
  {
    var s := a + open + x + close + b;
    var p, q := |a|, |a| + |open| + |x|;
    NextMatchOf(a, x, b, open, close);
    assert s[p + |open|..q] == x;
    assert s[q + |close|..] == b;
    AllBetweenAt(s, open, close, p, q, x, b);
  }
}
