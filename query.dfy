/** What `search` and `getStringByPositionInFile` compute over an index, and
    what they guarantee when the index was built from the document's own
    tokens. The exceptions Java would throw (`ArrayList.get` and
    `String.substring` out of range) are `Failure` results. */
module Query {
  import opened JavaLang
  import opened Hashing
  import opened Index

  /** The exceptions a query can raise. */
  datatype Fault =
    | IndexOutOfBounds(index: int)              // ArrayList.get
    | StringIndexOutOfBounds(begin: int, end: int)  // String.substring

  datatype Result<T> = Success(value: T) | Failure(fault: Fault)

  /** `getStringByPositionInFile`: the text from the start of the word of
      rank `startOrder` to the end of the word of rank `endOrder`, or to the
      end of the document when `endOrder` is the last rank. */
  function GetStringByPosition(doc: string, b: Built, startOrder: int, endOrder: int): (r: Result<string>)
    ensures !(0 <= startOrder < |b.spans|) ==> r == Failure(IndexOutOfBounds(startOrder))
    ensures 0 <= startOrder < |b.spans| && !(0 <= endOrder < |b.spans|) ==> r == Failure(IndexOutOfBounds(endOrder))
  {
    if !(0 <= startOrder < |b.spans|) then Failure(IndexOutOfBounds(startOrder))
    else if !(0 <= endOrder < |b.spans|) then Failure(IndexOutOfBounds(endOrder))
    else
      var startPosition := b.spans[startOrder].start;
      var endPosition := b.spans[endOrder].end;
      if endOrder == b.count - 1 then
        if 0 <= startPosition <= |doc| then Success(doc[startPosition..])
        else Failure(StringIndexOutOfBounds(startPosition, |doc|))
      else if 0 <= startPosition <= endPosition <= |doc| then Success(doc[startPosition..endPosition])
      else Failure(StringIndexOutOfBounds(startPosition, endPosition))
  }

  function Max(a: int, b: int): int {
    if a < b then b else a
  }

  /** First rank of the context window, `Math.max(order - contextWords, 0)`
      in `int` arithmetic. */
  function StartOrder(order: int, k: int): (r: int)
    ensures 0 <= r
    ensures IsInt(order - k) ==> order - k <= r && (r == 0 || r == order - k)
  {
    Max(Wrap(order - k), 0)
  }

  /** Last rank of the context window, as written: the guard compares with
      `> count`, so `order + k == count` yields `count` itself. */
  function EndOrder(order: int, k: int, count: int): (r: int)
    ensures IsInt(order + k) && order + k <= count ==> r == order + k
    ensures IsInt(order + k) && order + k > count ==> r == count - 1
  {
    if Wrap(order + k) > count then count - 1 else Wrap(order + k)
  }

  /** The collision check: the text of rank `order` (read with
      `getStringByPositionInFile(order, order)`) equals the query, ignoring case. */
  predicate IsMatch(doc: string, b: Built, query: string, order: int) {
    var w := GetStringByPosition(doc, b, order, order);
    w.Success? && EqualsIgnoreCase(Lower(query), w.value)
  }

  /** The context string reported for a match at rank `order`. */
  function ContextAt(doc: string, b: Built, k: int, order: int): Result<string> {
    GetStringByPosition(doc, b, StartOrder(order, k), EndOrder(order, k, b.count))
  }

  /** One iteration of the loop of `search`: nothing for a collision, the
      context for a match, or the exception either lookup raises. */
  function Visit(doc: string, b: Built, query: string, k: int, order: int): Result<seq<string>> {
    var w := GetStringByPosition(doc, b, order, order);
    if w.Failure? then Failure(w.fault)
    else if !EqualsIgnoreCase(Lower(query), w.value) then Success([])
    else
      var c := ContextAt(doc, b, k, order);
      if c.Failure? then Failure(c.fault) else Success([c.value])
  }

  /** The loop of `search` over the ranks `orders`: the strings collected so
      far, or the first exception. */
  function Scan(doc: string, b: Built, query: string, k: int, orders: seq<int>): (r: Result<seq<string>>)
    ensures r.Success? ==> |r.value| <= |orders|
  {
    if orders == [] then Success([])
    else
      var prev := Scan(doc, b, query, k, orders[..|orders| - 1]);
      if prev.Failure? then prev
      else
        var v := Visit(doc, b, query, k, orders[|orders| - 1]);
        if v.Failure? then Failure(v.fault) else Success(prev.value + v.value)
  }

  /** The ranks stored under the query's key (none when there is no bucket). */
  function Bucket(b: Built, query: string): seq<int> {
    if Hash(query) in b.wordMap then b.wordMap[Hash(query)] else []
  }

  /** `search`: an unknown key gives no strings; otherwise at most one string
      per rank of the bucket. */
  function Search(doc: string, b: Built, query: string, k: int): (r: Result<seq<string>>)
    ensures Hash(query) !in b.wordMap ==> r == Success([])
    ensures r.Success? ==> |r.value| <= |Bucket(b, query)|
  {
    var key := Hash(query);
    if key !in b.wordMap then Success([])
    else Scan(doc, b, query, k, b.wordMap[key])
  }

  /** The ranks of `orders` that pass the collision check, in order. */
  function MatchedRanks(doc: string, b: Built, query: string, orders: seq<int>): seq<int> {
    if orders == [] then []
    else
      var o := orders[|orders| - 1];
      MatchedRanks(doc, b, query, orders[..|orders| - 1]) + (if IsMatch(doc, b, query, o) then [o] else [])
  }

  /** The matched ranks are the ranks of `orders` that pass the collision
      check, and no more of them than `orders`. */
  lemma {:induction false} MatchedRanksMembers(doc: string, b: Built, query: string, orders: seq<int>)
    ensures forall r :: r in MatchedRanks(doc, b, query, orders) <==> r in orders && IsMatch(doc, b, query, r)
    ensures |MatchedRanks(doc, b, query, orders)| <= |orders|
  {
    if orders != [] {
      var p := orders[..|orders| - 1];
      var o := orders[|orders| - 1];
      MatchedRanksMembers(doc, b, query, p);
      assert orders == p + [o];
    }
  }

  /** The matched ranks keep the order of `orders`: ascending when it is. */
  lemma {:induction false} MatchedRanksAscending(doc: string, b: Built, query: string, orders: seq<int>)
    requires Ascending(orders)
    ensures Ascending(MatchedRanks(doc, b, query, orders))
  {
    if orders != [] {
      var p := orders[..|orders| - 1];
      var o := orders[|orders| - 1];
      assert Ascending(p);
      MatchedRanksAscending(doc, b, query, p);
      MatchedRanksMembers(doc, b, query, p);
      var m := MatchedRanks(doc, b, query, p);
      forall i | 0 <= i < |m|
        ensures m[i] < o
      {
        assert m[i] in m;
        var j :| 0 <= j < |p| && p[j] == m[i];
        assert orders[j] == p[j];
      }
    }
  }

  /** The loop of `search` succeeds exactly when no iteration raises, and then
      returns one context per matched rank, in the order of `orders`. */
  lemma {:induction false} ScanResult(doc: string, b: Built, query: string, k: int, orders: seq<int>)
    ensures Scan(doc, b, query, k, orders).Success? <==>
      forall i :: 0 <= i < |orders| ==> Visit(doc, b, query, k, orders[i]).Success?
    ensures Scan(doc, b, query, k, orders).Success? ==>
      |Scan(doc, b, query, k, orders).value| == |MatchedRanks(doc, b, query, orders)| &&
      forall j :: 0 <= j < |MatchedRanks(doc, b, query, orders)| ==>
        ContextAt(doc, b, k, MatchedRanks(doc, b, query, orders)[j]) ==
        Success(Scan(doc, b, query, k, orders).value[j])
  {
    if orders != [] {
      var p := orders[..|orders| - 1];
      ScanResult(doc, b, query, k, p);
      assert forall i :: 0 <= i < |p| ==> orders[i] == p[i];
    }
  }

  /** The loop of `search` one rank further on. */
  lemma ScanSnoc(doc: string, b: Built, query: string, k: int, orders: seq<int>, i: int)
    requires 0 <= i < |orders|
    ensures var prev := Scan(doc, b, query, k, orders[..i]);
      var v := Visit(doc, b, query, k, orders[i]);
      Scan(doc, b, query, k, orders[..i + 1]) ==
      if prev.Failure? then prev
      else if v.Failure? then Failure(v.fault)
      else Success(prev.value + v.value)
  {
    assert orders[..i + 1][..i] == orders[..i];
  }

  /** Once the loop of `search` has raised, it stays raised: the first
      exception is the one reported. */
  lemma {:induction false} ScanFailurePersists(doc: string, b: Built, query: string, k: int, orders: seq<int>, j: int)
    requires 0 <= j <= |orders|
    requires Scan(doc, b, query, k, orders[..j]).Failure?
    ensures Scan(doc, b, query, k, orders) == Scan(doc, b, query, k, orders[..j])
    decreases |orders| - j
  {
    if j < |orders| {
      assert orders[..|orders| - 1][..j] == orders[..j];
      ScanFailurePersists(doc, b, query, k, orders[..|orders| - 1], j);
    } else {
      assert orders[..j] == orders;
    }
  }

  /** On an index whose offset table fits the document, rank `r` reads back
      as its own word, except the last rank, which reads back as the rest of
      the document: its word followed by whatever text comes after it. */
  lemma RankText(doc: string, b: Built, words: seq<string>, r: int)
    requires SpansFit(doc, b, words) && 0 <= r < |words|
    ensures r < |words| - 1 ==> GetStringByPosition(doc, b, r, r) == Success(words[r])
    ensures r == |words| - 1 ==>
      GetStringByPosition(doc, b, r, r) == Success(doc[b.spans[r].start..]) &&
      doc[b.spans[r].start..] == words[r] + doc[b.spans[r].end..]
  {
    var s := b.spans[r];
    assert doc[s.start..] == doc[s.start..s.end] + doc[s.end..];
  }

  /** Hash collisions are filtered: a rank other than the last passes the
      check exactly when its word equals the query, ignoring case. */
  lemma CollisionsFiltered(doc: string, b: Built, words: seq<string>, query: string, r: int)
    requires SpansFit(doc, b, words) && 0 <= r < |words| - 1
    ensures IsMatch(doc, b, query, r) <==> EqualsIgnoreCase(query, words[r])
  {
    RankText(doc, b, words, r);
    LowerIdempotent(query);
  }

  /** A query equal to the last word (ignoring case) matches the last rank
      only if no text at all follows that word in the document. */
  lemma LastWordMatch(doc: string, b: Built, words: seq<string>, query: string)
    requires SpansFit(doc, b, words) && words != []
    requires EqualsIgnoreCase(query, words[|words| - 1])
    ensures IsMatch(doc, b, query, |words| - 1) <==> b.spans[|words| - 1].end == |doc|
  {
    var n := |words|;
    var w, s := words[n - 1], b.spans[n - 1];
    var rest := doc[s.end..];
    RankText(doc, b, words, n - 1);
    assert IsMatch(doc, b, query, n - 1) <==> EqualsIgnoreCase(query, w + rest) by {
      LowerIdempotent(query);
    }
    if rest == [] {
      assert w + rest == w;
    }
  }

  /** The context window of a match at rank `r` with `k >= 0` words of context
      (no overflow, and `r + k` not equal to the word count): ranks
      `max(r - k, 0)` to `r + k`, cut at the last rank; the text runs from the
      start of the first word to the end of the last one, or to the end of the
      document when the window reaches the last rank. */
  lemma ContextWindow(doc: string, b: Built, words: seq<string>, r: int, k: int)
    requires SpansFit(doc, b, words) && 0 <= r < |words|
    requires 0 <= k && r + k <= IntMax && r + k != |words|
    ensures var n := |words|;
      var first := if r - k < 0 then 0 else r - k;
      var last := if r + k > n then n - 1 else r + k;
      var end := if last == n - 1 then |doc| else b.spans[last].end;
      0 <= first <= r <= last < n && b.spans[first].start <= end &&
      ContextAt(doc, b, k, r) == Success(doc[b.spans[first].start..end])
  {
    var n := |words|;
    var first := if r - k < 0 then 0 else r - k;
    var last := if r + k > n then n - 1 else r + k;
    assert StartOrder(r, k) == first && EndOrder(r, k, n) == last by {
      assert Wrap(r - k) == r - k && Wrap(r + k) == r + k;
    }
    SpansMonotone(doc, b, words, first, last);
    assert doc[b.spans[first].start..] == doc[b.spans[first].start..|doc|];
  }

  /** Widening the context never shrinks it: with more context words (both
      widths clear of the off-by-one), the context of a match is the old
      context with text added on either side. */
  lemma ContextGrows(doc: string, b: Built, words: seq<string>, r: int, k: int, k': int)
    requires SpansFit(doc, b, words) && 0 <= r < |words|
    requires 0 <= k <= k' && r + k' <= IntMax
    requires r + k != |words| && r + k' != |words|
    ensures ContextAt(doc, b, k, r).Success?
    ensures ContextAt(doc, b, k', r).Success?
    ensures IsInfix(ContextAt(doc, b, k, r).value, ContextAt(doc, b, k', r).value)
  {
    var n, spans := |words|, b.spans;
    var f, f' := (if r - k < 0 then 0 else r - k), (if r - k' < 0 then 0 else r - k');
    var l, l' := (if r + k > n then n - 1 else r + k), (if r + k' > n then n - 1 else r + k');
    var e := if l == n - 1 then |doc| else spans[l].end;
    var e' := if l' == n - 1 then |doc| else spans[l'].end;
    var s, s' := spans[f].start, spans[f'].start;
    ContextWindow(doc, b, words, r, k);
    ContextWindow(doc, b, words, r, k');
    assert ContextAt(doc, b, k, r) == Success(doc[s..e]);
    assert ContextAt(doc, b, k', r) == Success(doc[s'..e']);
    SpansMonotone(doc, b, words, f', f);
    SpansMonotone(doc, b, words, f, l);
    SpansMonotone(doc, b, words, l, l');
    SliceAround(doc, s', s, e, e');
  }

  lemma SliceAround(x: string, i: int, j: int, l: int, m: int)
    requires 0 <= i <= j <= l <= m <= |x|
    ensures IsInfix(x[j..l], x[i..m])
  {
    assert x[i..m] == x[i..j] + x[j..l] + x[l..m];
  }

  /** `small` occurs in `large` with text on either side. */
  ghost predicate IsInfix(small: string, large: string) {
    exists before, after :: large == before + small + after
  }

  /** The off-by-one as written: when `r + k` equals the word count, the
      window's last rank is the word count itself and the lookup raises. */
  lemma ContextPastLastWord(doc: string, b: Built, words: seq<string>, r: int, k: int)
    requires SpansFit(doc, b, words) && 0 <= r < |words| <= IntMax
    requires 0 <= k && r + k == |words|
    ensures ContextAt(doc, b, k, r) == Failure(IndexOutOfBounds(|words|))
  {
    assert Wrap(r - k) == r - k && Wrap(r + k) == r + k;
  }

  /** What `search` returns on an index whose buckets fit its words: when it
      succeeds, one context per matched rank, the matched ranks being exactly
      the ranks whose word has the query's key and that pass the collision
      check, in ascending (document) order. */
  lemma SearchResult(doc: string, b: Built, words: seq<string>, query: string, k: int)
    requires BucketsFit(b, words)
    requires Search(doc, b, query, k).Success?
    ensures var m := MatchedRanks(doc, b, query, Bucket(b, query));
      var found := Search(doc, b, query, k).value;
      (forall r :: r in m <==>
         (0 <= r < |words| && Hash(words[r]) == Hash(query) && IsMatch(doc, b, query, r))) &&
      Ascending(m) && |found| == |m| &&
      forall j :: 0 <= j < |m| ==> ContextAt(doc, b, k, m[j]) == Success(found[j])
  {
    var bucket := Bucket(b, query);
    MatchedRanksMembers(doc, b, query, bucket);
    MatchedRanksAscending(doc, b, query, bucket);
    ScanResult(doc, b, query, k, bucket);
    SearchIsScan(doc, b, query, k);
    forall r | 0 <= r < |words| && Hash(words[r]) == Hash(query)
      ensures r in bucket
    {
      RankInBucket(b, words, query, r);
    }
    forall r | r in bucket
      ensures 0 <= r < |words| && Hash(words[r]) == Hash(query)
    {
      var i :| 0 <= i < |bucket| && bucket[i] == r;
      BucketRank(b, words, query, i);
    }
  }

  /** What `search` promises on an index that fits its document and words:
      a success holds one context per matched rank, the matched ranks being
      exactly the ranks whose word has the query's key and that pass the
      collision check, in ascending order; and for `k >= 0` small enough not
      to overflow, the search fails exactly when rank `count - k` is such a
      match. */
  ghost predicate Answers(doc: string, b: Built, words: seq<string>, query: string, k: int, res: Result<seq<string>>) {
    (res.Success? ==>
      var m := MatchedRanks(doc, b, query, Bucket(b, query));
      (forall r :: r in m <==>
         (0 <= r < |words| && Hash(words[r]) == Hash(query) && IsMatch(doc, b, query, r))) &&
      Ascending(m) && |res.value| == |m| &&
      forall j :: 0 <= j < |m| ==> ContextAt(doc, b, k, m[j]) == Success(res.value[j])) &&
    (0 <= k && |words| + k <= IntMax ==>
      var n := |words|;
      res.Failure? <==> 0 <= n - k < n && Hash(words[n - k]) == Hash(query) && IsMatch(doc, b, query, n - k))
  }

  /** `search` keeps those promises on every index that fits. */
  lemma SearchAnswers(doc: string, b: Built, words: seq<string>, query: string, k: int)
    requires SpansFit(doc, b, words) && BucketsFit(b, words)
    ensures Answers(doc, b, words, query, k, Search(doc, b, query, k))
  {
    if Search(doc, b, query, k).Success? {
      SearchResult(doc, b, words, query, k);
    }
    if 0 <= k && |words| + k <= IntMax {
      SearchFailsIff(doc, b, words, query, k);
    }
  }

  /** `search` keeps those promises on the index the indexing pass builds. */
  lemma BuiltAnswers(tokens: seq<Token>, query: string, k: int)
    ensures var doc, b := Concat(tokens), Build(tokens);
      Answers(doc, b, Words(tokens), query, k, Search(doc, b, query, k))
  {
    BuildFits(tokens);
    SearchAnswers(Concat(tokens), Build(tokens), Words(tokens), query, k);
  }

  /** One iteration of the loop of `search` on an index that fits the
      document, for `k >= 0` small enough not to overflow, raises exactly when
      its rank passes the collision check and lies `k` ranks before the word
      count. */
  lemma VisitFailsIff(doc: string, b: Built, words: seq<string>, query: string, k: int, r: int)
    requires SpansFit(doc, b, words) && 0 <= r < |words|
    requires 0 <= k && |words| + k <= IntMax
    ensures Visit(doc, b, query, k, r).Failure? <==> r + k == |words| && IsMatch(doc, b, query, r)
  {
    RankText(doc, b, words, r);
    if r + k == |words| {
      ContextPastLastWord(doc, b, words, r, k);
    } else {
      ContextWindow(doc, b, words, r, k);
    }
  }

  /** Every rank of the query's bucket is a word rank with the query's key. */
  lemma BucketRank(b: Built, words: seq<string>, query: string, i: int)
    requires BucketsFit(b, words) && 0 <= i < |Bucket(b, query)|
    ensures 0 <= Bucket(b, query)[i] < |words| && Hash(words[Bucket(b, query)[i]]) == Hash(query)
  {
    assert Hash(query) in b.wordMap;
  }

  /** Every word rank with the query's key is in the query's bucket. */
  lemma RankInBucket(b: Built, words: seq<string>, query: string, r: int)
    requires BucketsFit(b, words) && 0 <= r < |words| && Hash(words[r]) == Hash(query)
    ensures r in Bucket(b, query)
  {
  }

  /** On an index that fits the document and its words, and for `k >= 0`
      small enough not to overflow, `search` fails exactly when the rank
      `count - k` has the query's key and passes the collision check: the
      off-by-one at the end of the document. */
  lemma SearchFailsIff(doc: string, b: Built, words: seq<string>, query: string, k: int)
    requires SpansFit(doc, b, words) && BucketsFit(b, words)
    requires 0 <= k && |words| + k <= IntMax
    ensures var n := |words|;
      Search(doc, b, query, k).Failure? <==>
      0 <= n - k < n && Hash(words[n - k]) == Hash(query) && IsMatch(doc, b, query, n - k)
  {
    SearchFailsOnlyAtBoundary(doc, b, words, query, k);
    BoundaryMatchFails(doc, b, words, query, k);
  }

  lemma SearchFailsOnlyAtBoundary(doc: string, b: Built, words: seq<string>, query: string, k: int)
    requires SpansFit(doc, b, words) && BucketsFit(b, words)
    requires 0 <= k && |words| + k <= IntMax
    ensures var n := |words|;
      Search(doc, b, query, k).Failure? ==>
      0 <= n - k < n && Hash(words[n - k]) == Hash(query) && IsMatch(doc, b, query, n - k)
  {
    if Search(doc, b, query, k).Failure? {
      var bucket := Bucket(b, query);
      SearchIsScan(doc, b, query, k);
      var i := ScanFailureAt(doc, b, query, k, bucket);
      var r := bucket[i];
      BucketRank(b, words, query, i);
      VisitFailsIff(doc, b, words, query, k, r);
      AtBoundary(doc, b, words, query, k, r);
    }
  }

  /** The facts about a rank, restated at `count - k`. */
  lemma AtBoundary(doc: string, b: Built, words: seq<string>, query: string, k: int, r: int)
    requires 0 <= r < |words| && r + k == |words| && Hash(words[r]) == Hash(query) && IsMatch(doc, b, query, r)
    ensures 0 <= |words| - k < |words| && Hash(words[|words| - k]) == Hash(query) && IsMatch(doc, b, query, |words| - k)
  {
    assert r == |words| - k;
  }

  lemma BoundaryMatchFails(doc: string, b: Built, words: seq<string>, query: string, k: int)
    requires SpansFit(doc, b, words) && BucketsFit(b, words)
    requires 0 <= k && |words| + k <= IntMax
    ensures var n := |words|;
      0 <= n - k < n && Hash(words[n - k]) == Hash(query) && IsMatch(doc, b, query, n - k) ==>
      Search(doc, b, query, k).Failure?
  {
    var r, bucket := |words| - k, Bucket(b, query);
    if 0 <= r < |words| && Hash(words[r]) == Hash(query) && IsMatch(doc, b, query, r) {
      RankInBucket(b, words, query, r);
      var i :| 0 <= i < |bucket| && bucket[i] == r;
      VisitFailsIff(doc, b, words, query, k, r);
      ScanResult(doc, b, query, k, bucket);
      SearchIsScan(doc, b, query, k);
    }
  }

  /** `search` is its loop over the query's bucket, an empty one for an
      unknown key. */
  lemma SearchIsScan(doc: string, b: Built, query: string, k: int)
    ensures Search(doc, b, query, k) == Scan(doc, b, query, k, Bucket(b, query))
  {
  }

  /** A failed loop names a rank whose iteration raised. */
  lemma ScanFailureAt(doc: string, b: Built, query: string, k: int, orders: seq<int>) returns (i: int)
    requires Scan(doc, b, query, k, orders).Failure?
    ensures 0 <= i < |orders| && Visit(doc, b, query, k, orders[i]).Failure?
  {
    ScanResult(doc, b, query, k, orders);
    i :| 0 <= i < |orders| && Visit(doc, b, query, k, orders[i]).Failure?;
  }
}
