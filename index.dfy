/** What the single indexing pass of `init` builds from the tokenizer's
    output, as a function of the tokens seen so far, and what that index
    guarantees: an offset table that slices the document back into its
    words, in document order, and hash buckets that partition the ranks. */
module Index {
  import opened JavaLang
  import opened Hashing

  /** One token of the tokenizer: its text and whether it is a word. */
  datatype Token = Token(text: string, isWord: bool)

  /** The half-open character range `[start, end)` of a word. */
  datatype Span = Span(start: int, end: int)

  /** The searcher's index: hash key to ranks, offsets by rank, word count. */
  datatype Built = Built(wordMap: map<int, seq<int>>, spans: seq<Span>, count: int)

  /** The text the tokens cover, in order. */
  function Concat(tokens: seq<Token>): string {
    if tokens == [] then []
    else Concat(tokens[..|tokens| - 1]) + tokens[|tokens| - 1].text
  }

  /** The texts of the word tokens, in order: entry `r` is the word of rank `r`. */
  function Words(tokens: seq<Token>): seq<string> {
    if tokens == [] then []
    else
      var t := tokens[|tokens| - 1];
      Words(tokens[..|tokens| - 1]) + (if t.isWord then [t.text] else [])
  }

  /** One iteration of the indexing loop, at character offset `pos`: a word
      gets the next rank, in the bucket of its key and in the offset table;
      any other token only moves the offset on (which `Build` accounts for). */
  function Extend(b: Built, t: Token, pos: int): (r: Built)
    ensures r.count == b.count + (if t.isWord then 1 else 0)
    ensures r.wordMap.Keys == b.wordMap.Keys + (if t.isWord then {Hash(t.text)} else {})
  {
    if t.isWord then
      var key := Hash(t.text);
      var bucket := if key in b.wordMap then b.wordMap[key] else [];
      Built(b.wordMap[key := bucket + [b.count]],
            b.spans + [Span(pos, pos + |t.text|)],
            b.count + 1)
    else b
  }

  /** A word step files the new rank under the key the caller computed. */
  lemma ExtendWord(b: Built, t: Token, pos: int, key: int)
    requires t.isWord && key == Hash(t.text)
    ensures Extend(b, t, pos) ==
      Built(b.wordMap[key := (if key in b.wordMap then b.wordMap[key] else []) + [b.count]],
            b.spans + [Span(pos, pos + |t.text|)], b.count + 1)
  {
  }

  /** The index after the indexing loop has consumed `tokens`: one offset
      entry per word, each within the document. */
  function Build(tokens: seq<Token>): (b: Built)
    ensures b.count == |b.spans| == |Words(tokens)|
    ensures forall r :: 0 <= r < |b.spans| ==> 0 <= b.spans[r].start <= b.spans[r].end <= |Concat(tokens)|
  {
    if tokens == [] then Built(map[], [], 0)
    else
      var prefix := tokens[..|tokens| - 1];
      Extend(Build(prefix), tokens[|tokens| - 1], |Concat(prefix)|)
  }

  /** The indexing pass consumes the tokens one at a time. */
  lemma BuildSnoc(tokens: seq<Token>, t: Token)
    ensures Concat(tokens + [t]) == Concat(tokens) + t.text
    ensures Words(tokens + [t]) == Words(tokens) + (if t.isWord then [t.text] else [])
    ensures Build(tokens + [t]) == Extend(Build(tokens), t, |Concat(tokens)|)
  {
    assert (tokens + [t])[..|tokens|] == tokens;
  }

  /** Reference definition of a bucket: the ranks, in ascending order, of the
      words whose key is `h`. */
  function RanksWithHash(words: seq<string>, h: int): seq<int> {
    if words == [] then []
    else
      var n := |words| - 1;
      RanksWithHash(words[..n], h) + (if Hash(words[n]) == h then [n] else [])
  }

  /** A sequence is strictly ascending. */
  predicate Ascending(s: seq<int>) {
    forall i, j :: 0 <= i < j < |s| ==> s[i] < s[j]
  }

  /** A bucket holds exactly the ranks whose word has key `h`, ascending. */
  lemma {:induction false} RanksWithHashMembers(words: seq<string>, h: int)
    ensures forall r :: r in RanksWithHash(words, h) <==> 0 <= r < |words| && Hash(words[r]) == h
    ensures Ascending(RanksWithHash(words, h))
  {
    if words != [] {
      var n := |words| - 1;
      var prev := RanksWithHash(words[..n], h);
      var last: seq<int> := if Hash(words[n]) == h then [n] else [];
      RanksWithHashMembers(words[..n], h);
      assert RanksWithHash(words, h) == prev + last;
      forall r
        ensures r in prev + last <==> 0 <= r < |words| && Hash(words[r]) == h
      {
        if 0 <= r < n {
          assert words[..n][r] == words[r];
        }
      }
      forall i, j | 0 <= i < j < |prev + last|
        ensures (prev + last)[i] < (prev + last)[j]
      {
        if j >= |prev| {
          assert prev[i] in prev;
        }
      }
    }
  }

  /** The offset table of the built index fits the document and its words:
      one entry per word, entry `r` slicing the document to exactly the word
      of rank `r`, the entries following each other without overlapping. */
  lemma BuildSpans(tokens: seq<Token>)
    ensures SpansFit(Concat(tokens), Build(tokens), Words(tokens))
  {
    SpansSliceWords(tokens);
    SpansOrdered(tokens);
  }

  /** Entry `r` of the offset table slices the document to the word of rank `r`. */
  lemma {:induction false} SpansSliceWords(tokens: seq<Token>)
    ensures forall r :: 0 <= r < |Words(tokens)| ==>
      Build(tokens).spans[r].end - Build(tokens).spans[r].start == |Words(tokens)[r]| &&
      Concat(tokens)[Build(tokens).spans[r].start..Build(tokens).spans[r].end] == Words(tokens)[r]
  {
    if tokens != [] {
      var prefix := tokens[..|tokens| - 1];
      var t := tokens[|tokens| - 1];
      assert tokens == prefix + [t];
      BuildSnoc(prefix, t);
      SpansSliceWords(prefix);
      var doc, doc' := Concat(prefix), Concat(tokens);
      var w, b, b' := Words(prefix), Build(prefix), Build(tokens);
      forall r | 0 <= r < |Words(tokens)|
        ensures b'.spans[r].end - b'.spans[r].start == |Words(tokens)[r]|
        ensures doc'[b'.spans[r].start..b'.spans[r].end] == Words(tokens)[r]
      {
        if r < |w| {
          assert b'.spans[r] == b.spans[r] && Words(tokens)[r] == w[r];
          SliceOfAppend(doc, t.text, b.spans[r].start, b.spans[r].end);
        } else {
          assert b'.spans[r] == Span(|doc|, |doc| + |t.text|) && Words(tokens)[r] == t.text;
          SliceOfAppend(doc, t.text, |doc|, |doc|);
        }
      }
    }
  }

  lemma SliceOfAppend(x: string, y: string, i: int, j: int)
    requires 0 <= i <= j <= |x|
    ensures (x + y)[i..j] == x[i..j]
    ensures (x + y)[|x|..|x| + |y|] == y
  {
  }

  /** The entries of the offset table follow each other without overlapping. */
  lemma {:induction false} SpansOrdered(tokens: seq<Token>)
    ensures forall r, q :: 0 <= r < q < |Words(tokens)| ==>
      Build(tokens).spans[r].end <= Build(tokens).spans[q].start
  {
    if tokens != [] {
      var prefix := tokens[..|tokens| - 1];
      var t := tokens[|tokens| - 1];
      assert tokens == prefix + [t];
      BuildSnoc(prefix, t);
      SpansOrdered(prefix);
      var b, b' := Build(prefix), Build(tokens);
      if t.isWord {
        assert b'.spans == b.spans + [Span(|Concat(prefix)|, |Concat(prefix)| + |t.text|)];
      }
    }
  }

  /** Every bucket is the reference bucket of its key, and a key has a bucket
      exactly when some word has that key. */
  lemma {:induction false} BuildBuckets(tokens: seq<Token>)
    ensures forall h :: h in Build(tokens).wordMap <==> RanksWithHash(Words(tokens), h) != []
    ensures forall h :: h in Build(tokens).wordMap ==>
      Build(tokens).wordMap[h] == RanksWithHash(Words(tokens), h)
  {
    if tokens != [] {
      var prefix := tokens[..|tokens| - 1];
      var t := tokens[|tokens| - 1];
      BuildBuckets(prefix);
      var w := Words(prefix);
      if t.isWord {
        var w' := Words(tokens);
        assert w' == w + [t.text];
        assert w'[..|w'| - 1] == w;
        forall h
          ensures RanksWithHash(w', h) ==
            RanksWithHash(w, h) + (if Hash(t.text) == h then [|w|] else [])
        {
        }
      } else {
        assert Words(tokens) == w;
      }
    }
  }

  /** The buckets of the built index partition the ranks by key: every rank
      lies in the bucket of its word's key, a rank in a bucket has that
      bucket's key, and every bucket is non-empty and strictly ascending. */
  lemma BucketsPartition(tokens: seq<Token>)
    ensures BucketsFit(Build(tokens), Words(tokens))
    ensures forall h :: h in Build(tokens).wordMap ==> Build(tokens).wordMap[h] != []
  {
    BuildBuckets(tokens);
    RankBuckets(Words(tokens), Build(tokens));
  }

  /** Buckets that are the reference buckets of their words partition the
      ranks, each non-empty and ascending. */
  lemma RankBuckets(w: seq<string>, b: Built)
    requires forall h :: h in b.wordMap <==> RanksWithHash(w, h) != []
    requires forall h :: h in b.wordMap ==> b.wordMap[h] == RanksWithHash(w, h)
    ensures BucketsFit(b, w)
    ensures forall h :: h in b.wordMap ==> b.wordMap[h] != []
  {
    var m := b.wordMap;
    forall h {
      RanksWithHashMembers(w, h);
    }
    forall r | 0 <= r < |w|
      ensures Hash(w[r]) in m
    {
      assert r in RanksWithHash(w, Hash(w[r]));
    }
    forall h, i | h in m && 0 <= i < |m[h]|
      ensures 0 <= m[h][i] < |w| && h == Hash(w[m[h][i]])
    {
      assert m[h][i] in RanksWithHash(w, h);
    }
  }

  /** What the offset table of an index over `doc` guarantees about its
      words: one entry per word, within the document, slicing it back to
      that word, in document order and without overlap. */
  ghost predicate SpansFit(doc: string, b: Built, words: seq<string>) {
    b.count == |b.spans| == |words| &&
    (forall r :: 0 <= r < |words| ==>
      0 <= b.spans[r].start <= b.spans[r].end <= |doc| &&
      doc[b.spans[r].start..b.spans[r].end] == words[r]) &&
    (forall r, q :: 0 <= r < q < |words| ==> b.spans[r].end <= b.spans[q].start)
  }

  /** What the buckets of an index guarantee about its words: they partition
      the ranks by key, each in ascending order. */
  ghost predicate BucketsFit(b: Built, words: seq<string>) {
    (forall r :: 0 <= r < |words| ==> Hash(words[r]) in b.wordMap && r in b.wordMap[Hash(words[r])]) &&
    (forall h, i :: h in b.wordMap && 0 <= i < |b.wordMap[h]| ==>
      0 <= b.wordMap[h][i] < |words| && h == Hash(words[b.wordMap[h][i]])) &&
    (forall h :: h in b.wordMap ==> Ascending(b.wordMap[h]))
  }

  /** The index the indexing pass builds fits the document and its words. */
  lemma BuildFits(tokens: seq<Token>)
    ensures SpansFit(Concat(tokens), Build(tokens), Words(tokens))
    ensures BucketsFit(Build(tokens), Words(tokens))
  {
    BuildSpans(tokens);
    BucketsPartition(tokens);
  }

  /** In a fitting offset table, offsets grow with the rank. */
  lemma SpansMonotone(doc: string, b: Built, words: seq<string>, i: int, j: int)
    requires SpansFit(doc, b, words) && 0 <= i <= j < |words|
    ensures b.spans[i].start <= b.spans[j].start
    ensures b.spans[i].end <= b.spans[j].end
    ensures b.spans[i].start <= b.spans[j].end
  {
    if i < j {
      assert b.spans[i].end <= b.spans[j].start;
    }
  }
}
