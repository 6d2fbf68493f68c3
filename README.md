# TextSearcher, modelled in Dafny

This project models `TextSearcher`, an in-memory word search over one text file.
`init` runs once over the tokenizer's output. Each word token gets a rank, the
next value of `nextWordCount`. The rank goes into the hash bucket `wordMap` under
the word's key (`compute_hash`), and the word's character range goes into
`wordStartAndEndPosition`. `search(queryWord, contextWords)` looks up the
query's bucket and rejects hash collisions by reading each candidate word back
out of the file (`getStringByPositionInFile`). For every true match it returns
the text from `contextWords` words before it to `contextWords` words after it.

Layout:

- `java_lang.dfy` (`JavaLang`) holds the Java semantics the code relies on:
  - 32-bit `int` wrap-around (`Wrap`);
  - the truncating remainder `%` (`Rem`);
  - ASCII `toLowerCase` (`ToLower`, `Lower`) and `equalsIgnoreCase` (`EqualsIgnoreCase`).
- `hashing.dfy` (`Hashing`) holds the power table (`PowArray`, a loop over an
  array) and the word key (`ComputeHash`, a loop, specified by `Hash`). It also
  holds what the key actually is. The loop never advances its power index, so
  every character is weighted by `53^0 = 1`, and the key is the character sum.
  Anagrams therefore collide, for example "no" and "on".
- `index.dfy` (`Index`) defines the index that `init` builds after consuming a
  prefix of the tokens, `Build`, one token at a time (`Extend`). It proves:
  - the offset table slices the document back into its words, in order (`SpansFit`);
  - the buckets partition the ranks by key, each ascending (`BucketsFit`), checked
    against the reference bucket `RanksWithHash`.
- `query.dfy` (`Query`) defines `getStringByPositionInFile` and `search` as
  functions. Java's exceptions become `Failure` results. It proves what a search
  returns over any index that fits its document.
- `text_searcher.dfy` (`Searcher`) is the class with the Java fields. `Init` and
  `Search` are its loops, each proved equal to the functions above.
- `scenarios.dfy` (`Scenarios`) works through small documents.

The model follows the code as written, including where it does not do what
its own comments promise:

- `search`'s Javadoc (TextSearcher.java:82-83) promises `contextWords` words of
  context on each side, so the window should stop at the last word. The code
  tests `r + k > count` (line 99), so when `r + k == count` the window ends at
  rank `count`, one past the last word. The lookup then throws
  `IndexOutOfBoundsException`. The model returns
  `Failure(IndexOutOfBounds(count))` in that case, and `Query.SearchFailsIff`
  states exactly when a search fails.
- The collision check reads a candidate word with `getStringByPositionInFile(order, order)`.
  For the last word, that call returns the rest of the file. A last word followed
  by any text, for example "end" in "end.", therefore never matches
  (`Query.LastWordMatch`, `Scenarios.LastWordBeforePunctuation`).
- Negative `contextWords` is not clamped to zero; the code uses it as given.

## Model

| member | source | states |
|---|---|---|
| JavaLang.Wrap | TextSearcher.java:98-99 | `int` arithmetic yields the 32-bit value that differs from the exact result by a multiple of 2^32, and leaves values that fit unchanged |
| JavaLang.Rem | TextSearcher.java:127 | `%` keeps the dividend's sign, is below the divisor in magnitude, and agrees with the mathematical remainder on magnitudes |
| JavaLang.Lower | TextSearcher.java:137 | `toLowerCase` keeps the length and lower-cases each character in place |
| JavaLang.EqualsIgnoreCaseIff | TextSearcher.java:97 | two strings are equal ignoring case exactly when their lower-cased forms are equal |
| JavaLang.LowerIdempotent | TextSearcher.java:97 | lower-casing the query before `equalsIgnoreCase` changes neither its lower-cased form nor the outcome of the comparison |
| Hashing.PowMod | TextSearcher.java:126-128 | each table entry lies in `[0, 10^9 + 9)` |
| Hashing.PowModIsPower | TextSearcher.java:119-130 | reducing after every multiplication gives `53^i mod (10^9 + 9)` |
| Hashing.PowArray | TextSearcher.java:119-130 | the table has 20 entries and entry `i` is `53^i mod (10^9 + 9)` |
| Hashing.Accumulate | TextSearcher.java:138 | the accumulator stays strictly between `-m` and `m` |
| Hashing.Hash | TextSearcher.java:133-141 | a key lies strictly between `-m` and `m` |
| Hashing.ComputeHash | TextSearcher.java:133-141 | the loop computes `Hash` of the word, the fold over the lower-cased word with the power at index 0 |
| Hashing.HashIgnoresCase | TextSearcher.java:137 | words equal ignoring case have the same key |
| Hashing.AccumulateIsSum | TextSearcher.java:138 | for words of at most 800 characters, the key is the plain sum of the character values, and that sum stays within the bound |
| Hashing.CodeSumPermutation | TextSearcher.java:137-139 | the character sum depends only on the multiset of characters |
| Hashing.AnagramsCollide | TextSearcher.java:136-139 | words of at most 800 characters whose lower-cased forms are anagrams of each other get the same key |
| Hashing.AccumulateIsSumMod | TextSearcher.java:138 | while every character value is non-negative, the key is the character sum reduced once modulo `10^9 + 9` |
| Hashing.LetterAnagramsCollide | TextSearcher.java:136-139 | anagrams of any length whose lower-cased characters all have non-negative values (lower-case letters among them) get the same key |
| Hashing.DistinctWordsCollide | TextSearcher.java:136-139 | the distinct words "no" and "on" share a key |
| Index.Extend | TextSearcher.java:57-74 | a token advances the word count by one exactly when it is a word, and adds its word's key to the keys with a bucket; `Index.BuildSpans` and `Index.BuildBuckets` give what the steps build together |
| Index.Build | TextSearcher.java:48-76 | the pass records one offset entry per word, each within the document |
| Index.RanksWithHashMembers | TextSearcher.java:58-67 | the reference bucket of a key holds exactly the ranks of words with that key, ascending |
| Index.BuildSpans | TextSearcher.java:50-74 | the offset table fits the document: one entry per word; entry `r` lies within the document, slices it to exactly word `r`, and ends before every later entry starts |
| Index.SpansSliceWords | TextSearcher.java:69 | each recorded range has its word's length and slices the document to that word |
| Index.SpansOrdered | TextSearcher.java:69-73 | recorded ranges follow each other in document order without overlapping |
| Index.BuildBuckets | TextSearcher.java:58-67 | a key has a bucket exactly when some word has that key, and the bucket is the reference bucket |
| Index.BucketsPartition | TextSearcher.java:58-69 | the buckets fit the words: every rank is in its word's key's bucket; every rank in a bucket is a word with that key; buckets are non-empty and strictly ascending |
| Index.RankBuckets | TextSearcher.java:58-67 | buckets equal to the reference buckets partition the ranks by key, each non-empty and ascending |
| Index.BuildFits | TextSearcher.java:48-76 | the built index fits its document and words: offsets and buckets as above |
| Index.SpansMonotone | TextSearcher.java:69 | in a fitting offset table, start and end offsets grow with the rank |
| Query.GetStringByPosition | TextSearcher.java:106-114 | a start rank outside the table throws for that rank, before the end rank is read; an end rank outside the table then throws for the end rank; `Query.RankText` and `Query.ContextWindow` give the text read on a fitting index |
| Query.StartOrder | TextSearcher.java:98 | the first rank of the window is never negative and, without overflow, is `order - k` or 0, whichever is larger |
| Query.EndOrder | TextSearcher.java:99 | without overflow, the last rank of the window is `order + k` when that is at most the word count (the count itself included), and `count - 1` otherwise |
| Query.IsMatch | TextSearcher.java:97 | the collision check; `Query.CollisionsFiltered` and `Query.LastWordMatch` characterise it on a fitting index |
| Query.Visit | TextSearcher.java:97-100 | one iteration of the loop; `Query.VisitFailsIff` characterises when it throws, `Query.ScanResult` what it adds |
| Query.Scan | TextSearcher.java:94-102 | the loop collects at most one string per rank |
| Query.Search | TextSearcher.java:86-104 | an unknown key gives no strings; otherwise at most one string per rank of the bucket |
| Query.MatchedRanksMembers | TextSearcher.java:94-101 | the matched ranks are exactly the bucket's ranks that pass the collision check |
| Query.MatchedRanksAscending | TextSearcher.java:94-101 | matched ranks keep the bucket's ascending order |
| Query.ScanResult | TextSearcher.java:94-102 | the loop succeeds exactly when no iteration throws, and then returns one context per matched rank, in order |
| Query.ScanFailurePersists | TextSearcher.java:94-102 | the first exception thrown ends the loop and is the one reported |
| Query.ScanFailureAt | TextSearcher.java:94-102 | a failed loop names a rank whose iteration threw |
| Query.RankText | TextSearcher.java:106-114 | reading rank `r` gives word `r`, except for the last rank, which gives its word followed by the rest of the file |
| Query.CollisionsFiltered | TextSearcher.java:95-97 | any rank but the last passes the collision check exactly when its word equals the query ignoring case |
| Query.LastWordMatch | TextSearcher.java:97-111 | a query equal to the last word matches that rank exactly when no text follows the word in the file |
| Query.ContextWindow | TextSearcher.java:98-113 | for `0 <= k` with `r + k != count`, the context of rank `r` runs from the start of word `max(r - k, 0)` to the end of word `r + k`, with the window cut at the last rank; when the window reaches the last rank it runs to the end of the file |
| Query.ContextGrows | TextSearcher.java:98-113 | widening the context (away from the off-by-one) only adds text on either side |
| Query.ContextPastLastWord | TextSearcher.java:99-107 | when `r + k == count`, the window ends at rank `count` and the lookup throws an index-out-of-bounds error for `count` |
| Query.VisitFailsIff | TextSearcher.java:97-100 | one iteration throws exactly when its rank matches and lies `k` ranks before the word count |
| Query.BucketRank | TextSearcher.java:89 | every rank of the query's bucket is a word with the query's key |
| Query.RankInBucket | TextSearcher.java:89 | every word with the query's key has its rank in the query's bucket |
| Query.SearchResult | TextSearcher.java:86-104 | a successful search returns one context per matched rank, in ascending rank order; the matched ranks are exactly the words with the query's key that pass the collision check |
| Query.SearchAnswers | TextSearcher.java:86-104 | on any index that fits its document and words, `search` returns one context per matched rank in ascending order, and for `0 <= k` without overflow throws exactly at rank `count - k` |
| Query.BuiltAnswers | TextSearcher.java:48-104 | the same holds for the index built from the document's own tokens |
| Query.SearchFailsIff | TextSearcher.java:86-104 | for `0 <= k` without overflow, a search throws exactly when rank `count - k` has the query's key and passes the collision check |
| Query.SearchFailsOnlyAtBoundary | TextSearcher.java:94-102 | a search that throws does so at rank `count - k`, a match with the query's key |
| Query.BoundaryMatchFails | TextSearcher.java:99-100 | a match with the query's key at rank `count - k` makes the search throw |
| Scenarios.EmptyDocument | TextSearcher.java:89-91 | in an empty document, every query returns no strings |
| Scenarios.LastWordBeforePunctuation | TextSearcher.java:106-113 | in "end.", the search for "end" returns no strings |
| Scenarios.NoOnIndex | TextSearcher.java:55-69 | in "no on", both words land in one bucket, with ranges `[0, 2)` and `[3, 5)` |
| Scenarios.CollidingWordsAreTold | TextSearcher.java:94-101 | in "no on", the search for "on" reports only "on" |
| Searcher.TextSearcher.constructor | TextSearcher.java:32-42 | builds the power table and the index of the document from its tokens; the object invariant holds |
| Searcher.TextSearcher.Init | TextSearcher.java:48-76 | the loop leaves the fields equal to `Build` of the tokens, over that document |
| Searcher.TextSearcher.Search | TextSearcher.java:86-104 | the loop returns `Query.Search` over the fields, with at most one string per rank of the bucket; on a valid object, the result keeps every promise of `Query.SearchAnswers` over the words of its document |
| Searcher.TextSearcher.KeepsPromises | TextSearcher.java:86-104 | on a valid object, the value of `Query.Search` over the fields keeps those promises |

## Left out

- Reading the file (`FileReader`, the 4096-character buffer) and `IOException` are not modelled. The constructor takes the file's contents.
- `TextTokenizer` and its regular expression are not part of this model. `Init` and the constructor take the tokenizer's output as a sequence of tokens. The model requires only that the tokens cover the contents in order.
- Hash keys are Java `double`s; the model uses integers. Every value involved is an integer below 2^53, so no rounding occurs. `HashMap<Double, …>` boxing and `equals` are not modelled.
- `toLowerCase` and `equalsIgnoreCase` are modelled for ASCII letters only, without Unicode case mapping or locale rules.
- Characters are Dafny `char`s, not UTF-16 code units. Surrogate pairs are not modelled.
- Searcher.TextSearcher.Init: does not model 32-bit wrap-around of `startPos` or `nextWordCount`, which would need a document of more than 2^31 characters.
- Query.SearchFailsIff: stated only for `0 <= contextWords` with `count + contextWords` within `int` range. The function `Query.Search` covers every `int`, including negative and overflowing values.
- Query.ContextWindow: stated only for `0 <= k` without overflow, away from `r + k == count`. That case is `Query.ContextPastLastWord`.
- Hashing.AnagramsCollide: stated for words of at most 800 characters. `Hashing.LetterAnagramsCollide` covers any length when every lower-cased character has a non-negative value. For longer words with digits or apostrophes the running sum changes sign, the truncating remainder can then depend on the order, and no collision is claimed.
- Hashing.AccumulateIsSum: stated for words of at most 800 characters. Longer words can reach the modulus, and the remainder then applies.
- The `String[]` result is a sequence of strings, and `ArrayList` growth is not modelled.
