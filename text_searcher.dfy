/** The searcher object: the document, the power table, and the index that
    `init` fills in one pass over the tokenizer's output and that `search`
    reads. */
module Searcher {
  import opened JavaLang
  import opened Hashing
  import opened Index
  import opened Query

  class TextSearcher {
    var fileContents: string
    var pPows: array<int>
    /** Hash key of a word to the ranks of the words with that key. */
    var wordMap: map<int, seq<int>>
    /** Offset range of each word, by rank. */
    var wordStartAndEndPosition: seq<Span>
    /** Number of words indexed so far, the next rank to hand out. */
    var nextWordCount: int
    /** The tokenizer's output the index was built from. */
    ghost var tokens: seq<Token>

    /** The index held in the fields. */
    function Model(): Built
      reads this
    {
      Built(wordMap, wordStartAndEndPosition, nextWordCount)
    }

    /** The object invariant: the power table is the table `PowArray` builds,
        the tokens cover the document, and the index is the one the indexing
        pass builds from them. */
    ghost predicate Valid()
      reads this, pPows
    {
      IsPowTable(pPows) && Concat(tokens) == fileContents && Model() == Build(tokens)
    }

    /** Builds the power table and the index of a document, given the
        tokenizer's output for it. */
    constructor (fileContents: string, tokens: seq<Token>)
      requires Concat(tokens) == fileContents
      ensures Valid()
      ensures this.fileContents == fileContents && this.tokens == tokens
    {
      var pows := PowArray();
      this.pPows := pows;
      this.wordMap := map[];
      this.wordStartAndEndPosition := [];
      this.nextWordCount := 0;
      this.tokens := [];
      new;
      Init(fileContents, tokens);
    }

    /** `init`: one pass over the tokens. A word token gets the next rank, which
        is appended to the bucket of its key (a new bucket for a new key), and
        its offset range is recorded; every token moves the offset on by its
        length. */
    method Init(fileContents: string, tokens: seq<Token>)
      requires IsPowTable(pPows)
      requires wordMap == map[] && wordStartAndEndPosition == [] && nextWordCount == 0
      requires Concat(tokens) == fileContents
      modifies this
      ensures Valid()
      ensures this.fileContents == fileContents && this.tokens == tokens && pPows == old(pPows)
    {
      this.fileContents := fileContents;
      var startPos := 0;
      var i := 0;
      while i < |tokens|
        invariant 0 <= i <= |tokens|
        invariant pPows == old(pPows) && IsPowTable(pPows)
        invariant this.fileContents == fileContents
        invariant startPos == |Concat(tokens[..i])|
        invariant Model() == Build(tokens[..i])
      {
        var word := tokens[i];
        ghost var before, pos := Model(), startPos;
        TakeOneMore(tokens, i);
        BuildSnoc(tokens[..i], word);
        if word.isWord {
          var hashKey := ComputeHash(pPows, word.text);
          ExtendWord(before, word, pos, hashKey);
          if hashKey in wordMap {
            var list := wordMap[hashKey];
            wordMap := wordMap[hashKey := list + [nextWordCount]];
          } else {
            assert [] + [nextWordCount] == [nextWordCount];
            wordMap := wordMap[hashKey := [nextWordCount]];
          }
          nextWordCount := nextWordCount + 1;
          wordStartAndEndPosition := wordStartAndEndPosition + [Span(startPos, startPos + |word.text|)];
          startPos := startPos + |word.text|;
        } else {
          startPos := startPos + |word.text|;
        }
        assert Model() == Extend(before, word, pos);
        assert Model() == Build(tokens[..i + 1]) && startPos == |Concat(tokens[..i + 1])|;
        i := i + 1;
      }
      TakeAll(tokens, i);
      this.tokens := tokens;
    }

    /** `search`: the contexts of the occurrences of `queryWord`, following
        the bucket of its key and skipping hash collisions, or the exception
        a lookup raises. */
    method Search(queryWord: string, contextWords: int) returns (r: Result<seq<string>>)
      requires IsPowTable(pPows)
      requires IsInt(contextWords)
      ensures r == Query.Search(fileContents, Model(), queryWord, contextWords)
      ensures r.Success? ==> |r.value| <= |Bucket(Model(), queryWord)|
      ensures Valid() ==> Answers(fileContents, Model(), Words(tokens), queryWord, contextWords, r)
    {
      var key := ComputeHash(pPows, queryWord);
      if key !in wordMap {
        if Valid() { KeepsPromises(queryWord, contextWords, Success([])); }
        return Success([]);
      }
      var wordOrders := wordMap[key];
      var returnStrings: seq<string> := [];
      var index := Model();
      ghost var expected := Scan(fileContents, index, queryWord, contextWords, wordOrders);
      assert Query.Search(fileContents, index, queryWord, contextWords) == expected by {
        SearchIsScan(fileContents, index, queryWord, contextWords);
      }
      var i := 0;
      while i < |wordOrders|
        invariant 0 <= i <= |wordOrders|
        invariant Scan(fileContents, index, queryWord, contextWords, wordOrders[..i]) == Success(returnStrings)
      {
        var order := wordOrders[i];
        ScanSnoc(fileContents, index, queryWord, contextWords, wordOrders, i);
        var word := GetStringByPosition(fileContents, index, order, order);
        if word.Failure? {
          assert Scan(fileContents, index, queryWord, contextWords, wordOrders[..i + 1]) == Failure(word.fault);
          assert expected == Failure(word.fault) by {
            ScanFailurePersists(fileContents, index, queryWord, contextWords, wordOrders, i + 1);
          }
          if Valid() { KeepsPromises(queryWord, contextWords, Failure(word.fault)); }
          return Failure(word.fault);
        }
        if EqualsIgnoreCase(Lower(queryWord), word.value) {
          var startOrder := Max(Wrap(order - contextWords), 0);
          var endOrder := if Wrap(order + contextWords) > index.count then index.count - 1
                          else Wrap(order + contextWords);
          assert startOrder == StartOrder(order, contextWords) && endOrder == EndOrder(order, contextWords, index.count);
          var context := GetStringByPosition(fileContents, index, startOrder, endOrder);
          if context.Failure? {
            assert Scan(fileContents, index, queryWord, contextWords, wordOrders[..i + 1]) == Failure(context.fault);
            assert expected == Failure(context.fault) by {
              ScanFailurePersists(fileContents, index, queryWord, contextWords, wordOrders, i + 1);
            }
            if Valid() { KeepsPromises(queryWord, contextWords, Failure(context.fault)); }
            return Failure(context.fault);
          }
          assert Visit(fileContents, index, queryWord, contextWords, order) == Success([context.value]);
          returnStrings := returnStrings + [context.value];
        } else {
          assert Visit(fileContents, index, queryWord, contextWords, order) == Success([]);
          assert returnStrings + [] == returnStrings;
        }
        i := i + 1;
      }
      TakeAll(wordOrders, i);
      if Valid() { KeepsPromises(queryWord, contextWords, Success(returnStrings)); }
      return Success(returnStrings);
    }

    /** A result equal to `Query.Search` over a valid object's fields keeps
        the promises of `search` over the words of its document. */
    lemma KeepsPromises(queryWord: string, contextWords: int, r: Result<seq<string>>)
      requires Valid() && r == Query.Search(fileContents, Model(), queryWord, contextWords)
      ensures Answers(fileContents, Model(), Words(tokens), queryWord, contextWords, r)
    {
      BuiltAnswers(tokens, queryWord, contextWords);
    }
  }
}
