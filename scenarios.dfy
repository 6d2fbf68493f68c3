/** Small documents worked through the model, showing the behaviour of the
    code as written at the edges: the empty document, a last word followed
    by punctuation, and two different words that share a hash key. */
module Scenarios {
  import opened JavaLang
  import opened Hashing
  import opened Index
  import opened Query

  /** An empty document has no words and no buckets: every query finds nothing. */
  lemma EmptyDocument(query: string, k: int)
    ensures Concat([]) == "" && Search("", Build([]), query, k) == Success([])
  {
  }

  /** The document "end.": the only word is also the last one, so its
      collision check reads the rest of the file, "end.", which is not
      "end"; the search for "end" therefore reports nothing. */
  lemma LastWordBeforePunctuation(k: int)
    ensures var tokens := [Token("end", true), Token(".", false)];
      Concat(tokens) == "end." && Search("end.", Build(tokens), "end", k) == Success([])
  {
    var tokens := [Token("end", true), Token(".", false)];
    var first := [Token("end", true)];
    assert tokens[..1] == first;
    assert first[..0] == [];
    assert Concat(first[..0]) == [];
    assert Build(first) == Extend(Built(map[], [], 0), Token("end", true), 0);
    assert [] + [0] == [0] && [] + [Span(0, 3)] == [Span(0, 3)];
    var b := Built(map[Hash("end") := [0]], [Span(0, 3)], 1);
    assert Build(tokens) == b;
    assert !IsMatch("end.", b, "end", 0) by {
      assert GetStringByPosition("end.", b, 0, 0) == Success("end.");
      assert Lower("end.") == "end.";
      assert Lower("end") != "end.";
    }
    assert Scan("end.", b, "end", k, [0]) == Success([]) by {
      assert [0][..0] == [];
    }
  }

  /** The tokens of the document "no on". */
  function NoOn(): seq<Token> {
    [Token("no", true), Token(" ", false), Token("on", true)]
  }

  /** The text of "no on", token by token. */
  lemma NoOnText()
    ensures Concat(NoOn()[..1]) == "no"
    ensures Concat(NoOn()[..2]) == "no "
    ensures Concat(NoOn()) == "no on"
  {
    var tokens := NoOn();
    assert tokens[..1] == [] + [tokens[0]];
    assert tokens[..2] == tokens[..1] + [tokens[1]];
    assert tokens == tokens[..2] + [tokens[2]];
    BuildSnoc([], tokens[0]);
    BuildSnoc(tokens[..1], tokens[1]);
    BuildSnoc(tokens[..2], tokens[2]);
    assert "no" + " " == "no ";
    assert "no " + "on" == "no on";
  }

  /** The index of "no on": the two words share one bucket. */
  lemma NoOnIndex()
    ensures Concat(NoOn()) == "no on"
    ensures Build(NoOn()) == Built(map[Hash("on") := [0, 1]], [Span(0, 2), Span(3, 5)], 2)
  {
    var tokens := NoOn();
    NoOnText();
    var t1, t2 := tokens[..1], tokens[..2];
    assert t1 == [] + [tokens[0]];
    assert t2 == t1 + [tokens[1]];
    assert tokens == t2 + [tokens[2]];
    var h := Hash("on");
    assert Hash("no") == h by {
      DistinctWordsCollide();
    }
    var b1 := Built(map[h := [0]], [Span(0, 2)], 1);
    assert Build(t1) == b1 by {
      BuildSnoc([], tokens[0]);
      assert [] + [0] == [0] && [] + [Span(0, 2)] == [Span(0, 2)];
    }
    assert Build(t2) == b1 by {
      BuildSnoc(t1, tokens[1]);
    }
    BuildSnoc(t2, tokens[2]);
    assert [0] + [1] == [0, 1];
  }

  /** The document "no on": both words share one bucket, and the search for
      "on" with no context reports only "on". */
  lemma CollidingWordsAreTold()
    ensures Search("no on", Build(NoOn()), "on", 0) == Success(["on"])
  {
    NoOnIndex();
    var b := Build(NoOn());
    var doc := "no on";
    LowerOfLowerCase("on");
    assert Visit(doc, b, "on", 0, 0) == Success([]) by {
      assert doc[0..2] == "no";
      assert GetStringByPosition(doc, b, 0, 0) == Success("no");
      assert ToLower("no"[0]) != ToLower("on"[0]);
    }
    assert Visit(doc, b, "on", 0, 1) == Success(["on"]) by {
      assert doc[3..] == "on";
      assert GetStringByPosition(doc, b, 1, 1) == Success("on");
      assert ContextAt(doc, b, 0, 1) == Success("on");
    }
    assert [0, 1][..1] == [0] && [0][..0] == [];
    assert Scan(doc, b, "on", 0, [0]) == Success([]);
    assert [] + ["on"] == ["on"];
    assert Scan(doc, b, "on", 0, [0, 1]) == Success(["on"]);
  }
}
