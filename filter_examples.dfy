/** The worked examples of the keyword filter, checked against the model. */
module FilterExamples {
  import opened Text
  import opened KeywordFilter

  /** An empty list and `[""]` forward everything. */
  lemma ForwardAllExamples()
    ensures Classify("Hello World", []) == ForwardAll
    ensures Classify("Hello World", [""]) == ForwardAll
  {
  }

  /** A keyword found in the text is reported, in its stripped form. */
  lemma MatchExample()
    ensures Classify("Hello World", ["world"]) == Matched("world")
  {
    var text, keyword := "Hello World", "world";
    assert TrimStart(keyword) == keyword;
    assert TrimEnd(keyword) == keyword;
    assert Lower(keyword) == keyword;
    var lowered := Lower(text);
    assert lowered[6..11] == keyword by {
      forall p | 6 <= p < 11 ensures lowered[p] == keyword[p - 6] {
        if p == 6 {
          assert text[p] == 'W';
        } else {
          assert text[p] == keyword[p - 6];
        }
      }
    }
    assert OccursAt(lowered, keyword, 6);
    ContainsIsSubstring(lowered, keyword);
    assert Hits(text, keyword);
    assert FirstHitFrom(text, [keyword], 0) == 0;
  }

  /** Upper-case text, lower-case keyword: the match ignores case. */
  lemma CaseExample()
    ensures Classify("HELLO", ["hello"]) == Matched("hello")
  {
    var text, keyword := "HELLO", "hello";
    assert TrimStart(keyword) == keyword;
    assert TrimEnd(keyword) == keyword;
    assert Lower(keyword) == keyword;
    var lowered := Lower(text);
    assert lowered == keyword by {
      forall p | 0 <= p < 5 ensures lowered[p] == keyword[p] {
        assert 'A' <= text[p] <= 'Z';
      }
    }
    assert IsPrefix(keyword, lowered);
    assert Hits(text, keyword);
    assert FirstHitFrom(text, [keyword], 0) == 0;
  }

  /** A keyword absent from the text: nothing is forwarded. */
  lemma NoMatchExample()
    ensures Classify("Hello World", ["xyz"]) == NoMatch
  {
    var text, keyword := "Hello World", "xyz";
    assert TrimStart(keyword) == keyword;
    assert TrimEnd(keyword) == keyword;
    assert Lower(keyword) == keyword;
    var lowered := Lower(text);
    ContainsIsSubstring(lowered, keyword);
    forall p | 0 <= p <= 8 ensures !OccursAt(lowered, keyword, p) {
      assert text[p] != 'x' && text[p] != 'X';
      assert lowered[p] != 'x';
    }
    assert !Hits(text, keyword);
    assert FirstHitFrom(text, [keyword], 0) == 1;
  }
}
