/** A worked poll of one source, checked against the model. */
module PollExamples {
  import opened Wrappers
  import opened Text
  import opened KeywordFilter
  import opened Forwarding

  /** "failed" occurs in "build failed". */
  lemma FailedKeywordHits()
    ensures Classify("build failed", ["failed"]) == Matched("failed")
  {
    var text, keyword := "build failed", "failed";
    assert TrimStart(keyword) == keyword;
    assert TrimEnd(keyword) == keyword;
    assert Lower(keyword) == keyword;
    var lowered := Lower(text);
    assert lowered[6..12] == keyword by {
      forall p | 6 <= p < 12 ensures lowered[p] == keyword[p - 6] {
        assert text[p] == keyword[p - 6];
      }
    }
    assert OccursAt(lowered, keyword, 6);
    ContainsIsSubstring(lowered, keyword);
    assert FirstHitFrom(text, [keyword], 0) == 0;
  }

  /** "failed" does not occur in "all good". */
  lemma FailedKeywordMisses()
    ensures Classify("all good", ["failed"]) == NoMatch
  {
    var text, keyword := "all good", "failed";
    assert TrimStart(keyword) == keyword;
    assert TrimEnd(keyword) == keyword;
    assert Lower(keyword) == keyword;
    var lowered := Lower(text);
    ContainsIsSubstring(lowered, keyword);
    forall p | 0 <= p <= 2 ensures !OccursAt(lowered, keyword, p) {
      assert text[p] != 'f' && text[p] != 'F';
      assert lowered[p] != 'f';
    }
    assert FirstHitFrom(text, [keyword], 0) == 1;
  }

  /** Watermark 100, two new messages fetched newest first: the older one
      matches "failed" and its send fails, the newer one does not match.
      One attempt is logged, for 101, undelivered, and the watermark moves
      to 102 all the same. */
  lemma FailedSendExample()
    ensures var fetched := [Message(102, Some("all good")), Message(101, Some("build failed"))];
      Deliveries(7, Chronological(fetched), ["failed"], [false, true])
        == [Forward(7, 101, "build failed", Matched("failed"), false)]
      && Advance(100, fetched) == 102
  {
    var keywords := ["failed"];
    var older, newer := Message(101, Some("build failed")), Message(102, Some("all good"));
    var fetched := [newer, older];
    var batch, sendOk := Chronological(fetched), [false, true];
    assert batch == [older, newer];
    FailedKeywordHits();
    FailedKeywordMisses();
    var attempt := Forward(7, 101, "build failed", Matched("failed"), false);
    assert Handle(7, older, keywords, false) == [attempt];
    assert Handle(7, newer, keywords, true) == [];
    assert batch[..1] == [older] && sendOk[..1] == [false];
    assert [older][..0] == [] && [false][..0] == [];
    assert Deliveries(7, [older], keywords, [false]) == [attempt];
    assert Deliveries(7, batch, keywords, sendOk) == [attempt];
    assert fetched[..1] == [newer];
    assert Advance(100, [newer]) == 102;
  }
}
