/**
 * What the poll phase promises about the messages it sends and the
 * watermarks it keeps: every send attempt comes from an accepted fetched
 * message and every accepted message is attempted, in order; a failed send
 * changes nothing but its own outcome; and a watermark covers every id its
 * source has fetched, so a fetch above it never returns a message again.
 */
module DeliveryProperties {
  import opened Text
  import opened KeywordFilter
  import opened Forwarding

  /** Every send attempt is that of an accepted message of the batch, with
      that message's own send outcome. */
  lemma {:induction false} DeliveriesSound(source: int, batch: seq<Message>, keywords: seq<string>, sendOk: seq<bool>)
    requires |sendOk| == |batch|
    ensures var log := Deliveries(source, batch, keywords, sendOk);
      forall p :: 0 <= p < |log| ==>
        exists k :: 0 <= k < |batch| && Accepted(batch[k], keywords)
          && log[p] == Attempt(source, batch[k], keywords, sendOk[k])
    decreases |batch|
  {
    if batch != [] {
      var n := |batch| - 1;
      var b, o := batch[..n], sendOk[..n];
      var prior := Deliveries(source, b, keywords, o);
      DeliveriesSound(source, b, keywords, o);
      assert var log := Deliveries(source, b, keywords, o);
        forall p :: 0 <= p < |log| ==>
          exists k :: 0 <= k < |b| && Accepted(b[k], keywords)
            && log[p] == Attempt(source, b[k], keywords, o[k]);
      var log := Deliveries(source, batch, keywords, sendOk);
      forall p | 0 <= p < |log|
        ensures exists k :: 0 <= k < |batch| && Accepted(batch[k], keywords)
                   && log[p] == Attempt(source, batch[k], keywords, sendOk[k])
      {
        if p < |prior| {
          var k :| 0 <= k < |b| && Accepted(b[k], keywords)
            && prior[p] == Attempt(source, b[k], keywords, o[k]);
          assert b[k] == batch[k] && o[k] == sendOk[k];
          assert log[p] == prior[p];
        } else {
          assert log[p] == Attempt(source, batch[n], keywords, sendOk[n]);
        }
      }
    }
  }

  /** Every accepted message of the batch is attempted, with its own send
      outcome. */
  lemma {:induction false} DeliveriesComplete(source: int, batch: seq<Message>, keywords: seq<string>, sendOk: seq<bool>)
    requires |sendOk| == |batch|
    ensures forall k :: 0 <= k < |batch| && Accepted(batch[k], keywords) ==>
      Attempt(source, batch[k], keywords, sendOk[k]) in Deliveries(source, batch, keywords, sendOk)
    decreases |batch|
  {
    if batch != [] {
      var n := |batch| - 1;
      var prior := Deliveries(source, batch[..n], keywords, sendOk[..n]);
      DeliveriesComplete(source, batch[..n], keywords, sendOk[..n]);
      var log := Deliveries(source, batch, keywords, sendOk);
      assert log == prior + Handle(source, batch[n], keywords, sendOk[n]);
      forall k | 0 <= k < |batch| && Accepted(batch[k], keywords)
        ensures Attempt(source, batch[k], keywords, sendOk[k]) in log
      {
        if k < n {
          assert batch[..n][k] == batch[k] && sendOk[..n][k] == sendOk[k];
        }
      }
    }
  }

  /** The send outcomes decide only the delivered flags: the same messages
      are attempted, in the same order, whatever the earlier sends did. */
  lemma {:induction false} OutcomesOnlyMarkDelivery(source: int, batch: seq<Message>, keywords: seq<string>, sendOk: seq<bool>, otherOk: seq<bool>)
    requires |sendOk| == |batch| == |otherOk|
    ensures var log, other := Deliveries(source, batch, keywords, sendOk), Deliveries(source, batch, keywords, otherOk);
      |log| == |other| && forall p :: 0 <= p < |log| ==> log[p] == other[p].(delivered := log[p].delivered)
    decreases |batch|
  {
    if batch != [] {
      var n := |batch| - 1;
      OutcomesOnlyMarkDelivery(source, batch[..n], keywords, sendOk[..n], otherOk[..n]);
    }
  }

  /** Forwarding everything: every text message of the batch is attempted,
      with the reason ForwardAll. */
  lemma ForwardAllSendsEveryText(source: int, batch: seq<Message>, keywords: seq<string>, sendOk: seq<bool>)
    requires |sendOk| == |batch| && ForwardsAll(keywords)
    ensures forall k :: 0 <= k < |batch| && HasText(batch[k]) ==>
      Forward(source, batch[k].id, batch[k].text.value, ForwardAll, sendOk[k]) in Deliveries(source, batch, keywords, sendOk)
  {
    forall k | 0 <= k < |batch| && HasText(batch[k])
      ensures Accepted(batch[k], keywords) && Classify(batch[k].text.value, keywords) == ForwardAll
    {
      ClassifyCases(batch[k].text.value, keywords);
    }
    DeliveriesComplete(source, batch, keywords, sendOk);
  }

  /** A non-empty keyword list whose every entry is blank matches nothing:
      no message is ever sent. */
  lemma {:induction false} BlankKeywordsSendNothing(source: int, batch: seq<Message>, keywords: seq<string>, sendOk: seq<bool>)
    requires |sendOk| == |batch| && !ForwardsAll(keywords)
    requires forall j :: 0 <= j < |keywords| ==> IsBlank(keywords[j])
    ensures Deliveries(source, batch, keywords, sendOk) == []
    decreases |batch|
  {
    if batch != [] {
      var n := |batch| - 1;
      BlankKeywordsSendNothing(source, batch[..n], keywords, sendOk[..n]);
      if HasText(batch[n]) {
        BlankKeywordsMatchNothing(batch[n].text.value, keywords);
      }
    }
  }

  /** The ids of a batch strictly increase. */
  predicate Ascending(batch: seq<Message>)
  {
    forall i, j :: 0 <= i < j < |batch| ==> batch[i].id < batch[j].id
  }

  /** Every send attempt carries the id of a message of the batch, so a
      bound on the batch's ids bounds the attempts' ids. */
  lemma {:induction false} DeliveriesIdsBelow(source: int, batch: seq<Message>, keywords: seq<string>, sendOk: seq<bool>, bound: int)
    requires |sendOk| == |batch|
    requires forall k :: 0 <= k < |batch| ==> batch[k].id < bound
    ensures var log := Deliveries(source, batch, keywords, sendOk);
      forall p :: 0 <= p < |log| ==> log[p].id < bound
    decreases |batch|
  {
    if batch != [] {
      var n := |batch| - 1;
      assert forall k :: 0 <= k < n ==> batch[..n][k] == batch[k];
      DeliveriesIdsBelow(source, batch[..n], keywords, sendOk[..n], bound);
      var last := Handle(source, batch[n], keywords, sendOk[n]);
      assert Deliveries(source, batch, keywords, sendOk) == Deliveries(source, batch[..n], keywords, sendOk[..n]) + last;
      assert forall q :: 0 <= q < |last| ==> last[q].id == batch[n].id;
    }
  }

  /** Walking a batch of increasing ids sends in increasing id order. */
  lemma {:induction false} DeliveriesAscending(source: int, batch: seq<Message>, keywords: seq<string>, sendOk: seq<bool>)
    requires |sendOk| == |batch| && Ascending(batch)
    ensures var log := Deliveries(source, batch, keywords, sendOk);
      forall p, q :: 0 <= p < q < |log| ==> log[p].id < log[q].id
    decreases |batch|
  {
    if batch != [] {
      var n := |batch| - 1;
      var b, o := batch[..n], sendOk[..n];
      var prior := Deliveries(source, b, keywords, o);
      var last := Handle(source, batch[n], keywords, sendOk[n]);
      DeliveriesAscending(source, b, keywords, o);
      DeliveriesIdsBelow(source, b, keywords, o, batch[n].id);
      assert var log := Deliveries(source, b, keywords, o);
        (forall p, q :: 0 <= p < q < |log| ==> log[p].id < log[q].id)
        && (forall p :: 0 <= p < |log| ==> log[p].id < batch[n].id);
      var log := Deliveries(source, batch, keywords, sendOk);
      assert log == prior + last;
      assert |last| <= 1 && forall q :: 0 <= q < |last| ==> last[q].id == batch[n].id;
      forall p, q | 0 <= p < q < |log| ensures log[p].id < log[q].id {
        assert p < |prior|;
        assert log[p] == prior[p];
        if q < |prior| {
          assert log[q] == prior[q];
        } else {
          assert log[q] == last[q - |prior|];
        }
      }
    }
  }

  /** The client returns a batch newest first; walked reversed, the sends of
      a poll go out in increasing id order. */
  lemma PollSendsInIdOrder(source: int, fetched: seq<Message>, keywords: seq<string>, sendOk: seq<bool>)
    requires |sendOk| == |fetched|
    requires forall i, j :: 0 <= i < j < |fetched| ==> fetched[i].id > fetched[j].id
    ensures var log := Deliveries(source, Chronological(fetched), keywords, sendOk);
      forall p, q :: 0 <= p < q < |log| ==> log[p].id < log[q].id
  {
    var batch := Chronological(fetched);
    assert Ascending(batch) by {
      forall i, j | 0 <= i < j < |batch| ensures batch[i].id < batch[j].id {
        assert batch[i] == fetched[|fetched| - 1 - i] && batch[j] == fetched[|fetched| - 1 - j];
      }
    }
    DeliveriesAscending(source, batch, keywords, sendOk);
  }

  /** A batch whose ids the watermark already covers leaves it unchanged:
      refetching what was seen does not move it. */
  lemma SeenBatchKeepsMark(mark: int, batch: seq<Message>)
    requires forall i :: 0 <= i < |batch| ==> batch[i].id <= mark
    ensures Advance(mark, batch) == mark
  {
    AdvanceIsMax(mark, batch);
  }

  /** After a batch is absorbed, a fetch of ids above the new watermark (the
      client's `min_id`) shares no id with it: no message is handled twice. */
  lemma FreshFetchIsDisjoint(mark: int, first: seq<Message>, second: seq<Message>)
    requires forall j :: 0 <= j < |second| ==> second[j].id > Advance(mark, first)
    ensures forall i, j :: 0 <= i < |first| && 0 <= j < |second| ==> first[i].id != second[j].id
  {
    AdvanceIsMax(mark, first);
  }

  /** A poll cycle only raises watermarks and leaves those of chats it
      does not poll untouched. */
  lemma {:induction false} CycleMarksRise(marks: map<int, int>, sources: seq<int>, batches: seq<seq<Message>>)
    requires |batches| == |sources|
    requires forall i :: 0 <= i < |sources| ==> sources[i] in marks
    ensures forall s | s in marks :: CycleMarks(marks, sources, batches)[s] >= marks[s]
    ensures forall s | s in marks && s !in sources :: CycleMarks(marks, sources, batches)[s] == marks[s]
    decreases |sources|
  {
    if sources != [] {
      var n := |sources| - 1;
      var m := CycleMarks(marks, sources[..n], batches[..n]);
      CycleMarksRise(marks, sources[..n], batches[..n]);
      assert sources[n] in marks;
      var r := CycleMarks(marks, sources, batches);
      assert r == m[sources[n] := Advance(m[sources[n]], batches[n])];
      AdvanceIsMax(m[sources[n]], batches[n]);
      forall s | s in marks && s !in sources ensures r[s] == marks[s] {
        assert s !in sources[..n];
      }
    }
  }

  /** After a poll cycle every polled source's watermark is at or above
      every id fetched for it in that cycle. */
  lemma {:induction false} CycleMarksCover(marks: map<int, int>, sources: seq<int>, batches: seq<seq<Message>>)
    requires |batches| == |sources|
    requires forall i :: 0 <= i < |sources| ==> sources[i] in marks
    ensures forall i, k :: 0 <= i < |sources| && 0 <= k < |batches[i]| ==>
      batches[i][k].id <= CycleMarks(marks, sources, batches)[sources[i]]
    decreases |sources|
  {
    if sources != [] {
      var n := |sources| - 1;
      var m := CycleMarks(marks, sources[..n], batches[..n]);
      CycleMarksCover(marks, sources[..n], batches[..n]);
      assert sources[n] in marks;
      var r := CycleMarks(marks, sources, batches);
      assert r == m[sources[n] := Advance(m[sources[n]], batches[n])];
      AdvanceIsMax(m[sources[n]], batches[n]);
      forall i, k | 0 <= i < |sources| && 0 <= k < |batches[i]| ensures batches[i][k].id <= r[sources[i]] {
        if i < n {
          assert sources[..n][i] == sources[i] && batches[..n][i] == batches[i];
        }
      }
    }
  }

  /** After a poll cycle every watermark is either what it was or one of
      the ids fetched for its chat; with `CycleMarksRise` and
      `CycleMarksCover` this makes it the maximum of the two. */
  lemma {:induction false} CycleMarksExact(marks: map<int, int>, sources: seq<int>, batches: seq<seq<Message>>)
    requires |batches| == |sources|
    requires forall i :: 0 <= i < |sources| ==> sources[i] in marks
    ensures forall s | s in marks ::
      CycleMarks(marks, sources, batches)[s] == marks[s]
      || exists i, k :: 0 <= i < |sources| && sources[i] == s && 0 <= k < |batches[i]|
           && CycleMarks(marks, sources, batches)[s] == batches[i][k].id
    decreases |sources|
  {
    if sources != [] {
      var n := |sources| - 1;
      var ss, bs := sources[..n], batches[..n];
      var m := CycleMarks(marks, ss, bs);
      CycleMarksExact(marks, ss, bs);
      assert sources[n] in marks;
      var r := CycleMarks(marks, sources, batches);
      assert r == m[sources[n] := Advance(m[sources[n]], batches[n])];
      forall s | s in marks
        ensures r[s] == marks[s]
          || exists i, k :: 0 <= i < |sources| && sources[i] == s && 0 <= k < |batches[i]| && r[s] == batches[i][k].id
      {
        if s == sources[n] {
          AdvanceIsMax(m[s], batches[n]);
          if r[s] != m[s] {
            var k :| 0 <= k < |batches[n]| && r[s] == batches[n][k].id;
            assert sources[n] == s;
          }
        }
        if r[s] == m[s] && m[s] != marks[s] {
          var i, k :| 0 <= i < |ss| && ss[i] == s && 0 <= k < |bs[i]| && m[s] == bs[i][k].id;
          assert sources[i] == s && batches[i] == bs[i];
        }
      }
    }
  }

  /** A poll cycle in which every fetch comes back empty sends nothing and
      leaves every watermark as it was. */
  lemma {:induction false} EmptyCycleIsNoOp(marks: map<int, int>, sources: seq<int>, keywords: seq<string>,
                                            batches: seq<seq<Message>>, sendOk: seq<seq<bool>>)
    requires |batches| == |sources| && OutcomesFit(batches, sendOk)
    requires forall i :: 0 <= i < |sources| ==> sources[i] in marks
    requires forall i :: 0 <= i < |batches| ==> batches[i] == []
    ensures CycleMarks(marks, sources, batches) == marks
    ensures CycleForwards(sources, keywords, batches, sendOk) == []
    decreases |sources|
  {
    if sources != [] {
      var n := |sources| - 1;
      EmptyCycleIsNoOp(marks, sources[..n], keywords, batches[..n], sendOk[..n]);
      assert batches[n] == [] && sources[n] in marks;
    }
  }
}
