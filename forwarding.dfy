/**
 * The poll phase of `forward_messages_to_channel`: for every source, the
 * messages fetched above the source's watermark are walked oldest first, the
 * text messages the keyword filter accepts are sent to the destination, and
 * the watermark absorbs every fetched id.
 *
 * The messaging client is not modelled: what a fetch returns is an input
 * (newest first, as the client returns it), and whether each send succeeds
 * is an input too, one outcome per fetched message in processing order.
 */
module Forwarding {
  import opened Wrappers
  import opened KeywordFilter

  /** A fetched message: its id and its text, absent for media without a
      caption and other non-text messages. */
  datatype Message = Message(id: int, text: Option<string>)

  /** The message has a non-empty text (the truth test on `message.text`). */
  predicate HasText(m: Message)
  {
    m.text.Some? && m.text.value != []
  }

  /** One attempted send to the destination, as the log reports it: the
      source it came from, the message id and text, why it was forwarded and
      whether the send succeeded. */
  datatype Forward = Forward(source: int, id: int, text: string, reason: Decision, delivered: bool)

  function Max(a: int, b: int): int
  {
    if a >= b then a else b
  }

  /** The fetched batch in processing order: the client returns it newest
      first and the loop walks it reversed. */
  function Chronological(fetched: seq<Message>): seq<Message>
  {
    seq(|fetched|, i requires 0 <= i < |fetched| => fetched[|fetched| - 1 - i])
  }

  /** The watermark after absorbing the id of every message of `batch`, in
      order, into `mark`. */
  function Advance(mark: int, batch: seq<Message>): int
  {
    if batch == [] then mark
    else Max(Advance(mark, batch[..|batch| - 1]), batch[|batch| - 1].id)
  }

  /** The advanced watermark is the maximum of the old one and every id of the
      batch: it is at least each of them and equal to one of them. */
  lemma {:induction false} AdvanceIsMax(mark: int, batch: seq<Message>)
    ensures Advance(mark, batch) >= mark
    ensures forall i :: 0 <= i < |batch| ==> batch[i].id <= Advance(mark, batch)
    ensures Advance(mark, batch) == mark || exists i :: 0 <= i < |batch| && Advance(mark, batch) == batch[i].id
    decreases |batch|
  {
    if batch != [] {
      var n := |batch| - 1;
      AdvanceIsMax(mark, batch[..n]);
      assert forall i :: 0 <= i < n ==> batch[..n][i] == batch[i];
    }
  }

  /** The watermark does not depend on the order the batch is walked in:
      walking it oldest first gives the same value as newest first. */
  lemma AdvanceOrderFree(mark: int, fetched: seq<Message>)
    ensures Advance(mark, Chronological(fetched)) == Advance(mark, fetched)
  {
    var batch := Chronological(fetched);
    var n := |fetched|;
    AdvanceIsMax(mark, batch);
    AdvanceIsMax(mark, fetched);
    var x, y := Advance(mark, batch), Advance(mark, fetched);
    if y != mark {
      var i :| 0 <= i < n && y == fetched[i].id;
      assert fetched[i] == batch[n - 1 - i];
    }
    if x != mark {
      var i :| 0 <= i < n && x == batch[i].id;
    }
  }

  /** The message is one the forwarder sends: it has text and the keyword
      filter does not reject it. */
  predicate Accepted(m: Message, keywords: seq<string>)
  {
    HasText(m) && Classify(m.text.value, keywords) != NoMatch
  }

  /** The send attempt for a message with text, with the given outcome. */
  function Attempt(source: int, m: Message, keywords: seq<string>, delivered: bool): Forward
    requires m.text.Some?
  {
    Forward(source, m.id, m.text.value, Classify(m.text.value, keywords), delivered)
  }

  /** What happens to one message: nothing unless the forwarder accepts it;
      then one send attempt with the given outcome. */
  function Handle(source: int, m: Message, keywords: seq<string>, delivered: bool): seq<Forward>
  {
    if Accepted(m, keywords) then [Attempt(source, m, keywords, delivered)] else []
  }

  /** The send attempts for a batch walked in order, `sendOk[k]` being the
      outcome of sending the `k`-th message of the batch. */
  function Deliveries(source: int, batch: seq<Message>, keywords: seq<string>, sendOk: seq<bool>): seq<Forward>
    requires |sendOk| == |batch|
  {
    if batch == [] then []
    else
      var n := |batch| - 1;
      Deliveries(source, batch[..n], keywords, sendOk[..n]) + Handle(source, batch[n], keywords, sendOk[n])
  }

  /** Watermarks after one poll cycle over `sources` in order, `batches[i]`
      being what was fetched for `sources[i]`. Every source keeps its key. */
  function CycleMarks(marks: map<int, int>, sources: seq<int>, batches: seq<seq<Message>>): (r: map<int, int>)
    requires |batches| == |sources|
    requires forall i :: 0 <= i < |sources| ==> sources[i] in marks
    ensures r.Keys == marks.Keys
  {
    if sources == [] then marks
    else
      var n := |sources| - 1;
      var m := CycleMarks(marks, sources[..n], batches[..n]);
      assert sources[n] in marks;
      m[sources[n] := Advance(m[sources[n]], batches[n])]
  }

  /** The per-source send outcomes fit the batches. */
  predicate OutcomesFit(batches: seq<seq<Message>>, sendOk: seq<seq<bool>>)
  {
    |sendOk| == |batches| && forall i :: 0 <= i < |batches| ==> |sendOk[i]| == |batches[i]|
  }

  /** The send attempts of one poll cycle, source after source. */
  function CycleForwards(sources: seq<int>, keywords: seq<string>, batches: seq<seq<Message>>, sendOk: seq<seq<bool>>): seq<Forward>
    requires |batches| == |sources| && OutcomesFit(batches, sendOk)
  {
    if sources == [] then []
    else
      var n := |sources| - 1;
      CycleForwards(sources[..n], keywords, batches[..n], sendOk[..n])
        + Deliveries(sources[n], Chronological(batches[n]), keywords, sendOk[n])
  }

  /** Walking one more message: its send attempt, if any, is appended and its
      id is absorbed into the watermark. */
  lemma WalkStep(source: int, mark: int, batch: seq<Message>, keywords: seq<string>, sendOk: seq<bool>, j: nat)
    requires j < |batch| == |sendOk|
    ensures Deliveries(source, batch[..j + 1], keywords, sendOk[..j + 1])
      == Deliveries(source, batch[..j], keywords, sendOk[..j]) + Handle(source, batch[j], keywords, sendOk[j])
    ensures Advance(mark, batch[..j + 1]) == Max(Advance(mark, batch[..j]), batch[j].id)
  {
    assert batch[..j + 1][..j] == batch[..j];
    assert sendOk[..j + 1][..j] == sendOk[..j];
  }

  /** Polling one more source: its send attempts are appended and its
      watermark is advanced over its batch. */
  lemma CycleStep(marks: map<int, int>, sources: seq<int>, keywords: seq<string>, batches: seq<seq<Message>>, sendOk: seq<seq<bool>>, i: nat)
    requires i < |sources| == |batches| && OutcomesFit(batches, sendOk)
    requires forall k :: 0 <= k < |sources| ==> sources[k] in marks
    ensures CycleForwards(sources[..i + 1], keywords, batches[..i + 1], sendOk[..i + 1])
      == CycleForwards(sources[..i], keywords, batches[..i], sendOk[..i])
         + Deliveries(sources[i], Chronological(batches[i]), keywords, sendOk[i])
    ensures var m := CycleMarks(marks, sources[..i], batches[..i]);
      sources[i] in m &&
      CycleMarks(marks, sources[..i + 1], batches[..i + 1]) == m[sources[i] := Advance(m[sources[i]], batches[i])]
  {
    assert sources[..i + 1][..i] == sources[..i];
    assert batches[..i + 1][..i] == batches[..i];
    assert sendOk[..i + 1][..i] == sendOk[..i];
  }

  /** The filtering and sending of one fetched message: a message without
      text is skipped; otherwise the filter decides, and an accepted text is
      sent once, a failed send being reported rather than raised. */
  method ProcessMessage(source: int, message: Message, keywords: seq<string>, delivered: bool)
    returns (sent: seq<Forward>)
    ensures sent == Handle(source, message, keywords, delivered)
  {
    sent := [];
    if message.text.Some? && message.text.value != [] {
      var text := message.text.value;
      if keywords != [] && keywords != [""] {
        var matched := MatchKeyword(text, keywords);
        if matched.Some? {
          sent := [Forward(source, message.id, text, Matched(matched.value), delivered)];
        }
      } else {
        sent := [Forward(source, message.id, text, ForwardAll, delivered)];
      }
    }
  }

  /** The forwarder's state during the poll phase: the configured sources and
      keywords, and the watermark of every source. */
  class Forwarder {
    const sources: seq<int>
    const keywords: seq<string>
    var lastIds: map<int, int>

    /** Every configured source has a watermark. */
    ghost predicate Valid()
      reads this
    {
      forall i :: 0 <= i < |sources| ==> sources[i] in lastIds
    }

    constructor (sources: seq<int>, keywords: seq<string>, seeded: map<int, int>)
      requires forall i :: 0 <= i < |sources| ==> sources[i] in seeded
      ensures Valid()
      ensures this.sources == sources && this.keywords == keywords && lastIds == seeded
    {
      this.sources := sources;
      this.keywords := keywords;
      lastIds := seeded;
    }

    /** Processes the batch fetched for one source: walks it oldest first,
        sends every text message the filter accepts (a failed send is
        reported and the walk goes on), and raises the source's watermark to
        each id it meets, text or not. */
    method PollSource(source: int, fetched: seq<Message>, sendOk: seq<bool>) returns (log: seq<Forward>)
      requires Valid() && source in lastIds && |sendOk| == |fetched|
      modifies this
      ensures Valid()
      ensures lastIds == old(lastIds)[source := Advance(old(lastIds)[source], fetched)]
      ensures log == Deliveries(source, Chronological(fetched), keywords, sendOk)
    {
      ghost var batch := Chronological(fetched);
      ghost var mark := old(lastIds)[source];
      log := [];
      var j := 0;
      while j < |fetched|
        invariant 0 <= j <= |fetched|
        invariant Valid()
        invariant lastIds == old(lastIds)[source := Advance(mark, batch[..j])]
        invariant log == Deliveries(source, batch[..j], keywords, sendOk[..j])
      {
        var message := fetched[|fetched| - 1 - j];
        assert message == batch[j];
        var sent := ProcessMessage(source, message, keywords, sendOk[j]);
        log := log + sent;
        lastIds := lastIds[source := Max(lastIds[source], message.id)];
        WalkStep(source, mark, batch, keywords, sendOk, j);
        j := j + 1;
      }
      assert batch[..j] == batch;
      assert sendOk[..j] == sendOk;
      AdvanceOrderFree(mark, fetched);
    }

    /** One poll cycle: every configured source in order, `batches[i]` being
        what the fetch for `sources[i]` returned. */
    method PollCycle(batches: seq<seq<Message>>, sendOk: seq<seq<bool>>) returns (log: seq<Forward>)
      requires Valid() && |batches| == |sources| && OutcomesFit(batches, sendOk)
      modifies this
      ensures Valid()
      ensures lastIds == CycleMarks(old(lastIds), sources, batches)
      ensures log == CycleForwards(sources, keywords, batches, sendOk)
    {
      log := [];
      var i := 0;
      while i < |sources|
        invariant 0 <= i <= |sources|
        invariant Valid()
        invariant lastIds == CycleMarks(old(lastIds), sources[..i], batches[..i])
        invariant log == CycleForwards(sources[..i], keywords, batches[..i], sendOk[..i])
      {
        CycleStep(old(lastIds), sources, keywords, batches, sendOk, i);
        var sent := PollSource(sources[i], batches[i], sendOk[i]);
        log := log + sent;
        i := i + 1;
      }
      assert sources[..i] == sources;
      assert batches[..i] == batches;
      assert sendOk[..i] == sendOk;
    }
  }
}
