/**
 * The setup phase of `forward_messages_to_channel` and the run as a whole:
 * every source chat is resolved and its latest message id becomes its
 * initial watermark (0 for a chat without messages); any failure during
 * setup ends the run before polling starts; otherwise the poll cycles run
 * over the seeded watermarks.
 *
 * The client calls are not modelled: what each lookup gave is an input, and
 * so is whether the calls made before the loop (the dialog listing and the
 * destination lookup) failed.
 */
module Setup {
  import opened Wrappers
  import opened Forwarding
  import opened DeliveryProperties

  /** The two handlers of the setup: a chat id the client cannot resolve
      (`ValueError`) and any other failure. Both end the run. */
  datatype SetupError = ResolutionError | AccessError

  /** What resolving one source and fetching its most recent message gave:
      that message's id (none for an empty chat), or the error raised. */
  datatype Lookup = Latest(id: Option<int>) | Raised(error: SetupError)

  /** The initial watermark of a source: its latest message id, or 0. */
  function InitialMark(latest: Option<int>): int
  {
    if latest.Some? then latest.value else 0
  }

  /** The seeded watermarks, `lookups[i]` being what the lookup of
      `sources[i]` gave; the first raised error aborts the seeding. */
  function Seed(sources: seq<int>, lookups: seq<Lookup>): Result<map<int, int>, SetupError>
    requires |lookups| == |sources|
  {
    if sources == [] then Success(map[])
    else
      var n := |sources| - 1;
      match Seed(sources[..n], lookups[..n])
      case Failure(e) => Failure(e)
      case Success(marks) =>
        match lookups[n]
        case Raised(e) => Failure(e)
        case Latest(id) => Success(marks[sources[n] := InitialMark(id)])
  }

  /** Seeding one more source: its lookup's outcome is added, unless an
      earlier one failed. */
  lemma SeedStep(sources: seq<int>, lookups: seq<Lookup>, i: nat)
    requires i < |sources| == |lookups|
    ensures Seed(sources[..i + 1], lookups[..i + 1]) ==
      match Seed(sources[..i], lookups[..i])
      case Failure(e) => Failure(e)
      case Success(marks) =>
        match lookups[i]
        case Raised(e) => Failure(e)
        case Latest(id) => Success(marks[sources[i] := InitialMark(id)])
  {
    assert sources[..i + 1][..i] == sources[..i];
    assert lookups[..i + 1][..i] == lookups[..i];
  }

  /** Once a lookup has failed, the seeding has failed with that error,
      whatever the later lookups give. */
  lemma {:induction false} SeedFailureStops(sources: seq<int>, lookups: seq<Lookup>, i: nat)
    requires i <= |sources| == |lookups|
    requires Seed(sources[..i], lookups[..i]).Failure?
    ensures Seed(sources, lookups) == Seed(sources[..i], lookups[..i])
    decreases |sources| - i
  {
    if i == |sources| {
      assert sources[..i] == sources && lookups[..i] == lookups;
    } else {
      SeedStep(sources, lookups, i);
      SeedFailureStops(sources, lookups, i + 1);
    }
  }

  /** The seeding succeeds exactly when every lookup found its chat, and a
      failure carries the error of the first lookup that raised one. */
  lemma {:induction false} SeedOutcome(sources: seq<int>, lookups: seq<Lookup>)
    requires |lookups| == |sources|
    ensures Seed(sources, lookups).Success? <==> forall i :: 0 <= i < |lookups| ==> lookups[i].Latest?
    ensures Seed(sources, lookups).Failure? ==>
      exists i :: 0 <= i < |lookups| && lookups[i] == Raised(Seed(sources, lookups).error)
        && forall j :: 0 <= j < i ==> lookups[j].Latest?
    decreases |sources|
  {
    if sources != [] {
      var n := |sources| - 1;
      var s, l := sources[..n], lookups[..n];
      SeedOutcome(s, l);
      assert forall j :: 0 <= j < n ==> l[j] == lookups[j];
      var r := Seed(sources, lookups);
      if Seed(s, l).Failure? {
        var i :| 0 <= i < |l| && l[i] == Raised(Seed(s, l).error) && forall j :: 0 <= j < i ==> l[j].Latest?;
        assert lookups[i] == Raised(r.error);
      } else if lookups[n].Raised? {
        assert lookups[n] == Raised(r.error);
      }
    }
  }

  /** A successful seeding has a watermark for exactly the configured
      sources, and a source's watermark is the initial mark its last lookup
      gave (a source listed twice is looked up twice). */
  lemma {:induction false} SeedMarks(sources: seq<int>, lookups: seq<Lookup>)
    requires |lookups| == |sources| && Seed(sources, lookups).Success?
    ensures var marks := Seed(sources, lookups).value;
      (forall s :: s in marks ==> s in sources)
      && (forall i :: 0 <= i < |sources| ==> sources[i] in marks)
      && forall i :: 0 <= i < |sources| && (forall j :: i < j < |sources| ==> sources[j] != sources[i]) ==>
           lookups[i].Latest? && marks[sources[i]] == InitialMark(lookups[i].id)
    decreases |sources|
  {
    if sources != [] {
      var n := |sources| - 1;
      var s, l := sources[..n], lookups[..n];
      SeedMarks(s, l);
      var prior := Seed(s, l).value;
      var marks := Seed(sources, lookups).value;
      assert marks == prior[sources[n] := InitialMark(lookups[n].id)];
      assert sources == s + [sources[n]];
      forall i | 0 <= i < |sources| && (forall j :: i < j < |sources| ==> sources[j] != sources[i])
        ensures lookups[i].Latest? && marks[sources[i]] == InitialMark(lookups[i].id)
      {
        if i < n {
          SeedOutcome(sources, lookups);
          assert s[i] == sources[i] && l[i] == lookups[i];
        }
      }
    }
  }

  /** Seeds the watermarks source by source, as the setup loop does,
      stopping at the first failed lookup. */
  method SeedWatermarks(sources: seq<int>, lookups: seq<Lookup>) returns (seeded: Result<map<int, int>, SetupError>)
    requires |lookups| == |sources|
    ensures seeded == Seed(sources, lookups)
  {
    var marks := map[];
    var i := 0;
    while i < |sources|
      invariant 0 <= i <= |sources|
      invariant Seed(sources[..i], lookups[..i]) == Success(marks)
    {
      SeedStep(sources, lookups, i);
      match lookups[i]
      case Raised(e) =>
        SeedFailureStops(sources, lookups, i + 1);
        return Failure(e);
      case Latest(id) =>
        marks := marks[sources[i] := if id.Some? then id.value else 0];
      i := i + 1;
    }
    assert sources[..i] == sources && lookups[..i] == lookups;
    return Success(marks);
  }

  /** How a run ends: not authorized, aborted during setup, or polling with
      the given watermarks after sending the given messages. */
  datatype Outcome = NotAuthorized | SetupFailed(error: SetupError) | Polled(marks: map<int, int>, log: seq<Forward>)

  /** The batches and send outcomes of each cycle fit the sources. */
  predicate CyclesFit(sources: seq<int>, cycles: seq<seq<seq<Message>>>, outcomes: seq<seq<seq<bool>>>)
  {
    |outcomes| == |cycles|
    && forall c :: 0 <= c < |cycles| ==> |cycles[c]| == |sources| && OutcomesFit(cycles[c], outcomes[c])
  }

  /** The watermarks after the given poll cycles. */
  function RunMarks(marks: map<int, int>, sources: seq<int>, cycles: seq<seq<seq<Message>>>): (r: map<int, int>)
    requires forall i :: 0 <= i < |sources| ==> sources[i] in marks
    requires forall c :: 0 <= c < |cycles| ==> |cycles[c]| == |sources|
    ensures r.Keys == marks.Keys
  {
    if cycles == [] then marks
    else
      var n := |cycles| - 1;
      CycleMarks(RunMarks(marks, sources, cycles[..n]), sources, cycles[n])
  }

  /** The send attempts of the given poll cycles, cycle after cycle. */
  function RunLog(sources: seq<int>, keywords: seq<string>, cycles: seq<seq<seq<Message>>>, outcomes: seq<seq<seq<bool>>>): seq<Forward>
    requires CyclesFit(sources, cycles, outcomes)
  {
    if cycles == [] then []
    else
      var n := |cycles| - 1;
      RunLog(sources, keywords, cycles[..n], outcomes[..n]) + CycleForwards(sources, keywords, cycles[n], outcomes[n])
  }

  /** The whole run, `cycles[c][i]` being what the `c`-th poll fetched for
      `sources[i]`. */
  function Run(authorized: bool, prelude: Option<SetupError>, sources: seq<int>, keywords: seq<string>,
               lookups: seq<Lookup>, cycles: seq<seq<seq<Message>>>, outcomes: seq<seq<seq<bool>>>): Outcome
    requires |lookups| == |sources| && CyclesFit(sources, cycles, outcomes)
  {
    if !authorized then NotAuthorized
    else if prelude.Some? then SetupFailed(prelude.value)
    else
      match Seed(sources, lookups)
      case Failure(e) => SetupFailed(e)
      case Success(seeded) =>
        SeedMarks(sources, lookups);
        Polled(RunMarks(seeded, sources, cycles), RunLog(sources, keywords, cycles, outcomes))
  }

  /** Runs the forwarder: checks the authorization, seeds the watermarks
      and, if setup succeeded, runs the given poll cycles. */
  method ForwardMessagesToChannel(authorized: bool, prelude: Option<SetupError>, sources: seq<int>, keywords: seq<string>,
                                  lookups: seq<Lookup>, cycles: seq<seq<seq<Message>>>, outcomes: seq<seq<seq<bool>>>)
    returns (outcome: Outcome)
    requires |lookups| == |sources| && CyclesFit(sources, cycles, outcomes)
    ensures outcome == Run(authorized, prelude, sources, keywords, lookups, cycles, outcomes)
  {
    if !authorized {
      return NotAuthorized;
    }
    if prelude.Some? {
      return SetupFailed(prelude.value);
    }
    var seeded := SeedWatermarks(sources, lookups);
    if seeded.Failure? {
      return SetupFailed(seeded.error);
    }
    SeedMarks(sources, lookups);
    var forwarder := new Forwarder(sources, keywords, seeded.value);
    var log := [];
    var c := 0;
    while c < |cycles|
      invariant 0 <= c <= |cycles|
      invariant forwarder.Valid() && forwarder.sources == sources && forwarder.keywords == keywords
      invariant forwarder.lastIds == RunMarks(seeded.value, sources, cycles[..c])
      invariant log == RunLog(sources, keywords, cycles[..c], outcomes[..c])
    {
      assert cycles[..c + 1][..c] == cycles[..c] && outcomes[..c + 1][..c] == outcomes[..c];
      var sent := forwarder.PollCycle(cycles[c], outcomes[c]);
      log := log + sent;
      c := c + 1;
    }
    assert cycles[..c] == cycles && outcomes[..c] == outcomes;
    return Polled(forwarder.lastIds, log);
  }

  /** A run ends during setup exactly when it is authorized and the calls
      before the loop or one of the source lookups failed; then nothing is
      polled or sent. */
  lemma RunAbortsIffSetupFails(authorized: bool, prelude: Option<SetupError>, sources: seq<int>, keywords: seq<string>,
                               lookups: seq<Lookup>, cycles: seq<seq<seq<Message>>>, outcomes: seq<seq<seq<bool>>>)
    requires |lookups| == |sources| && CyclesFit(sources, cycles, outcomes)
    ensures Run(authorized, prelude, sources, keywords, lookups, cycles, outcomes).SetupFailed? <==>
      authorized && (prelude.Some? || exists i :: 0 <= i < |lookups| && lookups[i].Raised?)
  {
    SeedOutcome(sources, lookups);
  }

  /** The watermarks of a run only rise. */
  lemma {:induction false} RunMarksRise(marks: map<int, int>, sources: seq<int>, cycles: seq<seq<seq<Message>>>)
    requires forall i :: 0 <= i < |sources| ==> sources[i] in marks
    requires forall c :: 0 <= c < |cycles| ==> |cycles[c]| == |sources|
    ensures forall s | s in marks :: RunMarks(marks, sources, cycles)[s] >= marks[s]
    decreases |cycles|
  {
    if cycles != [] {
      var n := |cycles| - 1;
      RunMarksRise(marks, sources, cycles[..n]);
      CycleMarksRise(RunMarks(marks, sources, cycles[..n]), sources, cycles[n]);
    }
  }

  /** After a run each watermark covers every id fetched for its source in
      any cycle `c` of the run: no message is fetched above it again. */
  lemma {:induction false} RunMarksCover(marks: map<int, int>, sources: seq<int>, cycles: seq<seq<seq<Message>>>, c: nat)
    requires forall i :: 0 <= i < |sources| ==> sources[i] in marks
    requires forall c :: 0 <= c < |cycles| ==> |cycles[c]| == |sources|
    requires c < |cycles|
    ensures forall i, k :: 0 <= i < |sources| && 0 <= k < |cycles[c][i]| ==>
      cycles[c][i][k].id <= RunMarks(marks, sources, cycles)[sources[i]]
    decreases |cycles|
  {
    var n := |cycles| - 1;
    var before: seq<seq<seq<Message>>> := cycles[..n];
    var last: seq<seq<Message>> := cycles[n];
    var prior := RunMarks(marks, sources, before);
    assert RunMarks(marks, sources, cycles) == CycleMarks(prior, sources, last);
    if c == n {
      CycleMarksCover(prior, sources, last);
    } else {
      assert before[c] == cycles[c];
      RunMarksCover(marks, sources, before, c);
      forall i, k | 0 <= i < |sources| && 0 <= k < |cycles[c][i]|
        ensures cycles[c][i][k].id <= RunMarks(marks, sources, cycles)[sources[i]]
      {
        assert sources[i] in marks;
        assert sources[i] in prior;
        var s := sources[i];
        assert before[c][i][k].id <= prior[s];
        CycleMarksRise(prior, sources, last);
        assert prior[s] <= CycleMarks(prior, sources, last)[s];
      }
    }
  }

  /** After a run every watermark is either its seeded value or an id
      fetched for its chat in some cycle; with `RunMarksRise` and
      `RunMarksCover` this makes it the maximum of the two. */
  lemma {:induction false} RunMarksExact(marks: map<int, int>, sources: seq<int>, cycles: seq<seq<seq<Message>>>)
    requires forall i :: 0 <= i < |sources| ==> sources[i] in marks
    requires forall c :: 0 <= c < |cycles| ==> |cycles[c]| == |sources|
    ensures forall s | s in marks ::
      RunMarks(marks, sources, cycles)[s] == marks[s]
      || exists c, i, k :: 0 <= c < |cycles| && 0 <= i < |sources| && sources[i] == s && 0 <= k < |cycles[c][i]|
           && RunMarks(marks, sources, cycles)[s] == cycles[c][i][k].id
    decreases |cycles|
  {
    if cycles != [] {
      var n := |cycles| - 1;
      var before: seq<seq<seq<Message>>> := cycles[..n];
      var last: seq<seq<Message>> := cycles[n];
      var prior := RunMarks(marks, sources, before);
      RunMarksExact(marks, sources, before);
      forall i | 0 <= i < |sources| ensures sources[i] in prior {
        assert sources[i] in marks;
      }
      CycleMarksExact(prior, sources, last);
      var r := RunMarks(marks, sources, cycles);
      assert r == CycleMarks(prior, sources, last);
      forall s | s in marks
        ensures r[s] == marks[s]
          || exists c, i, k :: 0 <= c < |cycles| && 0 <= i < |sources| && sources[i] == s && 0 <= k < |cycles[c][i]|
               && r[s] == cycles[c][i][k].id
      {
        assert s in prior;
        if r[s] != prior[s] {
          var i, k :| 0 <= i < |sources| && sources[i] == s && 0 <= k < |last[i]| && r[s] == last[i][k].id;
          assert cycles[n] == last;
        } else if prior[s] != marks[s] {
          var c, i, k :| 0 <= c < |before| && 0 <= i < |sources| && sources[i] == s && 0 <= k < |before[c][i]|
            && prior[s] == before[c][i][k].id;
          assert cycles[c] == before[c];
        }
      }
    }
  }
}
