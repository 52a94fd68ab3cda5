/** MultiArtifactSink: a builder collects (matcher, sink) lanes in insertion
    order; the built sink hands each artifact to the first lane whose matcher
    accepts it, and fans cleanup and close out to every lane's sink.

    Everything that happens is recorded in one ghost Journal: each call made on
    a sink with the outcome it had, and each verbose or warning line written to
    the output. Sinks are arbitrary foreign code, so each call on a sink may
    succeed or fail with any exception. */
module MultiSink {
  import opened Wrappers
  import opened Aether

  /** An exception a sink throws, or the one cleanup is given. */
  datatype SinkError = SinkError(message: string)

  datatype Call = AcceptCall(artifact: Artifact) | CleanupCall(cause: SinkError) | CloseCall

  datatype Event =
    | Called(sink: ArtifactSink, call: Call, outcome: Outcome<SinkError>)
    | Verbose(message: string, artifact: Artifact)
    | Warn(message: string, cause: SinkError)

  const AcceptMessage := "Accept artifact {}"
  const NobodyMessage := "Nobody accepted artifact {}"
  const CloseFailedMessage := "Closing sink failed"

  /** The record of everything the sinks and the output saw, in order. */
  class Journal {
    ghost var events: seq<Event>

    constructor ()
      ensures events == []
    {
      events := [];
    }
  }

  /** A sink: each call is recorded with the outcome it had. */
  class ArtifactSink {
    ghost const journal: Journal

    constructor (ghost journal: Journal)
      ensures this.journal == journal
    {
      this.journal := journal;
    }

    method Accept(a: Artifact) returns (o: Outcome<SinkError>)
      modifies journal
      ensures journal.events == old(journal.events) + [Called(this, AcceptCall(a), o)]
    {
      o :| true;
      journal.events := journal.events + [Called(this, AcceptCall(a), o)];
    }

    method Cleanup(e: SinkError) returns (o: Outcome<SinkError>)
      modifies journal
      ensures journal.events == old(journal.events) + [Called(this, CleanupCall(e), o)]
    {
      o :| true;
      journal.events := journal.events + [Called(this, CleanupCall(e), o)];
    }

    method Close() returns (o: Outcome<SinkError>)
      modifies journal
      ensures journal.events == old(journal.events) + [Called(this, CloseCall, o)]
    {
      o :| true;
      journal.events := journal.events + [Called(this, CloseCall, o)];
    }
  }

  /** A Predicate<Artifact>. Map keys compare by identity, as lambdas do. */
  class ArtifactMatcher {
    const test: Artifact -> bool

    constructor (test: Artifact -> bool)
      ensures this.test == test
    {
      this.test := test;
    }
  }

  /** One entry of the lane map. */
  datatype Lane = Lane(matcher: ArtifactMatcher, sink: ArtifactSink)

  predicate DistinctMatchers(lanes: seq<Lane>)
  {
    forall i, j :: 0 <= i < j < |lanes| ==> lanes[i].matcher != lanes[j].matcher
  }

  /** LinkedHashMap.put: a new key goes last; a known key keeps its position
      and only its sink is replaced. */
  function PutLane(lanes: seq<Lane>, m: ArtifactMatcher, s: ArtifactSink): (r: seq<Lane>)
    requires DistinctMatchers(lanes)
    ensures (exists i :: 0 <= i < |lanes| && lanes[i].matcher == m) ==>
      |r| == |lanes| && forall i :: 0 <= i < |lanes| ==> r[i] == if lanes[i].matcher == m then Lane(m, s) else lanes[i]
    ensures (forall i :: 0 <= i < |lanes| ==> lanes[i].matcher != m) ==> r == lanes + [Lane(m, s)]
  {
    if lanes == [] then [Lane(m, s)]
    else if lanes[0].matcher == m then [Lane(m, s)] + lanes[1..]
    else [lanes[0]] + PutLane(lanes[1..], m, s)
  }

  /** LinkedHashMap.get: the sink registered under `m`, if any. */
  function Lookup(lanes: seq<Lane>, m: ArtifactMatcher): Option<ArtifactSink>
  {
    if lanes == [] then None
    else if lanes[0].matcher == m then Some(lanes[0].sink)
    else Lookup(lanes[1..], m)
  }

  lemma {:induction false} PutKeepsDistinct(lanes: seq<Lane>, m: ArtifactMatcher, s: ArtifactSink)
    requires DistinctMatchers(lanes)
    ensures DistinctMatchers(PutLane(lanes, m, s))
  {
    var r := PutLane(lanes, m, s);
    if exists i :: 0 <= i < |lanes| && lanes[i].matcher == m {
      forall i, j | 0 <= i < j < |r|
        ensures r[i].matcher != r[j].matcher
      {
        assert r[i].matcher == lanes[i].matcher && r[j].matcher == lanes[j].matcher;
      }
    } else {
      forall i, j | 0 <= i < j < |r|
        ensures r[i].matcher != r[j].matcher
      {
        if j == |lanes| {
          assert r[j].matcher == m;
        }
      }
    }
  }

  /** After a put, looking up its key gives its sink, and every other key
      gives what it gave before. */
  lemma {:induction false} LookupAfterPut(lanes: seq<Lane>, m: ArtifactMatcher, s: ArtifactSink, other: ArtifactMatcher)
    requires DistinctMatchers(lanes)
    ensures Lookup(PutLane(lanes, m, s), m) == Some(s)
    ensures other != m ==> Lookup(PutLane(lanes, m, s), other) == Lookup(lanes, other)
  {
    if lanes != [] {
      var r := PutLane(lanes, m, s);
      if lanes[0].matcher == m {
        assert r == [Lane(m, s)] + lanes[1..];
        assert r[1..] == lanes[1..];
      } else {
        assert DistinctMatchers(lanes[1..]);
        LookupAfterPut(lanes[1..], m, s, other);
        assert r == [lanes[0]] + PutLane(lanes[1..], m, s);
        assert r[1..] == PutLane(lanes[1..], m, s);
      }
    }
  }

  /** The insertion-ordered map of lanes that the builder fills and the built
      sink reads. */
  class LaneMap {
    var lanes: seq<Lane>

    ghost predicate Valid()
      reads this
    {
      DistinctMatchers(lanes)
    }

    constructor ()
      ensures lanes == [] && Valid()
    {
      lanes := [];
    }

    method Put(m: ArtifactMatcher, s: ArtifactSink)
      requires Valid()
      modifies this
      ensures lanes == PutLane(old(lanes), m, s)
      ensures Valid()
    {
      PutKeepsDistinct(lanes, m, s);
      lanes := PutLane(lanes, m, s);
    }
  }

  /** The position of the first lane whose matcher accepts `a`, or |lanes|
      when none does. */
  function FirstMatch(lanes: seq<Lane>, a: Artifact): (k: nat)
    ensures k <= |lanes|
    ensures forall i :: 0 <= i < k ==> !lanes[i].matcher.test(a)
    ensures k < |lanes| ==> lanes[k].matcher.test(a)
  {
    if lanes == [] then 0
    else if lanes[0].matcher.test(a) then 0
    else 1 + FirstMatch(lanes[1..], a)
  }

  /** The first lane that accepts, found by scanning. */
  lemma FirstMatchIsFirst(lanes: seq<Lane>, a: Artifact, i: nat)
    requires i <= |lanes|
    requires forall j :: 0 <= j < i ==> !lanes[j].matcher.test(a)
    requires i < |lanes| ==> lanes[i].matcher.test(a)
    ensures FirstMatch(lanes, a) == i
  {
  }

  function Matchers(lanes: seq<Lane>): (ms: seq<ArtifactMatcher>)
    ensures |ms| == |lanes| && forall i :: 0 <= i < |lanes| ==> ms[i] == lanes[i].matcher
  {
    if lanes == [] then [] else [lanes[0].matcher] + Matchers(lanes[1..])
  }

  lemma MatchersSnoc(lanes: seq<Lane>, i: nat)
    requires i < |lanes|
    ensures Matchers(lanes[..i + 1]) == Matchers(lanes[..i]) + [lanes[i].matcher]
  {
    var l := Matchers(lanes[..i + 1]);
    var r := Matchers(lanes[..i]) + [lanes[i].matcher];
    assert forall j :: 0 <= j < |l| ==> l[j] == r[j];
  }

  /** The calls `call` on each lane's sink, with the outcomes they had. */
  function Calls(lanes: seq<Lane>, call: Call, outcomes: seq<Outcome<SinkError>>): (es: seq<Event>)
    requires |outcomes| == |lanes|
    ensures |es| == |lanes|
    ensures forall i :: 0 <= i < |lanes| ==> es[i] == Called(lanes[i].sink, call, outcomes[i])
  {
    if lanes == [] then [] else [Called(lanes[0].sink, call, outcomes[0])] + Calls(lanes[1..], call, outcomes[1..])
  }

  lemma CallsSnoc(lanes: seq<Lane>, call: Call, outcomes: seq<Outcome<SinkError>>, i: nat, r: Outcome<SinkError>)
    requires i < |lanes| && |outcomes| == i
    ensures Calls(lanes[..i + 1], call, outcomes + [r]) == Calls(lanes[..i], call, outcomes) + [Called(lanes[i].sink, call, r)]
  {
    var l := Calls(lanes[..i + 1], call, outcomes + [r]);
    var m := Calls(lanes[..i], call, outcomes) + [Called(lanes[i].sink, call, r)];
    assert forall j :: 0 <= j < |l| ==> l[j] == m[j];
  }

  /** What close records for each lane: the close call, then a warning when it
      failed. */
  function CloseEvents(lanes: seq<Lane>, outcomes: seq<Outcome<SinkError>>): seq<Event>
    requires |outcomes| == |lanes|
  {
    if lanes == [] then []
    else
      [Called(lanes[0].sink, CloseCall, outcomes[0])]
      + (if outcomes[0].Fail? then [Warn(CloseFailedMessage, outcomes[0].error)] else [])
      + CloseEvents(lanes[1..], outcomes[1..])
  }

  /** The sinks closed in `es`, in order. */
  function Closed(es: seq<Event>): seq<ArtifactSink>
  {
    if es == [] then []
    else (if es[0].Called? && es[0].call == CloseCall then [es[0].sink] else []) + Closed(es[1..])
  }

  /** The causes of the warnings in `es`, in order. */
  function Warnings(es: seq<Event>): seq<SinkError>
  {
    if es == [] then []
    else (if es[0].Warn? then [es[0].cause] else []) + Warnings(es[1..])
  }

  function SinksOf(lanes: seq<Lane>): (ss: seq<ArtifactSink>)
    ensures |ss| == |lanes| && forall i :: 0 <= i < |lanes| ==> ss[i] == lanes[i].sink
  {
    if lanes == [] then [] else [lanes[0].sink] + SinksOf(lanes[1..])
  }

  /** The exceptions among `outcomes`, in order. */
  function Failures(outcomes: seq<Outcome<SinkError>>): seq<SinkError>
  {
    if outcomes == [] then []
    else (if outcomes[0].Fail? then [outcomes[0].error] else []) + Failures(outcomes[1..])
  }

  lemma {:induction false} ClosedAppend(a: seq<Event>, b: seq<Event>)
    ensures Closed(a + b) == Closed(a) + Closed(b)
    ensures Warnings(a + b) == Warnings(a) + Warnings(b)
  {
    if a == [] {
      assert a + b == b;
    } else {
      assert (a + b)[0] == a[0] && (a + b)[1..] == a[1..] + b;
      ClosedAppend(a[1..], b);
      var c := if a[0].Called? && a[0].call == CloseCall then [a[0].sink] else [];
      var w := if a[0].Warn? then [a[0].cause] else [];
      calc {
        Closed(a + b);
        c + Closed(a[1..] + b);
        c + (Closed(a[1..]) + Closed(b));
        (c + Closed(a[1..])) + Closed(b);
      }
      calc {
        Warnings(a + b);
        w + Warnings(a[1..] + b);
        w + (Warnings(a[1..]) + Warnings(b));
        (w + Warnings(a[1..])) + Warnings(b);
      }
    }
  }

  /** close reaches every lane's sink exactly once, in lane order, whatever
      the earlier sinks threw. */
  lemma {:induction false} CloseReachesEverySink(lanes: seq<Lane>, outcomes: seq<Outcome<SinkError>>)
    requires |outcomes| == |lanes|
    ensures Closed(CloseEvents(lanes, outcomes)) == SinksOf(lanes)
  {
    if lanes != [] {
      var head := [Called(lanes[0].sink, CloseCall, outcomes[0])]
        + (if outcomes[0].Fail? then [Warn(CloseFailedMessage, outcomes[0].error)] else []);
      CloseReachesEverySink(lanes[1..], outcomes[1..]);
      ClosedAppend(head, CloseEvents(lanes[1..], outcomes[1..]));
      assert Closed(head) == [lanes[0].sink] by {
        assert head[1..] == (if outcomes[0].Fail? then [Warn(CloseFailedMessage, outcomes[0].error)] else []);
      }
    }
  }

  /** close warns once per failed sink, with that sink's exception, and for
      nothing else. */
  lemma {:induction false} CloseWarnsPerFailure(lanes: seq<Lane>, outcomes: seq<Outcome<SinkError>>)
    requires |outcomes| == |lanes|
    ensures Warnings(CloseEvents(lanes, outcomes)) == Failures(outcomes)
  {
    if lanes != [] {
      var head := [Called(lanes[0].sink, CloseCall, outcomes[0])]
        + (if outcomes[0].Fail? then [Warn(CloseFailedMessage, outcomes[0].error)] else []);
      CloseWarnsPerFailure(lanes[1..], outcomes[1..]);
      ClosedAppend(head, CloseEvents(lanes[1..], outcomes[1..]));
      assert Warnings(head) == (if outcomes[0].Fail? then [outcomes[0].error] else []) by {
        assert head[1..] == (if outcomes[0].Fail? then [Warn(CloseFailedMessage, outcomes[0].error)] else []);
        if outcomes[0].Fail? {
          assert head[1..][1..] == [];
        }
      }
    }
  }

  lemma {:induction false} CloseEventsSnoc(lanes: seq<Lane>, outcomes: seq<Outcome<SinkError>>, l: Lane, o: Outcome<SinkError>)
    requires |outcomes| == |lanes|
    ensures CloseEvents(lanes + [l], outcomes + [o]) == CloseEvents(lanes, outcomes)
      + [Called(l.sink, CloseCall, o)] + (if o.Fail? then [Warn(CloseFailedMessage, o.error)] else [])
  {
    if lanes == [] {
      assert lanes + [l] == [l] && outcomes + [o] == [o];
    } else {
      assert (lanes + [l])[1..] == lanes[1..] + [l];
      assert (outcomes + [o])[1..] == outcomes[1..] + [o];
      CloseEventsSnoc(lanes[1..], outcomes[1..], l, o);
    }
  }

  class MultiArtifactSinkBuilder {
    ghost const journal: Journal
    const sinks: LaneMap

    /** multiBuilder(output): an empty lane map. */
    constructor (ghost journal: Journal)
      ensures this.journal == journal
      ensures fresh(sinks) && sinks.lanes == [] && Valid()
    {
      this.journal := journal;
      sinks := new LaneMap();
    }

    ghost predicate Valid()
      reads this, sinks
    {
      sinks.Valid()
    }

    /** addSink: both arguments must be non-null; the lane is put into the map. */
    method AddSink(artifactMatcher: ArtifactMatcher?, sink: ArtifactSink?) returns (o: Outcome<JavaException>)
      requires Valid()
      modifies sinks
      ensures Valid()
      ensures artifactMatcher == null ==> o == Fail(NullPointer(Some("artifactMatcher"))) && sinks.lanes == old(sinks.lanes)
      ensures artifactMatcher != null && sink == null ==> o == Fail(NullPointer(Some("sink"))) && sinks.lanes == old(sinks.lanes)
      ensures artifactMatcher != null && sink != null ==> o == Pass && sinks.lanes == PutLane(old(sinks.lanes), artifactMatcher, sink)
    {
      if artifactMatcher == null {
        return Fail(NullPointer(Some("artifactMatcher")));
      }
      if sink == null {
        return Fail(NullPointer(Some("sink")));
      }
      sinks.Put(artifactMatcher, sink);
      o := Pass;
    }

    /** build: the new sink reads this builder's own map, so lanes added to the
        builder later reach it too. */
    method Build() returns (d: MultiArtifactSink)
      ensures fresh(d) && d.sinks == sinks && d.journal == journal
    {
      d := new MultiArtifactSink(journal, sinks);
    }
  }

  /** The built sink is a view of the builder's map: a lane added after build
      is one the built sink routes to, for every artifact that its matcher
      accepts and that no lane present before refused to pass on. */
  method AddAfterBuild(b: MultiArtifactSinkBuilder, m: ArtifactMatcher, s: ArtifactSink) returns (d: MultiArtifactSink)
    requires b.Valid()
    modifies b.sinks
    ensures d.sinks.lanes == PutLane(old(b.sinks.lanes), m, s)
    ensures Lookup(d.sinks.lanes, m) == Some(s)
    ensures forall a :: m.test(a) && FirstMatch(old(b.sinks.lanes), a) == |old(b.sinks.lanes)| ==>
      FirstMatch(d.sinks.lanes, a) < |d.sinks.lanes| && d.sinks.lanes[FirstMatch(d.sinks.lanes, a)] == Lane(m, s)
  {
    d := b.Build();
    ghost var before := b.sinks.lanes;
    var o := b.AddSink(m, s);
    LookupAfterPut(before, m, s, m);
    forall a | m.test(a) && FirstMatch(before, a) == |before|
      ensures FirstMatch(d.sinks.lanes, a) == |before| && d.sinks.lanes[|before|] == Lane(m, s)
    {
      if i :| 0 <= i < |before| && before[i].matcher == m {
        assert false;
      }
      FirstMatchIsFirst(d.sinks.lanes, a, |before|);
    }
  }

  class MultiArtifactSink {
    ghost const journal: Journal
    const sinks: LaneMap

    constructor (ghost journal: Journal, sinks: LaneMap)
      ensures this.journal == journal && this.sinks == sinks
    {
      this.journal := journal;
      this.sinks := sinks;
    }

    /** Every lane's sink records into the journal this sink writes its
        output to. */
    ghost predicate Valid()
      reads this, sinks
    {
      forall l :: l in sinks.lanes ==> l.sink.journal == journal
    }

    /** accept: the artifact goes to the sink of the first matching lane and to
        no other; matchers after it are not tested; an exception from that sink
        propagates; with no match nothing is thrown and a verbose line says so. */
    method Accept(a: Artifact) returns (o: Outcome<SinkError>, ghost tested: seq<ArtifactMatcher>)
      requires Valid()
      modifies journal
      ensures FirstMatch(sinks.lanes, a) < |sinks.lanes| ==>
        && tested == Matchers(sinks.lanes[..FirstMatch(sinks.lanes, a) + 1])
        && journal.events == old(journal.events) + [Verbose(AcceptMessage, a), Called(sinks.lanes[FirstMatch(sinks.lanes, a)].sink, AcceptCall(a), o)]
      ensures FirstMatch(sinks.lanes, a) == |sinks.lanes| ==>
        && tested == Matchers(sinks.lanes)
        && o == Pass
        && journal.events == old(journal.events) + [Verbose(AcceptMessage, a), Verbose(NobodyMessage, a)]
    {
      ghost var before := journal.events;
      journal.events := journal.events + [Verbose(AcceptMessage, a)];
      var lanes := sinks.lanes;
      var processed := false;
      var i := 0;
      tested := [];
      o := Pass;
      while i < |lanes|
        invariant i <= |lanes|
        invariant journal.events == before + [Verbose(AcceptMessage, a)]
        invariant forall j :: 0 <= j < i ==> !lanes[j].matcher.test(a)
        invariant tested == Matchers(lanes[..i])
      {
        var lane := lanes[i];
        MatchersSnoc(lanes, i);
        tested := tested + [lane.matcher];
        if lane.matcher.test(a) {
          assert lane in sinks.lanes;
          FirstMatchIsFirst(lanes, a, i);
          o := lane.sink.Accept(a);
          assert journal.events == before + [Verbose(AcceptMessage, a), Called(lane.sink, AcceptCall(a), o)];
          processed := true;
          break;
        }
        i := i + 1;
      }
      if !processed {
        assert lanes[..i] == lanes;
        FirstMatchIsFirst(lanes, a, i);
        journal.events := journal.events + [Verbose(NobodyMessage, a)];
        assert journal.events == before + [Verbose(AcceptMessage, a), Verbose(NobodyMessage, a)];
      }
    }

    /** cleanup: each lane's sink in order gets cleanup(e); nothing is caught,
        so the first sink that throws ends the fan-out and its exception
        propagates. */
    method Cleanup(e: SinkError) returns (o: Outcome<SinkError>, ghost outcomes: seq<Outcome<SinkError>>)
      requires Valid()
      modifies journal
      ensures |outcomes| <= |sinks.lanes|
      ensures journal.events == old(journal.events) + Calls(sinks.lanes[..|outcomes|], CleanupCall(e), outcomes)
      ensures forall i :: 0 <= i < |outcomes| - 1 ==> outcomes[i].Pass?
      ensures |outcomes| < |sinks.lanes| ==> outcomes != [] && outcomes[|outcomes| - 1].Fail?
      ensures o == if outcomes != [] && outcomes[|outcomes| - 1].Fail? then outcomes[|outcomes| - 1] else Pass
    {
      outcomes := [];
      var i := 0;
      while i < |sinks.lanes|
        invariant i <= |sinks.lanes| && |outcomes| == i
        invariant journal.events == old(journal.events) + Calls(sinks.lanes[..i], CleanupCall(e), outcomes)
        invariant forall j :: 0 <= j < i ==> outcomes[j].Pass?
      {
        var lane := sinks.lanes[i];
        assert lane in sinks.lanes;
        var r := lane.sink.Cleanup(e);
        CallsSnoc(sinks.lanes, CleanupCall(e), outcomes, i, r);
        outcomes := outcomes + [r];
        i := i + 1;
        if r.Fail? {
          return r, outcomes;
        }
      }
      o := Pass;
    }

    /** close: every lane's sink is closed once, in order; a failure is caught
        and reported as a warning, so close itself never throws. */
    method Close() returns (ghost outcomes: seq<Outcome<SinkError>>)
      requires Valid()
      modifies journal
      ensures |outcomes| == |sinks.lanes|
      ensures journal.events == old(journal.events) + CloseEvents(sinks.lanes, outcomes)
    {
      outcomes := [];
      var i := 0;
      while i < |sinks.lanes|
        invariant i <= |sinks.lanes| && |outcomes| == i
        invariant journal.events == old(journal.events) + CloseEvents(sinks.lanes[..i], outcomes)
      {
        var lane := sinks.lanes[i];
        assert lane in sinks.lanes;
        var r := lane.sink.Close();
        if r.Fail? {
          journal.events := journal.events + [Warn(CloseFailedMessage, r.error)];
        }
        CloseEventsSnoc(sinks.lanes[..i], outcomes, lane, r);
        assert sinks.lanes[..i + 1] == sinks.lanes[..i] + [lane];
        outcomes := outcomes + [r];
        i := i + 1;
      }
      assert sinks.lanes[..i] == sinks.lanes;
    }
  }
}
