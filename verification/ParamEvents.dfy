/** A subscriber that replays the published events: which requests it can follow, and which it misses. */
module ParamEvents {
  import opened Wrappers
  import opened ParamTypes
  import opened Rcl
  import opened ParamStore
  import opened ParamRuns

  /** One parameter of an event, as a subscriber decodes it. */
  function DecodeOne(p: ParameterMsg): Assignment
  {
    match ParamValueFromMsg(p.value)
    case Success(v) => (p.name, v)
    case Failure(_) => (p.name, NotSet)
  }

  function DecodeEvent(event: seq<ParameterMsg>): seq<Assignment>
  {
    seq(|event|, i requires 0 <= i < |event| => DecodeOne(event[i]))
  }

  function DecodeEvents(events: seq<seq<ParameterMsg>>): seq<Assignment>
  {
    if events == [] then [] else DecodeEvents(events[..|events| - 1]) + DecodeEvent(events[|events| - 1])
  }

  lemma {:induction false} DecodeEventsConcat(a: seq<seq<ParameterMsg>>, b: seq<seq<ParameterMsg>>)
    ensures DecodeEvents(a + b) == DecodeEvents(a) + DecodeEvents(b)
  {
    if b == [] {
      assert a + b == a;
    } else {
      var front, last := b[..|b| - 1], DecodeEvent(b[|b| - 1]);
      DecodeEventsConcat(a, front);
      assert (a + b)[..|a + b| - 1] == a + front;
      assert DecodeEvents(a + b) == (DecodeEvents(a) + DecodeEvents(front)) + last;
      assert DecodeEvents(b) == DecodeEvents(front) + last;
    }
  }

  lemma DecodeMessages(changed: seq<Assignment>)
    requires AllEncodable(changed)
    ensures DecodeEvent(Messages(changed)) == changed
  {
    forall i | 0 <= i < |changed| ensures DecodeOne(Messages(changed)[i]) == changed[i] {
      DecodeEncode(changed[i].1);
    }
  }

  /** A request that commits something and publishes nothing: a bad tag, or a refusal, behind a commit. */
  predicate Lossy(descs: map<string, Descriptor>, req: Request)
  {
    match req
    case SetParameters(ps) =>
      exists i, j | 0 <= i < j < |ps| ::
        && Classify(descs, ps[i]).Commit? && Classify(descs, ps[j]).Crash?
        && forall k | 0 <= k < i :: !Classify(descs, ps[k]).Crash?
    case SetParametersAtomically(ps) => StopsHalfway(descs, ps)
    case _ => false
  }

  lemma {:induction false} CommitBeforeCrash(descs: map<string, Descriptor>, ps: seq<ParameterMsg>)
    ensures AcceptedSets(descs, ps) != [] <==>
            exists i | 0 <= i < |ps| ::
              Classify(descs, ps[i]).Commit? && forall k | 0 <= k < i :: !Classify(descs, ps[k]).Crash?
  {
    if ps != [] {
      CommitBeforeCrash(descs, ps[1..]);
      if i :| 0 <= i < |ps[1..]| && Classify(descs, ps[1..][i]).Commit?
              && forall k | 0 <= k < i :: !Classify(descs, ps[1..][k]).Crash? {
        assert ps[i + 1] == ps[1..][i];
        assert forall k | 1 <= k < i + 1 :: ps[k] == ps[1..][k - 1];
      }
      if i :| 0 <= i < |ps| && Classify(descs, ps[i]).Commit?
              && forall k | 0 <= k < i :: !Classify(descs, ps[k]).Crash? {
        if i > 0 {
          assert ps[1..][i - 1] == ps[i];
          assert forall k | 0 <= k < i - 1 :: ps[1..][k] == ps[k + 1];
          assert !Classify(descs, ps[0]).Crash?;
        }
      }
    }
  }

  lemma LossyExact(descs: map<string, Descriptor>, req: Request)
    ensures Lossy(descs, req) <==> Committed(descs, req) != [] && Published(descs, req) == []
    ensures !Lossy(descs, req) ==>
              || (Published(descs, req) == [] && Committed(descs, req) == [])
              || Published(descs, req) == [Committed(descs, req)]
  {
    match req
    case SetParameters(ps) =>
      CommitBeforeCrash(descs, ps);
      if AcceptedSets(descs, ps) != [] && Crashes(descs, ps) {
        var i :| 0 <= i < |ps| && Classify(descs, ps[i]).Commit?
                 && forall k | 0 <= k < i :: !Classify(descs, ps[k]).Crash?;
        var j :| 0 <= j < |ps| && Classify(descs, ps[j]).Crash?;
        assert i < j;
      }
    case SetParametersAtomically(ps) =>
      if AllAccepted(descs, ps) {
        PrefixIsAll(descs, ps);
      } else {
        CommittedHalfway(descs, ps);
      }
    case _ =>
  }

  /** A subscriber in step before the request is in step after it. */
  ghost predicate KeepsInStep(s: Server, req: Request)
    requires s.Valid()
  {
    var s' := Handle(s, req).0;
    |s.events| <= |s'.events| && Replay(s.store.values, DecodeEvents(s'.events[|s.events|..])) == s'.store.values
  }

  lemma StepEvents(s: Server, req: Request)
    requires s.Valid() && s.publishing
    ensures var s' := Handle(s, req).0;
            && s.events <= s'.events
            && DecodeEvents(s'.events[|s.events|..]) ==
               if Lossy(s.store.descs, req) then [] else Committed(s.store.descs, req)
  {
    HandleExact(s, req);
    LossyExact(s.store.descs, req);
    var pub := Published(s.store.descs, req);
    assert Handle(s, req).0.events[|s.events|..] == Sent(pub);
    if pub != [] {
      assert Sent(pub)[..0] == [] && Sent(pub)[0] == Messages(pub[0]);
      DecodeMessages(pub[0]);
      assert DecodeEvents(Sent(pub)) == DecodeEvent(Messages(pub[0]));
    }
  }

  /** A request that is not lossy keeps a subscriber in step, whatever is stored. */
  lemma FollowedInStep(s: Server, req: Request)
    requires s.Valid() && s.publishing && !Lossy(s.store.descs, req)
    ensures KeepsInStep(s, req)
  {
    StepEvents(s, req);
    HandleExact(s, req);
  }

  // --- stores whose values satisfy their descriptors, and what can be seen to change in them ---

  ghost predicate WellDeclared(store: Store)
  {
    store.Valid() && forall n | n in store.descs :: Satisfies(store.descs[n], store.values[n])
  }

  /** A descriptor that leaves no choice: not-set, or a number whose range is a single one. */
  predicate OneValue(desc: Descriptor)
  {
    && !desc.dynamicTyping
    && match desc.typ
       case NOT_SET => true
       case INTEGER => desc.integerRange.Some? && desc.integerRange.value.fromValue == desc.integerRange.value.toValue
       case DOUBLE =>
         && desc.floatingPointRange.Some?
         && desc.floatingPointRange.value.fromValue == desc.floatingPointRange.value.toValue
       case _ => false
  }

  lemma OneValueOnly(desc: Descriptor, v: ParameterValue, w: ParameterValue)
    requires OneValue(desc) && Satisfies(desc, v) && Satisfies(desc, w)
    ensures v == w
  {
  }

  /** Every other descriptor that allows a value allows a second one. */
  lemma AnotherValue(desc: Descriptor, v: ParameterValue) returns (w: ParameterValue)
    requires !OneValue(desc) && Satisfies(desc, v)
    ensures Satisfies(desc, w) && w != v
  {
    if desc.dynamicTyping {
      w := if v == NotSet then BoolValue(true) else NotSet;
    } else {
      match v
      case BoolValue(b) => w := BoolValue(!b);
      case IntegerValue(i) =>
        var range := desc.integerRange;
        w := IntegerValue(if range.None? then i + 1
                          else if i == range.value.fromValue then range.value.toValue else range.value.fromValue);
      case DoubleValue(d) =>
        var range := desc.floatingPointRange;
        w := DoubleValue(if range.None? then d + 1.0
                         else if d == range.value.fromValue then range.value.toValue else range.value.fromValue);
      case StringValue(s) =>
        w := StringValue(s + "x");
        assert |s + "x"| != |s|;
      case ByteArray(bytes) =>
        w := ByteArray(bytes + [0]);
        assert |bytes + [0]| != |bytes|;
      case BoolArray(bools) =>
        w := BoolArray(bools + [true]);
        assert |bools + [true]| != |bools|;
      case IntegerArray(ints) =>
        w := IntegerArray(ints + [0]);
        assert |ints + [0]| != |ints|;
      case DoubleArray(doubles) =>
        w := DoubleArray(doubles + [0.0]);
        assert |doubles + [0.0]| != |doubles|;
      case StringArray(strings) =>
        w := StringArray(strings + [""]);
        assert |strings + [""]| != |strings|;
    }
  }

  /** Some assignment is to a parameter that could hold another value. */
  predicate Visible(descs: map<string, Descriptor>, log: seq<Assignment>)
  {
    exists i | 0 <= i < |log| :: log[i].0 in descs && !OneValue(descs[log[i].0])
  }

  ghost predicate AllAllowed(descs: map<string, Descriptor>, log: seq<Assignment>)
  {
    forall a | a in log :: a.0 in descs && Satisfies(descs[a.0], a.1)
  }

  /** Assignments that are not visible change no well-declared store... */
  lemma {:induction false} InvisibleChangesNothing(store: Store, log: seq<Assignment>)
    requires WellDeclared(store) && AllAllowed(store.descs, log) && !Visible(store.descs, log)
    ensures Replay(store.values, log) == store.values
  {
    if log != [] {
      var front, last := log[..|log| - 1], log[|log| - 1];
      assert forall i | 0 <= i < |front| :: front[i] == log[i];
      InvisibleChangesNothing(store, front);
      assert last in log;
      OneValueOnly(store.descs[last.0], store.values[last.0], last.1);
    }
  }

  /** ...and visible ones change some well-declared store with the same descriptors. */
  lemma VisibleChangesSome(store: Store, log: seq<Assignment>) returns (other: Store)
    requires WellDeclared(store) && AllAllowed(store.descs, log) && Visible(store.descs, log)
    ensures WellDeclared(other) && other == store.(values := other.values)
    ensures Replay(other.values, log) != other.values
  {
    var i :| 0 <= i < |log| && log[i].0 in store.descs && !OneValue(store.descs[log[i].0]);
    var name := log[i].0;
    LastIsSome(log, i);
    var last := LastAssigned(log, name).value;
    ReplayLast(store.values, log, name);
    assert (name, last) in log;
    var w := AnotherValue(store.descs[name], last);
    other := store.(values := store.values[name := w]);
    ReplayLast(other.values, log, name);
  }

  lemma {:induction false} LastIsSome(log: seq<Assignment>, i: nat)
    requires i < |log|
    ensures LastAssigned(log, log[i].0).Some?
  {
    if i < |log| - 1 {
      LastIsSome(log[..|log| - 1], i);
    }
  }

  /** A request misleads a subscriber if it is lossy and what it commits can be seen. */
  predicate Misleads(descs: map<string, Descriptor>, req: Request)
  {
    Lossy(descs, req) && Visible(descs, Committed(descs, req))
  }

  /**
    * Which requests keep a subscriber in step over every well-declared store with these descriptors:
    * exactly those that do not mislead.
    */
  lemma InStepExact(s: Server, req: Request)
    requires s.publishing && WellDeclared(s.store)
    ensures (forall t: Server | t.publishing && t.store.descs == s.store.descs && WellDeclared(t.store) ::
               KeepsInStep(t, req))
            <==> !Misleads(s.store.descs, req)
  {
    if Misleads(s.store.descs, req) {
      var t := OutOfStep(s, req);
    } else {
      forall t: Server | t.publishing && t.store.descs == s.store.descs && WellDeclared(t.store)
        ensures KeepsInStep(t, req)
      {
        NotMisled(t, req);
      }
    }
  }

  lemma NotMisled(s: Server, req: Request)
    requires s.publishing && WellDeclared(s.store) && !Misleads(s.store.descs, req)
    ensures KeepsInStep(s, req)
  {
    if Lossy(s.store.descs, req) {
      CommittedAccepted(s.store.descs, req);
      InvisibleChangesNothing(s.store, Committed(s.store.descs, req));
      StepEvents(s, req);
      HandleExact(s, req);
    } else {
      FollowedInStep(s, req);
    }
  }

  /** For every request that misleads there is a well-declared store over which a subscriber is out of step. */
  lemma OutOfStep(s: Server, req: Request) returns (t: Server)
    requires s.publishing && WellDeclared(s.store) && Misleads(s.store.descs, req)
    ensures t.publishing && t.store.descs == s.store.descs && WellDeclared(t.store)
    ensures !KeepsInStep(t, req)
  {
    CommittedAccepted(s.store.descs, req);
    var other := VisibleChangesSome(s.store, Committed(s.store.descs, req));
    t := s.(store := other);
    StepEvents(t, req);
    HandleExact(t, req);
  }

  /**
    * Over a run, replaying the events over the declared store gives the current store, as long as every
    * request is followed, or the store is well declared and no request misleads.
    */
  lemma {:induction false} EventReplay(s: Server, reqs: seq<Request>)
    requires s.Valid() && s.publishing
    requires forall i | 0 <= i < |reqs| ::
               || !Lossy(s.store.descs, reqs[i])
               || (WellDeclared(s.store) && !Misleads(s.store.descs, reqs[i]))
    ensures s.events <= Run(s, reqs).events
    ensures Replay(s.store.values, DecodeEvents(Run(s, reqs).events[|s.events|..])) == Run(s, reqs).store.values
  {
    if reqs == [] {
      assert s.events[|s.events|..] == [];
    } else {
      var front, last := reqs[..|reqs| - 1], reqs[|reqs| - 1];
      EventReplay(s, front);
      RunIsReplay(s, front);
      var t := Run(s, front);
      assert last == reqs[|reqs| - 1];
      if Lossy(s.store.descs, last) {
        StaysWellDeclared(s, front);
        NotMisled(t, last);
      } else {
        FollowedInStep(t, last);
      }
      StepEvents(t, last);
      EventsChain(s.store.values, s.events, t.events, Run(s, reqs).events);
    }
  }

  lemma {:induction false} StaysWellDeclared(s: Server, reqs: seq<Request>)
    requires WellDeclared(s.store)
    ensures WellDeclared(Run(s, reqs).store)
  {
    RunInvariant(s, reqs);
  }

  lemma {:induction false} EventsChain(
    values: map<string, ParameterValue>,
    e0: seq<seq<ParameterMsg>>, e1: seq<seq<ParameterMsg>>, e2: seq<seq<ParameterMsg>>)
    requires e0 <= e1 <= e2
    ensures Replay(values, DecodeEvents(e2[|e0|..])) ==
            Replay(Replay(values, DecodeEvents(e1[|e0|..])), DecodeEvents(e2[|e1|..]))
  {
    assert e2[|e0|..] == e1[|e0|..] + e2[|e1|..];
    DecodeEventsConcat(e1[|e0|..], e2[|e1|..]);
    ReplayConcat(values, DecodeEvents(e1[|e0|..]), DecodeEvents(e2[|e1|..]));
  }

  // --- a lossy request of set_parameters ---

  /** Two integer parameters, the second limited to 0..5. */
  function TwoIntegers(): (s: Server)
    ensures WellDeclared(s.store) && s.publishing && s.events == []
  {
    var da := BlankDescriptor("a").(typ := INTEGER);
    var db := BlankDescriptor("b").(typ := INTEGER, integerRange := Some(IntegerRange(0, 5, 0)));
    Server(Store(["a", "b"], map["a" := da, "b" := db], map["a" := IntegerValue(0), "b" := IntegerValue(0)]),
           false, [], true, [])
  }

  function SetInteger(name: string, i: int): ParameterMsg
  {
    ParameterMsg(name, Some(BLANK.(typ := 2, integerValue := i)))
  }

  /** `a := 1`, and then a value for b with an unknown tag. */
  function BadTag(): seq<ParameterMsg>
  {
    [SetInteger("a", 1), ParameterMsg("b", Some(BLANK.(typ := 99)))]
  }

  lemma BadTagClassified()
    ensures var descs, ps := TwoIntegers().store.descs, BadTag();
            && Classify(descs, ps[0]) == Commit(("a", IntegerValue(1)))
            && Classify(descs, ps[1]) == Crash(BadTypeTag(99))
  {
  }

  /** The bad tag of the second value aborts the request: `a := 1` is kept, and no event tells of it. */
  lemma BadTagExample()
    ensures HandleSet(TwoIntegers(), BadTag()) == (TwoIntegers().Assign(("a", IntegerValue(1))), Raised(BadTypeTag(99)))
    ensures !KeepsInStep(TwoIntegers(), SetParameters(BadTag()))
  {
    var s, ps := TwoIntegers(), BadTag();
    BadTagClassified();
    assert ps[..1] == [ps[0]] && ps[..1][..0] == [];
    assert ApplySets(s, ps[..1]) == Advance(Progress(s, [], [], None), ps[0]);
    assert ApplySets(s, ps) == Advance(ApplySets(s, ps[..1]), ps[1]);
  }

  /** It is a request that misleads. */
  lemma BadTagMisleads()
    ensures Misleads(TwoIntegers().store.descs, SetParameters(BadTag()))
  {
    var descs, ps := TwoIntegers().store.descs, BadTag();
    BadTagClassified();
    assert ps[1..] == [ps[1]];
    assert AcceptedSets(descs, ps[1..]) == [];
    var log := AcceptedSets(descs, ps);
    assert log == [("a", IntegerValue(1))];
    assert log[0].0 in descs && !OneValue(descs[log[0].0]);
  }
}
