/** What holds of every request and of every run of requests to the parameter server. */
module ParamRuns {
  import opened Wrappers
  import opened ParamTypes
  import opened Rcl
  import opened ParamListing
  import opened ParamStore
  import opened Sequences

  /** Applying a log of assignments, oldest first. */
  function Replay(values: map<string, ParameterValue>, log: seq<Assignment>): map<string, ParameterValue>
  {
    if log == [] then values
    else Replay(values, log[..|log| - 1])[log[|log| - 1].0 := log[|log| - 1].1]
  }

  lemma {:induction false} ReplayConcat(values: map<string, ParameterValue>, a: seq<Assignment>, b: seq<Assignment>)
    ensures Replay(values, a + b) == Replay(Replay(values, a), b)
  {
    if b == [] {
      assert a + b == a;
    } else {
      ReplayConcat(values, a, b[..|b| - 1]);
      assert (a + b)[..|a + b| - 1] == a + b[..|b| - 1];
    }
  }

  // --- what a request commits and what it publishes, read off the descriptors and the request alone ---

  /** The assignments `_apply_sets` makes: the accepted ones before the first undecodable value. */
  function AcceptedSets(descs: map<string, Descriptor>, ps: seq<ParameterMsg>): seq<Assignment>
  {
    if ps == [] then []
    else
      match Classify(descs, ps[0])
      case Crash(_) => []
      case Refuse(_) => AcceptedSets(descs, ps[1..])
      case Commit(a) => [a] + AcceptedSets(descs, ps[1..])
  }

  /** The longest prefix of the assignments that is accepted throughout. */
  function AcceptedPrefix(descs: map<string, Descriptor>, as_: seq<Assignment>): (r: seq<Assignment>)
    requires forall i | 0 <= i < |as_| :: as_[i].0 in descs
    ensures r <= as_
    ensures forall i | 0 <= i < |r| :: Accepts(descs[as_[i].0], as_[i].1)
    ensures |r| < |as_| ==> !Accepts(descs[as_[|r|].0], as_[|r|].1)
  {
    if as_ == [] || !Accepts(descs[as_[0].0], as_[0].1) then []
    else [as_[0]] + AcceptedPrefix(descs, as_[1..])
  }

  predicate Decodable(p: ParameterMsg)
  {
    ParamValueFromMsg(p.value).Success?
  }

  /** An atomic request whose names are all declared and whose values all decode. */
  predicate Previewable(descs: map<string, Descriptor>, ps: seq<ParameterMsg>)
  {
    forall i | 0 <= i < |ps| :: ps[i].name in descs && Decodable(ps[i])
  }

  function Pairs(ps: seq<ParameterMsg>): (r: seq<Assignment>)
    requires forall i | 0 <= i < |ps| :: Decodable(ps[i])
    ensures |r| == |ps|
  {
    seq(|ps|, i requires 0 <= i < |ps| && Decodable(ps[i]) => (ps[i].name, ParamValueFromMsg(ps[i].value).value))
  }

  predicate AllAccepted(descs: map<string, Descriptor>, ps: seq<ParameterMsg>)
  {
    forall i | 0 <= i < |ps| ::
      ps[i].name in descs && Decodable(ps[i]) && Accepts(descs[ps[i].name], ParamValueFromMsg(ps[i].value).value)
  }

  /** The assignments a request commits, in order. */
  function Committed(descs: map<string, Descriptor>, req: Request): seq<Assignment>
  {
    match req
    case SetParameters(ps) => AcceptedSets(descs, ps)
    case SetParametersAtomically(ps) => if Previewable(descs, ps) then AcceptedPrefix(descs, Pairs(ps)) else []
    case _ => []
  }

  predicate Crashes(descs: map<string, Descriptor>, ps: seq<ParameterMsg>)
  {
    exists i | 0 <= i < |ps| :: Classify(descs, ps[i]).Crash?
  }

  /** The events a request publishes: an atomic request publishes even an empty list of changes. */
  function Published(descs: map<string, Descriptor>, req: Request): seq<seq<Assignment>>
  {
    match req
    case SetParameters(ps) =>
      if Crashes(descs, ps) || AcceptedSets(descs, ps) == [] then [] else [AcceptedSets(descs, ps)]
    case SetParametersAtomically(ps) => if AllAccepted(descs, ps) then [Pairs(ps)] else []
    case _ => []
  }

  /** The change lists as messages. */
  function Sent(changes: seq<seq<Assignment>>): seq<seq<ParameterMsg>>
    requires forall i | 0 <= i < |changes| :: AllEncodable(changes[i])
  {
    seq(|changes|, i requires 0 <= i < |changes| => Messages(changes[i]))
  }

  // --- set_parameters ---

  /** One round: refused if unknown or judged so, aborted by a bad tag of a known name, committed otherwise. */
  lemma ClassifyExact(descs: map<string, Descriptor>, p: ParameterMsg)
    ensures Classify(descs, p).Crash? <==> p.name in descs && !Decodable(p)
    ensures Classify(descs, p).Commit? <==>
              p.name in descs && Decodable(p) && Accepts(descs[p.name], ParamValueFromMsg(p.value).value)
    ensures Classify(descs, p).Commit? ==> Classify(descs, p).assignment == (p.name, ParamValueFromMsg(p.value).value)
    ensures Classify(descs, p).Refuse? ==> !Classify(descs, p).result.successful
  {
    if p.name in descs && Decodable(p) {
      VerdictExact(descs[p.name], ParamValueFromMsg(p.value).value);
    }
  }

  /** The answer to one parameter of a request that is not aborted. */
  function Answer(descs: map<string, Descriptor>, p: ParameterMsg): SetResult
    requires p.name in descs ==> Decodable(p)
  {
    if p.name in descs then Verdict(descs[p.name], ParamValueFromMsg(p.value).value) else SetResult(false, NotFound)
  }

  /** A request that is not aborted is answered parameter by parameter, in order, each as if it stood alone. */
  lemma {:induction false} SetResultsExact(s: Server, ps: seq<ParameterMsg>)
    requires forall i | 0 <= i < |ps| :: ps[i].name in s.store.descs ==> Decodable(ps[i])
    ensures HandleSet(s, ps).1 == SetReply(ApplySets(s, ps).results)
    ensures ApplySets(s, ps).crashed == None && |ApplySets(s, ps).results| == |ps|
    ensures ApplySets(s, ps).server.store.descs == s.store.descs
    ensures forall i | 0 <= i < |ps| :: ApplySets(s, ps).results[i] == Answer(s.store.descs, ps[i])
  {
    if ps != [] {
      var front, last := ps[..|ps| - 1], ps[|ps| - 1];
      SetResultsExact(s, front);
      AnswerExact(s.store.descs, last);
      forall i | 0 <= i < |ps| ensures ApplySets(s, ps).results[i] == Answer(s.store.descs, ps[i]) {
        if i < |front| {
          assert front[i] == ps[i];
        }
      }
    }
  }

  lemma AnswerExact(descs: map<string, Descriptor>, p: ParameterMsg)
    requires p.name in descs ==> Decodable(p)
    ensures !Classify(descs, p).Crash?
    ensures Answer(descs, p) == if Classify(descs, p).Commit? then ACCEPTED else Classify(descs, p).result
  {
    ClassifyExact(descs, p);
    if p.name in descs {
      VerdictExact(descs[p.name], ParamValueFromMsg(p.value).value);
    }
  }

  /** An aborted one is answered with the error of the first declared parameter whose value cannot be decoded. */
  lemma {:induction false} SetRaises(s: Server, ps: seq<ParameterMsg>, i: nat)
    requires i < |ps| && ps[i].name in s.store.descs && !Decodable(ps[i])
    requires forall k | 0 <= k < i :: ps[k].name in s.store.descs ==> Decodable(ps[k])
    ensures HandleSet(s, ps).1 == Raised(ParamValueFromMsg(ps[i].value).error)
    decreases |ps|
  {
    var front := ps[..|ps| - 1];
    if i < |front| {
      SetRaises(s, front, i);
    } else {
      SetResultsExact(s, front);
    }
  }

  lemma {:induction false} AcceptedSnoc(descs: map<string, Descriptor>, ps: seq<ParameterMsg>, p: ParameterMsg)
    ensures AcceptedSets(descs, ps + [p])
         == AcceptedSets(descs, ps)
          + (if !Crashes(descs, ps) && Classify(descs, p).Commit? then [Classify(descs, p).assignment] else [])
  {
    if ps == [] {
      assert ps + [p] == [p];
    } else {
      AcceptedSnoc(descs, ps[1..], p);
      assert (ps + [p])[1..] == ps[1..] + [p];
      if !Classify(descs, ps[0]).Crash? {
        CrashesTail(descs, ps);
      }
    }
  }

  lemma CrashesTail(descs: map<string, Descriptor>, ps: seq<ParameterMsg>)
    requires ps != [] && !Classify(descs, ps[0]).Crash?
    ensures Crashes(descs, ps) <==> Crashes(descs, ps[1..])
  {
    if i :| 0 <= i < |ps| && Classify(descs, ps[i]).Crash? {
      assert ps[1..][i - 1] == ps[i];
    }
    if i :| 0 <= i < |ps[1..]| && Classify(descs, ps[1..][i]).Crash? {
      assert ps[i + 1] == ps[1..][i];
    }
  }

  lemma CrashesSnoc(descs: map<string, Descriptor>, ps: seq<ParameterMsg>)
    requires ps != []
    ensures Crashes(descs, ps) <==> Crashes(descs, ps[..|ps| - 1]) || Classify(descs, ps[|ps| - 1]).Crash?
  {
    var front := ps[..|ps| - 1];
    if i :| 0 <= i < |front| && Classify(descs, front[i]).Crash? {
      assert ps[i] == front[i];
    }
    if i :| 0 <= i < |ps| && Classify(descs, ps[i]).Crash? {
      assert i < |front| ==> front[i] == ps[i];
    }
  }

  /** A server after some assignments, before anything is published. */
  ghost predicate After(s: Server, s': Server, log: seq<Assignment>)
  {
    s' == s.(store := s.store.(values := Replay(s.store.values, log)),
             notified := if s.hooked then s.notified + log else s.notified)
  }

  lemma {:induction false} ApplySetsExact(s: Server, ps: seq<ParameterMsg>)
    ensures var pr := ApplySets(s, ps);
            && After(s, pr.server, AcceptedSets(s.store.descs, ps))
            && pr.changed == AcceptedSets(s.store.descs, ps)
            && (pr.crashed.Some? <==> Crashes(s.store.descs, ps))
  {
    if ps != [] {
      var front, last := ps[..|ps| - 1], ps[|ps| - 1];
      ApplySetsExact(s, front);
      AcceptedSnoc(s.store.descs, front, last);
      CrashesSnoc(s.store.descs, ps);
      assert ps == front + [last];
      var pr, log := ApplySets(s, front), AcceptedSets(s.store.descs, front);
      if !Crashes(s.store.descs, front) && Classify(s.store.descs, last).Commit? {
        AfterSnoc(s, pr.server, log, Classify(s.store.descs, last).assignment);
      } else {
        assert log + [] == log;
      }
    }
  }

  lemma AfterSnoc(s: Server, s': Server, log: seq<Assignment>, a: Assignment)
    requires After(s, s', log)
    ensures After(s, s'.Assign(a), log + [a])
  {
    assert (log + [a])[..|log|] == log;
    assert s.notified + (log + [a]) == s.notified + log + [a];
  }

  lemma {:induction false} AcceptedSetsDeclared(descs: map<string, Descriptor>, ps: seq<ParameterMsg>)
    ensures forall a | a in AcceptedSets(descs, ps) ::
              a.0 in descs && Accepts(descs[a.0], a.1) && Encodable(a.1)
  {
    if ps != [] {
      AcceptedSetsDeclared(descs, ps[1..]);
      if Classify(descs, ps[0]).Commit? {
        DecodedIsEncodable(ps[0]);
        VerdictExact(descs[ps[0].name], ParamValueFromMsg(ps[0].value).value);
      }
    }
  }

  lemma DecodedIsEncodable(p: ParameterMsg)
    requires Decodable(p)
    ensures Encodable(ParamValueFromMsg(p.value).value)
  {
    if p.value.Some? {
      EncodeDecode(p.value.value);
    }
  }

  // --- set_parameters_atomically ---

  lemma {:induction false} PreviewExact(descs: map<string, Descriptor>, ps: seq<ParameterMsg>)
    ensures PreviewAll(descs, ps).Ready? <==> Previewable(descs, ps)
    ensures Previewable(descs, ps) ==> PreviewAll(descs, ps) == Ready(Pairs(ps))
  {
    if ps != [] {
      var front := ps[..|ps| - 1];
      PreviewExact(descs, front);
      assert Previewable(descs, ps) ==> Previewable(descs, front);
      if Previewable(descs, ps) {
        assert Pairs(ps) == Pairs(front) + [Pairs(ps)[|front|]];
      } else if Previewable(descs, front) {
        assert forall i | 0 <= i < |front| :: ps[i] == front[i];
      }
    }
  }

  lemma {:induction false} CommitAllExact(s: Server, as_: seq<Assignment>)
    requires forall i | 0 <= i < |as_| :: as_[i].0 in s.store.descs
    ensures var done := AcceptedPrefix(s.store.descs, as_);
            var (s', r) := CommitAll(s, as_);
            && After(s, s', done)
            && r == (if |done| == |as_| then ACCEPTED else Verdict(s.store.descs[as_[|done|].0], as_[|done|].1))
            && (r.successful <==> |done| == |as_|)
    decreases |as_|
  {
    if as_ != [] {
      var a := as_[0];
      VerdictExact(s.store.descs[a.0], a.1);
      if Accepts(s.store.descs[a.0], a.1) {
        var t := s.Assign(a);
        var rest := AcceptedPrefix(s.store.descs, as_[1..]);
        CommitAllExact(t, as_[1..]);
        assert Replay(s.store.values, [a]) == t.store.values by {
          assert [a][..0] == [];
        }
        ReplayConcat(s.store.values, [a], rest);
        assert s.notified + ([a] + rest) == (s.notified + [a]) + rest;
      } else {
        assert s.notified + [] == s.notified;
      }
    }
  }

  lemma PairsEncodable(ps: seq<ParameterMsg>)
    requires forall i | 0 <= i < |ps| :: Decodable(ps[i])
    ensures AllEncodable(Pairs(ps))
  {
    forall i | 0 <= i < |ps| ensures Encodable(Pairs(ps)[i].1) {
      DecodedIsEncodable(ps[i]);
    }
  }

  lemma {:induction false} PrefixIsAll(descs: map<string, Descriptor>, ps: seq<ParameterMsg>)
    requires Previewable(descs, ps)
    ensures AcceptedPrefix(descs, Pairs(ps)) == Pairs(ps) <==> AllAccepted(descs, ps)
    ensures |AcceptedPrefix(descs, Pairs(ps))| == |ps| <==> AllAccepted(descs, ps)
  {
    var done := AcceptedPrefix(descs, Pairs(ps));
    if |done| == |ps| {
      assert done == Pairs(ps);
      forall i | 0 <= i < |ps| ensures Accepts(descs[ps[i].name], ParamValueFromMsg(ps[i].value).value) {
        assert Accepts(descs[Pairs(ps)[i].0], Pairs(ps)[i].1);
      }
    } else {
      assert !Accepts(descs[ps[|done|].name], ParamValueFromMsg(ps[|done|].value).value);
    }
  }

  /** An atomic request is answered with success iff every name is declared and accepts its value. */
  lemma AtomicSuccess(s: Server, ps: seq<ParameterMsg>)
    ensures HandleSetAtomic(s, ps).1 == AtomicReply(ACCEPTED) <==> AllAccepted(s.store.descs, ps)
    ensures HandleSetAtomic(s, ps).1 == AtomicReply(ACCEPTED) ==>
              var s' := HandleSetAtomic(s, ps).0;
              && s'.store == s.store.(values := Replay(s.store.values, Pairs(ps)))
              && AllEncodable(Pairs(ps))
              && s'.events == if s.publishing then s.events + [Messages(Pairs(ps))] else s.events
  {
    PreviewExact(s.store.descs, ps);
    if Previewable(s.store.descs, ps) {
      CommitAllExact(s, Pairs(ps));
      PairsEncodable(ps);
      PrefixIsAll(s.store.descs, ps);
    }
  }

  /** Refused for a missing name or a bad value tag, it leaves the server as it was. */
  lemma AtomicNotPreviewable(s: Server, ps: seq<ParameterMsg>)
    requires !Previewable(s.store.descs, ps)
    ensures HandleSetAtomic(s, ps).0 == s
    ensures exists i | 0 <= i < |ps| ::
              && Previewable(s.store.descs, ps[..i])
              && HandleSetAtomic(s, ps).1 ==
                 (match ParamValueFromMsg(ps[i].value)
                  case Failure(e) => Raised(e)
                  case Success(_) => AtomicReply(SetResult(false, NotFoundNamed(ps[i].name))))
              && (Decodable(ps[i]) ==> ps[i].name !in s.store.descs)
  {
    PreviewExact(s.store.descs, ps);
    var i := FirstBad(s.store.descs, ps);
  }

  lemma {:induction false} FirstBad(descs: map<string, Descriptor>, ps: seq<ParameterMsg>) returns (i: nat)
    requires !Previewable(descs, ps)
    ensures i < |ps| && Previewable(descs, ps[..i]) && (Decodable(ps[i]) ==> ps[i].name !in descs)
    ensures PreviewAll(descs, ps) ==
            match ParamValueFromMsg(ps[i].value)
            case Failure(e) => Malformed(e)
            case Success(_) => Missing(ps[i].name)
  {
    var front := ps[..|ps| - 1];
    PreviewExact(descs, front);
    if Previewable(descs, front) {
      i := |front|;
      assert forall k | 0 <= k < |front| :: ps[k] == front[k];
    } else {
      i := FirstBad(descs, front);
      assert ps[..i] == front[..i];
    }
  }

  /** Refused for any other reason, it has committed exactly the accepted prefix, and published nothing. */
  lemma AtomicPartial(s: Server, ps: seq<ParameterMsg>) returns (k: nat)
    requires Previewable(s.store.descs, ps) && !AllAccepted(s.store.descs, ps)
    ensures k < |ps| && AllAccepted(s.store.descs, ps[..k])
    ensures !Accepts(s.store.descs[ps[k].name], Pairs(ps)[k].1)
    ensures HandleSetAtomic(s, ps).1 == AtomicReply(Verdict(s.store.descs[ps[k].name], Pairs(ps)[k].1))
    ensures HandleSetAtomic(s, ps).0.store == s.store.(values := Replay(s.store.values, Pairs(ps)[..k]))
    ensures HandleSetAtomic(s, ps).0.events == s.events
  {
    var descs := s.store.descs;
    PreviewExact(descs, ps);
    CommitAllExact(s, Pairs(ps));
    PrefixIsAll(descs, ps);
    var done := AcceptedPrefix(descs, Pairs(ps));
    k := |done|;
    assert done == Pairs(ps)[..k];
    forall i | 0 <= i < k ensures Accepts(descs[ps[i].name], ParamValueFromMsg(ps[i].value).value) {
      assert Accepts(descs[Pairs(ps)[i].0], Pairs(ps)[i].1);
    }
    assert descs[Pairs(ps)[k].0] == descs[ps[k].name];
  }

  /** An atomic request that stops after a commit: all previewable, first accepted, some refused. */
  predicate StopsHalfway(descs: map<string, Descriptor>, ps: seq<ParameterMsg>)
  {
    Previewable(descs, ps) && !AllAccepted(descs, ps) && AllAccepted(descs, ps[..1])
  }

  lemma CommittedHalfway(descs: map<string, Descriptor>, ps: seq<ParameterMsg>)
    requires !AllAccepted(descs, ps)
    ensures Committed(descs, SetParametersAtomically(ps)) != [] <==> StopsHalfway(descs, ps)
  {
    if Previewable(descs, ps) && ps != [] {
      var done := AcceptedPrefix(descs, Pairs(ps));
      assert ps[..1] == [ps[0]];
    }
  }

  // --- every request ---

  /** The whole effect of any request, in terms of the descriptors and the request. */
  ghost predicate Effect(s: Server, s': Server, req: Request)
  {
    var committed, published := Committed(s.store.descs, req), Published(s.store.descs, req);
    && s'.store == s.store.(values := Replay(s.store.values, committed))
    && s'.hooked == s.hooked && s'.publishing == s.publishing
    && s'.notified == (if s.hooked then s.notified + committed else s.notified)
    && (forall i | 0 <= i < |published| :: AllEncodable(published[i]))
    && s'.events == if s.publishing then s.events + Sent(published) else s.events
  }

  lemma HandleExact(s: Server, req: Request)
    requires s.Valid()
    ensures Effect(s, Handle(s, req).0, req)
  {
    match req
    case SetParameters(ps) => SetExact(s, ps);
    case SetParametersAtomically(ps) => SetAtomicExact(s, ps);
    case _ => assert s.notified + [] == s.notified && s.events + [] == s.events;
  }

  lemma SetExact(s: Server, ps: seq<ParameterMsg>)
    ensures Effect(s, HandleSet(s, ps).0, SetParameters(ps))
  {
    var log := AcceptedSets(s.store.descs, ps);
    ApplySetsExact(s, ps);
    AcceptedSetsDeclared(s.store.descs, ps);
    assert AllEncodable(log);
    assert s.events + [] == s.events;
    assert Sent([log]) == [Messages(log)];
  }

  lemma SetAtomicExact(s: Server, ps: seq<ParameterMsg>)
    ensures Effect(s, HandleSetAtomic(s, ps).0, SetParametersAtomically(ps))
  {
    var descs, req := s.store.descs, SetParametersAtomically(ps);
    PreviewExact(descs, ps);
    if Previewable(descs, ps) {
      CommitAllExact(s, Pairs(ps));
      PrefixIsAll(descs, ps);
      PairsEncodable(ps);
      assert Committed(descs, req) == AcceptedPrefix(descs, Pairs(ps));
      if AllAccepted(descs, ps) {
        assert Sent([Pairs(ps)]) == [Messages(Pairs(ps))];
      } else {
        assert s.events + Sent(Published(descs, req)) == s.events;
      }
    } else {
      assert s.notified + [] == s.notified && s.events + Sent([]) == s.events;
      assert Committed(descs, req) == [] && Published(descs, req) == [];
    }
  }

  /** Committed assignments name declared parameters, satisfy their descriptors and can be encoded. */
  lemma CommittedAccepted(descs: map<string, Descriptor>, req: Request)
    ensures forall a | a in Committed(descs, req) :: a.0 in descs && Accepts(descs[a.0], a.1) && Encodable(a.1)
  {
    match req
    case SetParameters(ps) => AcceptedSetsDeclared(descs, ps);
    case SetParametersAtomically(ps) =>
      if Previewable(descs, ps) {
        PairsEncodable(ps);
        var done := AcceptedPrefix(descs, Pairs(ps));
        forall a | a in done ensures a.0 in descs && Accepts(descs[a.0], a.1) && Encodable(a.1) {
          var i :| 0 <= i < |done| && done[i] == a;
          assert Pairs(ps)[i] == a;
        }
      }
    case _ =>
  }

  lemma {:induction false} ReplayKeys(values: map<string, ParameterValue>, log: seq<Assignment>)
    requires forall a | a in log :: a.0 in values
    ensures Replay(values, log).Keys == values.Keys
  {
    if log != [] {
      ReplayKeys(values, log[..|log| - 1]);
      assert log[|log| - 1] in log;
    }
  }

  lemma HandleKeepsValid(s: Server, req: Request)
    requires s.Valid()
    ensures Handle(s, req).0.Valid()
  {
    HandleExact(s, req);
    CommittedAccepted(s.store.descs, req);
    ReplayKeys(s.store.values, Committed(s.store.descs, req));
  }

  // --- every run ---

  ghost function Run(s: Server, reqs: seq<Request>): (r: Server)
    requires s.Valid()
    ensures r.Valid()
  {
    if reqs == [] then s
    else
      var t := Run(s, reqs[..|reqs| - 1]);
      HandleKeepsValid(t, reqs[|reqs| - 1]);
      Handle(t, reqs[|reqs| - 1]).0
  }

  /** All assignments accepted over a run: a function of the descriptors and the requests. */
  function AcceptedOver(descs: map<string, Descriptor>, reqs: seq<Request>): seq<Assignment>
  {
    if reqs == [] then []
    else AcceptedOver(descs, reqs[..|reqs| - 1]) + Committed(descs, reqs[|reqs| - 1])
  }

  lemma {:induction false} AcceptedOverDeclared(descs: map<string, Descriptor>, reqs: seq<Request>)
    ensures forall a | a in AcceptedOver(descs, reqs) :: a.0 in descs && Accepts(descs[a.0], a.1) && Encodable(a.1)
  {
    if reqs != [] {
      AcceptedOverDeclared(descs, reqs[..|reqs| - 1]);
      CommittedAccepted(descs, reqs[|reqs| - 1]);
    }
  }

  /** The store after a run is the declared store with all accepted assignments applied in order. */
  lemma {:induction false} RunIsReplay(s: Server, reqs: seq<Request>)
    requires s.Valid()
    ensures Run(s, reqs).store ==
            s.store.(values := Replay(s.store.values, AcceptedOver(s.store.descs, reqs)))
    ensures s.hooked ==> Run(s, reqs).notified == s.notified + AcceptedOver(s.store.descs, reqs)
    ensures Run(s, reqs).publishing == s.publishing && Run(s, reqs).hooked == s.hooked
  {
    if reqs != [] {
      var front, last := reqs[..|reqs| - 1], reqs[|reqs| - 1];
      RunIsReplay(s, front);
      HandleExact(Run(s, front), last);
      EffectChains(s, Run(s, front), Run(s, reqs), AcceptedOver(s.store.descs, front), Committed(s.store.descs, last));
    }
  }

  /** More assignments, after a log that leads from the first store to the second. */
  lemma {:induction false} EffectChains(s: Server, t: Server, u: Server, log: seq<Assignment>, more: seq<Assignment>)
    requires t.store == s.store.(values := Replay(s.store.values, log))
    requires u.store == t.store.(values := Replay(t.store.values, more))
    requires s.hooked ==> t.notified == s.notified + log && u.notified == t.notified + more
    ensures u.store == s.store.(values := Replay(s.store.values, log + more))
    ensures s.hooked ==> u.notified == s.notified + (log + more)
  {
    ReplayConcat(s.store.values, log, more);
  }

  /** The value last assigned to a name by a log. */
  function LastAssigned(log: seq<Assignment>, name: string): Option<ParameterValue>
  {
    if log == [] then None
    else if log[|log| - 1].0 == name then Some(log[|log| - 1].1)
    else LastAssigned(log[..|log| - 1], name)
  }

  lemma {:induction false} ReplayLast(values: map<string, ParameterValue>, log: seq<Assignment>, name: string)
    requires name in values
    ensures name in Replay(values, log)
    ensures Replay(values, log)[name] == match LastAssigned(log, name) case None => values[name] case Some(v) => v
    ensures LastAssigned(log, name).Some? ==> (name, LastAssigned(log, name).value) in log
  {
    if log != [] {
      ReplayLast(values, log[..|log| - 1], name);
    }
  }

  /** The value of a name after a run: the last one accepted for it, or the declared one. */
  function Current(s: Store, reqs: seq<Request>, name: string): ParameterValue
    requires name in s.values
  {
    match LastAssigned(AcceptedOver(s.descs, reqs), name)
    case None => s.values[name]
    case Some(v) => v
  }

  lemma {:induction false} CurrentIsStored(s: Server, reqs: seq<Request>, name: string)
    requires s.Valid() && name in s.store.values
    ensures name in Run(s, reqs).store.values && Run(s, reqs).store.values[name] == Current(s.store, reqs, name)
  {
    RunIsReplay(s, reqs);
    ReplayLast(s.store.values, AcceptedOver(s.store.descs, reqs), name);
  }

  /**
    * In every reachable state, names, declaration order and descriptors are the declared ones, read-only
    * values are the declared values, and every value satisfies its descriptor if the declared ones did.
    */
  lemma {:induction false} RunInvariant(s: Server, reqs: seq<Request>)
    requires s.Valid()
    ensures Run(s, reqs).store.names == s.store.names && Run(s, reqs).store.descs == s.store.descs
    ensures forall n | n in s.store.descs ::
              && (s.store.descs[n].readOnly ==> Run(s, reqs).store.values[n] == s.store.values[n])
              && (Satisfies(s.store.descs[n], s.store.values[n]) ==>
                    Satisfies(s.store.descs[n], Run(s, reqs).store.values[n]))
  {
    RunIsReplay(s, reqs);
    forall n | n in s.store.descs
      ensures s.store.descs[n].readOnly ==> Run(s, reqs).store.values[n] == s.store.values[n]
      ensures Satisfies(s.store.descs[n], s.store.values[n]) ==>
                Satisfies(s.store.descs[n], Run(s, reqs).store.values[n])
    {
      ReplayLast(s.store.values, AcceptedOver(s.store.descs, reqs), n);
      AcceptedOverDeclared(s.store.descs, reqs);
    }
  }

  lemma {:induction false} StoredAfterRun(s: Server, reqs: seq<Request>, name: string)
    requires s.Valid()
    ensures var values := Run(s, reqs).store.values;
            && (name in values <==> name in s.store.values)
            && (name in values ==> values[name] == Current(s.store, reqs, name))
  {
    RunIsReplay(s, reqs);
    if name in s.store.values {
      CurrentIsStored(s, reqs, name);
    }
  }

  lemma {:induction false} GetOneAfterRun(s: Server, reqs: seq<Request>, name: string)
    requires s.Valid()
    requires forall n | n in s.store.values :: Encodable(s.store.values[n])
    ensures var values := Run(s, reqs).store.values;
            && (name in values <==> name in s.store.values)
            && (name in values ==> values[name] == Current(s.store, reqs, name) && Encodable(values[name]))
  {
    StoredAfterRun(s, reqs, name);
    if name in s.store.values {
      ReplayLast(s.store.values, AcceptedOver(s.store.descs, reqs), name);
      AcceptedOverDeclared(s.store.descs, reqs);
    }
  }

  /** get_parameters answers with the last accepted value of each name, over any run. */
  lemma {:induction false} GetAfterRun(s: Server, reqs: seq<Request>, names: seq<string>)
    requires s.Valid()
    requires forall n | n in s.store.values :: Encodable(s.store.values[n])
    ensures var reply := Handle(Run(s, reqs), GetParameters(names)).1;
            && reply.GetReply? && |reply.values| == |names|
            && forall i | 0 <= i < |names| ::
                 ParamValueFromMsg(Some(reply.values[i])) ==
                 Success(if names[i] in s.store.values then Current(s.store, reqs, names[i]) else NotSet)
  {
    var values := GetValues(Run(s, reqs).store, names);
    forall i | 0 <= i < |names|
      ensures values[i] == (if names[i] in s.store.values then Current(s.store, reqs, names[i]) else NotSet)
      ensures Encodable(values[i])
    {
      GetOneAfterRun(s, reqs, names[i]);
    }
    GetDecodes(Run(s, reqs).store, names);
  }

  lemma GetDecodes(store: Store, names: seq<string>)
    requires store.descs.Keys == store.values.Keys
    requires forall i | 0 <= i < |names| :: Encodable(GetValues(store, names)[i])
    ensures var reply := HandleGet(store, names);
            && reply.GetReply? && |reply.values| == |names|
            && forall i | 0 <= i < |names| ::
                 ParamValueFromMsg(Some(reply.values[i])) == Success(GetValues(store, names)[i])
  {
    var values := GetValues(store, names);
    forall i | 0 <= i < |names|
      ensures ParamValueFromMsg(Some(ParamValueToMsg(values[i]).value)) == Success(values[i])
    {
      DecodeEncode(values[i]);
    }
  }

  /** It fails exactly if one of the values asked for is an integer array that does not fit the wire. */
  lemma {:induction false} GetRaises(s: Server, reqs: seq<Request>, names: seq<string>)
    requires s.Valid()
    ensures var reply := Handle(Run(s, reqs), GetParameters(names)).1;
            && (reply.GetReply? || reply == Raised(IntegerOverflow))
            && (reply == Raised(IntegerOverflow) <==>
                  exists i | 0 <= i < |names| ::
                    names[i] in s.store.values && !Encodable(Current(s.store, reqs, names[i])))
  {
    var values := GetValues(Run(s, reqs).store, names);
    forall i | 0 <= i < |names|
      ensures values[i] == if names[i] in s.store.values then Current(s.store, reqs, names[i]) else NotSet
    {
      StoredAfterRun(s, reqs, names[i]);
    }
  }

  /**
    * list_parameters, over any run: the names are the declared ones that match some requested prefix, once
    * each in first-seen order; p is a sub-prefix iff `p + "."` starts a listed name, once each likewise.
    */
  lemma {:induction false} ListAfterRun(s: Server, reqs: seq<Request>, prefixes: seq<string>)
    requires s.Valid()
    ensures var reply := Handle(Run(s, reqs), ListParameters(prefixes)).1;
            && reply.ListReply?
            && NoDuplicates(reply.names) && InOrder(SeenNames(s.store.names, prefixes), reply.names)
            && (forall n :: n in reply.names <==> n in s.store.names && MatchesSome(n, prefixes))
            && NoDuplicates(reply.subPrefixes)
            && InOrder(AllSubPrefixes(SeenNames(s.store.names, prefixes)), reply.subPrefixes)
            && (forall p :: p in reply.subPrefixes <==> exists n | n in reply.names :: IsBelow(n, p))
  {
    RunInvariant(s, reqs);
    ListedNamesExact(s.store.names, prefixes);
    ListedPrefixesExact(s.store.names, prefixes);
  }

  /** Asking again with a sub-prefix from a reply lists at least one name below it. */
  lemma {:induction false} ListAgainAfterRun(s: Server, reqs: seq<Request>, prefixes: seq<string>, p: string)
    requires s.Valid()
    ensures var t := Run(s, reqs);
            var (reply, again) := (Handle(t, ListParameters(prefixes)).1, Handle(t, ListParameters([p])).1);
            && reply.ListReply? && again.ListReply?
            && (p in reply.subPrefixes ==> exists n | n in again.names :: IsBelow(n, p))
  {
    RunInvariant(s, reqs);
    if p in ListedPrefixes(s.store.names, prefixes) {
      ReportedPrefixListsSomething(s.store.names, prefixes, p);
    }
  }

  /** get_parameter_types answers with the declared type, whatever values were set meanwhile, and 0 for others. */
  lemma {:induction false} TypesAfterRun(s: Server, reqs: seq<Request>, names: seq<string>)
    requires s.Valid()
    ensures var reply := Handle(Run(s, reqs), GetParameterTypes(names)).1;
            && reply.TypesReply? && |reply.types| == |names|
            && forall i | 0 <= i < |names| ::
                 reply.types[i] == if names[i] in s.store.descs then Tag(s.store.descs[names[i]].typ) else 0
  {
    RunInvariant(s, reqs);
  }

  /** describe_parameters answers with the declared descriptor, or one that is blank but for the name. */
  lemma {:induction false} DescribeAfterRun(s: Server, reqs: seq<Request>, names: seq<string>)
    requires s.Valid()
    ensures var reply := Handle(Run(s, reqs), DescribeParameters(names)).1;
            && reply.DescribeReply? && |reply.descriptors| == |names|
            && forall i | 0 <= i < |names| ::
                 && reply.descriptors[i].name == names[i]
                 && reply.descriptors[i] ==
                    if names[i] in s.store.descs then s.store.descs[names[i]]
                    else Descriptor(names[i], NOT_SET, "", "", false, false, None, None)
  {
    RunInvariant(s, reqs);
  }
}
