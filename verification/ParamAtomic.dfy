/** What set_parameters_atomically announces: judge everything first, then commit all or nothing. */
module ParamAtomic {
  import opened ParamTypes
  import opened Rcl
  import opened ParamStore
  import opened ParamRuns
  import opened ParamEvents

  /** Judging a list of assignments before any of them is made: success, or the first refusal. */
  function JudgeAll(descs: map<string, Descriptor>, previews: seq<Assignment>): SetResult
    requires forall i | 0 <= i < |previews| :: previews[i].0 in descs
  {
    if previews == [] then ACCEPTED
    else
      var verdict := Verdict(descs[previews[0].0], previews[0].1);
      if verdict.successful then JudgeAll(descs, previews[1..]) else verdict
  }

  function AssignAll(s: Server, previews: seq<Assignment>): Server
  {
    if previews == [] then s
    else AssignAll(s, previews[..|previews| - 1]).Assign(previews[|previews| - 1])
  }

  /** The handler the comment asks for: look up and decode, judge every value, and only then commit. */
  function ValidateFirst(s: Server, ps: seq<ParameterMsg>): (Server, Reply)
  {
    match PreviewAll(s.store.descs, ps)
    case Malformed(e) => (s, Raised(e))
    case Missing(n) => (s, AtomicReply(SetResult(false, NotFoundNamed(n))))
    case Ready(previews) =>
      PreviewKnown(s.store.descs, ps);
      var verdict := JudgeAll(s.store.descs, previews);
      if verdict.successful then (AssignAll(s, previews).Emit(previews), AtomicReply(ACCEPTED))
      else (s, AtomicReply(verdict))
  }

  /** The verdict reached up front is the one the commits run into, since no commit changes a later verdict. */
  lemma {:induction false} JudgeAllExact(s: Server, previews: seq<Assignment>)
    requires forall i | 0 <= i < |previews| :: previews[i].0 in s.store.descs
    ensures JudgeAll(s.store.descs, previews) == CommitAll(s, previews).1
    ensures JudgeAll(s.store.descs, previews).successful <==> JudgeAll(s.store.descs, previews) == ACCEPTED
    decreases |previews|
  {
    if previews != [] {
      var a := previews[0];
      VerdictExact(s.store.descs[a.0], a.1);
      if Verdict(s.store.descs[a.0], a.1).successful {
        JudgeAllExact(s.Assign(a), previews[1..]);
      }
    }
  }

  lemma {:induction false} AssignAllIsReplay(s: Server, log: seq<Assignment>)
    ensures After(s, AssignAll(s, log), log)
  {
    if log == [] {
      assert s.notified + [] == s.notified;
    } else {
      var front, last := log[..|log| - 1], log[|log| - 1];
      AssignAllIsReplay(s, front);
      AfterSnoc(s, AssignAll(s, front), front, last);
      assert log == front + [last];
    }
  }

  /** Judging first gives the same reply; on success the same server, and otherwise the server it started from. */
  lemma ValidateFirstAgrees(s: Server, ps: seq<ParameterMsg>)
    ensures ValidateFirst(s, ps).1 == HandleSetAtomic(s, ps).1
    ensures AllAccepted(s.store.descs, ps) ==> ValidateFirst(s, ps) == HandleSetAtomic(s, ps)
    ensures !AllAccepted(s.store.descs, ps) ==> ValidateFirst(s, ps).0 == s
  {
    PreviewExact(s.store.descs, ps);
    AtomicSuccess(s, ps);
    if Previewable(s.store.descs, ps) {
      JudgeAllExact(s, Pairs(ps));
      CommitAllExact(s, Pairs(ps));
      AssignAllIsReplay(s, Pairs(ps));
      PrefixIsAll(s.store.descs, ps);
    }
  }

  /**
    * Over every well-declared store with these descriptors the two leave the same store, exactly unless the
    * request stops halfway and what it has committed by then can be seen.
    */
  lemma ValidateFirstExact(s: Server, ps: seq<ParameterMsg>)
    requires WellDeclared(s.store)
    ensures (forall t: Server | t.store.descs == s.store.descs && WellDeclared(t.store) ::
               ValidateFirst(t, ps).0.store == HandleSetAtomic(t, ps).0.store)
            <==> !(StopsHalfway(s.store.descs, ps) && Visible(s.store.descs, Halfway(s.store.descs, ps)))
  {
    var descs, log := s.store.descs, Halfway(s.store.descs, ps);
    CommittedAccepted(descs, SetParametersAtomically(ps));
    if StopsHalfway(descs, ps) && Visible(descs, log) {
      var other := VisibleChangesSome(s.store, log);
      LeftBehind(s.(store := other), ps);
    } else {
      forall t: Server | t.store.descs == descs && WellDeclared(t.store)
        ensures ValidateFirst(t, ps).0.store == HandleSetAtomic(t, ps).0.store
      {
        ValidateFirstAgrees(t, ps);
        if !AllAccepted(descs, ps) {
          LeftBehind(t, ps);
          CommittedHalfway(descs, ps);
          if StopsHalfway(descs, ps) {
            InvisibleChangesNothing(t.store, log);
          }
        }
      }
    }
  }

  /** What an atomic request that is not accepted has committed when it stops. */
  function Halfway(descs: map<string, Descriptor>, ps: seq<ParameterMsg>): seq<Assignment>
  {
    Committed(descs, SetParametersAtomically(ps))
  }

  lemma LeftBehind(t: Server, ps: seq<ParameterMsg>)
    requires t.store.Valid() && !AllAccepted(t.store.descs, ps)
    ensures ValidateFirst(t, ps).0.store == t.store
    ensures HandleSetAtomic(t, ps).0.store.values == Replay(t.store.values, Halfway(t.store.descs, ps))
    ensures HandleSetAtomic(t, ps).0.store == t.store.(values := HandleSetAtomic(t, ps).0.store.values)
  {
    ValidateFirstAgrees(t, ps);
    HandleExact(t, SetParametersAtomically(ps));
  }

  /** A request that does stop halfway: `a := 1` is kept although `b := 9` is out of range. */
  lemma HalfwayExample()
    ensures var ps := [SetInteger("a", 1), SetInteger("b", 9)];
            && HandleSetAtomic(TwoIntegers(), ps).1 ==
               AtomicReply(SetResult(false, IntegerOutOfRange(IntegerRange(0, 5, 0))))
            && HandleSetAtomic(TwoIntegers(), ps).0.store.values == map["a" := IntegerValue(1), "b" := IntegerValue(0)]
            && HandleSetAtomic(TwoIntegers(), ps).0.events == []
  {
    var s, ps := TwoIntegers(), [SetInteger("a", 1), SetInteger("b", 9)];
    var pairs := [("a", IntegerValue(1)), ("b", IntegerValue(9))];
    PreviewExact(s.store.descs, ps);
    assert Pairs(ps) == pairs;
    var t := s.Assign(pairs[0]);
    assert pairs[1..] == [pairs[1]];
    assert CommitAll(t, pairs[1..]) == (t, SetResult(false, IntegerOutOfRange(IntegerRange(0, 5, 0))));
  }
}
