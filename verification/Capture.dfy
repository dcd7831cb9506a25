/** The capture service: a lock taken by the callback, released by a worker thread, and an unguarded counter. */
module Capture {
  import opened Wrappers

  /** Where a capture job is; `put` says whether its frame was delivered. */
  datatype Phase =
    | Accepted            // the callback holds the lock, the thread is not running yet
    | Running
    | Captured
    | Delivered           // the put has returned
    | Loaded(read: nat)   // `+=` has read the counter...
    | Counted             // ...and written it
    | Leaving(put: bool)  // in the `finally` block
    | Done(put: bool)
  {
    predicate HasPut()
    {
      match this
      case Leaving(put) => put
      case Done(put) => put
      case _ => Delivered? || Loaded? || Counted?
    }

    /** Steps to go. */
    function Rank(): nat
    {
      match this
      case Accepted => 7
      case Running => 6
      case Captured => 5
      case Delivered => 4
      case Loaded(_) => 3
      case Counted => 2
      case Leaving(_) => 1
      case Done(_) => 0
    }
  }

  /** What a heartbeat says. */
  datatype Beat = Beat(seqNo: nat, captureCount: nat)

  datatype State = State(
    locked: bool,
    jobs: seq<Phase>,
    count: nat,
    puts: nat,
    refused: nat,
    nextSeq: nat,
    sampled: Option<Beat>,
    beats: seq<Beat>)

  const INITIAL := State(false, [], 0, 0, 0, 0, None, [])

  /** What any of the threads may do next. */
  datatype Action =
    | Request
    | Spawn(job: nat)
    | Shoot(job: nat)
    | Put(job: nat)
    | Load(job: nat)
    | Store(job: nat)
    | Finish(job: nat)
    | Raise(job: nat)
    | Release(job: nat)
    | Sample
    | Emit

  /** The step a job takes next when nothing is raised. */
  function Forward(p: Phase, j: nat): Action
    requires !p.Done?
  {
    match p
    case Accepted => Spawn(j)
    case Running => Shoot(j)
    case Captured => Put(j)
    case Delivered => Load(j)
    case Loaded(_) => Store(j)
    case Counted => Finish(j)
    case Leaving(_) => Release(j)
  }

  /** Capturing, putting and publishing may raise; counting may not. */
  predicate MayRaise(p: Phase)
  {
    p.Running? || p.Captured? || p.Counted?
  }

  predicate Enabled(s: State, a: Action)
  {
    match a
    case Request => true
    case Sample => s.sampled.None?
    case Emit => s.sampled.Some?
    case Raise(j) => j < |s.jobs| && MayRaise(s.jobs[j])
    case _ => a.job < |s.jobs| && !s.jobs[a.job].Done? && a == Forward(s.jobs[a.job], a.job)
  }

  predicate JobStep(a: Action)
  {
    !a.Request? && !a.Sample? && !a.Emit?
  }

  /** What the step makes of the job. */
  function Moved(s: State, a: Action): Phase
    requires Enabled(s, a) && JobStep(a)
  {
    var p := s.jobs[a.job];
    match a
    case Spawn(_) => Running
    case Shoot(_) => Captured
    case Put(_) => Delivered
    case Load(_) => Loaded(s.count)
    case Store(_) => Counted
    case Finish(_) => Leaving(true)
    case Raise(_) => Leaving(p.HasPut())
    case Release(_) => Done(p.put)
  }

  function Advance(s: State, a: Action): State
    requires Enabled(s, a) && JobStep(a)
  {
    s.(jobs := s.jobs[a.job := Moved(s, a)])
  }

  function Step(s: State, a: Action): State
    requires Enabled(s, a)
  {
    match a
    case Request =>
      if s.locked then s.(refused := s.refused + 1) else s.(locked := true, jobs := s.jobs + [Accepted])
    case Sample => s.(sampled := Some(Beat(s.nextSeq, s.count)))
    // the sequence number advances whether or not the put of the heartbeat succeeds
    case Emit => s.(sampled := None, beats := s.beats + [s.sampled.value], nextSeq := s.nextSeq + 1)
    case Put(_) => Advance(s, a).(puts := s.puts + 1)
    case Store(j) => Advance(s, a).(count := s.jobs[j].read + 1)
    case Release(_) => Advance(s, a).(locked := false)
    case _ => Advance(s, a)
  }

  /** What the lock keeps out: two jobs that have both read the counter count once for two frames. */
  lemma UpdateLostWithoutLock(s: State)
    requires s.jobs == [Loaded(s.count), Loaded(s.count)]
    ensures var t := Step(s, Store(0));
            Enabled(t, Store(1)) && Step(t, Store(1)).count == s.count + 1
  {
  }

  /** The state after a sequence of actions, if the threads can take them in this order. */
  function After(actions: seq<Action>): Option<State>
  {
    if actions == [] then Some(INITIAL)
    else
      match After(actions[..|actions| - 1])
      case None => None
      case Some(s) =>
        var a := actions[|actions| - 1];
        if Enabled(s, a) then Some(Step(s, a)) else None
  }

  // --- what every step keeps ---

  function Last(s: State): Phase
    requires s.jobs != []
  {
    s.jobs[|s.jobs| - 1]
  }

  /** At most the last job is unfinished, and it is unfinished exactly while the lock is held. */
  predicate Exclusive(s: State)
  {
    && (forall j | 0 <= j < |s.jobs| - 1 :: s.jobs[j].Done?)
    && (s.locked <==> s.jobs != [] && !Last(s).Done?)
  }

  /** Every delivered frame is counted, except that of a job between its put and its store. */
  predicate Accurate(s: State)
  {
    if s.jobs != [] && (Last(s).Delivered? || Last(s).Loaded?) then
      s.count + 1 == s.puts && (Last(s).Loaded? ==> Last(s).read == s.count)
    else s.count == s.puts
  }

  /** Heartbeats are numbered in order, and report counts that grow. */
  predicate Steady(s: State)
  {
    && |s.beats| == s.nextSeq
    && (forall i | 0 <= i < |s.beats| :: s.beats[i].seqNo == i && s.beats[i].captureCount <= s.count)
    && (forall i, k | 0 <= i <= k < |s.beats| :: s.beats[i].captureCount <= s.beats[k].captureCount)
    && (s.sampled.Some? ==>
          && s.sampled.value.seqNo == s.nextSeq && s.sampled.value.captureCount <= s.count
          && forall i | 0 <= i < |s.beats| :: s.beats[i].captureCount <= s.sampled.value.captureCount)
  }

  /** How many jobs delivered their frame. */
  function Deliveries(jobs: seq<Phase>): nat
  {
    if jobs == [] then 0
    else Deliveries(jobs[..|jobs| - 1]) + if jobs[|jobs| - 1].HasPut() then 1 else 0
  }

  predicate Inv(s: State)
  {
    Exclusive(s) && Accurate(s) && Steady(s) && s.count <= s.puts == Deliveries(s.jobs)
  }

  /** Only the last job can take a step, and only under the lock. */
  lemma OnlyTheLast(s: State, j: nat)
    requires Exclusive(s) && j < |s.jobs| && !s.jobs[j].Done?
    ensures j == |s.jobs| - 1 && s.locked
  {
  }

  lemma JobStepKeeps(s: State, a: Action)
    requires Inv(s) && Enabled(s, a) && JobStep(a)
    ensures Inv(Step(s, a))
  {
    OnlyTheLast(s, a.job);
    var t := Step(s, a);
    assert t.jobs[..|t.jobs| - 1] == s.jobs[..|s.jobs| - 1];
    assert Last(t) == Moved(s, a);
  }

  lemma StepKeeps(s: State, a: Action)
    requires Inv(s) && Enabled(s, a)
    ensures Inv(Step(s, a))
  {
    match a
    case Request => RequestKeeps(s);
    case Sample =>
    case Emit =>
    case _ => JobStepKeeps(s, a);
  }

  lemma RequestKeeps(s: State)
    requires Inv(s)
    ensures Inv(Step(s, Request))
  {
    if !s.locked {
      var t := Step(s, Request);
      assert t.jobs[..|t.jobs| - 1] == s.jobs && Last(t) == Accepted;
    }
  }

  lemma {:induction false} AlwaysInv(actions: seq<Action>)
    requires After(actions).Some?
    ensures Inv(After(actions).value)
  {
    if actions != [] {
      var front := actions[..|actions| - 1];
      AlwaysInv(front);
      StepKeeps(After(front).value, actions[|actions| - 1]);
    }
  }

  // --- what it means, over every interleaving ---

  function Unfinished(jobs: seq<Phase>): nat
  {
    if jobs == [] then 0
    else Unfinished(jobs[..|jobs| - 1]) + if jobs[|jobs| - 1].Done? then 0 else 1
  }

  lemma {:induction false} AllDone(jobs: seq<Phase>)
    ensures Unfinished(jobs) == 0 <==> forall j | 0 <= j < |jobs| :: jobs[j].Done?
  {
    if jobs != [] {
      AllDone(jobs[..|jobs| - 1]);
    }
  }

  /** The lock is held exactly while one accepted job is unfinished, and no other ever is. */
  lemma {:induction false} LockMeansOneJob(actions: seq<Action>)
    requires After(actions).Some?
    ensures var s := After(actions).value;
            Unfinished(s.jobs) == if s.locked then 1 else 0
  {
    AlwaysInv(actions);
    var s := After(actions).value;
    if s.jobs != [] {
      AllDone(s.jobs[..|s.jobs| - 1]);
    }
  }

  /** No update is lost: the counter lags by at most the put in progress, and ends at the number of deliveries. */
  lemma {:induction false} NoLostUpdate(actions: seq<Action>)
    requires After(actions).Some?
    ensures var s := After(actions).value;
            && s.puts == Deliveries(s.jobs) && s.count <= s.puts <= s.count + 1
            && (!s.locked ==> s.count == Deliveries(s.jobs))
  {
    AlwaysInv(actions);
  }

  /** How often the lock was taken and released, and by which job. */
  function Taken(actions: seq<Action>): nat
    requires After(actions).Some?
  {
    if actions == [] then 0
    else
      var s := After(actions[..|actions| - 1]).value;
      Taken(actions[..|actions| - 1]) + if actions[|actions| - 1].Request? && !s.locked then 1 else 0
  }

  function Releases(actions: seq<Action>): nat
  {
    if actions == [] then 0
    else Releases(actions[..|actions| - 1]) + if actions[|actions| - 1].Release? then 1 else 0
  }

  function ReleasesOf(actions: seq<Action>, j: nat): nat
  {
    if actions == [] then 0
    else ReleasesOf(actions[..|actions| - 1], j) + if actions[|actions| - 1] == Release(j) then 1 else 0
  }

  /** Each accept has its one release, whatever was raised: none is missing once the lock is free. */
  lemma {:induction false} AcceptsMatchReleases(actions: seq<Action>)
    requires After(actions).Some?
    ensures var s := After(actions).value;
            && Taken(actions) == |s.jobs|
            && Taken(actions) == Releases(actions) + if s.locked then 1 else 0
  {
    if actions != [] {
      var front := actions[..|actions| - 1];
      var s, a := After(front).value, actions[|actions| - 1];
      AcceptsMatchReleases(front);
      AlwaysInv(front);
      LockMoves(s, a);
    }
  }

  /** A request takes a free lock for a new job, a release frees it, and nothing else moves it. */
  lemma LockMoves(s: State, a: Action)
    requires Inv(s) && Enabled(s, a)
    ensures var t := Step(s, a);
            && |t.jobs| == |s.jobs| + (if a.Request? && !s.locked then 1 else 0)
            && (if a.Request? then t.locked else if a.Release? then s.locked && !t.locked else t.locked == s.locked)
  {
    if JobStep(a) {
      OnlyTheLast(s, a.job);
    }
  }

  function Requests(actions: seq<Action>): nat
  {
    if actions == [] then 0
    else Requests(actions[..|actions| - 1]) + if actions[|actions| - 1].Request? then 1 else 0
  }

  /** Every request is accepted, with a job of its own, or refused; it is refused only while a job is unfinished. */
  lemma {:induction false} RequestsAnswered(actions: seq<Action>)
    requires After(actions).Some?
    ensures var s := After(actions).value;
            && Requests(actions) == |s.jobs| + s.refused
            && (Step(s, Request).refused > s.refused <==> Unfinished(s.jobs) > 0)
  {
    LockMeansOneJob(actions);
    if actions != [] {
      RequestsAnswered(actions[..|actions| - 1]);
    }
  }

  predicate Finished(s: State, j: nat)
  {
    j < |s.jobs| && s.jobs[j].Done?
  }

  /** A job releases once, as its last step, and never a lock that is not held. */
  lemma {:induction false} ReleasedOnce(actions: seq<Action>, j: nat)
    requires After(actions).Some?
    ensures var s := After(actions).value;
            && ReleasesOf(actions, j) == (if Finished(s, j) then 1 else 0)
            && (Enabled(s, Release(j)) ==> s.locked)
  {
    AlwaysInv(actions);
    if actions != [] {
      var front := actions[..|actions| - 1];
      ReleasedOnce(front, j);
      DoneMoves(After(front).value, actions[|actions| - 1], j);
    }
  }

  lemma DoneMoves(s: State, a: Action, j: nat)
    requires Enabled(s, a)
    ensures Finished(Step(s, a), j) <==> Finished(s, j) || a == Release(j)
    ensures a == Release(j) ==> !Finished(s, j)
  {
  }

  function Puts(actions: seq<Action>): nat
  {
    if actions == [] then 0
    else Puts(actions[..|actions| - 1]) + if actions[|actions| - 1].Put? then 1 else 0
  }

  function Stores(actions: seq<Action>): nat
  {
    if actions == [] then 0
    else Stores(actions[..|actions| - 1]) + if actions[|actions| - 1].Store? then 1 else 0
  }

  function Samples(actions: seq<Action>): nat
  {
    if actions == [] then 0
    else Samples(actions[..|actions| - 1]) + if actions[|actions| - 1].Sample? then 1 else 0
  }

  /** No increment is lost, although reading and writing the counter are separate steps. */
  lemma {:induction false} StepsCounted(actions: seq<Action>)
    requires After(actions).Some?
    ensures After(actions).value.puts == Puts(actions) && After(actions).value.count == Stores(actions)
  {
    if actions != [] {
      var front := actions[..|actions| - 1];
      StepsCounted(front);
      AlwaysInv(front);
      if actions[|actions| - 1].Store? {
        OnlyTheLast(After(front).value, actions[|actions| - 1].job);
      }
    }
  }

  /** A heartbeat was built at the k-th action, for the i-th time. */
  ghost predicate SampledAt(actions: seq<Action>, k: nat, i: nat)
  {
    k < |actions| && actions[k] == Sample && Samples(actions[..k]) == i
  }

  /** Its count is that of the increments so far, which lag by at most one put; with no capture in progress by none. */
  ghost predicate Reports(b: Beat, actions: seq<Action>, k: nat)
    requires k <= |actions|
  {
    && After(actions[..k]).Some?
    && b.captureCount == Stores(actions[..k])
    && b.captureCount <= Puts(actions[..k]) <= b.captureCount + 1
    && (Unfinished(After(actions[..k]).value.jobs) == 0 ==> b.captureCount == Puts(actions[..k]))
  }

  ghost predicate Faithful(actions: seq<Action>, i: nat, b: Beat)
  {
    b.seqNo == i && exists k: nat :: SampledAt(actions, k, i) && Reports(b, actions, k)
  }

  /** The i-th heartbeat of any interleaving carries the number i, and the count of when it was built. */
  lemma {:induction false} HeartbeatView(actions: seq<Action>)
    requires After(actions).Some?
    ensures var s := After(actions).value;
            && (forall i | 0 <= i < |s.beats| :: Faithful(actions, i, s.beats[i]))
            && (forall i, k | 0 <= i <= k < |s.beats| :: s.beats[i].captureCount <= s.beats[k].captureCount)
            && (s.sampled.Some? ==> Faithful(actions, |s.beats|, s.sampled.value))
            && Samples(actions) == |s.beats| + if s.sampled.Some? then 1 else 0
  {
    AlwaysInv(actions);
    if actions != [] {
      var front, s := actions[..|actions| - 1], After(actions).value;
      HeartbeatView(front);
      forall i, b | Faithful(front, i, b) ensures Faithful(actions, i, b) {
        StaysFaithful(front, actions, i, b);
      }
      if actions[|actions| - 1] == Sample {
        SampleFaithful(actions, s.sampled.value);
      }
    }
  }

  lemma StaysFaithful(front: seq<Action>, actions: seq<Action>, i: nat, b: Beat)
    requires actions != [] && front == actions[..|actions| - 1] && Faithful(front, i, b)
    ensures Faithful(actions, i, b)
  {
    var k: nat :| SampledAt(front, k, i) && Reports(b, front, k);
    assert actions[..k] == front[..k];
    assert SampledAt(actions, k, i) && Reports(b, actions, k);
  }

  lemma {:induction false} SampleFaithful(actions: seq<Action>, b: Beat)
    requires actions != [] && actions[|actions| - 1] == Sample
    requires After(actions).Some? && After(actions).value.sampled == Some(b)
    ensures Faithful(actions, Samples(actions[..|actions| - 1]), b)
  {
    var k := |actions| - 1;
    var front := actions[..k];
    AlwaysInv(front);
    AlwaysInv(actions);
    StepsCounted(front);
    LockMeansOneJob(front);
    SamplesAreBeats(front);
    assert SampledAt(actions, k, Samples(front)) && Reports(b, actions, k);
  }

  lemma {:induction false} SamplesAreBeats(actions: seq<Action>)
    requires After(actions).Some?
    ensures var s := After(actions).value;
            Samples(actions) == s.nextSeq + if s.sampled.Some? then 1 else 0
  {
    if actions != [] {
      SamplesAreBeats(actions[..|actions| - 1]);
    }
  }

  // --- progress ---

  /** While the lock is held its job can go on, every step brings the release nearer, and no other step delays it. */
  lemma JobGoesOn(s: State, a: Action)
    requires Inv(s) && s.locked && Enabled(s, a)
    ensures Enabled(s, Forward(Last(s), |s.jobs| - 1))
    ensures var t := Step(s, a);
            && |t.jobs| == |s.jobs|
            && (if JobStep(a) then Last(t).Rank() < Last(s).Rank() else Last(t) == Last(s))
  {
    if JobStep(a) {
      OnlyTheLast(s, a.job);
    }
  }

  /** More actions from a state on. */
  function Then(s: State, actions: seq<Action>): Option<State>
    decreases |actions|
  {
    if actions == [] then Some(s)
    else if Enabled(s, actions[0]) then Then(Step(s, actions[0]), actions[1..])
    else None
  }

  lemma {:induction false} ThenIsAfter(actions: seq<Action>, more: seq<Action>)
    requires After(actions).Some?
    ensures After(actions + more) == Then(After(actions).value, more) || Then(After(actions).value, more).None?
    decreases |more|
  {
    if more == [] {
      assert actions + more == actions;
    } else {
      var next := actions + [more[0]];
      assert next[..|next| - 1] == actions && next + more[1..] == actions + more;
      if Enabled(After(actions).value, more[0]) {
        ThenIsAfter(next, more[1..]);
      }
    }
  }

  /** The steps of the job alone free the lock, in at most as many steps as it has to go. */
  lemma {:induction false} JobFreesLock(s: State) returns (more: seq<Action>)
    requires Inv(s)
    ensures Then(s, more).Some? && !Then(s, more).value.locked
    ensures |more| == if s.locked then Last(s).Rank() else 0
    decreases if s.locked then Last(s).Rank() else 0
  {
    if !s.locked {
      more := [];
    } else {
      var a := Forward(Last(s), |s.jobs| - 1);
      JobGoesOn(s, a);
      StepKeeps(s, a);
      assert Last(Step(s, a)).Rank() == Last(s).Rank() - 1;
      var rest := JobFreesLock(Step(s, a));
      more := [a] + rest;
      assert more[1..] == rest;
    }
  }

  /** A capture in which nothing is raised. */
  function Capturing(j: nat): seq<Action>
  {
    [Request, Spawn(j), Shoot(j), Put(j), Load(j), Store(j), Finish(j), Release(j)]
  }

  lemma {:induction false} ThenStep(s: State, a: Action, more: seq<Action>)
    requires Enabled(s, a)
    ensures Then(s, [a] + more) == Then(Step(s, a), more)
  {
    assert ([a] + more)[1..] == more;
  }

  /** Whenever the lock is free a capture can go through: it delivers one frame, counts it and frees the lock. */
  lemma {:induction false} CaptureGoesThrough(s: State)
    requires Inv(s) && !s.locked
    ensures var t := Then(s, Capturing(|s.jobs|));
            && t.Some? && !t.value.locked
            && t.value.puts == s.puts + 1 && t.value.count == s.count + 1 && t.value.refused == s.refused
  {
    var j := |s.jobs|;
    var s1 := Step(s, Request);
    var s2 := Step(s1, Spawn(j));
    var s3 := Step(s2, Shoot(j));
    var s4 := Step(s3, Put(j));
    ThenStep(s, Request, [Spawn(j), Shoot(j), Put(j), Load(j), Store(j), Finish(j), Release(j)]);
    ThenStep(s1, Spawn(j), [Shoot(j), Put(j), Load(j), Store(j), Finish(j), Release(j)]);
    ThenStep(s2, Shoot(j), [Put(j), Load(j), Store(j), Finish(j), Release(j)]);
    ThenStep(s3, Put(j), [Load(j), Store(j), Finish(j), Release(j)]);
    CountGoesThrough(s4, j);
  }

  lemma {:induction false} CountGoesThrough(s: State, j: nat)
    requires j < |s.jobs| && s.jobs[j].Delivered?
    ensures var t := Then(s, [Load(j), Store(j), Finish(j), Release(j)]);
            t.Some? && !t.value.locked && t.value.puts == s.puts && t.value.count == s.count + 1
            && t.value.refused == s.refused
  {
    var s1 := Step(s, Load(j));
    var s2 := Step(s1, Store(j));
    var s3 := Step(s2, Finish(j));
    ThenStep(s, Load(j), [Store(j), Finish(j), Release(j)]);
    ThenStep(s1, Store(j), [Finish(j), Release(j)]);
    ThenStep(s2, Finish(j), [Release(j)]);
    ThenStep(s3, Release(j), []);
  }

  /** What is raised while capturing, putting or publishing frees the lock, and neither delivers nor counts. */
  lemma FailureFreesLock(s: State)
    requires Inv(s) && s.locked && (Last(s).Running? || Last(s).Captured? || Last(s).Counted?)
    ensures var j := |s.jobs| - 1;
            var t := Then(s, [Raise(j), Release(j)]);
            t.Some? && !t.value.locked && t.value.puts == s.puts && t.value.count == s.count
  {
    var j := |s.jobs| - 1;
    ThenStep(s, Raise(j), [Release(j)]);
    ThenStep(Step(s, Raise(j)), Release(j), []);
  }

  /** From every reachable state the lock is at most seven steps from being free. */
  lemma LockIsFreed(actions: seq<Action>) returns (more: seq<Action>)
    requires After(actions).Some?
    ensures |more| <= 7 && After(actions + more).Some? && !After(actions + more).value.locked
  {
    AlwaysInv(actions);
    more := JobFreesLock(After(actions).value);
    ThenIsAfter(actions, more);
  }
}
