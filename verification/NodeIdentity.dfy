/** Node identities: an id allocator that factories replace while they hold a lock, and constructors use without it. */
module NodeIdentity {
  import opened Sequences
  import opened Wrappers

  /** What `session.get_next_node_id` is: the SDK's own counter, or a constant. */
  datatype Allocator = Original | Pinned(id: nat)

  /** An endpoint, with the node it was created through and the id the SDK gave it. */
  datatype Endpoint = Endpoint(node: nat, id: nat)

  /** How far the factory call that holds the lock has come; `saved` is what it will put back. */
  datatype Call =
    | Idle
    | Locked(node: nat)
    | Inside(node: nat, saved: Allocator)
    | Leaving(node: nat, saved: Allocator)
    | Unpinned

  datatype State = State(
    allocator: Allocator,
    next: nat,
    nodes: seq<nat>,
    call: Call,
    endpoints: seq<Endpoint>)

  function Initial(next: nat): State
  {
    State(Original, next, [], Idle, [])
  }

  datatype Action =
    | NewNode
    | Acquire(node: nat)
    | Pin
    | Construct
    | Raise
    | Unpin
    | Release

  predicate Enabled(s: State, a: Action)
  {
    match a
    case NewNode => true
    case Acquire(n) => s.call.Idle? && n < |s.nodes|
    case Pin => s.call.Locked? && s.call.node < |s.nodes|
    case Construct => s.call.Inside?
    case Raise => s.call.Inside?
    case Unpin => s.call.Leaving?
    case Release => s.call.Unpinned?
  }

  /** The id the allocator in place gives. */
  function Given(s: State): nat
  {
    if s.allocator.Pinned? then s.allocator.id else s.next
  }

  function Consumed(s: State): nat
  {
    if s.allocator.Pinned? then s.next else s.next + 1
  }

  function Step(s: State, a: Action): State
    requires Enabled(s, a)
  {
    match a
    // the constructor allocates outside the lock
    case NewNode => s.(nodes := s.nodes + [Given(s)], next := Consumed(s))
    case Acquire(n) => s.(call := Locked(n))
    case Pin => s.(call := Inside(s.call.node, s.allocator), allocator := Pinned(s.nodes[s.call.node]))
    case Construct =>
      s.(endpoints := s.endpoints + [Endpoint(s.call.node, Given(s))], next := Consumed(s),
         call := Leaving(s.call.node, s.call.saved))
    case Raise => s.(call := Leaving(s.call.node, s.call.saved))
    case Unpin => s.(call := Unpinned, allocator := s.call.saved)
    case Release => s.(call := Idle)
  }

  /** The state after a sequence of actions, if the threads can take them in this order. */
  function After(next: nat, actions: seq<Action>): Option<State>
  {
    if actions == [] then Some(Initial(next))
    else
      match After(next, actions[..|actions| - 1])
      case None => None
      case Some(s) =>
        var a := actions[|actions| - 1];
        if Enabled(s, a) then Some(Step(s, a)) else None
  }

  // --- what every step keeps ---

  /** The allocator is pinned to the calling node exactly inside the pinned region. */
  predicate Restored(s: State)
  {
    match s.call
    case Inside(n, saved) => n < |s.nodes| && saved == Original && s.allocator == Pinned(s.nodes[n])
    case Leaving(n, saved) => n < |s.nodes| && saved == Original && s.allocator == Pinned(s.nodes[n])
    case Locked(n) => n < |s.nodes| && s.allocator == Original
    case _ => s.allocator == Original
  }

  predicate Faithful(s: State)
  {
    forall i | 0 <= i < |s.endpoints| ::
      s.endpoints[i].node < |s.nodes| && s.endpoints[i].id == s.nodes[s.endpoints[i].node]
  }

  predicate Below(s: State)
  {
    forall i | 0 <= i < |s.nodes| :: s.nodes[i] < s.next
  }

  predicate Inv(s: State)
  {
    Restored(s) && Faithful(s) && Below(s)
  }

  lemma StepKeeps(s: State, a: Action)
    requires Inv(s) && Enabled(s, a)
    ensures Inv(Step(s, a))
  {
  }

  lemma {:induction false} AlwaysInv(next: nat, actions: seq<Action>)
    requires After(next, actions).Some?
    ensures Inv(After(next, actions).value)
  {
    if actions != [] {
      var front := actions[..|actions| - 1];
      AlwaysInv(next, front);
      StepKeeps(After(next, front).value, actions[|actions| - 1]);
    }
  }

  // --- what it means, over every interleaving ---

  /** Whenever the lock is free the original allocator is back, also after constructors that raised. */
  lemma {:induction false} RestoredWhenFree(next: nat, actions: seq<Action>)
    requires After(next, actions).Some?
    ensures var s := After(next, actions).value;
            s.call.Idle? ==> s.allocator == Original
  {
    AlwaysInv(next, actions);
  }

  /** Every endpoint carries the id of the node it was created through. */
  lemma {:induction false} EndpointsCarryNode(next: nat, actions: seq<Action>)
    requires After(next, actions).Some?
    ensures var s := After(next, actions).value;
            forall e | e in s.endpoints :: e.node < |s.nodes| && e.id == s.nodes[e.node]
  {
    AlwaysInv(next, actions);
  }

  /** Some node was constructed while another one had the allocator pinned. */
  predicate Intruded(next: nat, actions: seq<Action>)
    requires After(next, actions).Some?
  {
    actions != [] &&
    (var front := actions[..|actions| - 1];
     || Intruded(next, front)
     || (actions[|actions| - 1].NewNode? && After(next, front).value.allocator.Pinned?))
  }

  /** Nodes have distinct ids exactly if no constructor ran inside another node's pinned region. */
  lemma {:induction false} DistinctExact(next: nat, actions: seq<Action>)
    requires After(next, actions).Some?
    ensures NoDuplicates(After(next, actions).value.nodes) <==> !Intruded(next, actions)
  {
    if actions != [] {
      var front, a := actions[..|actions| - 1], actions[|actions| - 1];
      var s := After(next, front).value;
      DistinctExact(next, front);
      AlwaysInv(next, front);
      if a.NewNode? {
        NewNodeExact(s);
      }
    }
  }

  lemma NewNodeExact(s: State)
    requires Inv(s)
    ensures NoDuplicates(Step(s, NewNode).nodes) <==> NoDuplicates(s.nodes) && !s.allocator.Pinned?
  {
    var before, ids := s.nodes, Step(s, NewNode).nodes;
    if s.allocator.Pinned? {
      assert ids[s.call.node] == ids[|before|];
    }
    if NoDuplicates(ids) {
      forall i, j | 0 <= i < j < |before| ensures before[i] != before[j] {
        assert before[i] == ids[i] && before[j] == ids[j];
      }
    }
  }

  /** Then the ids are consecutive: no factory call consumes one. */
  lemma {:induction false} IdsConsecutive(next: nat, actions: seq<Action>)
    requires After(next, actions).Some? && !Intruded(next, actions)
    ensures var s := After(next, actions).value;
            s.next == next + |s.nodes| && forall i | 0 <= i < |s.nodes| :: s.nodes[i] == next + i
  {
    if actions != [] {
      IdsConsecutive(next, actions[..|actions| - 1]);
      AlwaysInv(next, actions[..|actions| - 1]);
    }
  }

  /** Such a run exists: a node, a call of its factory, and a second constructor inside it. */
  lemma {:induction false} IntrusionPossible(next: nat)
    ensures var s := After(next, [NewNode, Acquire(0), Pin, NewNode]);
            s.Some? && s.value.nodes == [next, next]
  {
    var a := [NewNode, Acquire(0), Pin, NewNode];
    assert a[..3] == [NewNode, Acquire(0), Pin] && a[..3][..2] == [NewNode, Acquire(0)];
    assert a[..3][..2][..1] == [NewNode] && a[..3][..2][..1][..0] == [];
    assert After(next, a[..3][..2][..1]) == Some(Step(Initial(next), NewNode));
    assert After(next, a[..3][..2]).Some?;
  }

  // --- progress ---

  /** The steps left of the call that holds the lock. */
  function Rank(s: State): nat
  {
    match s.call
    case Idle => 0
    case Locked(_) => 4
    case Inside(_, _) => 3
    case Leaving(_, _) => 2
    case Unpinned => 1
  }

  /** A call goes on to its release whatever the others do, and whether or not its constructor raises. */
  lemma CallGoesOn(s: State, a: Action)
    requires Inv(s) && !s.call.Idle? && Enabled(s, a)
    ensures Rank(Step(s, a)) == if a.NewNode? then Rank(s) else Rank(s) - 1
    ensures exists b | b in {Pin, Construct, Unpin, Release} :: Enabled(s, b)
  {
    assert s.call.Locked? ==> Enabled(s, Pin);
    assert s.call.Inside? ==> Enabled(s, Construct);
    assert s.call.Leaving? ==> Enabled(s, Unpin);
    assert s.call.Unpinned? ==> Enabled(s, Release);
  }

  // --- one call, undisturbed ---

  /** The five steps of a factory call with nothing in between. */
  function Undisturbed(s: State, n: nat, raises: bool): State
    requires s.call.Idle? && n < |s.nodes|
  {
    Step(Step(Step(Step(Step(s, Acquire(n)), Pin), if raises then Raise else Construct), Unpin), Release)
  }

  /** It consumes no id and leaves the allocator as it was; there is one more endpoint unless the constructor raises. */
  lemma CallExact(s: State, n: nat, raises: bool)
    requires s.call.Idle? && n < |s.nodes|
    ensures Undisturbed(s, n, raises) ==
            if raises then s else s.(endpoints := s.endpoints + [Endpoint(n, s.nodes[n])])
  {
  }

  class Session {
    var allocator: Allocator
    var next: nat
    // the ids of the nodes constructed so far, and the endpoints
    ghost var nodes: seq<nat>
    ghost var endpoints: seq<Endpoint>

    /** The state between two factory calls. */
    ghost function Contents(): State
      reads this
    {
      State(allocator, next, nodes, Idle, endpoints)
    }

    constructor (next: nat)
      ensures Contents() == Initial(next)
    {
      allocator, this.next, nodes, endpoints := Original, next, [], [];
    }

    method GetNextNodeId() returns (id: nat)
      modifies this`next
      ensures id == Given(old(Contents())) && next == Consumed(old(Contents()))
    {
      if allocator.Pinned? {
        return allocator.id;
      }
      id := next;
      next := next + 1;
    }
  }

  class Node {
    const session: Session
    const id: nat
    /** Which of the session's nodes this is. */
    ghost const index: nat
    /** The ids its endpoints were given. */
    var entities: seq<nat>

    ghost predicate Valid()
      reads session
    {
      index < |session.nodes| && session.nodes[index] == id
    }

    constructor (session: Session)
      modifies session`next, session`nodes
      ensures this.session == session && Valid() && entities == []
      ensures session.Contents() == Step(old(session.Contents()), NewNode)
    {
      var own := session.GetNextNodeId();
      this.session, id, entities := session, own, [];
      index := |session.nodes|;
      new;
      session.nodes := session.nodes + [own];
    }

    /** A factory: the five steps of the call, whether or not the constructor raises. */
    method Create(raises: bool) returns (endpoint: Option<nat>)
      requires Valid()
      modifies this`entities, session`allocator, session`next, session`endpoints
      ensures Valid() && session.Contents() == Undisturbed(old(session.Contents()), index, raises)
      ensures endpoint == if raises then None else Some(id)
      ensures entities == if raises then old(entities) else old(entities) + [id]
    {
      CallExact(session.Contents(), index, raises);
      var original := session.allocator;
      session.allocator := Pinned(id);
      if raises {
        session.allocator := original;
        return None;
      }
      var given := session.GetNextNodeId();
      session.endpoints := session.endpoints + [Endpoint(index, given)];
      session.allocator := original;
      entities := entities + [given];
      endpoint := Some(given);
    }
  }
}
