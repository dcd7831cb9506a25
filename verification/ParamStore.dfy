/** What one request does to the parameter store and to the event stream, on values. */
module ParamStore {
  import opened Sequences
  import opened Wrappers
  import opened ParamTypes
  import opened Rcl
  import opened ParamListing

  /** The reason texts, one constructor per message the code formats. */
  datatype Reason =
    | NoReason
    | ReadOnly
    | WrongType(expected: ParameterType, got: ParameterType)
    | IntegerOutOfRange(integerRange: IntegerRange)
    | DoubleOutOfRange(doubleRange: FloatingPointRange)
    | NotFound
    | NotFoundNamed(name: string)

  datatype SetResult = SetResult(successful: bool, reason: Reason)

  const ACCEPTED := SetResult(true, NoReason)

  type Assignment = (string, ParameterValue)

  function CheckRange(desc: Descriptor, value: ParameterValue): SetResult
  {
    match value
    case IntegerValue(i) =>
      if desc.integerRange.Some? && !(desc.integerRange.value.fromValue <= i <= desc.integerRange.value.toValue)
      then SetResult(false, IntegerOutOfRange(desc.integerRange.value)) else ACCEPTED
    case DoubleValue(d) =>
      if desc.floatingPointRange.Some?
         && !(desc.floatingPointRange.value.fromValue <= d <= desc.floatingPointRange.value.toValue)
      then SetResult(false, DoubleOutOfRange(desc.floatingPointRange.value)) else ACCEPTED
    case _ => ACCEPTED
  }

  /** The verdict of `set`: it looks at the descriptor and the new value, at no stored value. */
  function Verdict(desc: Descriptor, value: ParameterValue): SetResult
  {
    if desc.readOnly then SetResult(false, ReadOnly)
    else if !desc.dynamicTyping && value.Type() != desc.typ
    then SetResult(false, WrongType(desc.typ, value.Type()))
    else CheckRange(desc, value)
  }

  /** The value is one the descriptor allows: its type unless typing is dynamic, and its range. */
  predicate Satisfies(desc: Descriptor, value: ParameterValue)
  {
    && (desc.dynamicTyping || value.Type() == desc.typ)
    && (value.IntegerValue? && desc.integerRange.Some? ==>
          desc.integerRange.value.fromValue <= value.i <= desc.integerRange.value.toValue)
    && (value.DoubleValue? && desc.floatingPointRange.Some? ==>
          desc.floatingPointRange.value.fromValue <= value.d <= desc.floatingPointRange.value.toValue)
  }

  predicate Accepts(desc: Descriptor, value: ParameterValue)
  {
    !desc.readOnly && Satisfies(desc, value)
  }

  lemma VerdictExact(desc: Descriptor, value: ParameterValue)
    ensures Verdict(desc, value).successful <==> Accepts(desc, value)
    ensures Verdict(desc, value).successful <==> Verdict(desc, value) == ACCEPTED
  {
  }

  /** Which answer is given: the first objection in this order, with what it is about. */
  lemma VerdictReason(desc: Descriptor, value: ParameterValue)
    ensures desc.readOnly ==> Verdict(desc, value) == SetResult(false, ReadOnly)
    ensures !desc.readOnly && !desc.dynamicTyping && value.Type() != desc.typ ==>
              Verdict(desc, value) == SetResult(false, WrongType(desc.typ, value.Type()))
    ensures !desc.readOnly && (desc.dynamicTyping || value.Type() == desc.typ) && !Satisfies(desc, value) ==>
              && Verdict(desc, value).successful == false
              && (value.IntegerValue? ==>
                    desc.integerRange.Some?
                    && Verdict(desc, value).reason == IntegerOutOfRange(desc.integerRange.value))
              && (value.DoubleValue? ==>
                    desc.floatingPointRange.Some?
                    && Verdict(desc, value).reason == DoubleOutOfRange(desc.floatingPointRange.value))
              && (value.IntegerValue? || value.DoubleValue?)
    ensures Accepts(desc, value) ==> Verdict(desc, value) == SetResult(true, NoReason)
  {
  }

  /** The ordered dict of the backend: declaration order, descriptors and values. */
  datatype Store = Store(
    names: seq<string>,
    descs: map<string, Descriptor>,
    values: map<string, ParameterValue>)
  {
    ghost predicate Valid()
    {
      && values.Keys == descs.Keys
      && (forall n | n in descs :: descs[n].name == n)
    }

    /** The names are the keys, each once. */
    ghost predicate Ordered()
    {
      && NoDuplicates(names)
      && (forall n :: n in names <==> n in descs)
    }

    /** A set parameter, and a declared one. */
    function WithValue(name: string, value: ParameterValue): Store
    {
      this.(values := values[name := value])
    }

    function WithParameter(name: string, desc: Descriptor, value: ParameterValue): Store
    {
      Store(if name in descs then names else names + [name], descs[name := desc], values[name := value])
    }

    lemma SetKeepsValid(name: string, value: ParameterValue)
      requires Valid() && name in descs
      ensures WithValue(name, value).Valid()
    {
    }

    lemma DeclareKeepsValid(name: string, desc: Descriptor, value: ParameterValue)
      requires Valid() && desc.name == name
      ensures WithParameter(name, desc, value).Valid()
      ensures Ordered() ==> WithParameter(name, desc, value).Ordered()
      // declaring again keeps the place of a name
      ensures Ordered() ==> WithParameter(name, desc, value).names == if name in names then names else names + [name]
    {
      if Ordered() {
        var s := WithParameter(name, desc, value);
        assert forall n :: n in s.names <==> n in names || n == name;
      }
    }
  }

  /** A server: its store, the calls made to the `on_set` hook, and the events published. */
  datatype Server = Server(
    store: Store,
    hooked: bool,
    notified: seq<Assignment>,
    publishing: bool,
    events: seq<seq<ParameterMsg>>)
  {
    ghost predicate Valid()
    {
      store.Valid()
    }

    function Assign(a: Assignment): Server
    {
      this.(store := store.WithValue(a.0, a.1),
            notified := if hooked then notified + [a] else notified)
    }

    /** A publish appends to the log; an encoding error is swallowed. */
    function Emit(changed: seq<Assignment>): Server
    {
      if publishing && AllEncodable(changed) then this.(events := events + [Messages(changed)]) else this
    }
  }

  predicate AllEncodable(changed: seq<Assignment>)
  {
    forall i | 0 <= i < |changed| :: Encodable(changed[i].1)
  }

  function Messages(changed: seq<Assignment>): seq<ParameterMsg>
    requires AllEncodable(changed)
  {
    seq(|changed|, i requires 0 <= i < |changed| =>
      ParameterMsg(changed[i].0, Some(ParamValueToMsg(changed[i].1).value)))
  }

  // --- set_parameters ---

  datatype Item = Commit(assignment: Assignment) | Refuse(result: SetResult) | Crash(error: WireError)

  /** One round of the loop in `_apply_sets`: the name is looked up before the value is decoded. */
  function Classify(descs: map<string, Descriptor>, p: ParameterMsg): Item
  {
    if p.name !in descs then Refuse(SetResult(false, NotFound))
    else
      match ParamValueFromMsg(p.value)
      case Failure(e) => Crash(e)
      case Success(v) =>
        var verdict := Verdict(descs[p.name], v);
        if verdict.successful then Commit((p.name, v)) else Refuse(verdict)
  }

  datatype Progress = Progress(
    server: Server,
    results: seq<SetResult>,
    changed: seq<Assignment>,
    crashed: Option<WireError>)

  function Advance(pr: Progress, p: ParameterMsg): Progress
  {
    if pr.crashed.Some? then pr
    else
      match Classify(pr.server.store.descs, p)
      case Crash(e) => pr.(crashed := Some(e))
      case Refuse(r) => pr.(results := pr.results + [r])
      case Commit(a) => Progress(pr.server.Assign(a), pr.results + [ACCEPTED], pr.changed + [a], None)
  }

  function ApplySets(s: Server, ps: seq<ParameterMsg>): Progress
  {
    if ps == [] then Progress(s, [], [], None) else Advance(ApplySets(s, ps[..|ps| - 1]), ps[|ps| - 1])
  }

  function HandleSet(s: Server, ps: seq<ParameterMsg>): (Server, Reply)
  {
    var pr := ApplySets(s, ps);
    if pr.crashed.Some? then (pr.server, Raised(pr.crashed.value))
    else (if pr.changed == [] then pr.server else pr.server.Emit(pr.changed), SetReply(pr.results))
  }

  // --- set_parameters_atomically ---

  datatype Preview = Ready(previews: seq<Assignment>) | Missing(name: string) | Malformed(error: WireError)

  /** One round of the first loop of `_handle_set_atomic`: the value is decoded before the name is looked up. */
  function Look(descs: map<string, Descriptor>, pv: Preview, p: ParameterMsg): Preview
  {
    if !pv.Ready? then pv
    else
      match ParamValueFromMsg(p.value)
      case Failure(e) => Malformed(e)
      case Success(v) => if p.name in descs then Ready(pv.previews + [(p.name, v)]) else Missing(p.name)
  }

  function PreviewAll(descs: map<string, Descriptor>, ps: seq<ParameterMsg>): Preview
  {
    if ps == [] then Ready([]) else Look(descs, PreviewAll(descs, ps[..|ps| - 1]), ps[|ps| - 1])
  }

  /** The second loop: it commits one by one, stops at the first refusal and takes nothing back. */
  function CommitAll(s: Server, previews: seq<Assignment>): (Server, SetResult)
    requires forall i | 0 <= i < |previews| :: previews[i].0 in s.store.descs
    decreases |previews|
  {
    if previews == [] then (s, ACCEPTED)
    else
      var a := previews[0];
      var verdict := Verdict(s.store.descs[a.0], a.1);
      if verdict.successful then CommitAll(s.Assign(a), previews[1..]) else (s, verdict)
  }

  lemma {:induction false} PreviewKnown(descs: map<string, Descriptor>, ps: seq<ParameterMsg>)
    ensures var pv := PreviewAll(descs, ps);
            pv.Ready? ==>
              && |pv.previews| == |ps|
              && forall i | 0 <= i < |ps| ::
                   && ps[i].name in descs
                   && ParamValueFromMsg(ps[i].value) == Success(pv.previews[i].1)
                   && pv.previews[i].0 == ps[i].name
  {
    if ps != [] {
      PreviewKnown(descs, ps[..|ps| - 1]);
    }
  }

  function HandleSetAtomic(s: Server, ps: seq<ParameterMsg>): (Server, Reply)
  {
    var pv := PreviewAll(s.store.descs, ps);
    match pv
    case Malformed(e) => (s, Raised(e))
    case Missing(n) => (s, AtomicReply(SetResult(false, NotFoundNamed(n))))
    case Ready(previews) =>
      PreviewKnown(s.store.descs, ps);
      var (s', r) := CommitAll(s, previews);
      if r.successful then (s'.Emit(previews), AtomicReply(ACCEPTED)) else (s', AtomicReply(r))
  }

  // --- the requests that change no value ---

  function GetValues(store: Store, names: seq<string>): (r: seq<ParameterValue>)
    requires store.descs.Keys == store.values.Keys
    ensures |r| == |names|
  {
    seq(|names|, i requires 0 <= i < |names| =>
      if names[i] in store.values then store.values[names[i]] else NotSet)
  }

  /** The response is built by a comprehension that an unencodable value aborts. */
  function HandleGet(store: Store, names: seq<string>): Reply
    requires store.descs.Keys == store.values.Keys
  {
    var values := GetValues(store, names);
    if forall i | 0 <= i < |values| :: Encodable(values[i]) then
      GetReply(seq(|values|, i requires 0 <= i < |values| => ParamValueToMsg(values[i]).value))
    else Raised(IntegerOverflow)
  }

  function HandleGetTypes(store: Store, names: seq<string>): Reply
  {
    TypesReply(seq(|names|, i requires 0 <= i < |names| =>
      if names[i] in store.descs then Tag(store.descs[names[i]].typ) else 0))
  }

  function HandleDescribe(store: Store, names: seq<string>): Reply
  {
    DescribeReply(seq(|names|, i requires 0 <= i < |names| =>
      if names[i] in store.descs then store.descs[names[i]] else BlankDescriptor(names[i])))
  }

  function HandleList(store: Store, prefixes: seq<string>): Reply
  {
    ListReply(ListedNames(store.names, prefixes), ListedPrefixes(store.names, prefixes))
  }

  // --- requests ---

  datatype Request =
    | ListParameters(prefixes: seq<string>)
    | GetParameters(getNames: seq<string>)
    | GetParameterTypes(typeNames: seq<string>)
    | DescribeParameters(describeNames: seq<string>)
    | SetParameters(params: seq<ParameterMsg>)
    | SetParametersAtomically(atomicParams: seq<ParameterMsg>)

  datatype Reply =
    | ListReply(names: seq<string>, subPrefixes: seq<string>)
    | GetReply(values: seq<ValueMsg>)
    | TypesReply(types: seq<int>)
    | DescribeReply(descriptors: seq<Descriptor>)
    | SetReply(results: seq<SetResult>)
    | AtomicReply(result: SetResult)
    | Raised(error: WireError)

  function Handle(s: Server, req: Request): (Server, Reply)
    requires s.store.descs.Keys == s.store.values.Keys
  {
    match req
    case ListParameters(prefixes) => (s, HandleList(s.store, prefixes))
    case GetParameters(names) => (s, HandleGet(s.store, names))
    case GetParameterTypes(names) => (s, HandleGetTypes(s.store, names))
    case DescribeParameters(names) => (s, HandleDescribe(s.store, names))
    case SetParameters(ps) => HandleSet(s, ps)
    case SetParametersAtomically(ps) => HandleSetAtomic(s, ps)
  }
}
