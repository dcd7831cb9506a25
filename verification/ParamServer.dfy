/** The parameter backend and server as objects: live descriptors, entries, handlers that loop. */
module ParamServer {
  import opened Wrappers
  import opened Text
  import opened ParamTypes
  import opened Rcl
  import opened ParamListing
  import opened ParamStore

  /** A live descriptor: `describe` hands out the object itself, and writes into it. */
  class ParameterDescriptor {
    var fields: Descriptor

    constructor (fields: Descriptor)
      ensures this.fields == fields
    {
      this.fields := fields;
    }
  }

  class Entry {
    const descriptor: ParameterDescriptor
    var value: ParameterValue

    /** The entry stands for this descriptor and value. */
    ghost predicate Holds(desc: Descriptor, value: ParameterValue)
      reads this, descriptor
    {
      descriptor.fields == desc && this.value == value
    }

    constructor (descriptor: ParameterDescriptor, value: ParameterValue)
      ensures this.descriptor == descriptor && this.value == value
    {
      this.descriptor, this.value := descriptor, value;
    }
  }

  /** The entries stand for the descriptors and values of a store; their descriptors are among those in use. */
  ghost predicate Mirrors(params: map<string, Entry>, repr: set<ParameterDescriptor>, store: Store)
    reads params.Values, repr
    requires store.Valid()
  {
    && params.Keys == store.descs.Keys
    && forall n | n in params ::
         params[n].descriptor in repr && params[n].Holds(store.descs[n], store.values[n])
  }

  lemma MirrorsAdded(params: map<string, Entry>, repr: set<ParameterDescriptor>, store: Store,
                     name: string, entry: Entry)
    requires store.Valid() && params.Keys == store.descs.Keys && entry.descriptor.fields.name == name
    requires forall n | n in params && n != name ::
               params[n].descriptor in repr && params[n].Holds(store.descs[n], store.values[n])
    ensures var after := store.WithParameter(name, entry.descriptor.fields, entry.value);
            after.Valid() && Mirrors(params[name := entry], repr + {entry.descriptor}, after)
  {
    store.DeclareKeepsValid(name, entry.descriptor.fields, entry.value);
  }

  class DictParameterBackend {
    // the ordered dict: its keys in order, and its entries
    var names: seq<string>
    var params: map<string, Entry>
    // whether an `on_set` hook is installed, and the calls made to it
    var hooked: bool
    var notified: seq<Assignment>

    /** The store these objects represent, and the descriptors in use. */
    ghost var contents: Store
    ghost var repr: set<ParameterDescriptor>

    /** A descriptor shared by two names could not carry both names, so none is shared. */
    ghost predicate Valid()
      reads `names, `params, `contents, `repr, params.Values, repr
    {
      contents.Valid() && contents.names == names && Mirrors(params, repr, contents)
    }

    constructor ()
      ensures Valid() && contents == Store([], map[], map[]) && contents.Ordered() && !hooked && notified == []
    {
      names, params, hooked, notified := [], map[], false, [];
      contents, repr := Store([], map[], map[]), {};
    }

    /** Declare a parameter, with a descriptor of the caller's or with one made from the other arguments. */
    method Declare(name: string, value: ParameterValue, given: ParameterDescriptor?, description: string,
                   readOnly: bool, integerRange: Option<IntegerRange>,
                   floatingPointRange: Option<FloatingPointRange>)
      requires Valid()
      requires given != null ==> forall n | n in params && n != name :: params[n].descriptor != given
      modifies this, if given == null then {} else {given}
      ensures Valid() && hooked == old(hooked) && notified == old(notified)
      ensures old(contents).Ordered() ==> contents.Ordered()
      ensures contents == old(contents).WithParameter(
                name,
                if given == null
                then Descriptor(name, value.Type(), description, "", readOnly, false, floatingPointRange, integerRange)
                else old(given.fields).(
                       name := name,
                       typ := if old(given.fields.typ) == NOT_SET then value.Type() else old(given.fields.typ)),
                value)
    {
      var descriptor: ParameterDescriptor;
      if given == null {
        descriptor := new ParameterDescriptor(
          Descriptor(name, value.Type(), description, "", readOnly, false, floatingPointRange, integerRange));
      } else {
        descriptor := given;
        descriptor.fields := descriptor.fields.(name := name);
        if descriptor.fields.typ == NOT_SET {
          descriptor.fields := descriptor.fields.(typ := value.Type());
        }
      }
      contents.DeclareKeepsValid(name, descriptor.fields, value);
      var entry := new Entry(descriptor, value);
      Put(name, entry);
    }

    /** `self._params[name] = entry`: the entries of other names must be in order. */
    method Put(name: string, entry: Entry)
      requires contents.Valid() && contents.names == names && contents.descs.Keys == params.Keys
      requires entry.descriptor.fields.name == name
      requires forall n | n in params && n != name ::
                 params[n].descriptor in repr && params[n].Holds(contents.descs[n], contents.values[n])
      modifies this`names, this`params, this`contents, this`repr
      ensures Valid()
      ensures contents == old(contents).WithParameter(name, entry.descriptor.fields, entry.value)
    {
      MirrorsAdded(params, repr, contents, name, entry);
      contents := contents.WithParameter(name, entry.descriptor.fields, entry.value);
      repr := repr + {entry.descriptor};
      names := if name in params then names else names + [name];
      params := params[name := entry];
    }

    /** The verdict is a function of the descriptor and the value; only an accepted value is stored. */
    method Set(handle: string, value: ParameterValue) returns (verdict: SetResult)
      requires Valid() && handle in params
      modifies this`notified, this`contents, {params[handle]}`value
      ensures Valid()
      ensures verdict == Verdict(contents.descs[handle], value)
      ensures contents == if verdict.successful
                          then old(contents).WithValue(handle, value)
                          else old(contents)
      ensures notified == if verdict.successful && hooked then old(notified) + [(handle, value)] else old(notified)
    {
      assert params[handle].Holds(contents.descs[handle], contents.values[handle]);
      verdict := Judge(params[handle].descriptor.fields, value);
      if verdict.successful {
        Keep(handle, value);
      }
    }

    /** The part of `set` behind the checks. */
    method Keep(handle: string, value: ParameterValue)
      requires Valid() && handle in params
      modifies this`notified, this`contents, {params[handle]}`value
      ensures Valid() && contents == old(contents).WithValue(handle, value)
      ensures notified == if hooked then old(notified) + [(handle, value)] else old(notified)
    {
      Write(handle, value);
      label Written:
      if hooked {
        notified := notified + [(handle, value)];
      }
      assert Mirrors(params, repr, contents) == old@Written(Mirrors(params, repr, contents));
    }

    /** The checks of `set`, in their order. */
    static method Judge(desc: Descriptor, value: ParameterValue) returns (verdict: SetResult)
      ensures verdict == Verdict(desc, value)
    {
      if desc.readOnly {
        return SetResult(false, ReadOnly);
      }
      if !desc.dynamicTyping && value.Type() != desc.typ {
        return SetResult(false, WrongType(desc.typ, value.Type()));
      }
      verdict := CheckRange(desc, value);
    }

    /** `entry.value = value` */
    method Write(handle: string, value: ParameterValue)
      requires Valid() && handle in params
      modifies this`contents, {params[handle]}`value
      ensures Valid() && contents == old(contents).WithValue(handle, value)
    {
      assert forall n | n in params && n != handle :: params[n] != params[handle];
      params[handle].value := value;
      contents.SetKeepsValid(handle, value);
      contents := contents.WithValue(handle, value);
      forall n | n in params
        ensures params[n].descriptor in repr && params[n].Holds(contents.descs[n], contents.values[n])
      {
        assert n == handle || params[n] != params[handle];
      }
    }

    /** The sub-namespaces of the matching names, each once, in first-seen order. */
    method Prefixes(prefix: Option<string>) returns (out: seq<string>)
      requires Valid()
      ensures out == Dedup(AllSubPrefixes(NamesUnder(names, prefix)))
    {
      var seen: set<string> := {};
      out := [];
      var under := NamesUnder(names, prefix);
      for j := 0 to |under|
        invariant out == Dedup(AllSubPrefixes(under[..j])) && forall x :: x in seen <==> x in out
      {
        seen, out := AddSubPrefixes(under[j], seen, out, AllSubPrefixes(under[..j]));
        assert under[..j + 1][..j] == under[..j];
      }
      assert under[..|under|] == under;
    }

    /** The inner loop: the sub-prefixes of one name. */
    method AddSubPrefixes(name: string, seen0: set<string>, out0: seq<string>, ghost all0: seq<string>)
      returns (seen: set<string>, out: seq<string>)
      requires out0 == Dedup(all0) && forall x :: x in seen0 <==> x in out0
      ensures out == Dedup(all0 + SubPrefixes(name)) && forall x :: x in seen <==> x in out
    {
      seen, out := seen0, out0;
      var parts := Split(name, '.');
      ghost var all, subs := all0, SubPrefixes(name);
      for i := 1 to |parts|
        invariant all == all0 + subs[..i - 1]
        invariant out == Dedup(all) && forall x :: x in seen <==> x in out
      {
        var pfx := Join(parts[..i], '.');
        DedupSnoc(all, pfx);
        all := all + [pfx];
        if pfx !in seen {
          seen, out := seen + {pfx}, out + [pfx];
        }
      }
      assert subs[..|parts| - 1] == subs;
    }
  }

  class ParameterServer {
    const backend: DictParameterBackend
    // whether there is an event publisher, and what it has published
    var publishing: bool
    var events: seq<seq<ParameterMsg>>

    ghost predicate Valid()
      reads backend`names, backend`params, backend`contents, backend`repr, backend.params.Values, backend.repr
    {
      backend.Valid()
    }

    ghost function State(): (s: Server)
      reads this, backend, backend.params.Values, backend.repr
      requires Valid()
      ensures s.Valid()
    {
      Server(backend.contents, backend.hooked, backend.notified, publishing, events)
    }

    constructor (backend: DictParameterBackend, publishEvents: bool)
      requires backend.Valid()
      ensures this.backend == backend && Valid()
      ensures State() == Server(backend.contents, backend.hooked, backend.notified, publishEvents, [])
    {
      this.backend, publishing, events := backend, publishEvents, [];
    }

    method EmitEvent(changed: seq<Assignment>)
      requires Valid()
      modifies this`events
      ensures Valid() && State() == old(State()).Emit(changed)
    {
      if publishing && AllEncodable(changed) {
        events := events + [Messages(changed)];
      }
    }

    /** `self.backend.set(...)`, with its effect on the server state. */
    method BackendSet(a: Assignment) returns (verdict: SetResult)
      requires Valid() && a.0 in backend.params
      modifies backend`notified, backend`contents, backend.params.Values
      ensures Valid()
      ensures verdict == Verdict(old(State()).store.descs[a.0], a.1)
      ensures verdict.successful ==> verdict == ACCEPTED
      ensures State() == if verdict.successful then old(State()).Assign(a) else old(State())
    {
      VerdictExact(backend.contents.descs[a.0], a.1);
      verdict := backend.Set(a.0, a.1);
    }

    /** One round of the loop in `_apply_sets`: look the name up, decode the value, set it. */
    method ApplyOne(p: ParameterMsg) returns (item: Item)
      requires Valid()
      modifies backend`notified, backend`contents, backend.params.Values
      ensures Valid()
      ensures item == Classify(old(State()).store.descs, p)
      ensures State() == if item.Commit? then old(State()).Assign(item.assignment) else old(State())
    {
      if p.name !in backend.params {
        return Refuse(SetResult(false, NotFound));
      }
      var pv := ParamValueFromMsg(p.value);
      if pv.Failure? {
        return Crash(pv.error);
      }
      var verdict := BackendSet((p.name, pv.value));
      item := if verdict.successful then Commit((p.name, pv.value)) else Refuse(verdict);
    }

    /** The loop of `_apply_sets`: it goes on after a refusal and is left by a decoding error. */
    method ApplyEach(params: seq<ParameterMsg>)
      returns (results: seq<SetResult>, changed: seq<Assignment>, crashed: Option<WireError>)
      requires Valid()
      modifies backend`notified, backend`contents, backend.params.Values
      ensures Valid()
      ensures ApplySets(old(State()), params) == Progress(State(), results, changed, crashed)
    {
      ghost var start := State();
      results, changed, crashed := [], [], None;
      for i := 0 to |params|
        invariant Valid() && backend.params == old(backend.params)
        invariant ApplySets(start, params[..i]) == Progress(State(), results, changed, None)
      {
        ghost var before := State();
        var item := ApplyOne(params[i]);
        ApplySetsSnoc(start, params, i, before, results, changed, item);
        match item {
          case Crash(e) =>
            ApplySetsCrashed(start, params, i + 1, e);
            return results, changed, Some(e);
          case Refuse(r) =>
            results := results + [r];
          case Commit(a) =>
            results, changed := results + [ACCEPTED], changed + [a];
        }
      }
      assert params[..|params|] == params;
    }

    method HandleSetParameters(params: seq<ParameterMsg>) returns (reply: Reply)
      requires Valid()
      modifies this`events, backend`notified, backend`contents, backend.params.Values
      ensures Valid()
      ensures (State(), reply) == HandleSet(old(State()), params)
    {
      var results, changed, crashed := ApplyEach(params);
      if crashed.Some? {
        return Raised(crashed.value);
      }
      if changed != [] {
        EmitEvent(changed);
      }
      reply := SetReply(results);
    }

    /** The first loop of set_parameters_atomically: decode every value and look every name up. */
    method PreviewParameters(params: seq<ParameterMsg>) returns (preview: Preview)
      requires Valid()
      ensures preview == PreviewAll(backend.contents.descs, params)
    {
      ghost var descs := backend.contents.descs;
      var previews: seq<Assignment> := [];
      for i := 0 to |params|
        invariant PreviewAll(descs, params[..i]) == Ready(previews)
      {
        var p := params[i];
        assert params[..i + 1][..i] == params[..i];
        var pv := ParamValueFromMsg(p.value);
        if pv.Failure? {
          PreviewStuck(descs, params, i + 1);
          return Malformed(pv.error);
        }
        if p.name !in backend.params {
          PreviewStuck(descs, params, i + 1);
          return Missing(p.name);
        }
        previews := previews + [(p.name, pv.value)];
      }
      assert params[..|params|] == params;
      preview := Ready(previews);
    }

    /** The names are known, and committing from the i-th assignment on gives the goal. */
    ghost predicate Committing(previews: seq<Assignment>, i: nat, goal: (Server, SetResult))
      reads this, backend, backend.params.Values, backend.repr
      requires Valid()
    {
      && i <= |previews| && (forall k | 0 <= k < |previews| :: previews[k].0 in backend.params)
      && Commits(State(), previews[i..], goal)
    }

    /** One round of the second loop. */
    method CommitPreview(previews: seq<Assignment>, i: nat, ghost goal: (Server, SetResult))
      returns (verdict: SetResult)
      requires Valid() && i < |previews| && Committing(previews, i, goal)
      modifies backend`notified, backend`contents, backend.params.Values
      ensures Valid()
      ensures verdict.successful ==> Committing(previews, i + 1, goal)
      ensures !verdict.successful ==> goal == (State(), verdict)
    {
      CommitOne(State(), previews[i..], goal);
      assert previews[i..][1..] == previews[i + 1..];
      verdict := BackendSet(previews[i]);
    }

    /** The second loop: commit one by one, until a refusal. */
    method CommitPreviews(previews: seq<Assignment>) returns (result: SetResult)
      requires Valid() && forall k | 0 <= k < |previews| :: previews[k].0 in backend.params
      modifies backend`notified, backend`contents, backend.params.Values
      ensures Valid() && (State(), result) == CommitAll(old(State()), previews)
    {
      ghost var goal := CommitAll(State(), previews);
      assert previews[0..] == previews && Commits(State(), previews, goal);
      for i := 0 to |previews|
        invariant Valid() && Committing(previews, i, goal)
      {
        var verdict := CommitPreview(previews, i, goal);
        if !verdict.successful {
          return verdict;
        }
      }
      CommitNone(State(), previews[|previews|..], goal);
      result := ACCEPTED;
    }

    method HandleSetParametersAtomically(params: seq<ParameterMsg>) returns (reply: Reply)
      requires Valid()
      modifies this`events, backend`notified, backend`contents, backend.params.Values
      ensures Valid()
      ensures (State(), reply) == HandleSetAtomic(old(State()), params)
    {
      var preview := PreviewParameters(params);
      match preview {
        case Malformed(e) => reply := Raised(e);
        case Missing(name) => reply := AtomicReply(SetResult(false, NotFoundNamed(name)));
        case Ready(previews) =>
          PreviewKnown(backend.contents.descs, params);
          var result := CommitPreviews(previews);
          CommitAllAccepted(old(State()), previews);
          if result.successful {
            EmitEvent(previews);
          }
          reply := AtomicReply(result);
      }
    }

    method HandleGetParameters(names: seq<string>) returns (reply: Reply)
      requires Valid()
      ensures reply == HandleGet(backend.contents, names)
    {
      var values: seq<ParameterValue> := [];
      for i := 0 to |names|
        invariant values == GetValues(backend.contents, names)[..i]
      {
        values := values + [if names[i] in backend.params then backend.params[names[i]].value else NotSet];
      }
      assert values == GetValues(backend.contents, names);
      if forall k | 0 <= k < |values| :: Encodable(values[k]) {
        reply := GetReply(seq(|values|, k requires 0 <= k < |values| => ParamValueToMsg(values[k]).value));
      } else {
        reply := Raised(IntegerOverflow);
      }
    }

    method HandleGetParameterTypes(names: seq<string>) returns (reply: Reply)
      requires Valid()
      ensures reply == HandleGetTypes(backend.contents, names)
    {
      var types: seq<int> := [];
      for i := 0 to |names|
        invariant types == HandleGetTypes(backend.contents, names).types[..i]
      {
        types := types +
          [if names[i] in backend.params then Tag(backend.params[names[i]].descriptor.fields.typ) else 0];
      }
      reply := TypesReply(types);
      assert types == HandleGetTypes(backend.contents, names).types;
    }

    /** The live descriptor of a name, with the requested name written into it: no descriptor changes. */
    method DescribeOne(name: string) returns (desc: ParameterDescriptor)
      requires Valid()
      modifies backend.repr
      ensures forall d: ParameterDescriptor | old(allocated(d)) :: d.fields == old(d.fields)
      ensures desc.fields == if name in backend.contents.descs then backend.contents.descs[name]
                             else BlankDescriptor(name)
    {
      if name in backend.params {
        desc := backend.params[name].descriptor;
      } else {
        desc := new ParameterDescriptor(BlankDescriptor(name));
      }
      desc.fields := desc.fields.(name := name);
    }

    /**
      * The answer holds live descriptors until it is built: writing the requested names into them
      * leaves the store as it was, and the answer right, because no descriptor is shared.
      */
    method HandleDescribeParameters(names: seq<string>) returns (reply: Reply)
      requires Valid()
      modifies backend.repr
      ensures Valid() && State() == old(State())
      ensures reply == HandleDescribe(backend.contents, names)
    {
      var descriptors: seq<ParameterDescriptor> := [];
      ghost var expected := HandleDescribe(backend.contents, names).descriptors;
      for i := 0 to |names|
        invariant Valid() && State() == old(State())
        invariant |descriptors| == i
        invariant forall k | 0 <= k < i :: descriptors[k].fields == expected[k]
      {
        var desc := DescribeOne(names[i]);
        descriptors := descriptors + [desc];
      }
      var answers := BuildDescriptors(descriptors);
      assert answers == expected;
      reply := DescribeReply(answers);
    }

    /** The response builder reads the descriptors after all names have been written. */
    method BuildDescriptors(descriptors: seq<ParameterDescriptor>) returns (answers: seq<Descriptor>)
      ensures |answers| == |descriptors| && forall k | 0 <= k < |answers| :: answers[k] == descriptors[k].fields
    {
      answers := [];
      for i := 0 to |descriptors|
        invariant |answers| == i && forall k | 0 <= k < i :: answers[k] == descriptors[k].fields
      {
        answers := answers + [descriptors[i].fields];
      }
    }

    method HandleListParameters(prefixes: seq<string>) returns (reply: Reply)
      requires Valid()
      ensures reply == HandleList(backend.contents, prefixes)
    {
      var targets := Targets(prefixes);
      var names: seq<string>, subPrefixes: seq<string> := [], [];
      ghost var all := backend.names;
      ghost var f := (t: Option<string>) => NamesUnder(all, t);
      ghost var g := (t: Option<string>) => Dedup(AllSubPrefixes(NamesUnder(all, t)));
      for i := 0 to |targets|
        invariant names == Concat(targets[..i], f)
        invariant subPrefixes == Concat(targets[..i], g)
      {
        names := names + NamesUnder(backend.names, targets[i]);
        var more := backend.Prefixes(targets[i]);
        subPrefixes := subPrefixes + more;
        assert targets[..i + 1][..i] == targets[..i];
      }
      assert targets[..|targets|] == targets;
      reply := ListReply(Dedup(names), Dedup(subPrefixes));
    }
  }

  /** Committing the rest from here on gives the goal. */
  ghost predicate Commits(s: Server, rest: seq<Assignment>, goal: (Server, SetResult))
  {
    (forall i | 0 <= i < |rest| :: rest[i].0 in s.store.descs) && CommitAll(s, rest) == goal
  }

  lemma CommitNone(s: Server, rest: seq<Assignment>, goal: (Server, SetResult))
    requires rest == [] && Commits(s, rest, goal)
    ensures goal == (s, ACCEPTED)
  {
  }

  lemma CommitOne(s: Server, rest: seq<Assignment>, goal: (Server, SetResult))
    requires rest != [] && Commits(s, rest, goal)
    ensures var verdict := Verdict(s.store.descs[rest[0].0], rest[0].1);
            if verdict.successful then Commits(s.Assign(rest[0]), rest[1..], goal) else goal == (s, verdict)
  {
  }

  lemma {:induction false} CommitAllAccepted(s: Server, previews: seq<Assignment>)
    requires forall i | 0 <= i < |previews| :: previews[i].0 in s.store.descs
    ensures CommitAll(s, previews).1.successful ==> CommitAll(s, previews).1 == ACCEPTED
    decreases |previews|
  {
    if previews != [] {
      var a := previews[0];
      VerdictExact(s.store.descs[a.0], a.1);
      if Verdict(s.store.descs[a.0], a.1).successful {
        CommitAllAccepted(s.Assign(a), previews[1..]);
      }
    }
  }

  lemma {:induction false} ApplySetsSnoc(start: Server, ps: seq<ParameterMsg>, i: nat, s: Server,
                                         results: seq<SetResult>, changed: seq<Assignment>, item: Item)
    requires i < |ps| && ApplySets(start, ps[..i]) == Progress(s, results, changed, None)
    requires item == Classify(s.store.descs, ps[i])
    ensures ApplySets(start, ps[..i + 1]) ==
            match item
            case Crash(e) => Progress(s, results, changed, Some(e))
            case Refuse(r) => Progress(s, results + [r], changed, None)
            case Commit(a) => Progress(s.Assign(a), results + [ACCEPTED], changed + [a], None)
  {
    assert ps[..i + 1][..i] == ps[..i];
  }

  /** A crashed loop stays crashed over the remaining parameters. */
  lemma {:induction false} ApplySetsCrashed(s: Server, ps: seq<ParameterMsg>, n: nat, e: WireError)
    requires n <= |ps| && ApplySets(s, ps[..n]).crashed == Some(e)
    ensures ApplySets(s, ps) == ApplySets(s, ps[..n])
    decreases |ps| - n
  {
    if n == |ps| {
      assert ps[..n] == ps;
    } else {
      assert ps[..n + 1][..n] == ps[..n];
      ApplySetsCrashed(s, ps, n + 1, e);
    }
  }

  lemma {:induction false} PreviewStuck(descs: map<string, Descriptor>, ps: seq<ParameterMsg>, n: nat)
    requires n <= |ps| && !PreviewAll(descs, ps[..n]).Ready?
    ensures PreviewAll(descs, ps) == PreviewAll(descs, ps[..n])
    decreases |ps| - n
  {
    if n == |ps| {
      assert ps[..n] == ps;
    } else {
      assert ps[..n + 1][..n] == ps[..n];
      PreviewStuck(descs, ps, n + 1);
    }
  }
}
