/** Registering the nested message types a service type refers to, transitively and in place. */
module TypeRepair {

  datatype FieldType =
    | Base(primitive: string)
    | Named(name: string)
    | Array(element: FieldType)
    | Sequence(element: FieldType)

  /** `_ref_names` */
  function RefNames(t: FieldType): seq<string>
  {
    match t
    case Base(_) => []
    case Named(n) => [n]
    case Array(e) => RefNames(e)
    case Sequence(e) => RefNames(e)
  }

  datatype Definition = Definition(fields: seq<(string, FieldType)>)

  /** The names a list of fields refers to, in the order the loops visit them. */
  function FieldRefs(fields: seq<(string, FieldType)>): seq<string>
  {
    if fields == [] then [] else RefNames(fields[0].1) + FieldRefs(fields[1..])
  }

  function Refs(d: Definition): seq<string>
  {
    FieldRefs(d.fields)
  }

  /** Arrays (true) and sequences (false) around a type, the outermost first. */
  function Wrap(ws: seq<bool>, t: FieldType): FieldType
  {
    if ws == [] then t
    else if ws[0] then Array(Wrap(ws[1..], t))
    else Sequence(Wrap(ws[1..], t))
  }

  ghost predicate Wraps(t: FieldType, n: string)
  {
    exists ws :: t == Wrap(ws, Named(n))
  }

  /** A definition refers to a type if one of its fields has it, alone or in arrays and sequences of any depth. */
  ghost predicate Uses(d: Definition, n: string)
  {
    exists i | 0 <= i < |d.fields| :: Wraps(d.fields[i].1, n)
  }

  lemma {:induction false} RefNamesExact(t: FieldType, n: string)
    ensures n in RefNames(t) <==> Wraps(t, n)
    ensures Wraps(t, n) ==> RefNames(t) == [n]
  {
    match t
    case Base(_) => assert !Wraps(t, n);
    case Named(m) => assert t == Wrap([], Named(m));
    case Array(e) =>
      RefNamesExact(e, n);
      UnwrapOne(t, e, true, n);
    case Sequence(e) =>
      RefNamesExact(e, n);
      UnwrapOne(t, e, false, n);
  }

  lemma UnwrapOne(t: FieldType, e: FieldType, outer: bool, n: string)
    requires t == if outer then Array(e) else Sequence(e)
    ensures Wraps(t, n) <==> Wraps(e, n)
  {
    if ws :| t == Wrap(ws, Named(n)) {
      assert e == Wrap(ws[1..], Named(n));
    }
    if ws :| e == Wrap(ws, Named(n)) {
      assert ([outer] + ws)[1..] == ws;
      assert t == Wrap([outer] + ws, Named(n));
    }
  }

  /** The references visited are the types of the fields, wrapped or not... */
  lemma {:induction false} RefsExact(d: Definition, n: string)
    ensures n in Refs(d) <==> Uses(d, n)
    decreases |d.fields|
  {
    if d.fields != [] {
      var rest := Definition(d.fields[1..]);
      RefNamesExact(d.fields[0].1, n);
      RefsExact(rest, n);
      if i :| 0 <= i < |d.fields| && Wraps(d.fields[i].1, n) {
        assert i > 0 ==> Wraps(rest.fields[i - 1].1, n);
      }
      if i :| 0 <= i < |rest.fields| && Wraps(rest.fields[i].1, n) {
        assert Wraps(d.fields[i + 1].1, n);
      }
    }
  }

  /** ...at most one for each field, in the order of the fields. */
  lemma {:induction false} RefsInOrder(a: seq<(string, FieldType)>, field: (string, FieldType))
    ensures Refs(Definition(a + [field])) == Refs(Definition(a)) + Refs(Definition([field]))
    ensures forall n :: Wraps(field.1, n) ==> Refs(Definition([field])) == [n]
    ensures (forall n :: !Wraps(field.1, n)) ==> Refs(Definition([field])) == []
    decreases |a|
  {
    if a == [] {
      forall n ensures Wraps(field.1, n) <==> n in RefNames(field.1) && RefNames(field.1) == [n] {
        RefNamesExact(field.1, n);
      }
      assert a + [field] == [field] && [field][1..] == [];
      if RefNames(field.1) != [] {
        assert RefNames(field.1)[0] in RefNames(field.1);
        RefNamesExact(field.1, RefNames(field.1)[0]);
      }
    } else {
      RefsInOrder(a[1..], field);
      assert (a + [field])[1..] == a[1..] + [field];
    }
  }

  /** `ref.replace("/srv/msg/", "/msg/")` */
  function Canonical(s: string): string
  {
    if |s| < 9 then s
    else if s[..9] == "/srv/msg/" then "/msg/" + Canonical(s[9..])
    else [s[0]] + Canonical(s[1..])
  }

  predicate OccursAt(s: string, t: string, i: nat)
  {
    i + |t| <= |s| && s[i..i + |t|] == t
  }

  predicate Contains(s: string, t: string)
  {
    exists i | 0 <= i <= |s| :: OccursAt(s, t, i)
  }

  lemma ContainsTail(s: string, t: string)
    requires s != ""
    ensures Contains(s, t) <==> OccursAt(s, t, 0) || Contains(s[1..], t)
  {
    if i :| 0 <= i <= |s[1..]| && OccursAt(s[1..], t, i) {
      assert OccursAt(s, t, i + 1);
    }
    if i :| 0 <= i <= |s| && OccursAt(s, t, i) {
      if i > 0 {
        assert OccursAt(s[1..], t, i - 1);
      }
    }
  }

  lemma {:induction false} NothingToReplace(s: string)
    requires !Contains(s, "/srv/msg/")
    ensures Canonical(s) == s
  {
    if |s| >= 9 {
      ContainsTail(s, "/srv/msg/");
      assert !OccursAt(s, "/srv/msg/", 0);
      NothingToReplace(s[1..]);
      assert s == [s[0]] + s[1..];
    }
  }

  lemma OccursTail(s: string, t: string, i: nat)
    requires s != ""
    ensures OccursAt(s[1..], t, i) <==> OccursAt(s, t, i + 1)
  {
  }

  /** The first occurrence is replaced, and then those behind it: with NothingToReplace this determines the result. */
  lemma {:induction false} FirstReplaced(s: string, n: nat)
    requires OccursAt(s, "/srv/msg/", n) && forall i | 0 <= i < n :: !OccursAt(s, "/srv/msg/", i)
    ensures Canonical(s) == s[..n] + "/msg/" + Canonical(s[n + 9..])
  {
    if n == 0 {
      assert s[..0] == "";
    } else {
      assert !OccursAt(s, "/srv/msg/", 0);
      CanonicalStep(s);
      forall i: nat | i < n ensures OccursAt(s[1..], "/srv/msg/", i) <==> OccursAt(s, "/srv/msg/", i + 1) {
        OccursTail(s, "/srv/msg/", i);
      }
      FirstReplaced(s[1..], n - 1);
      Rejoin(s, n, Canonical(s[n + 9..]));
    }
  }

  lemma {:induction false} CanonicalStep(s: string)
    requires |s| >= 9 && !OccursAt(s, "/srv/msg/", 0)
    ensures Canonical(s) == [s[0]] + Canonical(s[1..])
  {
  }

  lemma Rejoin(s: string, n: nat, rest: string)
    requires 0 < n && n + 9 <= |s|
    ensures s[1..][n - 1 + 9..] == s[n + 9..]
    ensures [s[0]] + (s[1..][..n - 1] + "/msg/" + rest) == s[..n] + "/msg/" + rest
  {
    assert [s[0]] + s[1..][..n - 1] == s[..n];
  }

  /** A canonical name is its own canonical name, unless replacing made a new occurrence. */
  predicate Settles(s: string)
  {
    Canonical(Canonical(s)) == Canonical(s)
  }

  lemma {:induction false} SettlesExact(s: string)
    ensures Settles(s) <==> !Contains(Canonical(s), "/srv/msg/")
  {
    if !Contains(Canonical(s), "/srv/msg/") {
      NothingToReplace(Canonical(s));
    } else {
      ReplacingShortens(Canonical(s));
    }
  }

  lemma {:induction false} ReplacingShortens(s: string)
    ensures |Canonical(s)| <= |s|
    ensures Contains(s, "/srv/msg/") ==> |Canonical(s)| < |s|
  {
    if |s| >= 9 {
      if s[..9] == "/srv/msg/" {
        ReplacingShortens(s[9..]);
      } else {
        ReplacingShortens(s[1..]);
        ContainsTail(s, "/srv/msg/");
      }
    }
  }

  // --- the session: its type store, and a registry that answers in any way it likes ---

  datatype World = World(
    defs: map<string, Definition>,
    types: map<string, string>,
    registered: map<string, string>,
    calls: nat)

  /** A registration adds definitions (and message classes), or fails. */
  datatype Reply = Added(defs: map<string, Definition>, classes: map<string, string>) | Failed

  /** The registry: what it answers may depend on everything that has happened. */
  type Registry = (World, string) -> Reply

  /** `session.register_message_type(None, name)`: existing definitions stay. */
  function Register(reg: Registry, w: World, name: string): World
  {
    match reg(w, name)
    case Added(defs, classes) => World(defs + w.defs, classes + w.types, w.registered, w.calls + 1)
    case Failed => w.(calls := w.calls + 1)
  }

  function RegisterAlias(reg: Registry, w: World, ref: string): World
  {
    if ref in w.defs then w
    else
      var c := Canonical(ref);
      if c !in w.defs && reg(w, c).Failed? then Register(reg, w, c)
      else
        var v := if c in w.defs then w else Register(reg, w, c);
        if c in v.defs then
          World(v.defs[ref := v.defs[c]],
                if c in v.types then v.types[ref := v.types[c]] else v.types,
                v.registered[ref := ref], v.calls)
        else v
  }

  /** Definitions are only ever added. */
  ghost predicate Extends(w: World, w': World)
  {
    && (forall n | n in w.defs :: n in w'.defs && w'.defs[n] == w.defs[n])
    && (forall n | n in w.types && n in w.defs :: n in w'.types && w'.types[n] == w.types[n])
    && (forall n | n in w.registered && n in w.defs :: n in w'.registered && w'.registered[n] == w.registered[n])
  }

  /** All names mentioned anywhere, now or by the registry later, come from a finite universe. */
  ghost predicate Bounded(universe: set<string>, reg: Registry, w: World)
  {
    && (forall n | n in w.defs :: Mentions(universe, w.defs[n]))
    && (forall v: World, c: string, n: string | reg(v, c).Added? && n in reg(v, c).defs ::
          Mentions(universe, reg(v, c).defs[n]))
  }

  ghost predicate Mentions(universe: set<string>, d: Definition)
  {
    forall r | r in Refs(d) :: r in universe
  }

  lemma {:induction false} RegisterAliasExtends(universe: set<string>, reg: Registry, w: World, ref: string)
    requires Bounded(universe, reg, w) && ref !in w.defs
    ensures var w' := RegisterAlias(reg, w, ref);
            && Extends(w, w') && Bounded(universe, reg, w')
            && (ref in w'.defs && Canonical(ref) in w'.defs ==> w'.defs[ref] == w'.defs[Canonical(ref)])
  {
    var c := Canonical(ref);
    if c !in w.defs {
      RegisterExtends(universe, reg, w, c);
    }
  }

  /**
    * The alias takes over the message class, and it alone is registered, under its own name. The registry is
    * asked once if neither name is defined, and otherwise not at all.
    */
  lemma {:induction false} AliasRegistered(reg: Registry, w: World, ref: string)
    ensures var (v, c) := (RegisterAlias(reg, w, ref), Canonical(ref));
            && (ref !in w.defs && c in v.defs ==>
                  && v.registered == w.registered[ref := ref]
                  && (c in v.types ==> ref in v.types && v.types[ref] == v.types[c]))
            && (ref in w.defs || c !in v.defs ==> v.registered == w.registered)
            && v.calls == w.calls + if ref in w.defs || c in w.defs then 0 else 1
  {
    var c := Canonical(ref);
    if ref !in w.defs && c !in w.defs && reg(w, c).Added? {
      assert c in RegisterAlias(reg, w, ref).defs ==> c in Register(reg, w, c).defs;
    }
  }

  lemma RegisterExtends(universe: set<string>, reg: Registry, w: World, name: string)
    requires Bounded(universe, reg, w)
    ensures Extends(w, Register(reg, w, name)) && Bounded(universe, reg, Register(reg, w, name))
  {
  }

  // --- the recursion: over the names still undefined, then over the references still to visit ---

  ghost function Missing(universe: set<string>, w: World): nat
  {
    |universe - w.defs.Keys|
  }

  lemma MissingShrinks(universe: set<string>, w: World, w': World, r: string)
    requires Extends(w, w')
    ensures Missing(universe, w') <= Missing(universe, w)
    ensures r in universe && r !in w.defs && r in w'.defs ==> Missing(universe, w') < Missing(universe, w)
  {
    var before, after := universe - w.defs.Keys, universe - w'.defs.Keys;
    Subset(after, before);
    if r in universe && r !in w.defs && r in w'.defs {
      Subset(after, before - {r});
    }
  }

  lemma Subset(a: set<string>, b: set<string>)
    requires a <= b
    ensures |a| <= |b|
  {
    if a != {} {
      var x :| x in a;
      Subset(a - {x}, b - {x});
    }
  }

  /** What `ensure_nested_types` makes of the session, for any registry over a finite universe of names. */
  ghost function Ensure(universe: set<string>, reg: Registry, w: World, name: string): (w': World)
    requires Bounded(universe, reg, w)
    ensures Extends(w, w') && Bounded(universe, reg, w')
    decreases Missing(universe, w), if name in w.defs then 2 else 0, 0
  {
    if name !in w.defs then w else Walk(universe, reg, w, Refs(w.defs[name]))
  }

  ghost function Walk(universe: set<string>, reg: Registry, w: World, refs: seq<string>): (w': World)
    requires Bounded(universe, reg, w) && forall r | r in refs :: r in universe
    ensures Extends(w, w') && Bounded(universe, reg, w')
    decreases Missing(universe, w), 1, |refs| + 1
  {
    if refs == [] then w
    else
      var u := Visit(universe, reg, w, refs[0]);
      MissingShrinks(universe, w, u, refs[0]);
      Walk(universe, reg, u, refs[1..])
  }

  /** One reference: skip it if defined, otherwise alias it and repair what it refers to. */
  ghost function Visit(universe: set<string>, reg: Registry, w: World, ref: string): (w': World)
    requires Bounded(universe, reg, w) && ref in universe
    ensures Extends(w, w') && Bounded(universe, reg, w')
    decreases Missing(universe, w), 1, 0
  {
    if ref in w.defs then w
    else
      RegisterAliasExtends(universe, reg, w, ref);
      var v := RegisterAlias(reg, w, ref);
      MissingShrinks(universe, w, v, ref);
      Ensure(universe, reg, v, ref)
  }

  class Session {
    var defs: map<string, Definition>
    var types: map<string, string>
    var registered: map<string, string>
    var calls: nat
    const registry: Registry

    ghost function Contents(): World
      reads this
    {
      World(defs, types, registered, calls)
    }

    constructor (registry: Registry)
      ensures this.registry == registry && Contents() == World(map[], map[], map[], 0)
    {
      this.registry := registry;
      defs, types, registered, calls := map[], map[], map[], 0;
    }

    method RegisterMessageType(name: string) returns (ok: bool)
      modifies this
      ensures Contents() == Register(registry, old(Contents()), name)
      ensures ok <==> registry(old(Contents()), name).Added?
    {
      var reply := registry(World(defs, types, registered, calls), name);
      calls := calls + 1;
      ok := reply.Added?;
      if ok {
        defs, types := reply.defs + defs, reply.classes + types;
      }
    }

    method AddAlias(ref: string)
      modifies this
      ensures Contents() == RegisterAlias(registry, old(Contents()), ref)
    {
      if ref in defs {
        return;
      }
      var canonical := Canonical(ref);
      if canonical !in defs {
        var ok := RegisterMessageType(canonical);
        if !ok {
          return;
        }
      }
      if canonical in defs {
        defs := defs[ref := defs[canonical]];
        if canonical in types {
          types := types[ref := types[canonical]];
        }
        registered := registered[ref := ref];
      }
    }

    /** Terminates on every finite type graph, cyclic ones included, whatever the registry answers. */
    method EnsureNestedTypes(ghost universe: set<string>, storeType: string)
      requires Bounded(universe, registry, Contents())
      modifies this
      ensures Contents() == Ensure(universe, registry, old(Contents()), storeType)
      decreases Missing(universe, Contents()), if storeType in defs then 2 else 0, 0
    {
      if storeType !in defs {
        return;
      }
      var fields := defs[storeType].fields;
      ghost var start, goal := Contents(), Walk(universe, registry, Contents(), FieldRefs(fields));
      assert fields[0..] == fields;
      for i := 0 to |fields|
        invariant Remaining(universe, start, FieldRefs(fields[i..]), goal)
      {
        ghost var rest := FieldRefs(fields[i + 1..]);
        assert fields[i..][1..] == fields[i + 1..];
        VisitAll(universe, RefNames(fields[i].1), rest, start, goal);
      }
    }

    /** The references of one field. */
    method VisitAll(ghost universe: set<string>, refs: seq<string>, ghost rest: seq<string>,
                    ghost start: World, ghost goal: World)
      requires Remaining(universe, start, refs + rest, goal)
      modifies this
      ensures Remaining(universe, start, rest, goal)
      decreases Missing(universe, start), 1, 1
    {
      assert refs[0..] == refs;
      for j := 0 to |refs|
        invariant Remaining(universe, start, refs[j..] + rest, goal)
      {
        assert (refs[j..] + rest)[0] == refs[j] && (refs[j..] + rest)[1..] == refs[j + 1..] + rest;
        VisitOne(universe, refs[j], start);
      }
      assert refs[|refs|..] + rest == rest;
    }

    method VisitOne(ghost universe: set<string>, ref: string, ghost start: World)
      requires Bounded(universe, registry, Contents()) && ref in universe
      requires Missing(universe, Contents()) <= Missing(universe, start)
      modifies this
      ensures Contents() == Visit(universe, registry, old(Contents()), ref)
      ensures Missing(universe, Contents()) <= Missing(universe, start)
      decreases Missing(universe, start), 1, 0
    {
      ghost var before := Contents();
      MissingShrinks(universe, before, Visit(universe, registry, before, ref), ref);
      if ref !in defs {
        RegisterAliasExtends(universe, registry, before, ref);
        AddAlias(ref);
        MissingShrinks(universe, before, Contents(), ref);
        EnsureNestedTypes(universe, ref);
      }
    }

    /** Visiting the remaining references reaches the goal; nothing has become undefined. */
    ghost predicate Remaining(universe: set<string>, start: World, refs: seq<string>, goal: World)
      reads this
    {
      && Bounded(universe, registry, Contents()) && (forall r | r in refs :: r in universe)
      && Missing(universe, Contents()) <= Missing(universe, start)
      && Walk(universe, registry, Contents(), refs) == goal
    }
  }
}
