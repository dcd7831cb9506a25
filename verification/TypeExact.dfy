/** Type repair closes the store, and settles in one call, exactly for the registries TypeClosure describes. */
module TypeExact {
  import opened TypeRepair
  import opened TypeClosure

  /** The names a registry defines or mentions come from a finite set and settle. */
  ghost predicate Tame(base: set<string>, f: Answers)
  {
    && AllSettle(base)
    && forall c, n | f(c).Added? && n in f(c).defs :: n in base && Mentions(base, f(c).defs[n])
  }

  // --- what is promised, for every universe, session and root ---

  ghost predicate Admits(universe: set<string>, f: Answers, w: World, root: string)
  {
    Bounded(universe, Fixed(f), w) && AllSettle(universe) && root in w.defs
  }

  ghost predicate AlwaysCloses(f: Answers)
  {
    forall universe, w, root | Admits(universe, f, w, root) && ClosedElsewhere(f, w, root) ::
      AllClosed(f, Ensure(universe, Fixed(f), w, root))
  }

  ghost predicate AlwaysReaches(f: Answers)
  {
    forall universe, w, root, p | Admits(universe, f, w, root) && ClosedElsewhere(f, w, root)
        && Path(Ensure(universe, Fixed(f), w, root), p) && p[0] == root ::
      Resolved(f, Ensure(universe, Fixed(f), w, root), p[|p| - 1])
  }

  ghost predicate AlwaysFinal(f: Answers)
  {
    forall universe, w, root | Admits(universe, f, w, root) ::
      Same(Ensure(universe, Fixed(f), w, root),
           Ensure(universe, Fixed(f), Ensure(universe, Fixed(f), w, root), root))
  }

  // --- sessions made up to show a failure ---

  function Fields(names: seq<string>): seq<(string, FieldType)>
  {
    if names == [] then [] else [("field", Named(names[0]))] + Fields(names[1..])
  }

  /** A definition with a field for each of some types. */
  function Refers(names: seq<string>): Definition
  {
    Definition(Fields(names))
  }

  lemma {:induction false} RefersExact(names: seq<string>)
    ensures Refs(Refers(names)) == names
  {
    if names != [] {
      RefersExact(names[1..]);
      FirstField(("field", Named(names[0])), Fields(names[1..]));
      assert names == [names[0]] + names[1..];
    }
  }

  lemma {:induction false} FirstField(field: (string, FieldType), rest: seq<(string, FieldType)>)
    ensures FieldRefs([field] + rest) == RefNames(field.1) + FieldRefs(rest)
  {
    assert ([field] + rest)[1..] == rest;
  }

  /** The same through the references visited: what is closed... */
  lemma ClosedByRefsElsewhere(f: Answers, w: World, root: string)
    requires forall n | n in w.defs && n != root :: forall r | r in Refs(w.defs[n]) :: Resolved(f, w, r)
    ensures ClosedElsewhere(f, w, root)
  {
    forall n | n in w.defs && n != root ensures Closed(f, w, n) {
      ClosedByRefs(f, w, n);
    }
  }

  /** ...and what is reached. */
  lemma PathOfTwo(w: World, a: string, b: string)
    requires a in w.defs && b in Refs(w.defs[a])
    ensures Path(w, [a, b])
  {
    RefsExact(w.defs[a], b);
  }

  lemma PathOfThree(w: World, a: string, b: string, c: string)
    requires a in w.defs && b in Refs(w.defs[a]) && b in w.defs && c in Refs(w.defs[b])
    ensures Path(w, [a, b, c])
  {
    RefsExact(w.defs[a], b);
    RefsExact(w.defs[b], c);
  }

  function Empties(names: set<string>): map<string, Definition>
  {
    map n | n in names :: Refers([])
  }

  function Store(defs: map<string, Definition>): World
  {
    World(defs, map[], map[], 0)
  }

  /** A name that is in none of finitely many places and that nothing can be replaced in. */
  lemma Fresh(names: set<string>) returns (t: string)
    ensures t !in names && Canonical(t) == t
  {
    var n := LongerThanAll(names);
    t := seq(n, _ => 'x');
    ContainsSlash(t);
    NothingToReplace(t);
  }

  lemma ContainsSlash(s: string)
    ensures Contains(s, "/srv/msg/") ==> '/' in s
  {
    if i :| 0 <= i <= |s| && OccursAt(s, "/srv/msg/", i) {
      assert s[i] == s[i..i + 9][0];
    }
  }

  lemma LongerThanAll(names: set<string>) returns (n: nat)
    ensures forall s | s in names :: |s| < n
  {
    if names == {} {
      n := 0;
    } else {
      var s :| s in names;
      var m := LongerThanAll(names - {s});
      n := if m > |s| then m else |s| + 1;
    }
  }

  // --- what visiting does in them ---

  lemma {:induction false} WalkDefined(universe: set<string>, reg: Registry, w: World, refs: seq<string>)
    requires Bounded(universe, reg, w) && forall r | r in refs :: r in universe && r in w.defs
    ensures Walk(universe, reg, w, refs) == w
    decreases |refs|
  {
    if refs != [] {
      WalkDefined(universe, reg, w, refs[1..]);
    }
  }

  lemma {:induction false} WalkTwo(universe: set<string>, reg: Registry, w: World, a: string, b: string)
    requires Bounded(universe, reg, w) && a in universe && b in universe
    ensures Walk(universe, reg, w, [a, b]) == Visit(universe, reg, Visit(universe, reg, w, a), b)
  {
    assert [a, b][1..] == [b] && [b][1..] == [];
    var u := Visit(universe, reg, w, a);
    assert Walk(universe, reg, u, [b]) == Visit(universe, reg, u, b);
  }

  /** Registering a canonical name whose own references are defined adds what the registry answers, and no more. */
  lemma {:induction false} VisitCanonical(universe: set<string>, f: Answers, w: World, c: string)
    requires Bounded(universe, Fixed(f), w) && c in universe
    requires Canonical(c) == c && c !in w.defs && f(c).Added?
    requires forall r | r in Own(f, c) :: r in w.defs || r in f(c).defs
    ensures Visit(universe, Fixed(f), w, c).defs == f(c).defs + w.defs
  {
    RegisterAliasExtends(universe, Fixed(f), w, c);
    var v := RegisterAlias(Fixed(f), w, c);
    assert v.defs == f(c).defs + w.defs;
    if c in v.defs {
      assert v.defs[c] == f(c).defs[c] && Mentions(universe, v.defs[c]);
      WalkDefined(universe, Fixed(f), v, Refs(v.defs[c]));
      assert Ensure(universe, Fixed(f), v, c) == v;
    } else {
      assert Ensure(universe, Fixed(f), v, c) == v;
    }
  }

  /** A root that refers to c and then to m, which is defined by then. */
  lemma {:induction false} RepairPair(universe: set<string>, f: Answers, w: World, root: string, c: string, m: string)
    requires Bounded(universe, Fixed(f), w) && root in w.defs && w.defs[root] == Refers([c, m])
    requires Canonical(c) == c && c !in w.defs && f(c).Added?
    requires forall r | r in Own(f, c) :: r in w.defs || r in f(c).defs
    requires m in f(c).defs || m in w.defs
    ensures Ensure(universe, Fixed(f), w, root).defs == f(c).defs + w.defs
  {
    RefersExact([c, m]);
    assert Mentions(universe, w.defs[root]);
    assert c in Refs(w.defs[root]) && m in Refs(w.defs[root]);
    VisitCanonical(universe, f, w, c);
    WalkTwo(universe, Fixed(f), w, c, m);
  }

  lemma {:induction false} PathThroughPair(u: World, f: Answers, w: World, root: string,
                                           c: string, m: string, r: string)
    requires f(c).Added? && u.defs == f(c).defs + w.defs
    requires root in w.defs && w.defs[root] == Refers([c, m])
    requires m in u.defs && r in Refs(u.defs[m])
    requires r !in f(c).defs && r !in w.defs && (Gives(f, r) || Canonical(r) in w.defs || Canonical(r) in f(c).defs)
    ensures Path(u, [root, m, r]) && !Resolved(f, u, r)
  {
    RefersExact([c, m]);
    PathOfThree(u, root, m, r);
  }

  lemma BoundedStore(universe: set<string>, base: set<string>, f: Answers, w: World)
    requires Tame(base, f) && base <= universe
    requires forall n | n in w.defs :: Mentions(universe, w.defs[n])
    ensures Bounded(universe, Fixed(f), w)
  {
    forall v: World, c: string, n: string | Fixed(f)(v, c).Added? && n in Fixed(f)(v, c).defs
      ensures Mentions(universe, Fixed(f)(v, c).defs[n])
    {
      assert Fixed(f)(v, c) == f(c);
      assert n in base && Mentions(base, f(c).defs[n]);
    }
  }

  /** The names to define beforehand so that registering c leads nowhere. */
  function Elsewhere(f: Answers, c: string): set<string>
    requires f(c).Added?
  {
    (set r | r in Own(f, c)) - f(c).defs.Keys
  }

  /** The name to define beforehand so that r could be had. */
  function Needed(f: Answers, c: string, r: string): set<string>
    requires f(c).Added?
  {
    if Canonical(r) == r || Canonical(r) == c then {} else {Canonical(r)} - f(c).defs.Keys
  }

  lemma {:induction false} OpenThen(f: Answers, c: string, r: string)
    requires f(c).Added? && !Brought(f, c, r) && !Hopeless(f, c, r)
    ensures r !in Elsewhere(f, c) + Needed(f, c, r)
    ensures Gives(f, r) || Canonical(r) in Needed(f, c, r) || Canonical(r) in f(c).defs
  {
  }

  /**
    * Something that comes along with c refers to r, which registering c does not bring and which could be
    * had: then r, reachable from a root that refers to both, stays undefined.
    */
  lemma NotCarried(base: set<string>, f: Answers, c: string, n: string, r: string)
    returns (universe: set<string>, w: World, root: string)
    requires Tame(base, f) && Canonical(c) == c && f(c).Added?
    requires n in f(c).defs && n != c && r in Refs(f(c).defs[n]) && !Brought(f, c, r) && !Hopeless(f, c, r)
    ensures Admits(universe, f, w, root) && ClosedElsewhere(f, w, root)
    ensures var u := Ensure(universe, Fixed(f), w, root); Path(u, [root, n, r]) && !Resolved(f, u, r)
  {
    var before := Elsewhere(f, c) + Needed(f, c, r);
    universe := base + {c};
    root := Fresh(before + f(c).defs.Keys + {c, n, r});
    OpenThen(f, c, r);
    w := Store(Empties(before)[root := Refers([c, n])]);
    RefersExact([]);
    RefersExact([c, n]);
    ClosedByRefsElsewhere(f, w, root);
    BoundedStore(universe, base, f, w);
    RepairPair(universe, f, w, root, c, n);
    PathThroughPair(Ensure(universe, Fixed(f), w, root), f, w, root, c, n, r);
  }

  /** A shadow of something that comes along with c, which could not be had before: it is closed, and then not. */
  lemma NotStable(base: set<string>, f: Answers, c: string, r: string)
    returns (universe: set<string>, w: World, root: string, t: string)
    requires Tame(base, f) && Canonical(c) == c && f(c).Added?
    requires Settles(r) && Canonical(r) in f(c).defs && !Brought(f, c, r) && !Gives(f, r)
    ensures Admits(universe, f, w, root) && ClosedElsewhere(f, w, root)
    ensures var u := Ensure(universe, Fixed(f), w, root); Path(u, [root, t, r]) && !Resolved(f, u, r)
  {
    var before := Elsewhere(f, c);
    var taken := before + f(c).defs.Keys + {c, r};
    t := Fresh(taken);
    root := Fresh(taken + {t});
    universe := base + {c, r, t};
    w := Store(Empties(before)[t := Refers([r])][root := Refers([c, t])]);
    RefersExact([]);
    RefersExact([r]);
    RefersExact([c, t]);
    BoundedStore(universe, base, f, w);
    RepairPair(universe, f, w, root, c, t);
    PathThroughPair(Ensure(universe, Fixed(f), w, root), f, w, root, c, t, r);
    ClosedByRefsElsewhere(f, w, root);
  }

  /** The first call leaves r undefined although its canonical name is defined by then; the second defines it. */
  ghost predicate FoundLate(universe: set<string>, f: Answers, w: World, root: string, r: string)
    requires Bounded(universe, Fixed(f), w)
  {
    var u := Ensure(universe, Fixed(f), w, root);
    r !in u.defs && Canonical(r) in u.defs && r in Ensure(universe, Fixed(f), u, root).defs
  }

  /** Such a shadow, asked for before c is: the second call finds it. */
  lemma NotFinal(base: set<string>, f: Answers, c: string, r: string)
    returns (universe: set<string>, w: World, root: string)
    requires Tame(base, f) && Canonical(c) == c && f(c).Added?
    requires Settles(r) && Canonical(r) in f(c).defs && !Brought(f, c, r) && !Gives(f, r)
    requires !(f(Canonical(r)).Added? && c in f(Canonical(r)).defs)
    ensures Admits(universe, f, w, root) && FoundLate(universe, f, w, root, r)
  {
    var before := Elsewhere(f, c);
    root := Fresh(before + f(c).defs.Keys + {c, r});
    universe := base + {c, r};
    w := Store(Empties(before)[root := Refers([r, c])]);
    RefersExact([]);
    RefersExact([r, c]);
    BoundedStore(universe, base, f, w);
    AskFirst(universe, f, w, root, c, r);
  }

  /** The two calls, on a root that refers to r and then to c. */
  lemma {:induction false} AskFirst(universe: set<string>, f: Answers, w: World, root: string, c: string, r: string)
    requires Bounded(universe, Fixed(f), w) && root in w.defs && w.defs[root] == Refers([r, c])
    requires Canonical(c) == c && f(c).Added? && c !in w.defs && r !in w.defs && r != root
    requires Canonical(r) in f(c).defs && Canonical(r) !in w.defs && r !in f(c).defs && !Gives(f, r)
    requires !(f(Canonical(r)).Added? && c in f(Canonical(r)).defs)
    requires forall x | x in Own(f, c) :: x in w.defs || x in f(c).defs
    ensures FoundLate(universe, f, w, root, r)
  {
    RefersExact([r, c]);
    assert Mentions(universe, w.defs[root]);
    assert c in Refs(w.defs[root]) && r in Refs(w.defs[root]);
    RegisterAliasExtends(universe, Fixed(f), w, r);
    var v := RegisterAlias(Fixed(f), w, r);
    assert r !in v.defs && c !in v.defs;
    assert Ensure(universe, Fixed(f), v, r) == v;
    assert Visit(universe, Fixed(f), w, r) == v;
    VisitCanonical(universe, f, v, c);
    WalkTwo(universe, Fixed(f), w, r, c);
    var u := Ensure(universe, Fixed(f), w, root);
    assert u.defs == f(c).defs + v.defs && u.defs[root] == Refers([r, c]);
    WalkTwo(universe, Fixed(f), u, r, c);
    RegisterAliasExtends(universe, Fixed(f), u, r);
    assert r in RegisterAlias(Fixed(f), u, r).defs;
    assert r in Visit(universe, Fixed(f), u, r).defs;
    assert r in Ensure(universe, Fixed(f), u, root).defs && r !in u.defs;
  }

  /**
    * Why names have to settle: a name in which replacing leaves a shadow infix, and that the registry does not
    * bring, stays undefined beside its canonical name, which is an alias itself; a second call defines it.
    */
  lemma UnsettledFails(base: set<string>, f: Answers, r: string)
    returns (universe: set<string>, w: World, root: string)
    requires Bounded(base, Fixed(f), Store(map[])) && !Settles(r) && !Gives(f, r)
    ensures Bounded(universe, Fixed(f), w) && root in w.defs && ClosedElsewhere(f, w, root)
    ensures FoundLate(universe, f, w, root, r)
    ensures var u := Ensure(universe, Fixed(f), w, root); Path(u, [root, r]) && !Resolved(f, u, r)
  {
    var ref, c := Canonical(r), Canonical(Canonical(r));
    UnsettledShortens(r);
    universe := base + {r, ref};
    root := Fresh({r, ref, c});
    w := Store(map[c := Refers([]), root := Refers([r, ref])]);
    RefersExact([]);
    RefersExact([r, ref]);
    forall v: World, k: string, n: string | Fixed(f)(v, k).Added? && n in Fixed(f)(v, k).defs
      ensures Mentions(universe, Fixed(f)(v, k).defs[n])
    {
      assert Mentions(base, Fixed(f)(v, k).defs[n]);
    }
    ClosedByRefsElsewhere(f, w, root);
    AliasOfAlias(universe, f, w, root, r);
    PathOfTwo(Ensure(universe, Fixed(f), w, root), root, r);
  }

  lemma {:induction false} UnsettledShortens(r: string)
    requires !Settles(r)
    ensures |Canonical(Canonical(r))| < |Canonical(r)| <= |r| && r != Canonical(r)
  {
    SettlesExact(r);
    ReplacingShortens(r);
    ReplacingShortens(Canonical(r));
  }

  /** The two calls, on a root that refers to r and then to its canonical name, whose own is defined. */
  lemma {:induction false} AliasOfAlias(universe: set<string>, f: Answers, w: World, root: string, r: string)
    requires Bounded(universe, Fixed(f), w) && root in w.defs && r != root
    requires w.defs[root] == Refers([r, Canonical(r)])
    requires r !in w.defs && Canonical(r) !in w.defs && r != Canonical(r) && !Gives(f, r)
    requires Canonical(Canonical(r)) in w.defs && w.defs[Canonical(Canonical(r))] == Refers([])
    ensures FoundLate(universe, f, w, root, r)
    ensures Refs(Ensure(universe, Fixed(f), w, root).defs[root]) == [r, Canonical(r)]
  {
    var ref := Canonical(r);
    RefersExact([]);
    RefersExact([r, ref]);
    assert Mentions(universe, w.defs[root]);
    assert r in Refs(w.defs[root]) && ref in Refs(w.defs[root]);
    RegisterAliasExtends(universe, Fixed(f), w, r);
    var v := RegisterAlias(Fixed(f), w, r);
    assert Visit(universe, Fixed(f), w, r) == v by {
      assert Ensure(universe, Fixed(f), v, r) == v;
    }
    RegisterAliasExtends(universe, Fixed(f), v, ref);
    var u := RegisterAlias(Fixed(f), v, ref);
    assert Visit(universe, Fixed(f), v, ref) == u by {
      assert u.defs[ref] == Refers([]);
      assert Ensure(universe, Fixed(f), u, ref) == u;
    }
    WalkTwo(universe, Fixed(f), w, r, ref);
    assert Ensure(universe, Fixed(f), w, root) == u;
    WalkTwo(universe, Fixed(f), u, r, ref);
    RegisterAliasExtends(universe, Fixed(f), u, r);
    assert r in RegisterAlias(Fixed(f), u, r).defs;
  }

  // --- the exact conditions ---

  lemma IncompleteFails(base: set<string>, f: Answers)
    returns (universe: set<string>, w: World, root: string, p: seq<string>)
    requires Tame(base, f) && !Complete(f)
    ensures Admits(universe, f, w, root) && ClosedElsewhere(f, w, root)
    ensures var u := Ensure(universe, Fixed(f), w, root);
            Path(u, p) && p[0] == root && !Resolved(f, u, p[|p| - 1])
  {
    var c :| Canonical(c) == c && f(c).Added? && !(Carries(f, c) && Stable(f, c));
    if !Carries(f, c) {
      var n :| n in f(c).defs && n != c && !forall r | r in Refs(f(c).defs[n]) :: Brought(f, c, r) || Hopeless(f, c, r);
      var r :| r in Refs(f(c).defs[n]) && !Brought(f, c, r) && !Hopeless(f, c, r);
      universe, w, root := NotCarried(base, f, c, n, r);
      p := [root, n, r];
    } else {
      var r :| Settles(r) && Canonical(r) in f(c).defs && !Brought(f, c, r) && !Gives(f, r);
      var t: string;
      universe, w, root, t := NotStable(base, f, c, r);
      p := [root, t, r];
    }
  }

  /** Repairing one type of a store that is closed elsewhere closes it, always, exactly for complete answers... */
  lemma ClosureExact(base: set<string>, f: Answers)
    requires Tame(base, f)
    ensures AlwaysCloses(f) <==> Complete(f)
  {
    if Complete(f) {
      forall universe, w, root | Admits(universe, f, w, root) && ClosedElsewhere(f, w, root)
        ensures AllClosed(f, Ensure(universe, Fixed(f), w, root))
      {
        RepairCloses(universe, f, w, root);
      }
    } else {
      var universe, w, root, p := IncompleteFails(base, f);
      if AlwaysCloses(f) {
        ClosedPath(f, Ensure(universe, Fixed(f), w, root), p);
      }
    }
  }

  /** ...and exactly then every reference reachable from the root is defined or cannot be. */
  lemma ReachExact(base: set<string>, f: Answers)
    requires Tame(base, f)
    ensures AlwaysReaches(f) <==> Complete(f)
  {
    if Complete(f) {
      forall universe, w, root, p | Admits(universe, f, w, root) && ClosedElsewhere(f, w, root)
          && Path(Ensure(universe, Fixed(f), w, root), p) && p[0] == root
        ensures Resolved(f, Ensure(universe, Fixed(f), w, root), p[|p| - 1])
      {
        ReachableResolved(universe, f, w, root, p);
      }
    } else {
      var universe, w, root, p := IncompleteFails(base, f);
    }
  }

  /** A second call changes nothing, always, exactly for repeatable answers. */
  lemma TwiceExact(base: set<string>, f: Answers)
    requires Tame(base, f)
    ensures AlwaysFinal(f) <==> Repeatable(f)
  {
    if Repeatable(f) {
      forall universe, w, root | Admits(universe, f, w, root)
        ensures Same(Ensure(universe, Fixed(f), w, root),
                     Ensure(universe, Fixed(f), Ensure(universe, Fixed(f), w, root), root))
      {
        RepairTwice(universe, f, w, root);
      }
    } else {
      var c :| Canonical(c) == c && f(c).Added? && !Final(f, c);
      var r :| Settles(r) && Canonical(r) in f(c).defs && !Brought(f, c, r) && !Gives(f, r)
               && !(f(Canonical(r)).Added? && c in f(Canonical(r)).defs);
      var universe, w, root := NotFinal(base, f, c, r);
    }
  }

  // --- registries for which it fails ---

  lemma {:induction false} CanonicalShort(s: string)
    requires |s| < 9
    ensures Canonical(s) == s
  {
  }

  /** Registering "C" or "N" brings both; N refers to M, which only its own registration brings. */
  function Loose(name: string): Reply
  {
    if name == "C" || name == "N" then Added(map["C" := Refers(["N"]), "N" := Refers(["M"])], map[])
    else if name == "M" then Added(map["M" := Refers([])], map[])
    else Failed
  }

  /** A definition that came along is taken as done, so what it refers to can stay undefined. */
  lemma LooseFails()
    ensures Tame({"C", "N", "M"}, Loose) && !Complete(Loose) && Repeatable(Loose)
    ensures !AlwaysCloses(Loose) && !AlwaysReaches(Loose) && AlwaysFinal(Loose)
  {
    LooseIncomplete();
    ClosureExact({"C", "N", "M"}, Loose);
    ReachExact({"C", "N", "M"}, Loose);
    TwiceExact({"C", "N", "M"}, Loose);
  }

  lemma LooseIncomplete()
    ensures Tame({"C", "N", "M"}, Loose) && !Complete(Loose) && Repeatable(Loose)
  {
    RefersExact(["N"]);
    RefersExact(["M"]);
    RefersExact([]);
    CanonicalShort("C");
    CanonicalShort("N");
    CanonicalShort("M");
    assert !Brought(Loose, "C", "M") && Gives(Loose, "M");
    assert "M" in Refs(Loose("C").defs["N"]);
    assert !Carries(Loose, "C");
    forall c | Loose(c).Added? ensures Final(Loose, c) {
      forall r | Canonical(r) in Loose(c).defs ensures Gives(Loose, r) {
        assert Canonical(r) in {"C", "N", "M"};
      }
    }
  }

  /** "a/msg/A" comes along with "B", but cannot be asked for. */
  function Shadowed(name: string): Reply
  {
    if name == "B" then Added(map["B" := Refers([]), "a/msg/A" := Refers([])], map[]) else Failed
  }

  lemma ShadowCanonical()
    ensures Canonical("a/srv/msg/A") == "a/msg/A" && Settles("a/srv/msg/A") && Settles("a/msg/A")
  {
    var s := "a/srv/msg/A";
    assert s[1..10] == "/srv/msg/" && s[0..9][0] == 'a';
    assert OccursAt(s, "/srv/msg/", 1) && !OccursAt(s, "/srv/msg/", 0);
    FirstReplaced(s, 1);
    assert s[..1] == "a" && s[10..] == "A";
    CanonicalShort("A");
    CanonicalShort("a/msg/A");
  }

  lemma ShadowedTame()
    ensures Tame({"B", "a/msg/A"}, Shadowed)
  {
    RefersExact([]);
    CanonicalShort("B");
    CanonicalShort("a/msg/A");
  }

  /** Its shadow name cannot be had before B is registered, and can be afterwards. */
  lemma ShadowedFails()
    ensures !AlwaysCloses(Shadowed) && !AlwaysReaches(Shadowed) && !AlwaysFinal(Shadowed)
  {
    ShadowedTame();
    ShadowedUnstable();
    ClosureExact({"B", "a/msg/A"}, Shadowed);
    ReachExact({"B", "a/msg/A"}, Shadowed);
    TwiceExact({"B", "a/msg/A"}, Shadowed);
  }

  lemma ShadowedUnstable()
    ensures !Complete(Shadowed) && !Repeatable(Shadowed)
  {
    RefersExact([]);
    CanonicalShort("B");
    ShadowCanonical();
    var r := "a/srv/msg/A";
    assert Canonical(r) in Shadowed("B").defs && !Brought(Shadowed, "B", r) && !Gives(Shadowed, r);
    assert !Stable(Shadowed, "B") && !Final(Shadowed, "B");
  }

  /** A root that refers to the shadow name and then to "B". */
  lemma ShadowedRun()
    ensures var r := "a/srv/msg/A";
            var w := Store(map["R" := Refers([r, "B"])]);
            Admits({r, "B", "a/msg/A"}, Shadowed, w, "R") && FoundLate({r, "B", "a/msg/A"}, Shadowed, w, "R", r)
  {
    var r := "a/srv/msg/A";
    var universe, w := {r, "B", "a/msg/A"}, Store(map["R" := Refers([r, "B"])]);
    ShadowedTame();
    ShadowCanonical();
    CanonicalShort("B");
    RefersExact([r, "B"]);
    RefersExact([]);
    BoundedStore(universe, {"B", "a/msg/A"}, Shadowed, w);
    AskFirst(universe, Shadowed, w, "R", "B", r);
  }
}
