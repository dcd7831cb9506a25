/** What type repair achieves: where new definitions come from, which references it settles, what a second call does. */
module TypeClosure {
  import opened TypeRepair

  // --- induction over the repair, as over a list of references still to visit ---

  ghost function RootRefs(w: World, root: string): seq<string>
  {
    if root in w.defs then Refs(w.defs[root]) else []
  }

  /** The references that come up when one is visited: those of its definition, if it was just defined. */
  ghost function Found(reg: Registry, w: World, ref: string): seq<string>
  {
    if ref in w.defs then [] else RootRefs(RegisterAlias(reg, w, ref), ref)
  }

  type Claim = (World, seq<string>) -> bool

  /** Visiting the first of the references still to visit keeps a claim about the session and the rest. */
  ghost predicate Keeps(universe: set<string>, reg: Registry, claim: Claim, w: World, todo: seq<string>)
  {
    Bounded(universe, reg, w) && todo != [] && todo[0] in universe && claim(w, todo) ==>
      claim(RegisterAlias(reg, w, todo[0]), Found(reg, w, todo[0]) + todo[1..])
  }

  ghost predicate Stepwise(universe: set<string>, reg: Registry, claim: Claim)
  {
    forall w, todo :: Keeps(universe, reg, claim, w, todo)
  }

  lemma {:induction false} WalkInduction(universe: set<string>, reg: Registry, claim: Claim,
                                         w: World, refs: seq<string>, rest: seq<string>)
    requires Stepwise(universe, reg, claim) && Bounded(universe, reg, w)
    requires claim(w, refs + rest) && forall r | r in refs :: r in universe
    ensures claim(Walk(universe, reg, w, refs), rest)
    decreases Missing(universe, w), 1, |refs| + 1
  {
    if refs == [] {
      assert refs + rest == rest;
    } else {
      var u := Visit(universe, reg, w, refs[0]);
      assert refs + rest == [refs[0]] + (refs[1..] + rest);
      VisitInduction(universe, reg, claim, w, refs[0], refs[1..] + rest);
      MissingShrinks(universe, w, u, refs[0]);
      WalkInduction(universe, reg, claim, u, refs[1..], rest);
    }
  }

  lemma {:induction false} VisitInduction(universe: set<string>, reg: Registry, claim: Claim,
                                          w: World, ref: string, rest: seq<string>)
    requires Stepwise(universe, reg, claim) && Bounded(universe, reg, w)
    requires claim(w, [ref] + rest) && ref in universe
    ensures claim(Visit(universe, reg, w, ref), rest)
    decreases Missing(universe, w), 1, 0
  {
    var v := RegisterAlias(reg, w, ref);
    assert Keeps(universe, reg, claim, w, [ref] + rest);
    assert ([ref] + rest)[1..] == rest;
    if ref in w.defs {
      assert [] + rest == rest;
    } else {
      RegisterAliasExtends(universe, reg, w, ref);
      MissingShrinks(universe, w, v, ref);
      RepairRest(universe, reg, claim, v, ref, rest);
    }
  }

  lemma {:induction false} RepairRest(universe: set<string>, reg: Registry, claim: Claim,
                                      v: World, ref: string, rest: seq<string>)
    requires Stepwise(universe, reg, claim) && Bounded(universe, reg, v)
    requires claim(v, RootRefs(v, ref) + rest)
    ensures claim(Ensure(universe, reg, v, ref), rest)
    decreases Missing(universe, v), if ref in v.defs then 2 else 0, 0
  {
    if ref in v.defs {
      assert Mentions(universe, v.defs[ref]);
      WalkInduction(universe, reg, claim, v, Refs(v.defs[ref]), rest);
    } else {
      assert [] + rest == rest;
    }
  }

  /** What holds with the references of the root to visit, and is kept, holds in the end with none left. */
  lemma {:induction false} RepairInduction(universe: set<string>, reg: Registry, claim: Claim, w: World, root: string)
    requires Stepwise(universe, reg, claim) && Bounded(universe, reg, w)
    requires claim(w, RootRefs(w, root))
    ensures claim(Ensure(universe, reg, w, root), [])
  {
    assert RootRefs(w, root) + [] == RootRefs(w, root);
    RepairRest(universe, reg, claim, w, root, []);
  }

  // --- the repair as a list of visits, for any registry ---

  ghost function Steps(reg: Registry, w: World, visited: seq<string>): World
  {
    if visited == [] then w
    else RegisterAlias(reg, Steps(reg, w, visited[..|visited| - 1]), visited[|visited| - 1])
  }

  /** The references that came up at the i-th visit. */
  ghost function FoundAt(reg: Registry, w: World, visited: seq<string>, i: nat): seq<string>
    requires i < |visited|
  {
    Found(reg, Steps(reg, w, visited[..i]), visited[i])
  }

  lemma {:induction false} StepsSnoc(reg: Registry, w: World, visited: seq<string>, ref: string)
    ensures Steps(reg, w, visited + [ref]) == RegisterAlias(reg, Steps(reg, w, visited), ref)
  {
    assert (visited + [ref])[..|visited|] == visited;
  }

  lemma {:induction false} StepsExtend(universe: set<string>, reg: Registry, w: World, visited: seq<string>, k: nat)
    requires Bounded(universe, reg, w) && k <= |visited|
    ensures Bounded(universe, reg, Steps(reg, w, visited))
    ensures Extends(Steps(reg, w, visited[..k]), Steps(reg, w, visited))
  {
    if visited != [] {
      var front, last := visited[..|visited| - 1], visited[|visited| - 1];
      StepsExtend(universe, reg, w, front, if k < |visited| then k else |front|);
      var v := Steps(reg, w, front);
      if last !in v.defs {
        RegisterAliasExtends(universe, reg, v, last);
      }
      if k < |visited| {
        assert front[..k] == visited[..k];
      } else {
        assert visited[..k] == visited;
      }
    } else {
      assert visited[..k] == visited;
    }
  }

  /** Every reference of the root, and every one that came up on the way, was visited or is still to visit. */
  ghost predicate Pursued(reg: Registry, w: World, root: string, visited: seq<string>, todo: seq<string>)
  {
    && (forall r | r in RootRefs(w, root) :: r in visited || r in todo)
    && (forall i, r | 0 <= i < |visited| && r in FoundAt(reg, w, visited, i) :: r in visited || r in todo)
  }

  ghost predicate Traced(reg: Registry, w: World, root: string, visited: seq<string>, v: World, todo: seq<string>)
  {
    v == Steps(reg, w, visited) && Pursued(reg, w, root, visited, todo)
  }

  lemma TracedStep(reg: Registry, w: World, root: string, visited: seq<string>, v: World, todo: seq<string>)
    requires todo != [] && Traced(reg, w, root, visited, v, todo)
    ensures Traced(reg, w, root, visited + [todo[0]], RegisterAlias(reg, v, todo[0]),
                   Found(reg, v, todo[0]) + todo[1..])
  {
    var ref, all := todo[0], visited + [todo[0]];
    var rest := Found(reg, v, ref) + todo[1..];
    StepsSnoc(reg, w, visited, ref);
    forall r | r in visited || r in todo ensures r in all || r in rest {
      assert r in todo ==> r == ref || r in todo[1..];
    }
    forall i, r | 0 <= i < |all| && r in FoundAt(reg, w, all, i) ensures r in all || r in rest {
      if i < |visited| {
        assert all[..i] == visited[..i];
        assert r in FoundAt(reg, w, visited, i);
      } else {
        assert all[..i] == visited;
      }
    }
  }

  /** The repair is a sequence of visits that leaves none out. */
  lemma RepairTraced(universe: set<string>, reg: Registry, w: World, root: string) returns (visited: seq<string>)
    requires Bounded(universe, reg, w)
    ensures Traced(reg, w, root, visited, Ensure(universe, reg, w, root), [])
  {
    var claim := (v: World, todo: seq<string>) => exists visits :: Traced(reg, w, root, visits, v, todo);
    forall v: World, todo: seq<string> ensures Keeps(universe, reg, claim, v, todo) {
      if todo != [] && claim(v, todo) {
        var visits :| Traced(reg, w, root, visits, v, todo);
        TracedStep(reg, w, root, visits, v, todo);
      }
    }
    assert Traced(reg, w, root, [], w, RootRefs(w, root));
    RepairInduction(universe, reg, claim, w, root);
    visited :| Traced(reg, w, root, visited, Ensure(universe, reg, w, root), []);
  }

  // --- what the visits do ---

  ghost predicate IsAlias(w: World, n: string)
  {
    n in w.defs && Canonical(n) in w.defs && w.defs[n] == w.defs[Canonical(n)]
  }

  /** At the i-th visit the registry was asked, and answered with this definition of n. */
  ghost predicate AnsweredAt(reg: Registry, w: World, visited: seq<string>, i: nat, n: string, d: Definition)
  {
    && i < |visited|
    && var (v, c) := (Steps(reg, w, visited[..i]), Canonical(visited[i]));
       && visited[i] !in v.defs && c !in v.defs
       && reg(v, c).Added? && n in reg(v, c).defs && reg(v, c).defs[n] == d
  }

  ghost predicate Answered(reg: Registry, w: World, visited: seq<string>, n: string, d: Definition)
  {
    exists i: nat :: AnsweredAt(reg, w, visited, i, n, d)
  }

  /** A name is explained as an alias, or by an answer given on the way. */
  ghost predicate NewExplained(reg: Registry, w: World, visited: seq<string>, n: string)
    requires n in Steps(reg, w, visited).defs
  {
    var w' := Steps(reg, w, visited);
    (n in w'.registered && IsAlias(w', n)) || Answered(reg, w, visited, n, w'.defs[n])
  }

  /** No definition changed; every name registered since is an alias, and every other new one was answered. */
  ghost predicate Explained(reg: Registry, w: World, visited: seq<string>)
  {
    var w' := Steps(reg, w, visited);
    && Extends(w, w')
    && (forall n | n in w'.registered && n !in w.registered :: IsAlias(w', n))
    && (forall n | n in w'.defs && n !in w.defs :: NewExplained(reg, w, visited, n))
  }

  /** What one visit defines is an alias of it, or was answered. */
  lemma {:induction false} AliasNew(reg: Registry, u: World, ref: string, n: string)
    requires n !in u.defs && n in RegisterAlias(reg, u, ref).defs
    ensures var (v, c) := (RegisterAlias(reg, u, ref), Canonical(ref));
            && ref !in u.defs
            && ((n == ref && n in v.registered && IsAlias(v, n))
                || (c !in u.defs && reg(u, c).Added? && n in reg(u, c).defs && reg(u, c).defs[n] == v.defs[n]))
  {
    var c := Canonical(ref);
    var asked := if c in u.defs then u else Register(reg, u, c);
    assert n in asked.defs || (n == ref && c in asked.defs);
  }

  /** What is defined, or an alias, stays so; a name registered by the visit is an alias. */
  lemma AliasOld(universe: set<string>, reg: Registry, u: World, ref: string)
    requires Bounded(universe, reg, u)
    ensures var v := RegisterAlias(reg, u, ref);
            && Extends(u, v) && u.registered.Keys <= v.registered.Keys
            && (forall n | IsAlias(u, n) :: IsAlias(v, n))
            && (forall n | n in v.registered && n !in u.registered :: IsAlias(v, n))
  {
    if ref !in u.defs {
      RegisterAliasExtends(universe, reg, u, ref);
    }
  }

  lemma {:induction false} ExplainedStep(universe: set<string>, reg: Registry, w: World, front: seq<string>,
                                         ref: string)
    requires Bounded(universe, reg, Steps(reg, w, front)) && Explained(reg, w, front)
    ensures Explained(reg, w, front + [ref])
  {
    StepsSnoc(reg, w, front, ref);
    AliasOld(universe, reg, Steps(reg, w, front), ref);
    forall n | n in Steps(reg, w, front + [ref]).defs && n !in w.defs
      ensures NewExplained(reg, w, front + [ref], n)
    {
      if n in Steps(reg, w, front).defs {
        OldStaysExplained(universe, reg, w, front, ref, n);
      } else {
        NewIsExplained(reg, w, front, ref, n);
      }
    }
  }

  lemma {:induction false} OldStaysExplained(universe: set<string>, reg: Registry, w: World, front: seq<string>,
                                             ref: string, n: string)
    requires Bounded(universe, reg, Steps(reg, w, front))
    requires n in Steps(reg, w, front).defs && NewExplained(reg, w, front, n)
    ensures n in Steps(reg, w, front + [ref]).defs && NewExplained(reg, w, front + [ref], n)
  {
    var d := Steps(reg, w, front).defs[n];
    StepsSnoc(reg, w, front, ref);
    AliasOld(universe, reg, Steps(reg, w, front), ref);
    if Answered(reg, w, front, n, d) {
      AnsweredBefore(reg, w, front, ref, n, d);
    }
  }

  lemma {:induction false} NewIsExplained(reg: Registry, w: World, front: seq<string>, ref: string, n: string)
    requires n !in Steps(reg, w, front).defs && n in Steps(reg, w, front + [ref]).defs
    ensures NewExplained(reg, w, front + [ref], n)
  {
    var all := front + [ref];
    StepsSnoc(reg, w, front, ref);
    AliasNew(reg, Steps(reg, w, front), ref, n);
    assert all[..|front|] == front && all[|front|] == ref;
    var d := Steps(reg, w, all).defs[n];
    assert AnsweredAt(reg, w, all, |front|, n, d) ==> Answered(reg, w, all, n, d);
  }

  lemma AnsweredBefore(reg: Registry, w: World, front: seq<string>, ref: string, n: string, d: Definition)
    requires Answered(reg, w, front, n, d)
    ensures Answered(reg, w, front + [ref], n, d)
  {
    var i: nat :| AnsweredAt(reg, w, front, i, n, d);
    assert (front + [ref])[..i] == front[..i];
    assert AnsweredAt(reg, w, front + [ref], i, n, d);
  }

  lemma {:induction false} StepsExplained(universe: set<string>, reg: Registry, w: World, visited: seq<string>)
    requires Bounded(universe, reg, w)
    ensures Explained(reg, w, visited)
  {
    if visited != [] {
      var front, last := visited[..|visited| - 1], visited[|visited| - 1];
      assert visited == front + [last];
      StepsExplained(universe, reg, w, front);
      StepsExtend(universe, reg, w, front, 0);
      ExplainedStep(universe, reg, w, front, last);
    }
  }

  /**
    * If the i-th visit found the canonical name defined, or made it so, then its name stays registered as itself,
    * and keeps the message class that the canonical name had by then.
    */
  ghost predicate Registered(reg: Registry, w: World, visited: seq<string>, i: nat)
    requires i < |visited|
  {
    var (u, v, w') := (Steps(reg, w, visited[..i]), Steps(reg, w, visited[..i + 1]), Steps(reg, w, visited));
    var (n, c) := (visited[i], Canonical(visited[i]));
    n !in u.defs && c in v.defs ==>
      && n in w'.registered && w'.registered[n] == n
      && (c in v.types ==> n in w'.types && c in w'.types && w'.types[n] == w'.types[c])
  }

  lemma StaysRegistered(universe: set<string>, reg: Registry, w: World, visited: seq<string>, i: nat)
    requires Bounded(universe, reg, w) && i < |visited|
    ensures Registered(reg, w, visited, i)
  {
    var n := visited[i];
    var u, v := Steps(reg, w, visited[..i]), Steps(reg, w, visited[..i + 1]);
    assert visited[..i + 1] == visited[..i] + [n];
    StepsSnoc(reg, w, visited[..i], n);
    AliasRegistered(reg, u, n);
    StepsExtend(universe, reg, w, visited[..i], 0);
    StepsExtend(universe, reg, w, visited, i + 1);
    if n !in u.defs && Canonical(n) in v.defs {
      AliasDefines(reg, u, n);
    }
  }

  lemma {:induction false} AliasDefines(reg: Registry, u: World, ref: string)
    requires ref !in u.defs
    ensures Canonical(ref) in RegisterAlias(reg, u, ref).defs ==> ref in RegisterAlias(reg, u, ref).defs
  {
  }

  /** Each new alias equals its canonical definition; the other new definitions were answered on the way. */
  lemma RepairExplained(universe: set<string>, reg: Registry, w: World, root: string) returns (visited: seq<string>)
    requires Bounded(universe, reg, w)
    ensures Ensure(universe, reg, w, root) == Steps(reg, w, visited) && Explained(reg, w, visited)
    ensures forall i | 0 <= i < |visited| :: Registered(reg, w, visited, i)
  {
    visited := RepairTraced(universe, reg, w, root);
    StepsExplained(universe, reg, w, visited);
    forall i | 0 <= i < |visited| ensures Registered(reg, w, visited, i) {
      StaysRegistered(universe, reg, w, visited, i);
    }
  }

  /** r was visited, and the visit left it undefined. */
  ghost predicate InVain(reg: Registry, w: World, visited: seq<string>, r: string)
  {
    exists i | 0 <= i < |visited| :: visited[i] == r && r !in Steps(reg, w, visited[..i + 1]).defs
  }

  /** The i-th visit defined a name, and the definition refers to r. */
  ghost predicate CameUp(reg: Registry, w: World, visited: seq<string>, i: nat, r: string)
  {
    && i < |visited|
    && var (u, v) := (Steps(reg, w, visited[..i]), Steps(reg, w, visited[..i + 1]));
       visited[i] !in u.defs && visited[i] in v.defs && Uses(v.defs[visited[i]], r)
  }

  /**
    * For any registry: every reference of the root, and every one that came up on the way, is defined
    * afterwards, or was asked for in vain.
    */
  lemma RepairPursues(universe: set<string>, reg: Registry, w: World, root: string) returns (visited: seq<string>)
    requires Bounded(universe, reg, w)
    ensures var w' := Ensure(universe, reg, w, root);
            && w' == Steps(reg, w, visited)
            && (forall r | root in w.defs && Uses(w.defs[root], r) :: r in w'.defs || InVain(reg, w, visited, r))
            && (forall i, r | CameUp(reg, w, visited, i, r) :: r in w'.defs || InVain(reg, w, visited, r))
  {
    visited := RepairTraced(universe, reg, w, root);
    var w' := Ensure(universe, reg, w, root);
    forall r | r in visited ensures r in w'.defs || InVain(reg, w, visited, r) {
      var i :| 0 <= i < |visited| && visited[i] == r;
      StepsExtend(universe, reg, w, visited, i + 1);
    }
    forall r | root in w.defs && Uses(w.defs[root], r) ensures r in visited {
      RefsExact(w.defs[root], r);
    }
    forall i, r | CameUp(reg, w, visited, i, r) ensures r in visited {
      CameUpFound(reg, w, visited, i, r);
    }
  }

  lemma CameUpFound(reg: Registry, w: World, visited: seq<string>, i: nat, r: string)
    requires CameUp(reg, w, visited, i, r)
    ensures r in FoundAt(reg, w, visited, i)
  {
    var ref := visited[i];
    assert visited[..i + 1] == visited[..i] + [ref];
    StepsSnoc(reg, w, visited[..i], ref);
    RefsExact(Steps(reg, w, visited[..i + 1]).defs[ref], r);
  }

  // --- a registry that always answers the same for the same name ---

  type Answers = string -> Reply

  ghost function Fixed(f: Answers): Registry
  {
    (w: World, name: string) => f(name)
  }

  ghost predicate AllSettle(universe: set<string>)
  {
    forall r | r in universe :: Settles(r)
  }

  /** Asking for the canonical name of r brings a definition of r. */
  predicate Gives(f: Answers, r: string)
  {
    var c := Canonical(r);
    f(c).Added? && (c in f(c).defs || r in f(c).defs)
  }

  /** A reference is settled if it is defined, or cannot be. */
  ghost predicate Resolved(f: Answers, w: World, r: string)
  {
    r in w.defs || (Canonical(r) !in w.defs && !Gives(f, r))
  }

  /** It cannot be if the attempt leaves it undefined. */
  lemma ResolvedExact(f: Answers, w: World, r: string)
    ensures Resolved(f, w, r) <==> r in w.defs || r !in RegisterAlias(Fixed(f), w, r).defs
  {
  }

  ghost predicate Closed(f: Answers, w: World, n: string)
    requires n in w.defs
  {
    forall r | Uses(w.defs[n], r) :: Resolved(f, w, r)
  }

  lemma ClosedByRefs(f: Answers, w: World, n: string)
    requires n in w.defs
    ensures Closed(f, w, n) <==> forall r | r in Refs(w.defs[n]) :: Resolved(f, w, r)
  {
    forall r ensures r in Refs(w.defs[n]) <==> Uses(w.defs[n], r) {
      RefsExact(w.defs[n], r);
    }
  }

  ghost predicate AllClosed(f: Answers, w: World)
  {
    forall n | n in w.defs :: Closed(f, w, n)
  }

  ghost predicate ClosedElsewhere(f: Answers, w: World, root: string)
  {
    forall n | n in w.defs && n != root :: Closed(f, w, n)
  }

  // --- the conditions on the answers ---

  /** The references that are visited because c is registered. */
  function Own(f: Answers, c: string): seq<string>
    requires f(c).Added?
  {
    if c in f(c).defs then Refs(f(c).defs[c]) else []
  }

  /** Registering c defines r, or leads to visiting it. */
  predicate Brought(f: Answers, c: string, r: string)
    requires f(c).Added?
  {
    r in f(c).defs || r in Own(f, c)
  }

  /** No state in which c was registered lets r be defined. */
  predicate Hopeless(f: Answers, c: string, r: string)
  {
    !Gives(f, r) && (Canonical(r) == r || Canonical(r) == c)
  }

  /** What comes along with c refers only to what registering c brings, or to what cannot be had. */
  predicate Carries(f: Answers, c: string)
    requires f(c).Added?
  {
    forall n | n in f(c).defs && n != c ::
      forall r | r in Refs(f(c).defs[n]) :: Brought(f, c, r) || Hopeless(f, c, r)
  }

  /** A canonical name that comes along with c was to be had before: its shadow names did not wait for c. */
  ghost predicate Stable(f: Answers, c: string)
    requires f(c).Added?
  {
    forall r | Settles(r) && Canonical(r) in f(c).defs :: Brought(f, c, r) || Gives(f, r)
  }

  /** The same, unless asking for it would have brought c. */
  ghost predicate Final(f: Answers, c: string)
    requires f(c).Added?
  {
    forall r | Settles(r) && Canonical(r) in f(c).defs ::
      || Brought(f, c, r) || Gives(f, r)
      || (f(Canonical(r)).Added? && c in f(Canonical(r)).defs)
  }

  ghost predicate Complete(f: Answers)
  {
    forall c | Canonical(c) == c && f(c).Added? :: Carries(f, c) && Stable(f, c)
  }

  ghost predicate Repeatable(f: Answers)
  {
    forall c | Canonical(c) == c && f(c).Added? :: Final(f, c)
  }

  /** In particular: answers that bring what they refer to, of names that can each be asked for. */
  lemma SelfContainedSuffices(f: Answers)
    requires forall c, n | f(c).Added? && n in f(c).defs :: f(n).Added? && n in f(n).defs
    requires forall c, n, r | f(c).Added? && n in f(c).defs && r in Refs(f(c).defs[n]) :: r in f(c).defs
    ensures Complete(f) && Repeatable(f)
  {
    forall c | Canonical(c) == c && f(c).Added? ensures Carries(f, c) && Stable(f, c) && Final(f, c) {
      forall r | Canonical(r) in f(c).defs ensures Gives(f, r) {
        var n := Canonical(r);
        assert f(c).Added? && n in f(c).defs;
      }
    }
  }

  // --- closure ---

  /** Every reference of every definition is settled, or still to visit. */
  ghost predicate Accounted(f: Answers, w: World, todo: seq<string>)
  {
    forall n, r | n in w.defs && r in Refs(w.defs[n]) :: Resolved(f, w, r) || r in todo
  }

  lemma StaysResolved(f: Answers, w: World, ref: string, r: string)
    requires Complete(f) && ref !in w.defs && Settles(ref) && Settles(r) && Resolved(f, w, r)
    ensures Resolved(f, RegisterAlias(Fixed(f), w, ref), r) || r in Found(Fixed(f), w, ref)
  {
    var v, c, d := RegisterAlias(Fixed(f), w, ref), Canonical(ref), Canonical(r);
    if r !in v.defs && d in v.defs {
      assert f(c).Added?;
      assert d in f(c).defs;
      assert Stable(f, c);
      assert r in Own(f, c);
    }
  }

  lemma AskedResolved(f: Answers, w: World, ref: string)
    requires ref !in w.defs
    ensures Resolved(f, RegisterAlias(Fixed(f), w, ref), ref)
  {
  }

  lemma NewResolved(f: Answers, w: World, ref: string, n: string, r: string)
    requires Complete(f) && ref !in w.defs && Settles(ref)
    requires n !in w.defs && n in RegisterAlias(Fixed(f), w, ref).defs
    requires r in Refs(RegisterAlias(Fixed(f), w, ref).defs[n])
    ensures Resolved(f, RegisterAlias(Fixed(f), w, ref), r) || r in Found(Fixed(f), w, ref)
  {
    var v, c := RegisterAlias(Fixed(f), w, ref), Canonical(ref);
    if n != ref && !(n == c && ref in v.defs) {
      assert f(c).Added? && n in f(c).defs && v.defs[n] == f(c).defs[n];
      assert Carries(f, c);
      assert Brought(f, c, r) || Hopeless(f, c, r);
    }
  }

  lemma AccountedStep(universe: set<string>, f: Answers, w: World, todo: seq<string>)
    requires Bounded(universe, Fixed(f), w) && AllSettle(universe) && Complete(f)
    requires todo != [] && todo[0] in universe && Accounted(f, w, todo)
    ensures Accounted(f, RegisterAlias(Fixed(f), w, todo[0]), Found(Fixed(f), w, todo[0]) + todo[1..])
  {
    var ref := todo[0];
    var v := RegisterAlias(Fixed(f), w, ref);
    if ref !in w.defs {
      RegisterAliasExtends(universe, Fixed(f), w, ref);
      AskedResolved(f, w, ref);
    }
    forall n, r | n in v.defs && r in Refs(v.defs[n])
      ensures Resolved(f, v, r) || r in Found(Fixed(f), w, ref) + todo[1..]
    {
      if n !in w.defs {
        NewResolved(f, w, ref, n, r);
      } else if r != ref && r !in todo[1..] {
        assert Resolved(f, w, r) || r in todo;
        assert Mentions(universe, w.defs[n]);
        if ref !in w.defs {
          StaysResolved(f, w, ref, r);
        }
      }
    }
  }

  lemma AccountedCloses(f: Answers, w: World)
    requires Accounted(f, w, [])
    ensures AllClosed(f, w)
  {
    forall n | n in w.defs ensures Closed(f, w, n) {
      ClosedByRefs(f, w, n);
    }
  }

  /** If all other types were closed, then afterwards all types are. */
  lemma {:induction false} RepairCloses(universe: set<string>, f: Answers, w: World, root: string)
    requires Bounded(universe, Fixed(f), w) && AllSettle(universe) && Complete(f)
    requires ClosedElsewhere(f, w, root)
    ensures AllClosed(f, Ensure(universe, Fixed(f), w, root))
  {
    var claim := (v: World, todo: seq<string>) => Accounted(f, v, todo);
    forall v: World, todo: seq<string> ensures Keeps(universe, Fixed(f), claim, v, todo) {
      if Bounded(universe, Fixed(f), v) && todo != [] && todo[0] in universe && claim(v, todo) {
        AccountedStep(universe, f, v, todo);
      }
    }
    forall n, r | n in w.defs && r in Refs(w.defs[n]) ensures Resolved(f, w, r) || r in RootRefs(w, root) {
      assert n != root ==> Closed(f, w, n);
      ClosedByRefs(f, w, n);
    }
    RepairInduction(universe, Fixed(f), claim, w, root);
    AccountedCloses(f, Ensure(universe, Fixed(f), w, root));
  }

  /** A path of references through definitions. */
  ghost predicate Path(w: World, p: seq<string>)
  {
    && |p| > 0
    && forall i | 0 <= i < |p| - 1 :: p[i] in w.defs && Uses(w.defs[p[i]], p[i + 1])
  }

  /** Then every reference reachable from the root is defined, or cannot be. */
  lemma {:induction false} ReachableResolved(universe: set<string>, f: Answers, w: World, root: string, p: seq<string>)
    requires Bounded(universe, Fixed(f), w) && AllSettle(universe) && Complete(f)
    requires ClosedElsewhere(f, w, root) && root in w.defs
    requires Path(Ensure(universe, Fixed(f), w, root), p) && p[0] == root
    ensures Resolved(f, Ensure(universe, Fixed(f), w, root), p[|p| - 1])
  {
    RepairCloses(universe, f, w, root);
    ClosedPath(f, Ensure(universe, Fixed(f), w, root), p);
  }

  lemma ClosedPath(f: Answers, w: World, p: seq<string>)
    requires AllClosed(f, w) && Path(w, p) && p[0] in w.defs
    ensures Resolved(f, w, p[|p| - 1])
  {
    if |p| > 1 {
      var n := p[|p| - 2];
      assert Uses(w.defs[n], p[|p| - 2 + 1]);
      assert Closed(f, w, n);
    }
  }

  // --- a second call ---

  /** The same, but for the number of questions asked. */
  ghost predicate Same(w: World, w': World)
  {
    w' == w.(calls := w'.calls)
  }

  /** Visiting the reference again changes nothing. */
  ghost predicate Idle(f: Answers, w: World, r: string)
  {
    Same(w, RegisterAlias(Fixed(f), w, r))
  }

  ghost predicate Asked(f: Answers, w: World, c: string)
  {
    f(c).Added? ==> f(c).defs.Keys <= w.defs.Keys && f(c).classes.Keys <= w.types.Keys
  }

  lemma {:induction false} IdleExact(f: Answers, w: World, r: string)
    ensures Idle(f, w, r) <==> r in w.defs || (Canonical(r) !in w.defs && Asked(f, w, Canonical(r)) && !Gives(f, r))
  {
    var c, v := Canonical(r), RegisterAlias(Fixed(f), w, r);
    if r !in w.defs && c !in w.defs && f(c).Added? {
      assert f(c).defs.Keys <= v.defs.Keys && f(c).classes.Keys <= v.types.Keys;
      if Asked(f, w, c) {
        assert f(c).defs + w.defs == w.defs && f(c).classes + w.types == w.types;
      }
    }
  }

  lemma AskedIdle(f: Answers, w: World, ref: string)
    requires ref !in w.defs
    ensures Idle(f, RegisterAlias(Fixed(f), w, ref), ref)
  {
    IdleExact(f, RegisterAlias(Fixed(f), w, ref), ref);
  }

  lemma StaysIdle(f: Answers, w: World, ref: string, r: string)
    requires Repeatable(f) && ref !in w.defs && Settles(ref) && Settles(r) && Idle(f, w, r)
    ensures Idle(f, RegisterAlias(Fixed(f), w, ref), r) || r in Found(Fixed(f), w, ref)
  {
    var v, c, d := RegisterAlias(Fixed(f), w, ref), Canonical(ref), Canonical(r);
    IdleExact(f, w, r);
    IdleExact(f, v, r);
    if r !in v.defs && d in v.defs {
      assert f(c).Added?;
      assert d in f(c).defs;
      assert Final(f, c);
      assert r in Own(f, c);
    }
  }

  /** Each of some references changes nothing when visited again, or is still to visit. */
  ghost predicate Quiet(f: Answers, w: World, refs: seq<string>, todo: seq<string>)
  {
    forall r | r in refs :: Idle(f, w, r) || r in todo
  }

  lemma QuietStep(universe: set<string>, f: Answers, refs: seq<string>, w: World, todo: seq<string>)
    requires AllSettle(universe) && Repeatable(f) && (forall r | r in refs :: r in universe)
    requires todo != [] && todo[0] in universe && Quiet(f, w, refs, todo)
    ensures Quiet(f, RegisterAlias(Fixed(f), w, todo[0]), refs, Found(Fixed(f), w, todo[0]) + todo[1..])
  {
    var ref := todo[0];
    var v := RegisterAlias(Fixed(f), w, ref);
    forall r | r in refs ensures Idle(f, v, r) || r in Found(Fixed(f), w, ref) + todo[1..] {
      assert Idle(f, w, r) || r in todo;
      if ref in w.defs {
        assert v == w && Idle(f, w, ref);
      } else if r == ref {
        AskedIdle(f, w, ref);
      } else if r !in todo[1..] {
        StaysIdle(f, w, ref, r);
      }
    }
  }

  lemma {:induction false} WalkChangesNothing(universe: set<string>, f: Answers, w: World, refs: seq<string>)
    requires Bounded(universe, Fixed(f), w) && forall r | r in refs :: r in universe && Idle(f, w, r)
    ensures Same(w, Walk(universe, Fixed(f), w, refs))
    decreases |refs|
  {
    if refs != [] {
      VisitChangesNothing(universe, f, w, refs[0]);
      var u := Visit(universe, Fixed(f), w, refs[0]);
      forall r | r in refs[1..] ensures Idle(f, u, r) {
        IdleExact(f, w, r);
        IdleExact(f, u, r);
      }
      WalkChangesNothing(universe, f, u, refs[1..]);
    }
  }

  lemma {:induction false} VisitChangesNothing(universe: set<string>, f: Answers, w: World, ref: string)
    requires Bounded(universe, Fixed(f), w) && ref in universe && Idle(f, w, ref)
    ensures Same(w, Visit(universe, Fixed(f), w, ref))
  {
    if ref !in w.defs {
      RegisterAliasExtends(universe, Fixed(f), w, ref);
      var v := RegisterAlias(Fixed(f), w, ref);
      assert v == w.(calls := v.calls);
      assert Ensure(universe, Fixed(f), v, ref) == v;
    }
  }

  /** A second call changes nothing, whatever else is open. */
  lemma {:induction false} RepairTwice(universe: set<string>, f: Answers, w: World, root: string)
    requires Bounded(universe, Fixed(f), w) && AllSettle(universe) && Repeatable(f)
    ensures var w' := Ensure(universe, Fixed(f), w, root);
            Same(w', Ensure(universe, Fixed(f), w', root))
  {
    if root in w.defs {
      var refs := Refs(w.defs[root]);
      assert Mentions(universe, w.defs[root]);
      var claim := (v: World, todo: seq<string>) => Quiet(f, v, refs, todo);
      forall v: World, todo: seq<string> ensures Keeps(universe, Fixed(f), claim, v, todo) {
        if Bounded(universe, Fixed(f), v) && todo != [] && todo[0] in universe && claim(v, todo) {
          QuietStep(universe, f, refs, v, todo);
        }
      }
      RepairInduction(universe, Fixed(f), claim, w, root);
      var w' := Ensure(universe, Fixed(f), w, root);
      assert Quiet(f, w', refs, []) && w'.defs[root] == w.defs[root];
      WalkChangesNothing(universe, f, w', refs);
    }
  }
}
