/** Listing parameter names and sub-namespaces under dotted prefixes. */
module ParamListing {
  import opened Sequences
  import opened Text
  import opened Wrappers

  /** `name.startswith(p + ".")` */
  predicate IsBelow(name: string, p: string)
  {
    p + "." <= name
  }

  /** `not prefix` holds of both None and the empty string. */
  predicate Matches(name: string, prefix: Option<string>)
  {
    || prefix.None? || prefix.value == ""
    || name == prefix.value || IsBelow(name, prefix.value)
  }

  function NamesUnder(names: seq<string>, prefix: Option<string>): (r: seq<string>)
    ensures forall n :: n in r <==> n in names && Matches(n, prefix)
  {
    if names == [] then []
    else
      var last := names[|names| - 1];
      NamesUnder(names[..|names| - 1], prefix) + if Matches(last, prefix) then [last] else []
  }

  /** Adding an element unless it is there already: what `dict.fromkeys` and the `seen` set do. */
  function Add(out: seq<string>, x: string): seq<string>
  {
    if x in out then out else out + [x]
  }

  /** `list(dict.fromkeys(s))` */
  function Dedup(s: seq<string>): seq<string>
  {
    if s == [] then [] else Add(Dedup(s[..|s| - 1]), s[|s| - 1])
  }

  lemma {:induction false} DedupSnoc(s: seq<string>, x: string)
    ensures Dedup(s + [x]) == Add(Dedup(s), x)
  {
    assert (s + [x])[..|s|] == s;
  }

  /** The first index at which x occurs. */
  ghost function FirstIndex(s: seq<string>, x: string): (i: nat)
    requires x in s
    ensures i < |s| && s[i] == x && x !in s[..i]
  {
    if s[0] == x then 0 else 1 + FirstIndex(s[1..], x)
  }

  lemma {:induction false} FirstIndexAppend(s: seq<string>, x: string, y: string)
    requires x in s
    ensures FirstIndex(s + [y], x) == FirstIndex(s, x)
  {
    if s[0] != x {
      FirstIndexAppend(s[1..], x, y);
      assert (s + [y])[1..] == s[1..] + [y];
    }
  }

  /** Some of the names, in the order in which they stand there. */
  ghost predicate InOrder(names: seq<string>, r: seq<string>)
  {
    && (forall x | x in r :: x in names)
    && forall i, j | 0 <= i < j < |r| :: FirstIndex(names, r[i]) < FirstIndex(names, r[j])
  }

  lemma InOrderSnoc(front: seq<string>, last: string, r: seq<string>)
    requires InOrder(front, r) && last !in front
    ensures InOrder(front + [last], r) && InOrder(front + [last], r + [last])
  {
    var names := front + [last];
    forall x | x in front ensures FirstIndex(names, x) == FirstIndex(front, x) < |front| {
      FirstIndexAppend(front, x, last);
    }
    assert names[|front|] == last;
    assert forall i | 0 <= i < |front| :: names[i] == front[i];
    assert FirstIndex(names, last) == |front|;
  }

  lemma InOrderAgain(front: seq<string>, last: string, r: seq<string>)
    requires InOrder(front, r)
    ensures InOrder(front + [last], r)
  {
    forall x | x in front ensures FirstIndex(front + [last], x) == FirstIndex(front, x) {
      FirstIndexAppend(front, x, last);
    }
  }

  /** Each element once, the same elements, ordered by first occurrence: this determines the result. */
  lemma {:induction false} DedupExact(s: seq<string>)
    ensures NoDuplicates(Dedup(s))
    ensures forall x :: x in Dedup(s) <==> x in s
    ensures InOrder(s, Dedup(s))
  {
    if s != [] {
      var front, last := s[..|s| - 1], s[|s| - 1];
      DedupExact(front);
      assert s == front + [last];
      if last in front {
        InOrderAgain(front, last, Dedup(front));
      } else {
        InOrderSnoc(front, last, Dedup(front));
      }
    }
  }

  /** The names under a prefix come in declaration order. */
  lemma {:induction false} NamesUnderInOrder(names: seq<string>, prefix: Option<string>)
    requires NoDuplicates(names)
    ensures InOrder(names, NamesUnder(names, prefix))
  {
    if names != [] {
      var front, last := names[..|names| - 1], names[|names| - 1];
      NamesUnderInOrder(front, prefix);
      assert names == front + [last] && last !in front;
      InOrderSnoc(front, last, NamesUnder(front, prefix));
    }
  }

  /** Dropping duplicates along the way and again at the end is dropping them once. */
  lemma {:induction false} DedupAppend(a: seq<string>, b: seq<string>)
    ensures Dedup(Dedup(a) + b) == Dedup(a + b)
  {
    if b == [] {
      assert a + b == a && Dedup(a) + b == Dedup(a);
      DedupTwice(a);
    } else {
      var front, last := b[..|b| - 1], b[|b| - 1];
      DedupAppend(a, front);
      assert (a + b)[..|a + b| - 1] == a + front;
      assert (Dedup(a) + b)[..|Dedup(a) + b| - 1] == Dedup(a) + front;
    }
  }

  lemma {:induction false} DedupTwice(a: seq<string>)
    ensures Dedup(Dedup(a)) == Dedup(a)
  {
    if a != [] {
      var front, last := a[..|a| - 1], a[|a| - 1];
      DedupTwice(front);
      DedupExact(front);
      if last !in Dedup(front) {
        assert Dedup(a)[..|Dedup(a)| - 1] == Dedup(front);
      }
    }
  }

  lemma {:induction false} DedupInner(a: seq<string>, b: seq<string>)
    ensures Dedup(a + Dedup(b)) == Dedup(a + b)
  {
    if b != [] {
      var front, last := b[..|b| - 1], b[|b| - 1];
      DedupInner(a, front);
      DedupSnoc(a + front, last);
      assert a + b == a + front + [last];
      AddInner(a, front, last);
    }
  }

  lemma {:induction false} AddInner(a: seq<string>, front: seq<string>, last: string)
    ensures Dedup(a + Add(Dedup(front), last)) == Add(Dedup(a + Dedup(front)), last)
  {
    DedupExact(front);
    DedupExact(a + Dedup(front));
    if last in front {
      assert last in a + Dedup(front);
    } else {
      DedupSnoc(a + Dedup(front), last);
      assert a + (Dedup(front) + [last]) == a + Dedup(front) + [last];
    }
  }

  /** `".".join(parts[:i])` for i in range(1, len(parts)). */
  function SubPrefixes(name: string): (r: seq<string>)
    ensures |r| == |Split(name, '.')| - 1
  {
    var parts := Split(name, '.');
    seq(|parts| - 1, i requires 0 <= i < |parts| - 1 => Join(parts[..i + 1], '.'))
  }

  /** All sub-prefixes of the names, in order, with repetitions. */
  function AllSubPrefixes(names: seq<string>): seq<string>
  {
    if names == [] then []
    else AllSubPrefixes(names[..|names| - 1]) + SubPrefixes(names[|names| - 1])
  }

  lemma InSubPrefixes(name: string, p: string)
    ensures p in SubPrefixes(name) <==> IsBelow(name, p)
  {
    var subs := SubPrefixes(name);
    assert p + "." == p + ['.'];
    if p in subs {
      var k :| 0 <= k < |subs| && subs[k] == p;
      PartsArePrefix(name, k + 1, '.');
    }
    if IsBelow(name, p) {
      var i := PrefixIsParts(name, p, '.');
      assert subs[i - 1] == p;
    }
  }

  lemma {:induction false} InAllSubPrefixes(names: seq<string>, p: string)
    ensures p in AllSubPrefixes(names) <==> exists n | n in names :: IsBelow(n, p)
  {
    if names != [] {
      var front, last := names[..|names| - 1], names[|names| - 1];
      InAllSubPrefixes(front, p);
      InSubPrefixes(last, p);
      assert AllSubPrefixes(names) == AllSubPrefixes(front) + SubPrefixes(last);
      if p in AllSubPrefixes(names) {
        var n :| (n in front || n == last) && IsBelow(n, p);
        assert n in names;
      }
      if n :| n in names && IsBelow(n, p) {
        assert n in front || n == last;
      }
    }
  }

  /** The matching names in the order they are seen: one prefix after the other, with repetitions. */
  function SeenNames(names: seq<string>, prefixes: seq<string>): seq<string>
  {
    Concat(Targets(prefixes), t => NamesUnder(names, t))
  }

  /** The names half of a list reply, and the sub-prefixes half. */
  function ListedNames(names: seq<string>, prefixes: seq<string>): seq<string>
  {
    Dedup(SeenNames(names, prefixes))
  }

  function ListedPrefixes(names: seq<string>, prefixes: seq<string>): seq<string>
  {
    Dedup(Concat(Targets(prefixes), t => Dedup(AllSubPrefixes(NamesUnder(names, t)))))
  }

  /** `prefixes if prefixes else [None]` */
  function Targets(prefixes: seq<string>): (r: seq<Option<string>>)
    ensures |r| >= 1
  {
    if prefixes == [] then [None] else seq(|prefixes|, i requires 0 <= i < |prefixes| => Some(prefixes[i]))
  }

  function Concat(targets: seq<Option<string>>, f: Option<string> -> seq<string>): seq<string>
  {
    if targets == [] then []
    else Concat(targets[..|targets| - 1], f) + f(targets[|targets| - 1])
  }

  lemma {:induction false} InConcat(targets: seq<Option<string>>, f: Option<string> -> seq<string>, x: string)
    ensures x in Concat(targets, f) <==> exists t | t in targets :: x in f(t)
  {
    if targets != [] {
      var front, last := targets[..|targets| - 1], targets[|targets| - 1];
      InConcat(front, f, x);
      assert forall t :: t in targets <==> t in front || t == last;
    }
  }

  /** A name is asked for: by no prefix at all, by an empty one, by its own text, or by what stands before a dot. */
  predicate MatchesSome(name: string, prefixes: seq<string>)
  {
    prefixes == [] || exists p | p in prefixes :: p == "" || name == p || p + "." <= name
  }

  lemma MatchesTargets(name: string, prefixes: seq<string>)
    ensures MatchesSome(name, prefixes) <==> exists t | t in Targets(prefixes) :: Matches(name, t)
  {
    var ts := Targets(prefixes);
    if prefixes == [] {
      assert ts[0] in ts;
    } else {
      forall p | p in prefixes ensures Some(p) in ts {
        var i :| 0 <= i < |prefixes| && prefixes[i] == p;
        assert ts[i] == Some(p);
      }
      if p :| p in prefixes && (p == "" || name == p || p + "." <= name) {
        assert Matches(name, Some(p));
      }
      if t :| t in ts && Matches(name, t) {
        var p := t.value;
        assert p in prefixes && (p == "" || name == p || p + "." <= name);
      }
    }
  }

  /** A list reply holds, once each in first-seen order, exactly the names matching a requested prefix. */
  lemma ListedNamesExact(names: seq<string>, prefixes: seq<string>)
    ensures NoDuplicates(ListedNames(names, prefixes))
    ensures InOrder(SeenNames(names, prefixes), ListedNames(names, prefixes))
    ensures forall n :: n in ListedNames(names, prefixes) <==> n in names && MatchesSome(n, prefixes)
  {
    DedupExact(SeenNames(names, prefixes));
    forall n ensures n in ListedNames(names, prefixes) <==> n in names && MatchesSome(n, prefixes) {
      InConcat(Targets(prefixes), t => NamesUnder(names, t), n);
      MatchesTargets(n, prefixes);
    }
  }

  /** Without prefixes all names are seen, in order; with prefixes, the names under each, one after the other. */
  lemma {:induction false} SeenNamesExact(names: seq<string>, prefixes: seq<string>, prefix: string)
    ensures SeenNames(names, []) == names
    ensures SeenNames(names, [prefix]) == NamesUnder(names, Some(prefix))
    ensures prefixes != [] ==>
              SeenNames(names, prefixes + [prefix]) == SeenNames(names, prefixes) + NamesUnder(names, Some(prefix))
  {
    var f := (t: Option<string>) => NamesUnder(names, t);
    AllUnderNone(names);
    ConcatOne(None, f);
    ConcatOne(Some(prefix), f);
    assert Targets([prefix]) == [Some(prefix)];
    if prefixes != [] {
      SeenSnoc(names, prefixes, prefix);
    }
  }

  lemma {:induction false} SeenSnoc(names: seq<string>, prefixes: seq<string>, prefix: string)
    requires prefixes != []
    ensures SeenNames(names, prefixes + [prefix]) == SeenNames(names, prefixes) + NamesUnder(names, Some(prefix))
  {
    assert Targets(prefixes + [prefix]) == Targets(prefixes) + [Some(prefix)];
    ConcatSnoc(Targets(prefixes), Some(prefix), t => NamesUnder(names, t));
  }

  lemma {:induction false} ConcatSnoc(targets: seq<Option<string>>, t: Option<string>, f: Option<string> -> seq<string>)
    ensures Concat(targets + [t], f) == Concat(targets, f) + f(t)
  {
    assert (targets + [t])[..|targets|] == targets;
  }

  lemma ConcatOne(t: Option<string>, f: Option<string> -> seq<string>)
    ensures Concat([t], f) == f(t)
  {
    assert [t][..0] == [];
  }

  lemma {:induction false} AllUnderNone(names: seq<string>)
    ensures NamesUnder(names, None) == names
  {
    if names != [] {
      AllUnderNone(names[..|names| - 1]);
    }
  }

  /** The sub-prefixes of a name, from the shortest to the longest. */
  lemma SubPrefixesGrow(name: string, i: nat, j: nat)
    requires i < j < |SubPrefixes(name)|
    ensures |SubPrefixes(name)[i]| < |SubPrefixes(name)[j]|
  {
    var parts := Split(name, '.');
    JoinConcat(parts[..i + 1], parts[i + 1..j + 1], '.');
    assert parts[..j + 1] == parts[..i + 1] + parts[i + 1..j + 1];
  }

  lemma {:induction false} AllSubPrefixesConcat(a: seq<string>, b: seq<string>)
    ensures AllSubPrefixes(a + b) == AllSubPrefixes(a) + AllSubPrefixes(b)
  {
    if b == [] {
      assert a + b == a;
    } else {
      AllSubPrefixesConcat(a, b[..|b| - 1]);
      assert (a + b)[..|a + b| - 1] == a + b[..|b| - 1];
    }
  }

  /** Dropping repetitions under each prefix and again at the end is dropping them once. */
  lemma {:induction false} DedupEach(targets: seq<Option<string>>, f: Option<string> -> seq<string>)
    ensures Dedup(Concat(targets, t => Dedup(AllSubPrefixes(f(t))))) == Dedup(AllSubPrefixes(Concat(targets, f)))
  {
    if targets != [] {
      var front, last := targets[..|targets| - 1], targets[|targets| - 1];
      var g := t => Dedup(AllSubPrefixes(f(t)));
      var more := AllSubPrefixes(f(last));
      DedupEach(front, f);
      DedupInner(Concat(front, g), more);
      DedupAppend(Concat(front, g), more);
      DedupAppend(AllSubPrefixes(Concat(front, f)), more);
      AllSubPrefixesConcat(Concat(front, f), f(last));
    }
  }

  lemma ListedPrefixesSeen(names: seq<string>, prefixes: seq<string>)
    ensures ListedPrefixes(names, prefixes) == Dedup(AllSubPrefixes(SeenNames(names, prefixes)))
  {
    var f := (t: Option<string>) => NamesUnder(names, t);
    var g := (t: Option<string>) => Dedup(AllSubPrefixes(f(t)));
    var h := (t: Option<string>) => Dedup(AllSubPrefixes(NamesUnder(names, t)));
    DedupEach(Targets(prefixes), f);
    ConcatSame(Targets(prefixes), g, h);
  }

  lemma {:induction false} ConcatSame(targets: seq<Option<string>>, f: Option<string> -> seq<string>,
                                      g: Option<string> -> seq<string>)
    requires forall t :: f(t) == g(t)
    ensures Concat(targets, f) == Concat(targets, g)
  {
    if targets != [] {
      ConcatSame(targets[..|targets| - 1], f, g);
    }
  }

  /** A sub-prefix p is listed, once and in first-seen order, iff `p + "."` starts a listed name. */
  lemma ListedPrefixesExact(names: seq<string>, prefixes: seq<string>)
    ensures NoDuplicates(ListedPrefixes(names, prefixes))
    ensures InOrder(AllSubPrefixes(SeenNames(names, prefixes)), ListedPrefixes(names, prefixes))
    ensures forall p :: p in ListedPrefixes(names, prefixes) <==>
                        exists n | n in ListedNames(names, prefixes) :: IsBelow(n, p)
  {
    ListedPrefixesSeen(names, prefixes);
    DedupExact(AllSubPrefixes(SeenNames(names, prefixes)));
    DedupExact(SeenNames(names, prefixes));
    forall p
      ensures p in ListedPrefixes(names, prefixes) <==>
              exists n | n in ListedNames(names, prefixes) :: IsBelow(n, p)
    {
      InAllSubPrefixes(SeenNames(names, prefixes), p);
    }
  }

  /** Asking again with a reported sub-prefix lists at least one name below it. */
  lemma ReportedPrefixListsSomething(names: seq<string>, prefixes: seq<string>, p: string)
    requires p in ListedPrefixes(names, prefixes)
    ensures exists n | n in ListedNames(names, [p]) :: IsBelow(n, p)
  {
    ListedPrefixesExact(names, prefixes);
    ListedNamesExact(names, prefixes);
    ListedNamesExact(names, [p]);
    var n :| n in ListedNames(names, prefixes) && IsBelow(n, p);
    assert p in [p] && p + "." <= n;
  }
}
