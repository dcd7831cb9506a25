/** Forcing client mode in a `;`-separated configuration override in which later segments win. */
module Override {
  import opened Text

  // --- lists of strings, mapped and folded ---

  function Flat(f: string -> seq<string>, xs: seq<string>): seq<string>
  {
    if xs == [] then [] else Flat(f, xs[..|xs| - 1]) + f(xs[|xs| - 1])
  }

  lemma {:induction false} FlatConcat(f: string -> seq<string>, a: seq<string>, b: seq<string>)
    ensures Flat(f, a + b) == Flat(f, a) + Flat(f, b)
  {
    if b == [] {
      assert a + b == a;
    } else {
      FlatConcat(f, a, b[..|b| - 1]);
      assert (a + b)[..|a + b| - 1] == a + b[..|b| - 1];
    }
  }

  lemma FlatOne(f: string -> seq<string>, x: string)
    ensures Flat(f, [x]) == f(x)
  {
    assert [x][..0] == [];
  }

  lemma {:induction false} FlatSame(f: string -> seq<string>, xs: seq<string>)
    requires forall x | x in xs :: f(x) == [x]
    ensures Flat(f, xs) == xs
  {
    if xs != [] {
      FlatSame(f, xs[..|xs| - 1]);
    }
  }

  lemma {:induction false} FlatNone(f: string -> seq<string>, xs: seq<string>)
    requires forall x | x in xs :: f(x) == []
    ensures Flat(f, xs) == []
  {
    if xs != [] {
      FlatNone(f, xs[..|xs| - 1]);
    }
  }

  /** What is in the result came from some element. */
  lemma {:induction false} FlatFrom(f: string -> seq<string>, xs: seq<string>, y: string) returns (x: string)
    requires y in Flat(f, xs)
    ensures x in xs && y in f(x)
  {
    var last := xs[|xs| - 1];
    if y in f(last) {
      x := last;
    } else {
      x := FlatFrom(f, xs[..|xs| - 1], y);
    }
  }

  /** Later entries win. */
  function Latest<V>(f: string -> (string, V), xs: seq<string>): map<string, V>
  {
    if xs == [] then map[]
    else
      var entry := f(xs[|xs| - 1]);
      Latest(f, xs[..|xs| - 1])[entry.0 := entry.1]
  }

  lemma {:induction false} LatestSnoc<V>(f: string -> (string, V), xs: seq<string>, x: string)
    ensures Latest(f, xs + [x]) == Latest(f, xs)[f(x).0 := f(x).1]
  {
    assert (xs + [x])[..|xs|] == xs;
  }

  lemma {:induction false} LatestWithout<V>(f: string -> (string, V), g: string -> seq<string>, xs: seq<string>,
                                              keys: set<string>)
    requires forall x | x in xs :: g(x) == if f(x).0 in keys then [] else [x]
    ensures Latest(f, Flat(g, xs)) == Latest(f, xs) - keys
  {
    if xs != [] {
      var front, last := xs[..|xs| - 1], xs[|xs| - 1];
      LatestWithout(f, g, front, keys);
      if f(last).0 in keys {
        assert Flat(g, xs) == Flat(g, front);
        assert Latest(f, xs) - keys == Latest(f, front) - keys;
      } else {
        LatestSnoc(f, Flat(g, front), last);
        assert Latest(f, xs) - keys == (Latest(f, front) - keys)[f(last).0 := f(last).1];
      }
    }
  }

  // --- the override language ---

  function Trim(part: string): seq<string>
  {
    if Strip(part) == "" then [] else [Strip(part)]
  }

  /** The segments of an override: its parts, trimmed, without the empty ones. */
  function Segments(s: string): seq<string>
  {
    Flat(Trim, Split(s, ';'))
  }

  /** The path of a segment is what stands left of its first `=`, the value what stands right of it. */
  datatype Value = Unset | Json(text: string)

  function Path(segment: string): string
  {
    Strip(Split(segment, '=')[0])
  }

  function Entry(segment: string): (string, Value)
  {
    var left := Split(segment, '=')[0];
    (Strip(left), if |left| < |segment| then Json(Strip(segment[|left| + 1..])) else Unset)
  }

  lemma {:induction false} FirstPart(a: string, rest: string, sep: char)
    requires sep !in a
    ensures Split(a, sep) == [a] && Split(a + [sep] + rest, sep) == [a] + Split(rest, sep)
  {
    SplitNoSep(a, sep);
    SplitConcat(a, rest, sep);
  }

  /** The first `=` divides a segment, whatever else is in it, and both sides are trimmed. */
  lemma EntryExact(a: string, rest: string)
    requires '=' !in a
    ensures Path(a + "=" + rest) == Path(a) == Strip(a)
    ensures Entry(a + "=" + rest) == (Strip(a), Json(Strip(rest))) && Entry(a) == (Strip(a), Unset)
  {
    FirstPart(a, rest, '=');
    assert a + "=" + rest == a + ['='] + rest;
    assert (a + "=" + rest)[|a| + 1..] == rest;
  }

  /** The first `;` ends a segment, which counts unless it is blank. */
  lemma SegmentsExact(a: string, rest: string)
    requires ';' !in a
    ensures Segments(a) == if Strip(a) == "" then [] else [Strip(a)]
    ensures Segments(a + ";" + rest) == Segments(a) + Segments(rest)
  {
    FirstPart(a, rest, ';');
    assert a + ";" + rest == a + [';'] + rest;
    FlatOne(Trim, a);
    FlatConcat(Trim, [a], Split(rest, ';'));
  }

  /** What an override configures: later segments win. */
  function Meaning(s: string): map<string, Value>
  {
    Latest(Entry, Segments(s))
  }

  // --- the owned segments ---

  datatype Owned = Owned(path: string, value: string)

  const OWNED := [
    Owned("mode", "\"client\""),
    Owned("scouting/gossip/enabled", "false"),
    Owned("scouting/multicast/enabled", "false")]

  function Written(o: Owned): string
  {
    o.path + "=" + o.value
  }

  function WrittenAll(owned: seq<Owned>): (r: seq<string>)
    ensures |r| == |owned|
  {
    if owned == [] then [] else WrittenAll(owned[..|owned| - 1]) + [Written(owned[|owned| - 1])]
  }

  function Paths(owned: seq<Owned>): set<string>
  {
    set o | o in owned :: o.path
  }

  function Forced(owned: seq<Owned>): map<string, Value>
  {
    if owned == [] then map[]
    else Forced(owned[..|owned| - 1])[owned[|owned| - 1].path := Json(owned[|owned| - 1].value)]
  }

  function Foreign(owned: seq<Owned>): string -> seq<string>
  {
    segment => if Path(segment) in Paths(owned) then [] else [segment]
  }

  function Merge(existing: string, owned: seq<Owned>): string
  {
    Join(Flat(Foreign(owned), Segments(Strip(existing))) + WrittenAll(owned), ';')
  }

  const KEY := "ZENOH_CONFIG_OVERRIDE"

  /** The environment of the process. */
  class Environment {
    var vars: map<string, string>

    constructor (vars: map<string, string>)
      ensures this.vars == vars
    {
      this.vars := vars;
    }
  }

  method ForceNativeClientMode(env: Environment) returns (merged: string)
    modifies env
    ensures merged == Merge(if KEY in old(env.vars) then old(env.vars[KEY]) else "", OWNED)
    ensures env.vars == old(env.vars)["ZENOH_CONFIG_OVERRIDE" := merged]
  {
    var existing := Strip(if KEY in env.vars then env.vars[KEY] else "");
    var kept := ForeignSegments(existing, OWNED);
    merged := Join(kept + WrittenAll(OWNED), ';');
    env.vars := env.vars[KEY := merged];
  }

  /** The loop over the parts. */
  method ForeignSegments(existing: string, owned: seq<Owned>) returns (kept: seq<string>)
    ensures kept == Flat(Foreign(owned), Segments(existing))
  {
    kept := [];
    var parts := Split(existing, ';');
    for i := 0 to |parts|
      invariant kept == Flat(Foreign(owned), Flat(Trim, parts[..i]))
    {
      FlatFlatSnoc(Foreign(owned), Trim, parts, i);
      var segment := ForeignSegment(parts[i], owned);
      kept := kept + segment;
    }
    assert parts[..|parts|] == parts;
  }

  /** One round: the trimmed part, unless nothing is left of it or its path is owned. */
  method ForeignSegment(part: string, owned: seq<Owned>) returns (segment: seq<string>)
    ensures segment == Flat(Foreign(owned), Trim(part))
  {
    segment := [];
    var trimmed := Strip(part);
    if trimmed == "" {
      return;
    }
    FlatOne(Foreign(owned), trimmed);
    if Path(trimmed) !in Paths(owned) {
      segment := [trimmed];
    }
  }

  lemma FlatFlatSnoc(f: string -> seq<string>, g: string -> seq<string>, xs: seq<string>, i: nat)
    requires i < |xs|
    ensures Flat(f, Flat(g, xs[..i + 1])) == Flat(f, Flat(g, xs[..i])) + Flat(f, g(xs[i]))
  {
    assert xs[..i + 1][..i] == xs[..i];
    FlatConcat(f, Flat(g, xs[..i]), g(xs[i]));
  }

  // --- trimming the whole first makes no difference ---

  lemma {:induction false} LStripSnoc(s: string, c: char)
    requires IsSpace(c)
    ensures LStrip(s + [c]) == if LStrip(s) == "" then "" else LStrip(s) + [c]
  {
    if s == "" {
      assert s + [c] == [c] && [c][1..] == "";
    } else {
      assert (s + [c])[1..] == s[1..] + [c];
      LStripSnoc(s[1..], c);
    }
  }

  lemma StripSpace(s: string, c: char)
    requires IsSpace(c)
    ensures Strip(s + [c]) == Strip(s) && Strip([c] + s) == Strip(s)
  {
    LStripSnoc(s, c);
    var t := LStrip(s);
    assert (t + [c])[..|t|] == t;
    assert ([c] + s)[1..] == s;
  }

  lemma TrimSpace(s: string, c: char)
    requires IsSpace(c)
    ensures Trim(s + [c]) == Trim(s) && Trim([c] + s) == Trim(s)
  {
    StripSpace(s, c);
  }

  lemma {:induction false} SplitSnoc(s: string, c: char, sep: char)
    requires c != sep
    ensures var p := Split(s, sep);
            Split(s + [c], sep) == p[..|p| - 1] + [p[|p| - 1] + [c]]
  {
    if s == "" {
      assert s + [c] == [c] && [c][1..] == "";
      assert [""][1..] == [] && [c] + "" == [c] && "" + [c] == [c];
      assert Split([c], sep) == Push(c, [""], sep) == [[c]];
    } else {
      SplitSnoc(s[1..], c, sep);
      assert (s + [c])[1..] == s[1..] + [c];
      PushLast(s[0], Split(s[1..], sep), c, sep);
    }
  }

  lemma PushLast(d: char, p: seq<string>, c: char, sep: char)
    requires |p| >= 1
    ensures var q := Push(d, p, sep);
            Push(d, p[..|p| - 1] + [p[|p| - 1] + [c]], sep) == q[..|q| - 1] + [q[|q| - 1] + [c]]
  {
    var n := |p| - 1;
    var r := p[..n] + [p[n] + [c]];
    var x := p[n] + [c];
    if d == sep {
      assert [""] + r == ([""] + p)[..n + 1] + [x];
    } else if n == 0 {
      assert r == [x] && r[1..] == [];
      assert [d] + x == [d] + p[0] + [c];
    } else {
      assert [[d] + r[0]] + r[1..] == ([[d] + p[0]] + p[1..])[..n] + [x];
    }
  }

  /** Replacing one part by one that trims to the same changes no segment. */
  lemma {:induction false} SamePart(f: string -> seq<string>, before: seq<string>, p: string, q: string,
                                    after: seq<string>)
    requires f(p) == f(q)
    ensures Flat(f, before + [p] + after) == Flat(f, before + [q] + after)
  {
    FlatConcat(f, before + [p], after);
    FlatConcat(f, before + [q], after);
    FlatConcat(f, before, [p]);
    FlatConcat(f, before, [q]);
    FlatOne(f, p);
    FlatOne(f, q);
  }

  lemma SegmentsSpaceAfter(s: string, c: char)
    requires IsSpace(c)
    ensures Segments(s + [c]) == Segments(s)
  {
    var p := Split(s, ';');
    var n := |p| - 1;
    SplitSnoc(s, c, ';');
    TrimSpace(p[n], c);
    SamePart(Trim, p[..n], p[n], p[n] + [c], []);
    assert p == p[..n] + [p[n]] + [];
    assert p[..n] + [p[n] + [c]] == p[..n] + [p[n] + [c]] + [];
  }

  lemma SegmentsSpaceBefore(s: string, c: char)
    requires IsSpace(c)
    ensures Segments([c] + s) == Segments(s)
  {
    var p := Split(s, ';');
    assert ([c] + s)[1..] == s;
    TrimSpace(p[0], c);
    SamePart(Trim, [], p[0], [c] + p[0], p[1..]);
    assert p == [] + [p[0]] + p[1..];
    assert Split([c] + s, ';') == [] + [[c] + p[0]] + p[1..];
  }

  lemma {:induction false} SegmentsLStrip(s: string)
    ensures Segments(LStrip(s)) == Segments(s)
  {
    if s != "" && IsSpace(s[0]) {
      SegmentsLStrip(s[1..]);
      SegmentsSpaceBefore(s[1..], s[0]);
      assert s == [s[0]] + s[1..];
    }
  }

  lemma {:induction false} SegmentsRStrip(s: string)
    ensures Segments(RStrip(s)) == Segments(s)
  {
    var n := |s| - 1;
    if s != "" && IsSpace(s[n]) {
      var front := s[..n];
      assert s == front + [s[n]] && RStrip(s) == RStrip(front);
      SegmentsRStrip(front);
      SegmentsSpaceAfter(front, s[n]);
    }
  }

  lemma SegmentsStrip(s: string)
    ensures Segments(Strip(s)) == Segments(s)
  {
    SegmentsLStrip(s);
    SegmentsRStrip(LStrip(s));
  }

  // --- segments, written out and read back ---

  /** What can be a segment. */
  predicate Plain(segment: string)
  {
    segment != "" && Trimmed(segment) && ';' !in segment
  }

  predicate AllPlain(segments: seq<string>)
  {
    forall x | x in segments :: Plain(x)
  }

  lemma TrimPlain(part: string)
    ensures Plain(part) ==> Trim(part) == [part]
    ensures ';' !in part ==> AllPlain(Trim(part))
  {
    var i, j := StripExact(part);
  }

  lemma SegmentsPlain(s: string)
    ensures AllPlain(Segments(s))
  {
    forall y | y in Segments(s) ensures Plain(y) {
      var x := FlatFrom(Trim, Split(s, ';'), y);
      JoinSplit(s, ';');
      TrimPlain(x);
    }
  }

  /** Reading undoes writing. */
  lemma {:induction false} SegmentsJoin(segments: seq<string>)
    requires segments != [] && AllPlain(segments)
    ensures Segments(Join(segments, ';')) == segments
  {
    forall p | p in segments ensures ';' !in p && Trim(p) == [p] {
      assert Plain(p);
      TrimPlain(p);
    }
    SplitJoin(segments, ';');
    FlatSame(Trim, segments);
  }

  /** What can be owned. */
  predicate Writable(o: Owned)
  {
    && Plain(o.path) && Plain(o.value) && '=' !in o.path
  }

  predicate AllWritable(owned: seq<Owned>)
  {
    owned != [] && forall o | o in owned :: Writable(o)
  }

  lemma WrittenReads(o: Owned)
    requires Writable(o)
    ensures Plain(Written(o)) && Path(Written(o)) == o.path && Entry(Written(o)) == (o.path, Json(o.value))
  {
    var s := Written(o);
    EntryExact(o.path, o.value);
    var i, j := StripExact(o.path);
    i, j := StripExact(o.value);
  }

  lemma {:induction false} WrittenAllFrom(owned: seq<Owned>, x: string) returns (o: Owned)
    requires x in WrittenAll(owned)
    ensures o in owned && x == Written(o)
  {
    if x == Written(owned[|owned| - 1]) {
      o := owned[|owned| - 1];
    } else {
      o := WrittenAllFrom(owned[..|owned| - 1], x);
    }
  }

  lemma {:induction false} ForeignPlain(segments: seq<string>, owned: seq<Owned>)
    requires AllPlain(segments)
    ensures AllPlain(Flat(Foreign(owned), segments))
  {
    forall y | y in Flat(Foreign(owned), segments) ensures Plain(y) {
      var x := FlatFrom(Foreign(owned), segments, y);
    }
  }

  lemma {:induction false} WrittenPlain(owned: seq<Owned>)
    requires AllWritable(owned)
    ensures AllPlain(WrittenAll(owned))
  {
    forall y | y in WrittenAll(owned) ensures Plain(y) {
      var o := WrittenAllFrom(owned, y);
      WrittenReads(o);
    }
  }

  /** The merged override consists of the foreign segments, in order, and the owned ones behind them. */
  lemma {:induction false} MergedSegments(s: string, owned: seq<Owned>)
    requires AllWritable(owned)
    ensures Segments(Merge(s, owned)) == Flat(Foreign(owned), Segments(s)) + WrittenAll(owned)
  {
    SegmentsStrip(s);
    SegmentsPlain(s);
    ForeignPlain(Segments(s), owned);
    WrittenPlain(owned);
    var all := Flat(Foreign(owned), Segments(s)) + WrittenAll(owned);
    assert |all| > 0;
    SegmentsJoin(all);
  }

  // --- what merging means ---

  lemma {:induction false} LatestForced(f: string -> (string, Value), segments: seq<string>, owned: seq<Owned>)
    requires forall o | o in owned :: f(Written(o)) == (o.path, Json(o.value))
    ensures Latest(f, segments + WrittenAll(owned)) == Latest(f, segments) + Forced(owned)
  {
    if owned == [] {
      assert segments + [] == segments;
    } else {
      var front, last := owned[..|owned| - 1], owned[|owned| - 1];
      LatestForced(f, segments, front);
      LatestSnoc(f, segments + WrittenAll(front), Written(last));
      assert segments + WrittenAll(owned) == segments + WrittenAll(front) + [Written(last)];
    }
  }

  lemma {:induction false} ForcedKeys(owned: seq<Owned>)
    ensures Forced(owned).Keys == Paths(owned)
  {
    if owned != [] {
      var front, last := owned[..|owned| - 1], owned[|owned| - 1];
      ForcedKeys(front);
      assert owned == front + [last];
      assert Paths(owned) == Paths(front) + {last.path};
    }
  }

  lemma {:induction false} LatestMerged(f: string -> (string, Value), g: string -> seq<string>,
                                        segments: seq<string>, owned: seq<Owned>)
    requires forall x | x in segments :: g(x) == if f(x).0 in Paths(owned) then [] else [x]
    requires forall o | o in owned :: f(Written(o)) == (o.path, Json(o.value))
    ensures Latest(f, Flat(g, segments) + WrittenAll(owned)) == Latest(f, segments) + Forced(owned)
  {
    LatestForced(f, Flat(g, segments), owned);
    LatestWithout(f, g, segments, Paths(owned));
    ForcedKeys(owned);
  }

  /** The override means what it meant, but for the owned paths, which have the forced values. */
  lemma {:induction false} MergeMeaning(s: string, owned: seq<Owned>)
    requires AllWritable(owned)
    ensures Meaning(Merge(s, owned)) == Meaning(s) + Forced(owned)
  {
    MergedSegments(s, owned);
    forall o | o in owned ensures Entry(Written(o)) == (o.path, Json(o.value)) {
      WrittenReads(o);
    }
    LatestMerged(Entry, Foreign(owned), Segments(s), owned);
  }

  lemma {:induction false} FlatAgain(f: string -> seq<string>, xs: seq<string>, ys: seq<string>)
    requires forall x | x in xs :: f(x) == [] || f(x) == [x]
    requires forall y | y in ys :: f(y) == []
    ensures Flat(f, Flat(f, xs) + ys) == Flat(f, xs)
  {
    forall x | x in Flat(f, xs) ensures f(x) == [x] {
      var y := FlatFrom(f, xs, x);
    }
    FlatSame(f, Flat(f, xs));
    FlatNone(f, ys);
    FlatConcat(f, Flat(f, xs), ys);
  }

  /** Merging twice is merging once. */
  lemma MergeTwice(s: string, owned: seq<Owned>)
    requires AllWritable(owned)
    ensures Merge(Merge(s, owned), owned) == Merge(s, owned)
  {
    MergedSegments(s, owned);
    SegmentsStrip(s);
    SegmentsStrip(Merge(s, owned));
    forall x | x in WrittenAll(owned) ensures Path(x) in Paths(owned) {
      var o := WrittenAllFrom(owned, x);
      WrittenReads(o);
    }
    FlatAgain(Foreign(owned), Segments(s), WrittenAll(owned));
  }

  /** The three segments of this module qualify... */
  lemma OwnedQualifies()
    ensures AllWritable(OWNED)
  {
    ModeQualifies();
    GossipQualifies();
    MulticastQualifies();
  }

  lemma ModeQualifies()
    ensures Writable(OWNED[0])
  {
    assert OWNED[0].path == "mode" && OWNED[0].value == "\"client\"";
  }

  lemma GossipQualifies()
    ensures Writable(OWNED[1])
  {
    var o := OWNED[1];
    assert o.path[0] == 's' && o.path[|o.path| - 1] == 'd' && o.value[0] == 'f' && o.value[|o.value| - 1] == 'e';
  }

  lemma MulticastQualifies()
    ensures Writable(OWNED[2])
  {
    var o := OWNED[2];
    assert o.path[0] == 's' && o.path[|o.path| - 1] == 'd' && o.value[0] == 'f' && o.value[|o.value| - 1] == 'e';
  }

  /** ...and force client mode without scouting. */
  lemma OwnedForces()
    ensures Forced(OWNED) == map["mode" := Json("\"client\""), "scouting/gossip/enabled" := Json("false"),
                                 "scouting/multicast/enabled" := Json("false")]
  {
    ForcedThree(OWNED[0], OWNED[1], OWNED[2]);
  }

  /** Whatever was configured, client mode without scouting is configured afterwards, and the rest as before. */
  lemma ClientModeForced(existing: string)
    ensures Meaning(Merge(existing, OWNED)) ==
            Meaning(existing) + map["mode" := Json("\"client\""), "scouting/gossip/enabled" := Json("false"),
                                    "scouting/multicast/enabled" := Json("false")]
  {
    OwnedQualifies();
    OwnedForces();
    MergeMeaning(existing, OWNED);
  }

  lemma ForcedThree(a: Owned, b: Owned, c: Owned)
    ensures Forced([a, b, c]) == map[a.path := Json(a.value), b.path := Json(b.value), c.path := Json(c.value)]
  {
    assert [a, b, c][..2] == [a, b] && [a, b][..1] == [a] && [a][..0] == [];
    assert Forced([a]) == map[a.path := Json(a.value)];
    assert Forced([a, b]) == map[a.path := Json(a.value), b.path := Json(b.value)];
  }
}
