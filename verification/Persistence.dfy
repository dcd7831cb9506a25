/** The rolling buffer of captured frames on disk: written one by one, pruned oldest first. */
module Persistence {
  import opened Sequences
  import opened Wrappers

  /** A file as it was written. */
  datatype Frame = Frame(name: string, size: nat, mtime: int)

  function Total(frames: seq<Frame>): nat
  {
    if frames == [] then 0 else frames[0].size + Total(frames[1..])
  }

  /** What pruning leaves of files listed oldest first. */
  function Keep(frames: seq<Frame>, maxBytes: int): seq<Frame>
  {
    if frames != [] && Total(frames) > maxBytes then Keep(frames[1..], maxBytes) else frames
  }

  /** It is the longest suffix that fits: it fits unless nothing does, and no longer one fits. */
  lemma {:induction false} KeepExact(frames: seq<Frame>, maxBytes: int)
    ensures var kept := Keep(frames, maxBytes);
            && |kept| <= |frames| && kept == frames[|frames| - |kept|..]
            && (kept != [] || maxBytes >= 0 ==> Total(kept) <= maxBytes)
            && forall k | 0 <= k < |frames| - |kept| :: Total(frames[k..]) > maxBytes
  {
    assert frames[0..] == frames;
    if frames != [] && Total(frames) > maxBytes {
      KeepExact(frames[1..], maxBytes);
      forall k | 0 <= k < |frames| - |Keep(frames, maxBytes)| ensures Total(frames[k..]) > maxBytes {
        if k > 0 {
          assert frames[1..][k - 1..] == frames[k..];
        }
      }
    }
  }

  lemma {:induction false} TotalSnoc(frames: seq<Frame>, f: Frame)
    ensures Total(frames + [f]) == Total(frames) + f.size
  {
    if frames == [] {
      assert frames + [f] == [f] && [f][1..] == [];
    } else {
      TotalSnoc(frames[1..], f);
      assert (frames + [f])[1..] == frames[1..] + [f];
    }
  }

  /** What was pruned before makes no difference to what is kept later. */
  lemma {:induction false} KeepForgets(frames: seq<Frame>, f: Frame, maxBytes: int)
    ensures Keep(Keep(frames, maxBytes) + [f], maxBytes) == Keep(frames + [f], maxBytes)
  {
    if frames != [] && Total(frames) > maxBytes {
      KeepForgets(frames[1..], f, maxBytes);
      TotalSnoc(frames, f);
      assert (frames + [f])[1..] == frames[1..] + [f];
    }
  }

  /** The file just written survives if its own size fits; otherwise nothing survives. */
  lemma {:induction false} NewFileSurvives(frames: seq<Frame>, f: Frame, maxBytes: int)
    ensures var kept := Keep(frames + [f], maxBytes);
            if f.size <= maxBytes then kept != [] && kept[|kept| - 1] == f else kept == []
  {
    TotalSnoc(frames, f);
    if frames == [] {
      assert frames + [f] == [f] && [f][1..] == [];
    } else {
      NewFileSurvives(frames[1..], f, maxBytes);
      assert (frames + [f])[1..] == frames[1..] + [f];
    }
  }

  // --- writing: a name is written over, and becomes the newest ---

  function Without(frames: seq<Frame>, name: string): (r: seq<Frame>)
    ensures forall f | f in r :: f in frames && f.name != name
  {
    if frames == [] then []
    else (if frames[0].name == name then [] else [frames[0]]) + Without(frames[1..], name)
  }

  lemma {:induction false} WithoutFresh(frames: seq<Frame>, name: string)
    requires forall f | f in frames :: f.name != name
    ensures Without(frames, name) == frames
  {
    if frames != [] {
      WithoutFresh(frames[1..], name);
      assert frames == [frames[0]] + frames[1..];
    }
  }

  function Persisted(kept: seq<Frame>, f: Frame, maxBytes: int): seq<Frame>
  {
    Keep(Without(kept, f.name) + [f], maxBytes)
  }

  /** The files left after a whole history of writes, pruning after each. */
  function Rolling(kept: seq<Frame>, history: seq<Frame>, maxBytes: int): seq<Frame>
  {
    if history == [] then kept
    else Persisted(Rolling(kept, history[..|history| - 1], maxBytes), history[|history| - 1], maxBytes)
  }

  predicate DistinctNames(frames: seq<Frame>)
  {
    forall i, j | 0 <= i < j < |frames| :: frames[i].name != frames[j].name
  }

  /** Writing over a file does not list it twice. */
  lemma PersistedDistinct(kept: seq<Frame>, f: Frame, maxBytes: int)
    requires DistinctNames(kept)
    ensures DistinctNames(Persisted(kept, f, maxBytes))
  {
    WithoutExact(kept, f.name);
    KeepExact(Without(kept, f.name) + [f], maxBytes);
  }

  /** The files of other names, in the same order. */
  lemma {:induction false} WithoutExact(frames: seq<Frame>, name: string)
    ensures forall f :: f in Without(frames, name) <==> f in frames && f.name != name
    ensures DistinctNames(frames) ==> DistinctNames(Without(frames, name))
  {
    if frames != [] {
      var rest := Without(frames[1..], name);
      WithoutExact(frames[1..], name);
      assert frames == [frames[0]] + frames[1..];
      if DistinctNames(frames) {
        DistinctTail(frames);
        forall f | f in rest ensures f.name != frames[0].name {
          assert f in frames[1..];
        }
      }
    }
  }

  lemma DistinctTail(frames: seq<Frame>)
    requires frames != [] && DistinctNames(frames)
    ensures DistinctNames(frames[1..]) && forall f | f in frames[1..] :: f.name != frames[0].name
  {
    assert forall i | 0 <= i < |frames| - 1 :: frames[1..][i] == frames[i + 1];
  }

  /**
    * Step-by-step pruning gives what one pruning of everything ever written would give:
    * the longest suffix of the history (after the files that were there) that fits.
    */
  lemma {:induction false} RollingIsOneShot(start: seq<Frame>, history: seq<Frame>, maxBytes: int)
    requires history != [] && DistinctNames(start + history)
    ensures Rolling(start, history, maxBytes) == Keep(start + history, maxBytes)
  {
    var n := |history| - 1;
    var front, f := history[..n], history[n];
    var before := start + front;
    assert start + history == before + [f];
    DistinctFront(before, f);
    if front == [] {
      assert before == start;
      WithoutFresh(start, f.name);
    } else {
      RollingIsOneShot(start, front, maxBytes);
      PersistedKeeps(before, f, maxBytes);
    }
  }

  lemma DistinctFront(before: seq<Frame>, f: Frame)
    requires DistinctNames(before + [f])
    ensures DistinctNames(before) && forall g | g in before :: g.name != f.name
  {
    var all := before + [f];
    assert forall i | 0 <= i < |before| :: all[i] == before[i];
    forall g | g in before ensures g.name != f.name {
      var i :| 0 <= i < |before| && before[i] == g;
      assert all[i] == g && all[|before|] == f;
    }
  }

  lemma {:induction false} PersistedKeeps(before: seq<Frame>, f: Frame, maxBytes: int)
    requires forall g | g in before :: g.name != f.name
    ensures Persisted(Keep(before, maxBytes), f, maxBytes) == Keep(before + [f], maxBytes)
  {
    KeepExact(before, maxBytes);
    WithoutFresh(Keep(before, maxBytes), f.name);
    KeepForgets(before, f, maxBytes);
  }

  /** From an empty directory: exactly the longest suffix of the history that fits. */
  lemma {:induction false} RollingFromEmpty(history: seq<Frame>, maxBytes: int)
    requires DistinctNames(history) && maxBytes >= 0
    ensures var kept := Rolling([], history, maxBytes);
            && |kept| <= |history| && kept == history[|history| - |kept|..] && Total(kept) <= maxBytes
            && forall k | 0 <= k < |history| - |kept| :: Total(history[k..]) > maxBytes
  {
    assert [] + history == history;
    if history != [] {
      RollingIsOneShot([], history, maxBytes);
    }
    KeepExact(history, maxBytes);
  }

  // --- the directory, and the buffer over it ---

  datatype Meta = Meta(size: nat, mtime: int)
  type Dir = map<string, Meta>

  function Names(frames: seq<Frame>): seq<string>
  {
    seq(|frames|, i requires 0 <= i < |frames| => frames[i].name)
  }

  predicate Lists(dir: Dir, frames: seq<Frame>)
  {
    && (forall i, j | 0 <= i < j < |frames| :: frames[i].mtime < frames[j].mtime)
    && (forall i | 0 <= i < |frames| ::
          frames[i].name in dir && dir[frames[i].name] == Meta(frames[i].size, frames[i].mtime))
    && (forall n | n in dir :: Listed(frames, n))
  }

  predicate Listed(frames: seq<Frame>, name: string)
  {
    exists f | f in frames :: f.name == name
  }

  lemma NamesAreListed(frames: seq<Frame>, name: string)
    ensures name in Names(frames) <==> Listed(frames, name)
  {
    if Listed(frames, name) {
      var f :| f in frames && f.name == name;
      var i :| 0 <= i < |frames| && frames[i] == f;
      assert Names(frames)[i] == name;
    }
  }

  predicate Ascending(dir: Dir, paths: seq<string>)
  {
    && (forall p | p in paths :: p in dir)
    && forall i, j | 0 <= i < j < |paths| :: dir[paths[i]].mtime < dir[paths[j]].mtime
  }

  ghost predicate SameElements(a: seq<string>, b: seq<string>)
  {
    forall p :: p in a <==> p in b
  }

  lemma NoneIsEmpty(a: seq<string>, b: seq<string>)
    requires SameElements(a, b)
    ensures a != [] ==> b != []
  {
    if a != [] {
      assert a[0] in a;
    }
  }

  /** There is one way to list files by age. */
  lemma {:induction false} AscendingUnique(dir: Dir, a: seq<string>, b: seq<string>)
    requires Ascending(dir, a) && Ascending(dir, b) && SameElements(a, b)
    ensures a == b
    decreases |a|
  {
    NoneIsEmpty(a, b);
    NoneIsEmpty(b, a);
    if a != [] {
      assert a[0] in b && b[0] in a;
      assert a[0] == b[0];
      forall p ensures p in a[1..] <==> p in b[1..] {
        assert p in a[1..] <==> p in a && p != a[0];
        assert p in b[1..] <==> p in b && p != b[0];
      }
      AscendingUnique(dir, a[1..], b[1..]);
    }
  }

  /** Insertion by age, as a stable sort does it. */
  function Insert(dir: Dir, p: string, sorted: seq<string>): (r: seq<string>)
    requires p in dir && forall q | q in sorted :: q in dir
    ensures forall q :: q in r <==> q == p || q in sorted
  {
    if sorted == [] || dir[p].mtime < dir[sorted[0]].mtime then [p] + sorted
    else [sorted[0]] + Insert(dir, p, sorted[1..])
  }

  lemma OldestInFront(dir: Dir, p: string, sorted: seq<string>)
    requires p in dir && Ascending(dir, sorted) && forall q | q in sorted :: dir[p].mtime < dir[q].mtime
    ensures Ascending(dir, [p] + sorted)
  {
    var r := [p] + sorted;
    forall i, j | 0 <= i < j < |r| ensures dir[r[i]].mtime < dir[r[j]].mtime {
      assert r[j] == sorted[j - 1] && r[j] in sorted;
    }
  }

  lemma {:induction false} InsertAscends(dir: Dir, p: string, sorted: seq<string>)
    requires p in dir && Ascending(dir, sorted)
    requires forall q | q in sorted :: dir[q].mtime != dir[p].mtime
    ensures Ascending(dir, Insert(dir, p, sorted))
  {
    if sorted == [] {
    } else {
      var first, rest := sorted[0], sorted[1..];
      forall q | q in rest ensures dir[first].mtime < dir[q].mtime {
        var k :| 0 <= k < |rest| && rest[k] == q;
        assert q == sorted[k + 1];
      }
      assert sorted == [first] + rest && first in sorted;
      if dir[p].mtime < dir[first].mtime {
        OldestInFront(dir, p, sorted);
      } else {
        InsertAscends(dir, p, rest);
        OldestInFront(dir, first, Insert(dir, p, rest));
      }
    }
  }

  /** `files.sort(key=lambda path: path.stat().st_mtime)` */
  function SortByAge(dir: Dir, paths: seq<string>): (r: seq<string>)
    requires forall p | p in paths :: p in dir
    ensures forall p :: p in r <==> p in paths
  {
    if paths == [] then paths
    else
      var front, last := paths[..|paths| - 1], paths[|paths| - 1];
      assert paths == front + [last];
      Insert(dir, last, SortByAge(dir, front))
  }

  lemma {:induction false} SortAscends(dir: Dir, paths: seq<string>)
    requires NoDuplicates(paths) && forall p | p in paths :: p in dir
    requires forall p, q | p in dir && q in dir && p != q :: dir[p].mtime != dir[q].mtime
    ensures Ascending(dir, SortByAge(dir, paths))
  {
    if paths != [] {
      var front, p := paths[..|paths| - 1], paths[|paths| - 1];
      SortAscends(dir, front);
      assert p !in front;
      InsertAscends(dir, p, SortByAge(dir, front));
    }
  }

  /** In whatever order the directory is read, sorting by age lists the files as they were written. */
  lemma {:induction false} SortFindsOrder(dir: Dir, frames: seq<Frame>, paths: seq<string>)
    requires Lists(dir, frames) && NoDuplicates(paths) && forall p :: p in paths <==> p in dir
    ensures SortByAge(dir, paths) == Names(frames)
  {
    forall p, q | p in dir && q in dir && p != q ensures dir[p].mtime != dir[q].mtime {
      assert Listed(frames, p) && Listed(frames, q);
    }
    SortAscends(dir, paths);
    forall p ensures p in paths <==> p in Names(frames) {
      NamesAreListed(frames, p);
    }
    forall p | p in Names(frames) ensures p in dir {
      NamesAreListed(frames, p);
    }
    AscendingUnique(dir, SortByAge(dir, paths), Names(frames));
  }

  /** `_suffix_for_encoding` */
  function Suffix(encoding: string): string
  {
    if encoding == "image/jpeg" then ".jpg"
    else if encoding == "image/png" then ".png"
    else if encoding == "image/webp" then ".webp"
    else ".bin"
  }

  /** Four suffixes, the last for every other encoding. */
  lemma SuffixExact(encoding: string)
    ensures Suffix("image/jpeg") == ".jpg" && Suffix("image/png") == ".png" && Suffix("image/webp") == ".webp"
    ensures encoding !in {"image/jpeg", "image/png", "image/webp"} ==> Suffix(encoding) == ".bin"
  {
  }

  /** Files of different captures have different names, since capture ids are all of the same length. */
  lemma NamesDistinct(ids: seq<string>, encodings: seq<string>, frames: seq<Frame>, n: nat)
    requires NoDuplicates(ids) && |ids| == |encodings| == |frames|
    requires forall i | 0 <= i < |ids| :: |ids[i]| == n && frames[i].name == ids[i] + Suffix(encodings[i])
    ensures DistinctNames(frames)
  {
    forall i, j | 0 <= i < j < |frames| ensures frames[i].name != frames[j].name {
      assert frames[i].name[..n] == ids[i] && frames[j].name[..n] == ids[j];
    }
  }

  class PersistenceBuffer {
    const enabled: bool
    const maxBytes: int
    var dir: Dir
    /** The same files, oldest first. */
    ghost var kept: seq<Frame>

    ghost predicate Valid()
      reads this
    {
      Lists(dir, kept)
    }

    constructor (enabled: bool, maxBytes: int)
      ensures Valid() && kept == [] && this.enabled == enabled && this.maxBytes == maxBytes
    {
      this.enabled, this.maxBytes := enabled, maxBytes;
      dir, kept := map[], [];
    }

    /** The clock has moved on since the last write. */
    method Persist(captureId: string, encoding: string, payload: seq<Byte>, now: int) returns (path: Option<string>)
      requires Valid() && forall f | f in kept :: f.mtime < now
      modifies this
      ensures Valid()
      ensures path == if enabled then Some(captureId + Suffix(encoding)) else None
      ensures kept == if enabled
                      then Persisted(old(kept), Frame(captureId + Suffix(encoding), |payload|, now), maxBytes)
                      else old(kept)
    {
      if !enabled {
        return None;
      }
      var target := captureId + Suffix(encoding);
      ListsWritten(dir, kept, Frame(target, |payload|, now));
      kept := Without(kept, target) + [Frame(target, |payload|, now)];
      dir := dir[target := Meta(|payload|, now)];
      Prune();
      path := Some(target);
    }

    /** `iterdir`: every file once, in no particular order. */
    method IterDir() returns (paths: seq<string>)
      ensures NoDuplicates(paths) && forall p :: p in paths <==> p in dir
    {
      paths := [];
      var rest := dir.Keys;
      while rest != {}
        invariant NoDuplicates(paths) && rest <= dir.Keys && forall p :: p in paths <==> p in dir && p !in rest
        decreases |rest|
      {
        var p :| p in rest;
        paths, rest := paths + [p], rest - {p};
      }
    }

    method Prune()
      requires Valid()
      modifies this
      ensures Valid() && kept == Keep(old(kept), maxBytes)
    {
      var files := IterDir();
      SortFindsOrder(dir, kept, files);
      files := SortByAge(dir, files);
      var total := TotalSize(files);
      while total > maxBytes && files != []
        invariant Valid() && files == Names(kept) && total == Total(kept)
        invariant Keep(kept, maxBytes) == Keep(old(kept), maxBytes)
        decreases |files|
      {
        var oldest := files[0];
        files := files[1..];
        var size := Unlink(oldest);
        total := total - size;
      }
    }

    /** Delete the oldest file. */
    method Unlink(oldest: string) returns (size: nat)
      requires Valid() && kept != [] && oldest == kept[0].name
      modifies this
      ensures Valid() && kept == old(kept)[1..] && size == old(kept)[0].size
      ensures Names(kept) == Names(old(kept))[1..]
    {
      ListsRemoved(dir, kept);
      size := dir[oldest].size;
      dir, kept := dir - {oldest}, kept[1..];
    }

    method TotalSize(files: seq<string>) returns (total: nat)
      requires Valid() && files == Names(kept)
      ensures total == Total(kept)
    {
      total := 0;
      for i := 0 to |files|
        invariant total + Total(kept[i..]) == Total(kept)
      {
        assert kept[i..][1..] == kept[i + 1..];
        total := total + dir[files[i]].size;
      }
    }
  }

  lemma ListsRemoved(dir: Dir, frames: seq<Frame>)
    requires Lists(dir, frames) && frames != []
    ensures Lists(dir - {frames[0].name}, frames[1..]) && Names(frames)[1..] == Names(frames[1..])
  {
    var rest, d := frames[1..], dir - {frames[0].name};
    assert Names(frames)[1..] == Names(rest);
    forall i | 0 <= i < |rest|
      ensures rest[i].name in d && d[rest[i].name] == Meta(rest[i].size, rest[i].mtime)
    {
      assert dir[rest[i].name].mtime == rest[i].mtime > frames[0].mtime;
    }
    forall n | n in d ensures Listed(rest, n) {
      var f :| f in frames && f.name == n;
      assert f in rest;
    }
  }

  lemma {:induction false} WithoutOrdered(frames: seq<Frame>, name: string)
    requires forall i, j | 0 <= i < j < |frames| :: frames[i].mtime < frames[j].mtime
    ensures var r := Without(frames, name);
            && (forall i, j | 0 <= i < j < |r| :: r[i].mtime < r[j].mtime)
            && forall f | f in frames && f.name != name :: f in r
  {
    if frames != [] {
      WithoutOrdered(frames[1..], name);
    }
  }

  lemma {:induction false} ListsWritten(dir: Dir, frames: seq<Frame>, f: Frame)
    requires Lists(dir, frames) && forall g | g in frames :: g.mtime < f.mtime
    ensures Lists(dir[f.name := Meta(f.size, f.mtime)], Without(frames, f.name) + [f])
  {
    WithoutOrdered(frames, f.name);
    ListsAppended(dir, frames, Without(frames, f.name), f);
  }

  lemma ListsAppended(dir: Dir, frames: seq<Frame>, rest: seq<Frame>, f: Frame)
    requires Lists(dir, frames) && forall g | g in frames :: g.mtime < f.mtime
    requires forall i, j | 0 <= i < j < |rest| :: rest[i].mtime < rest[j].mtime
    requires forall g :: g in rest <==> g in frames && g.name != f.name
    ensures Lists(dir[f.name := Meta(f.size, f.mtime)], rest + [f])
  {
    var d, r := dir[f.name := Meta(f.size, f.mtime)], rest + [f];
    forall i | 0 <= i < |r| ensures r[i].name in d && d[r[i].name] == Meta(r[i].size, r[i].mtime) {
      if i < |rest| {
        assert rest[i] in rest;
        var k :| 0 <= k < |frames| && frames[k] == rest[i];
      }
    }
    forall i, j | 0 <= i < j < |r| ensures r[i].mtime < r[j].mtime {
      assert rest[i] in rest;
    }
    forall n | n in d ensures Listed(r, n) {
      if n == f.name {
        assert f in r;
      } else {
        var g :| g in frames && g.name == n;
        assert g in r;
      }
    }
  }
}
