/** From exposure parameters, set at any time, to the command line of the next capture. */
module Exposure {
  import opened Sequences
  import opened Text
  import opened Wrappers

  import opened ParamTypes
  import opened ParamStore
  import ParamRuns
  import ParamServer

  /** `str(value)` */
  type Show = ParameterValue -> string

  datatype Setting = Setting(key: string, text: string)

  /** Whether a parameter is handed to the camera, and as which text. */
  predicate Applies(values: map<string, ParameterValue>, name: string, show: Show)
  {
    name in values && values[name] != NotSet && Strip(show(values[name])) != ""
  }

  function Applied(values: map<string, ParameterValue>, name: string, show: Show): Setting
    requires Applies(values, name, show)
  {
    Setting(name, Strip(show(values[name])))
  }

  /** What the store holds when the i-th name is read: requests may be handled in between. */
  type Moments = nat -> map<string, ParameterValue>

  function Still(values: map<string, ParameterValue>): Moments
  {
    (i: nat) => values
  }

  /** The settings read from the first n names, in their order, and from all of them. */
  function SettingsUpTo(now: Moments, names: seq<string>, show: Show, n: nat): seq<Setting>
    requires n <= |names|
  {
    if n == 0 then []
    else
      SettingsUpTo(now, names, show, n - 1) +
      if Applies(now(n - 1), names[n - 1], show) then [Applied(now(n - 1), names[n - 1], show)] else []
  }

  function Settings(now: Moments, names: seq<string>, show: Show): seq<Setting>
  {
    SettingsUpTo(now, names, show, |names|)
  }

  /** The places below n that pass a test. */
  function Positions(test: nat -> bool, n: nat): seq<nat>
  {
    if n == 0 then [] else Positions(test, n - 1) + if test(n - 1) then [n - 1] else []
  }

  /** All that pass, and in order. */
  lemma {:induction false} PositionsExact(test: nat -> bool, n: nat)
    ensures var at := Positions(test, n);
            && (forall k | 0 <= k < |at| :: at[k] < n && test(at[k]))
            && (forall k, l | 0 <= k < l < |at| :: at[k] < at[l])
            && (forall i: nat | i < n && test(i) :: i in at)
  {
    if n > 0 {
      var before, at := Positions(test, n - 1), Positions(test, n);
      PositionsExact(test, n - 1);
      forall i: nat | i < n && test(i) ensures i in at {
        if i < n - 1 {
          assert i in before;
        } else {
          assert at[|at| - 1] == n - 1;
        }
      }
    }
  }

  /** The settings are those of the names that apply when they are read. */
  lemma {:induction false} SettingsExact(now: Moments, names: seq<string>, show: Show, n: nat, test: nat -> bool)
    requires n <= |names|
    requires forall i: nat | i < n :: test(i) <==> Applies(now(i), names[i], show)
    ensures var at := Positions(test, n);
            && |at| == |SettingsUpTo(now, names, show, n)|
            && forall k | 0 <= k < |at| ::
                 && at[k] < n && Applies(now(at[k]), names[at[k]], show)
                 && SettingsUpTo(now, names, show, n)[k] == Applied(now(at[k]), names[at[k]], show)
  {
    if n > 0 {
      SettingsExact(now, names, show, n - 1, test);
    }
  }

  // --- the command line ---

  datatype Camera = Camera(port: string, keepOnCamera: bool, extraArgs: seq<string>)

  const CAPTURE := "--capture-image-and-download"

  /** What one setting inserts; the text is trimmed again, and skipped if nothing is left. */
  function Inserted(s: Setting): seq<string>
  {
    if Strip(s.text) == "" then [] else ["--set-config", s.key + "=" + Strip(s.text)]
  }

  function InsertedAll(exposure: seq<Setting>): seq<string>
  {
    if exposure == [] then []
    else InsertedAll(exposure[..|exposure| - 1]) + Inserted(exposure[|exposure| - 1])
  }

  function Report(s: Setting): seq<Setting>
  {
    if Strip(s.text) == "" then [] else [Setting(s.key, Strip(s.text))]
  }

  /** The settings reported with the frame. */
  function Reported(exposure: seq<Setting>): seq<Setting>
  {
    if exposure == [] then [] else Reported(exposure[..|exposure| - 1]) + Report(exposure[|exposure| - 1])
  }

  lemma {:induction false} AppendOne(front: seq<Setting>, last: Setting)
    ensures Reported(front + [last]) == Reported(front) + Report(last)
    ensures InsertedAll(front + [last]) == InsertedAll(front) + Inserted(last)
  {
    assert (front + [last])[..|front|] == front;
  }

  lemma UpToNext(exposure: seq<Setting>, i: nat)
    requires i < |exposure|
    ensures Reported(exposure[..i + 1]) == Reported(exposure[..i]) + Report(exposure[i])
    ensures InsertedAll(exposure[..i + 1]) == InsertedAll(exposure[..i]) + Inserted(exposure[i])
  {
    assert exposure[..i + 1] == exposure[..i] + [exposure[i]];
    AppendOne(exposure[..i], exposure[i]);
  }

  function Front(camera: Camera): seq<string>
  {
    ["gphoto2"] + if camera.port != "" then ["--port", camera.port] else []
  }

  function Back(camera: Camera, template: string): seq<string>
  {
    [CAPTURE, "--force-overwrite", "--filename", template]
    + (if camera.keepOnCamera then ["--keep"] else []) + camera.extraArgs
  }

  function Command(camera: Camera, exposure: seq<Setting>, template: string): seq<string>
  {
    Front(camera) + InsertedAll(exposure) + Back(camera, template)
  }

  /** A command line, place by place: the pairs stand behind the port and before the capture. */
  predicate CommandLine(command: seq<string>, camera: Camera, inserted: seq<string>, template: string)
  {
    var p := if camera.port == "" then 1 else 3;
    var q := p + |inserted|;
    var r := q + if camera.keepOnCamera then 5 else 4;
    && |command| == r + |camera.extraArgs|
    && command[0] == "gphoto2"
    && (camera.port != "" ==> command[1..p] == ["--port", camera.port])
    && command[p..q] == inserted
    && command[q..q + 4] == ["--capture-image-and-download", "--force-overwrite", "--filename", template]
    && (camera.keepOnCamera ==> command[q + 4] == "--keep")
    && command[r..] == camera.extraArgs
  }

  lemma {:induction false} CommandExact(camera: Camera, exposure: seq<Setting>, template: string)
    ensures CommandLine(Command(camera, exposure, template), camera, InsertedAll(exposure), template)
  {
    var p := if camera.port == "" then 1 else 3;
    var q := p + |InsertedAll(exposure)|;
    var command := Command(camera, exposure, template);
    assert command[p..q] == InsertedAll(exposure);
    assert command[q..] == Back(camera, template);
    BackExact(camera, template);
    var back := Back(camera, template);
    assert command[q..q + 4] == back[..4];
    assert command[q + (if camera.keepOnCamera then 5 else 4)..] == back[if camera.keepOnCamera then 5 else 4..];
  }

  lemma BackExact(camera: Camera, template: string)
    ensures var (back, r) := (Back(camera, template), if camera.keepOnCamera then 5 else 4);
            && |back| == r + |camera.extraArgs|
            && back[..4] == ["--capture-image-and-download", "--force-overwrite", "--filename", template]
            && (camera.keepOnCamera ==> back[4] == "--keep") && back[r..] == camera.extraArgs
  {
  }

  class GPhoto2CaptureBackend {
    const config: Camera

    constructor (config: Camera)
      ensures this.config == config
    {
      this.config := config;
    }

    /** The command assembly of `capture`, which CommandExact spells out, and the exposure reported with the frame. */
    method Assemble(exposure: seq<Setting>, template: string) returns (command: seq<string>, applied: seq<Setting>)
      ensures command == Command(config, exposure, template)
      ensures applied == Reported(exposure)
    {
      command := ["gphoto2"];
      if config.port != "" {
        command := command + ["--port", config.port];
      }
      assert command == Front(config);
      command, applied := InsertSettings(command, exposure);
      command := command + [CAPTURE, "--force-overwrite", "--filename", template];
      if config.keepOnCamera {
        command := command + ["--keep"];
      }
      if config.extraArgs != [] {
        command := command + config.extraArgs;
      }
    }

    /** The loop over the exposure. */
    method InsertSettings(command0: seq<string>, exposure: seq<Setting>)
      returns (command: seq<string>, applied: seq<Setting>)
      ensures command == command0 + InsertedAll(exposure)
      ensures applied == Reported(exposure)
    {
      command, applied := command0, [];
      for i := 0 to |exposure|
        invariant command == command0 + InsertedAll(exposure[..i])
        invariant applied == Reported(exposure[..i])
      {
        UpToNext(exposure, i);
        var text := Strip(exposure[i].text);
        if text != "" {
          command := command + ["--set-config", exposure[i].key + "=" + text];
          applied := applied + [Setting(exposure[i].key, text)];
        }
      }
      assert exposure[..|exposure|] == exposure;
    }
  }

  predicate AllTrimmed(exposure: seq<Setting>)
  {
    forall i | 0 <= i < |exposure| :: exposure[i].text != "" && Trimmed(exposure[i].text)
  }

  /** Of trimmed settings each inserts its pair, in order. */
  lemma {:induction false} InsertedAt(exposure: seq<Setting>)
    requires AllTrimmed(exposure)
    ensures |InsertedAll(exposure)| == 2 * |exposure|
    ensures forall k | 0 <= k < |exposure| ::
              && InsertedAll(exposure)[2 * k] == "--set-config"
              && InsertedAll(exposure)[2 * k + 1] == exposure[k].key + "=" + exposure[k].text
  {
    if exposure != [] {
      var front, last := exposure[..|exposure| - 1], exposure[|exposure| - 1];
      assert AllTrimmed(front);
      InsertedAt(front);
      StripTrims(last.text);
      assert Inserted(last) == ["--set-config", last.key + "=" + last.text];
    }
  }

  /** Reported are the settings that are not blank, trimmed, in order... */
  lemma {:induction false} ReportedExact(exposure: seq<Setting>, n: nat, test: nat -> bool)
    requires n <= |exposure|
    requires forall i: nat | i < n :: test(i) <==> Strip(exposure[i].text) != ""
    ensures var (at, reported) := (Positions(test, n), Reported(exposure[..n]));
            && |at| == |reported|
            && forall k | 0 <= k < |at| ::
                 at[k] < n && reported[k] == Setting(exposure[at[k]].key, Strip(exposure[at[k]].text))
  {
    if n > 0 {
      UpToNext(exposure, n - 1);
      ReportedExact(exposure, n - 1, test);
    }
  }

  /** ...and they insert the same pairs as all of them: a blank setting inserts nothing. */
  lemma {:induction false} ReportedInsert(exposure: seq<Setting>)
    ensures AllTrimmed(Reported(exposure)) && InsertedAll(Reported(exposure)) == InsertedAll(exposure)
  {
    if exposure != [] {
      var front, last := exposure[..|exposure| - 1], exposure[|exposure| - 1];
      assert exposure == front + [last];
      ReportedInsert(front);
      ReportInserts(last);
      JoinInserts(front, last, Reported(front), Report(last));
    }
  }

  lemma {:induction false} JoinInserts(front: seq<Setting>, last: Setting, a: seq<Setting>, b: seq<Setting>)
    requires AllTrimmed(a) && AllTrimmed(b)
    requires InsertedAll(a) == InsertedAll(front) && InsertedAll(b) == InsertedAll([last])
    ensures AllTrimmed(a + b) && InsertedAll(a + b) == InsertedAll(front + [last])
  {
    InsertedAppend(a, b);
    InsertedAppend(front, [last]);
  }

  lemma ReportInserts(s: Setting)
    ensures AllTrimmed(Report(s)) && InsertedAll(Report(s)) == InsertedAll([s])
  {
    StripTrims(s.text);
    StripTrims(Strip(s.text));
    InsertedOne(s);
    InsertedOne(Setting(s.key, Strip(s.text)));
  }

  lemma InsertedOne(s: Setting)
    ensures InsertedAll([s]) == Inserted(s)
  {
    assert [s][..|[s]| - 1] == [];
  }

  lemma {:induction false} InsertedAppend(a: seq<Setting>, b: seq<Setting>)
    ensures InsertedAll(a + b) == InsertedAll(a) + InsertedAll(b)
    decreases |b|
  {
    if b == [] {
      assert a + b == a;
    } else {
      InsertedAppend(a, b[..|b| - 1]);
      assert (a + b)[..|a + b| - 1] == a + b[..|b| - 1];
    }
  }

  /** Trimmed settings are reported as they are. */
  lemma {:induction false} ReportedTrimmed(exposure: seq<Setting>)
    requires AllTrimmed(exposure)
    ensures Reported(exposure) == exposure
  {
    if exposure != [] {
      var front, last := exposure[..|exposure| - 1], exposure[|exposure| - 1];
      assert AllTrimmed(front);
      ReportedTrimmed(front);
      assert Strip(last.text) == last.text by {
        StripTrims(last.text);
      }
      assert last == Setting(last.key, last.text) && exposure == front + [last];
    }
  }

  // --- the parameter server that holds the exposure ---

  function Declared(name: string): Descriptor
  {
    Descriptor(name, STRING, "gphoto2 " + name + " (empty = leave camera as-is)", "", false, true, None, None)
  }

  /** The store after `start`, for the configured names and texts. */
  function Started(params: seq<(string, string)>): Store
  {
    if params == [] then Store([], map[], map[])
    else
      var (name, text) := params[|params| - 1];
      Started(params[..|params| - 1]).WithParameter(name, Declared(name), StringValue(text))
  }

  class ExposureParameterServer {
    const params: seq<(string, string)>
    var backend: ParamServer.DictParameterBackend?

    constructor (params: seq<(string, string)>)
      ensures this.params == params && backend == null
    {
      this.params, backend := params, null;
    }

    method Start()
      modifies this
      ensures backend != null && fresh(backend) && backend.Valid()
      ensures backend.contents == Started(params) && backend.hooked && backend.notified == []
    {
      var b := new ParamServer.DictParameterBackend();
      for i := 0 to |params|
        invariant b.Valid() && fresh(b) && !b.hooked && b.notified == []
        invariant b.contents == Started(params[..i])
      {
        assert params[..i + 1][..i] == params[..i];
        var name := params[i].0;
        var descriptor := new ParamServer.ParameterDescriptor(Declared(name));
        b.Declare(name, StringValue(params[i].1), descriptor, "", false, None, None);
      }
      assert params[..|params|] == params;
      b.hooked := true;
      backend := b;
    }

    /** The non-empty exposure settings; the keys of a dict are distinct, so each name appears once. */
    method Current(show: Show) returns (out: seq<Setting>)
      requires backend != null ==> backend.Valid()
      ensures out == if backend == null then []
                     else Settings(Still(backend.contents.values), Names(params), show)
    {
      out := [];
      if backend == null {
        return;
      }
      var names := Names(params);
      for i := 0 to |names|
        invariant out == SettingsUpTo(Still(backend.contents.values), names, show, i)
      {
        if names[i] in backend.params {
          var raw := backend.params[names[i]].value;
          if raw != NotSet {
            var text := Strip(show(raw));
            if text != "" {
              out := out + [Setting(names[i], text)];
            }
          }
        }
      }
    }
  }

  function Names(params: seq<(string, string)>): (r: seq<string>)
    ensures |r| == |params|
  {
    seq(|params|, i requires 0 <= i < |params| => params[i].0)
  }

  lemma FrontNames(params: seq<(string, string)>)
    requires params != [] && NoDuplicates(Names(params))
    ensures var front := params[..|params| - 1];
            && NoDuplicates(Names(front)) && Names(params) == Names(front) + [params[|params| - 1].0]
            && params[|params| - 1].0 !in Names(front)
  {
    var n := |params| - 1;
    var front := params[..n];
    forall i, j | 0 <= i < j < n ensures Names(front)[i] != Names(front)[j] {
      assert Names(params)[i] != Names(params)[j];
    }
    assert Names(params) == Names(front) + [params[n].0];
    forall i | 0 <= i < n ensures Names(front)[i] != params[n].0 {
      assert Names(params)[i] != Names(params)[n];
    }
  }

  /** `start` declares every configured name once, in order... */
  lemma {:induction false} StartedNames(params: seq<(string, string)>)
    requires NoDuplicates(Names(params))
    ensures var store := Started(params);
            store.Valid() && store.names == Names(params) && forall n :: n in store.descs <==> n in Names(params)
  {
    if params != [] {
      FrontNames(params);
      StartedNames(params[..|params| - 1]);
    }
  }

  /** ...with its configured text, writable and dynamically typed. */
  lemma {:induction false} StartedAt(params: seq<(string, string)>, i: nat)
    requires NoDuplicates(Names(params)) && i < |params|
    ensures var (store, name) := (Started(params), params[i].0);
            && name in store.descs && store.descs[name] == Declared(name)
            && !store.descs[name].readOnly && store.descs[name].dynamicTyping && store.descs[name].typ == STRING
            && name in store.values && store.values[name] == StringValue(params[i].1)
  {
    FrontNames(params);
    if i < |params| - 1 {
      StartedAt(params[..|params| - 1], i);
      assert Names(params[..|params| - 1])[i] == params[i].0;
    }
  }

  lemma AnyValueAccepted(name: string, value: ParameterValue)
    ensures Accepts(Declared(name), value)
  {
  }

  /** The second trimming, on the capture side, changes and skips nothing. */
  lemma InsertedSettings(now: Moments, names: seq<string>, show: Show)
    ensures var exposure := Settings(now, names, show);
            && AllTrimmed(exposure) && |InsertedAll(exposure)| == 2 * |exposure|
            && forall k | 0 <= k < |exposure| ::
                 && InsertedAll(exposure)[2 * k] == "--set-config"
                 && InsertedAll(exposure)[2 * k + 1] == exposure[k].key + "=" + exposure[k].text
  {
    SettingsTrimmed(now, names, show, |names|);
    InsertedAt(Settings(now, names, show));
  }

  lemma {:induction false} SettingsTrimmed(now: Moments, names: seq<string>, show: Show, n: nat)
    requires n <= |names|
    ensures AllTrimmed(SettingsUpTo(now, names, show, n))
  {
    if n > 0 {
      SettingsTrimmed(now, names, show, n - 1);
      if Applies(now(n - 1), names[n - 1], show) {
        StripTrims(show(now(n - 1)[names[n - 1]]));
      }
    }
  }

  /** The parameters whose text is to reach the camera after a history of requests. */
  predicate Wanted(store: Store, reqs: seq<Request>, show: Show, name: string)
  {
    && name in store.values
    && ParamRuns.Current(store, reqs, name) != NotSet
    && Strip(show(ParamRuns.Current(store, reqs, name))) != ""
  }

  function Pair(store: Store, reqs: seq<Request>, show: Show, name: string): string
    requires name in store.values
  {
    name + "=" + Strip(show(ParamRuns.Current(store, reqs, name)))
  }

  /** The requests handled by the time the i-th name is read. */
  type History = nat -> seq<Request>

  ghost function After(s: Server, history: History): Moments
    requires s.Valid()
  {
    (i: nat) => ParamRuns.Run(s, history(i)).store.values
  }

  /** A store holds the last value accepted for a name, or the declared one. */
  predicate Holds(values: map<string, ParameterValue>, store: Store, reqs: seq<Request>, name: string)
  {
    name in store.values && name in values && values[name] == ParamRuns.Current(store, reqs, name)
  }

  lemma {:induction false} HeldAt(params: seq<(string, string)>, s: Server, history: History, i: nat)
    requires NoDuplicates(Names(params)) && s.store == Started(params) && s.Valid() && i < |params|
    ensures Holds(After(s, history)(i), s.store, history(i), params[i].0)
  {
    StartedAt(params, i);
    ParamRuns.CurrentIsStored(s, history(i), params[i].0);
  }

  /** What the settings read insert, place by place. */
  lemma InsertedPairs(now: Moments, names: seq<string>, show: Show, test: nat -> bool)
    returns (at: seq<nat>, inserted: seq<string>)
    requires forall i: nat | i < |names| :: test(i) <==> Applies(now(i), names[i], show)
    ensures inserted == InsertedAll(Settings(now, names, show)) && |inserted| == 2 * |at|
    ensures forall k | 0 <= k < |at| ::
              && at[k] < |names| && test(at[k])
              && inserted[2 * k] == "--set-config"
              && inserted[2 * k + 1] == names[at[k]] + "=" + Applied(now(at[k]), names[at[k]], show).text
    ensures forall k, l | 0 <= k < l < |at| :: at[k] < at[l]
    ensures forall i: nat | i < |names| && test(i) :: i in at
  {
    at, inserted := Positions(test, |names|), InsertedAll(Settings(now, names, show));
    PositionsExact(test, |names|);
    SettingsExact(now, names, show, |names|, test);
    InsertedSettings(now, names, show);
  }

  /** The pairs set exactly the wanted names, to the text wanted when each is read: `at` says where they stand. */
  ghost predicate SetsWanted(params: seq<(string, string)>, store: Store, history: History, show: Show,
                             at: seq<nat>, inserted: seq<string>)
  {
    && |inserted| == 2 * |at|
    && (forall k | 0 <= k < |at| ::
          && at[k] < |params| && Wanted(store, history(at[k]), show, params[at[k]].0)
          && inserted[2 * k] == "--set-config"
          && inserted[2 * k + 1] == Pair(store, history(at[k]), show, params[at[k]].0))
    && (forall i: nat | i < |params| && Wanted(store, history(i), show, params[i].0) :: i in at)
    // in declaration order, once each
    && forall k, l | 0 <= k < l < |at| :: at[k] < at[l]
  }

  lemma WantedPairs(params: seq<(string, string)>, store: Store, history: History, show: Show, now: Moments)
    returns (at: seq<nat>, inserted: seq<string>)
    requires forall i: nat | i < |params| :: Holds(now(i), store, history(i), params[i].0)
    ensures inserted == InsertedAll(Settings(now, Names(params), show))
    ensures SetsWanted(params, store, history, show, at, inserted)
  {
    var names := Names(params);
    var test := (i: nat) => i < |params| && Wanted(store, history(i), show, params[i].0);
    forall i: nat | i < |names| ensures test(i) <==> Applies(now(i), names[i], show) {
      assert Holds(now(i), store, history(i), params[i].0);
    }
    at, inserted := InsertedPairs(now, names, show, test);
    forall k | 0 <= k < |at| ensures inserted[2 * k + 1] == Pair(store, history(at[k]), show, params[at[k]].0) {
      assert Holds(now(at[k]), store, history(at[k]), params[at[k]].0);
    }
  }

  /**
    * Whatever requests are handled before and while the parameters are read, the next command line sets
    * exactly the declared names whose text is not blank at the moment of reading, to that text, in
    * declaration order, once each, all before the capture.
    */
  lemma ExposureReachesCamera(params: seq<(string, string)>, s: Server, history: History, show: Show,
                              camera: Camera, template: string)
    returns (at: seq<nat>, inserted: seq<string>)
    requires NoDuplicates(Names(params)) && s.store == Started(params)
    ensures s.Valid()
    ensures CommandLine(Command(camera, Settings(After(s, history), Names(params), show), template),
                        camera, inserted, template)
    ensures SetsWanted(params, s.store, history, show, at, inserted)
  {
    StartedNames(params);
    var now := After(s, history);
    forall i: nat | i < |params| ensures Holds(now(i), s.store, history(i), params[i].0) {
      HeldAt(params, s, history, i);
    }
    at, inserted := WantedPairs(params, s.store, history, show, now);
    CommandExact(camera, Settings(now, Names(params), show), template);
  }
}
