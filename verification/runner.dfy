/** `Rein::run` (src/Rein.php:20-82): discovers test functions file by file,
    invokes them, collects the assertion failures they raise and reports.

    What the method reaches outside itself becomes an input:
    - the file system is a map from readable paths to their text
      (`is_readable`, `file_get_contents`);
    - `is_callable` is an oracle that sees the set of paths loaded so far by
      `require_once`, since loading a file is what defines its functions;
    - `call_user_func` is an oracle giving the failures the assertion
      callback records while the named test runs;
    - `require_once` is an oracle giving the failures the assertion
      callback records while the file's top-level code runs, the first
      time that path is loaded in the process; the paths the process had
      already included when `run` starts are an input too;
    - the elapsed time is opaque text, and the SAPI probe is a boolean. */
module Runner {
  import opened Wrappers
  import opened Scanner
  import opened Reporting

  /** An element of the `$files` array. */
  datatype Entry = NotString | Path(path: string)

  /** The argument of `run`: one path, or an array of entries. */
  datatype Files = Single(path: string) | List(entries: seq<Entry>)

  /** The world the run sees. */
  datatype Env = Env(
    fs: map<string, string>,
    included: set<string>,
    isCallable: (set<string>, string) -> bool,
    invoke: string -> seq<Failure>,
    load: string -> seq<Failure>)

  /** What the run did that can record failures: loading a file's
      top-level code, or calling a test. */
  datatype Event = Load(path: string) | Call(name: string)

  /** The run's variables: `$asserts`, `$tests`, `$failures`, the paths
      `require_once` has loaded, and the loads and calls so far. */
  datatype Progress = Progress(
    asserts: nat, tests: nat, failures: seq<Failure>, loaded: set<string>, events: seq<Event>)

  /** The state before the first file: nothing counted, and the files the
      process has already included count as loaded. */
  function Start(env: Env): Progress
  {
    Progress(0, 0, [], env.included, [])
  }

  /** `if (is_string($files)) $files = (array) $files;` */
  function Normalize(files: Files): seq<Entry>
  {
    match files
    case Single(p) => [Path(p)]
    case List(es) => es
  }

  /** `is_string($file) && is_readable($file)` */
  predicate Readable(env: Env, e: Entry)
  {
    e.Path? && e.path in env.fs
  }

  /** The inner `foreach`: each discovered name, in order, is invoked when it
      is callable, and counted. */
  function InvokeAll(env: Env, p: Progress, names: seq<string>): Progress
    decreases |names|
  {
    if names == [] then p
    else
      var q := InvokeAll(env, p, names[..|names| - 1]);
      var f := names[|names| - 1];
      if env.isCallable(q.loaded, f)
      then q.(tests := q.tests + 1, failures := q.failures + env.invoke(f), events := q.events + [Call(f)])
      else q
  }

  /** `require_once $file`: the first time a path is loaded its top-level
      code runs and may record failures; later loads do nothing. */
  function RequireOnce(env: Env, p: Progress, path: string): Progress
  {
    if path in p.loaded then p
    else p.(loaded := p.loaded + {path}, failures := p.failures + env.load(path), events := p.events + [Load(path)])
  }

  /** One turn of the outer `foreach`. */
  function Visit(env: Env, p: Progress, e: Entry): Progress
  {
    if !Readable(env, e) then p
    else
      var source := env.fs[e.path];
      var names := TestNames(source);
      var p' := p.(asserts := CountAsserts(source));
      if names == [] then p'
      else InvokeAll(env, RequireOnce(env, p', e.path), names)
  }

  /** The state after the outer `foreach` has visited `entries`. */
  function VisitAll(env: Env, entries: seq<Entry>): Progress
    decreases |entries|
  {
    if entries == [] then Start(env)
    else Visit(env, VisitAll(env, entries[..|entries| - 1]), entries[|entries| - 1])
  }

  /** The whole run: discovery and invocation, then the report, then the
      output channel, and the result `empty($failures)`. */
  method Run(files: Files, env: Env, elapsed: string, isCli: bool) returns (passed: bool, output: string)
    ensures var outcome := VisitAll(env, Normalize(files));
      && passed == (outcome.failures == [])
      && output == Emit(Report(outcome.failures, outcome.asserts, outcome.tests, elapsed), isCli)
  {
    var entries := Normalize(files);
    var asserts, tests := 0, 0;
    var failures: seq<Failure> := [];
    var loaded: set<string> := env.included;
    ghost var events: seq<Event> := [];
    var i := 0;
    while i < |entries|
      invariant 0 <= i <= |entries|
      invariant Progress(asserts, tests, failures, loaded, events) == VisitAll(env, entries[..i])
    {
      var e := entries[i];
      assert entries[..i + 1][..i] == entries[..i];
      if e.Path? && e.path in env.fs {
        var source := env.fs[e.path];
        asserts := CountAsserts(source);
        var names := TestNames(source);
        if |names| > 0 {
          if e.path !in loaded {
            failures := failures + env.load(e.path);
            events := events + [Load(e.path)];
            loaded := loaded + {e.path};
          }
          ghost var base := Progress(asserts, tests, failures, loaded, events);
          var j := 0;
          while j < |names|
            invariant 0 <= j <= |names|
            invariant Progress(asserts, tests, failures, loaded, events) == InvokeAll(env, base, names[..j])
          {
            var f := names[j];
            assert names[..j + 1][..j] == names[..j];
            if env.isCallable(loaded, f) {
              tests := tests + 1;
              failures := failures + env.invoke(f);
              events := events + [Call(f)];
            }
            j := j + 1;
          }
          assert names[..j] == names;
        }
      }
      i := i + 1;
    }
    assert entries[..i] == entries;
    var report := RenderReport(failures, asserts, tests, elapsed);
    output := Emit(report, isCli);
    passed := failures == [];
  }

  // ---------------------------------------------------------------------
  // Properties of the run
  // ---------------------------------------------------------------------

  /** A single path is run exactly as the one-element list holding it. */
  lemma SingleIsOneElementList(env: Env, path: string)
    ensures VisitAll(env, Normalize(Single(path))) == VisitAll(env, Normalize(List([Path(path)])))
  {
  }

  /** The discovered names that are callable once the given paths are
      loaded, in order and with repetitions. */
  function Callable(env: Env, loaded: set<string>, names: seq<string>): seq<string>
    decreases |names|
  {
    if names == [] then []
    else
      Callable(env, loaded, names[..|names| - 1])
      + (if env.isCallable(loaded, names[|names| - 1]) then [names[|names| - 1]] else [])
  }

  /** One call event per name, in order. */
  function AsCalls(names: seq<string>): (r: seq<Event>)
    ensures |r| == |names| && forall k :: 0 <= k < |r| ==> r[k] == Call(names[k])
    decreases |names|
  {
    if names == [] then [] else AsCalls(names[..|names| - 1]) + [Call(names[|names| - 1])]
  }

  /** The names of the tests called, in order. */
  function Calls(events: seq<Event>): seq<string>
    decreases |events|
  {
    if events == [] then []
    else Calls(events[..|events| - 1]) + (if events[|events| - 1].Call? then [events[|events| - 1].name] else [])
  }

  /** The failures an event records. */
  function Recorded(env: Env, e: Event): seq<Failure>
  {
    match e
    case Load(path) => env.load(path)
    case Call(name) => env.invoke(name)
  }

  /** The failures recorded by the loads and calls, in the order they ran. */
  function FailuresOf(env: Env, events: seq<Event>): seq<Failure>
    decreases |events|
  {
    if events == [] then [] else FailuresOf(env, events[..|events| - 1]) + Recorded(env, events[|events| - 1])
  }

  lemma {:induction false} CallsAppend(a: seq<Event>, b: seq<Event>)
    ensures Calls(a + b) == Calls(a) + Calls(b)
    decreases |b|
  {
    if b == [] {
      assert a + b == a;
    } else {
      var init := b[..|b| - 1];
      CallsAppend(a, init);
      assert (a + b)[..|a + b| - 1] == a + init;
      assert (a + b)[|a + b| - 1] == b[|b| - 1];
    }
  }

  lemma {:induction false} CallsOfAsCalls(names: seq<string>)
    ensures Calls(AsCalls(names)) == names
    decreases |names|
  {
    if names != [] {
      var init := names[..|names| - 1];
      CallsOfAsCalls(init);
      var r := AsCalls(names);
      assert r[..|r| - 1] == AsCalls(init);
    }
  }

  lemma {:induction false} FailuresOfAppend(env: Env, a: seq<Event>, b: seq<Event>)
    ensures FailuresOf(env, a + b) == FailuresOf(env, a) + FailuresOf(env, b)
    decreases |b|
  {
    if b == [] {
      assert a + b == a;
    } else {
      var init := b[..|b| - 1];
      FailuresOfAppend(env, a, init);
      assert (a + b)[..|a + b| - 1] == a + init;
      assert (a + b)[|a + b| - 1] == b[|b| - 1];
    }
  }

  /** The inner loop in closed form: it invokes and counts exactly the
      callable names, duplicates included, appends their failures in that
      order, and leaves the assert count and the loaded files alone. */
  lemma {:induction false} InvokeAllEffect(env: Env, p: Progress, names: seq<string>)
    ensures var c := Callable(env, p.loaded, names);
      InvokeAll(env, p, names)
      == p.(tests := p.tests + |c|, failures := p.failures + FailuresOf(env, AsCalls(c)), events := p.events + AsCalls(c))
    decreases |names|
  {
    if names != [] {
      var init, f := names[..|names| - 1], names[|names| - 1];
      InvokeAllEffect(env, p, init);
      var c0 := Callable(env, p.loaded, init);
      var q := InvokeAll(env, p, init);
      if env.isCallable(p.loaded, f) {
        InvokeStep(env, p, q, c0, f);
      } else {
        assert c0 + [] == c0;
      }
    }
  }

  lemma InvokeStep(env: Env, p: Progress, q: Progress, c0: seq<string>, f: string)
    requires q == p.(tests := p.tests + |c0|, failures := p.failures + FailuresOf(env, AsCalls(c0)),
                     events := p.events + AsCalls(c0))
    ensures var c := c0 + [f];
      q.(tests := q.tests + 1, failures := q.failures + env.invoke(f), events := q.events + [Call(f)])
      == p.(tests := p.tests + |c|, failures := p.failures + FailuresOf(env, AsCalls(c)), events := p.events + AsCalls(c))
  {
    AsCallsSnoc(c0, f);
    CallFailures(env, AsCalls(c0), f);
  }

  lemma AsCallsSnoc(names: seq<string>, f: string)
    ensures AsCalls(names + [f]) == AsCalls(names) + [Call(f)]
  {
    var c := names + [f];
    assert c[..|c| - 1] == names;
  }

  lemma CallFailures(env: Env, events: seq<Event>, f: string)
    ensures FailuresOf(env, events + [Call(f)]) == FailuresOf(env, events) + env.invoke(f)
  {
    assert (events + [Call(f)])[..|events|] == events;
  }

  /** Loading adds no call, and records the file's failures only the first
      time. */
  lemma RequireOnceEffect(env: Env, p: Progress, path: string)
    ensures var q := RequireOnce(env, p, path);
      && Calls(q.events) == Calls(p.events)
      && FailuresOf(env, q.events) == FailuresOf(env, p.events) + (if path in p.loaded then [] else env.load(path))
  {
    if path !in p.loaded {
      CallsAppend(p.events, [Load(path)]);
      FailuresOfAppend(env, p.events, [Load(path)]);
      assert [Load(path)][..0] == [];
    }
  }

  /** When every discovered name is callable, every occurrence is invoked:
      a name found twice runs twice. */
  lemma {:induction false} CallableKeepsDuplicates(env: Env, loaded: set<string>, names: seq<string>)
    requires forall k :: 0 <= k < |names| ==> env.isCallable(loaded, names[k])
    ensures Callable(env, loaded, names) == names
    decreases |names|
  {
    if names != [] {
      CallableKeepsDuplicates(env, loaded, names[..|names| - 1]);
    }
  }

  /** Every name in the result was among the given names. */
  lemma {:induction false} CallableFromNames(env: Env, loaded: set<string>, names: seq<string>)
    ensures forall n :: n in Callable(env, loaded, names) ==> n in names && env.isCallable(loaded, n)
    decreases |names|
  {
    if names != [] {
      CallableFromNames(env, loaded, names[..|names| - 1]);
    }
  }

  /** The path of the last readable entry's text, if there is one. */
  function LastReadable(env: Env, entries: seq<Entry>): Option<string>
    decreases |entries|
  {
    if entries == [] then None
    else if Readable(env, entries[|entries| - 1]) then Some(env.fs[entries[|entries| - 1].path])
    else LastReadable(env, entries[..|entries| - 1])
  }

  /** The reported assert count is that of the last readable file alone,
      whether or not that file declares tests, and 0 when no file was
      readable: each readable file overwrites it. */
  lemma {:induction false} AssertsOfLastReadable(env: Env, entries: seq<Entry>)
    ensures VisitAll(env, entries).asserts
         == match LastReadable(env, entries) case None => 0 case Some(source) => CountAsserts(source)
    decreases |entries|
  {
    if entries != [] {
      var init, e := entries[..|entries| - 1], entries[|entries| - 1];
      AssertsOfLastReadable(env, init);
      var p := VisitAll(env, init);
      if Readable(env, e) {
        var source := env.fs[e.path];
        var p' := p.(asserts := CountAsserts(source));
        InvokeAllEffect(env, RequireOnce(env, p', e.path), TestNames(source));
      }
    }
  }

  /** A readable file that declares no test adds nothing but its assert
      count: it is not loaded and invokes nothing. */
  lemma NamelessFileOnlyCounts(env: Env, p: Progress, e: Entry)
    requires Readable(env, e) && TestNames(env.fs[e.path]) == []
    ensures Visit(env, p, e) == p.(asserts := CountAsserts(env.fs[e.path]))
  {
  }

  /** The entries that are readable paths, in order. */
  function ReadableOnly(env: Env, entries: seq<Entry>): seq<Entry>
    decreases |entries|
  {
    if entries == [] then []
    else
      ReadableOnly(env, entries[..|entries| - 1])
      + (if Readable(env, entries[|entries| - 1]) then [entries[|entries| - 1]] else [])
  }

  /** Entries that are not strings or not readable are skipped without a
      trace: the run over the readable entries alone ends the same. */
  lemma {:induction false} UnreadableEntriesIgnored(env: Env, entries: seq<Entry>)
    ensures VisitAll(env, entries) == VisitAll(env, ReadableOnly(env, entries))
    decreases |entries|
  {
    if entries != [] {
      var init, e := entries[..|entries| - 1], entries[|entries| - 1];
      UnreadableEntriesIgnored(env, init);
      if Readable(env, e) {
        var r := ReadableOnly(env, init) + [e];
        assert r[..|r| - 1] == ReadableOnly(env, init);
      } else {
        assert ReadableOnly(env, init) + [] == ReadableOnly(env, init);
      }
    }
  }

  /** The test count is the number of calls, and the failures are those
      the loaded files' top-level code and the called tests recorded, in
      the order they ran. */
  lemma {:induction false} TestsAreInvocations(env: Env, entries: seq<Entry>)
    ensures var outcome := VisitAll(env, entries);
      outcome.tests == |Calls(outcome.events)| && outcome.failures == FailuresOf(env, outcome.events)
    decreases |entries|
  {
    if entries != [] {
      var init, e := entries[..|entries| - 1], entries[|entries| - 1];
      TestsAreInvocations(env, init);
      var p := VisitAll(env, init);
      if Readable(env, e) {
        var source := env.fs[e.path];
        var p' := p.(asserts := CountAsserts(source));
        var q := RequireOnce(env, p', e.path);
        RequireOnceEffect(env, p', e.path);
        var c := Callable(env, q.loaded, TestNames(source));
        InvokeAllEffect(env, q, TestNames(source));
        FailuresOfAppend(env, q.events, AsCalls(c));
        CallsAppend(q.events, AsCalls(c));
        CallsOfAsCalls(c);
      }
    }
  }

  /** Only discovered test names are ever called. */
  lemma {:induction false} InvokedAreTestNames(env: Env, entries: seq<Entry>)
    ensures forall n :: n in Calls(VisitAll(env, entries).events) ==> IsTestName(n)
    decreases |entries|
  {
    if entries != [] {
      var init, e := entries[..|entries| - 1], entries[|entries| - 1];
      InvokedAreTestNames(env, init);
      var p := VisitAll(env, init);
      if Readable(env, e) {
        var source := env.fs[e.path];
        var names := TestNames(source);
        var p' := p.(asserts := CountAsserts(source));
        var q := RequireOnce(env, p', e.path);
        RequireOnceEffect(env, p', e.path);
        var c := Callable(env, q.loaded, names);
        InvokeAllEffect(env, q, names);
        CallsAppend(q.events, AsCalls(c));
        CallsOfAsCalls(c);
        CallableFromNames(env, q.loaded, names);
        TestNamesAreTestNames(source);
      }
    }
  }

  /** `require_once` is reached only for readable files that declare at
      least one test. */
  lemma {:induction false} LoadedFilesDeclareTests(env: Env, entries: seq<Entry>)
    ensures env.included <= VisitAll(env, entries).loaded
    ensures forall path :: path in VisitAll(env, entries).loaded && path !in env.included ==>
              path in env.fs && TestNames(env.fs[path]) != []
    decreases |entries|
  {
    if entries != [] {
      var init, e := entries[..|entries| - 1], entries[|entries| - 1];
      LoadedFilesDeclareTests(env, init);
      var p := VisitAll(env, init);
      if Readable(env, e) {
        var source := env.fs[e.path];
        var p' := p.(asserts := CountAsserts(source));
        InvokeAllEffect(env, RequireOnce(env, p', e.path), TestNames(source));
      }
    }
  }

  /** The load log: each path is loaded at most once, never one included
      before the run, and the loaded paths are the included ones plus those
      with a load event. */
  ghost predicate LoadLog(included: set<string>, p: Progress)
  {
    && (forall i, j :: 0 <= i < j < |p.events| && p.events[i].Load? && p.events[j].Load? ==>
          p.events[i].path != p.events[j].path)
    && (forall path :: path in p.loaded <==> path in included || Load(path) in p.events)
    && (forall path :: Load(path) in p.events ==> path !in included)
  }

  lemma RequireOnceLog(env: Env, p: Progress, path: string)
    requires LoadLog(env.included, p)
    ensures LoadLog(env.included, RequireOnce(env, p, path))
  {
    if path !in p.loaded {
      var q := RequireOnce(env, p, path);
      forall i, j | 0 <= i < j < |q.events| && q.events[i].Load? && q.events[j].Load?
        ensures q.events[i].path != q.events[j].path
      {
        if j == |p.events| {
          assert p.events[i] == Load(p.events[i].path);
        }
      }
    }
  }

  lemma InvokeAllLog(env: Env, p: Progress, names: seq<string>)
    requires LoadLog(env.included, p)
    ensures LoadLog(env.included, InvokeAll(env, p, names))
  {
    InvokeAllEffect(env, p, names);
    var c := AsCalls(Callable(env, p.loaded, names));
    var q := InvokeAll(env, p, names);
    forall path | Load(path) in q.events
      ensures Load(path) in p.events
    {
      if Load(path) in q.events {
        var k :| 0 <= k < |q.events| && q.events[k] == Load(path);
        assert k < |p.events|;
        assert p.events[k] == Load(path);
      }
    }
  }

  /** `require_once` runs a file's top-level code at most once per path,
      and never for a file the process included before the run; the files
      loaded are those included before plus those with a load event. */
  lemma {:induction false} LoadsOnce(env: Env, entries: seq<Entry>)
    ensures var outcome := VisitAll(env, entries);
      && (forall i, j :: 0 <= i < j < |outcome.events| && outcome.events[i].Load? && outcome.events[j].Load? ==>
            outcome.events[i].path != outcome.events[j].path)
      && (forall path :: path in outcome.loaded <==> path in env.included || Load(path) in outcome.events)
      && (forall path :: Load(path) in outcome.events ==> path !in env.included)
    decreases |entries|
  {
    if entries != [] {
      var init, e := entries[..|entries| - 1], entries[|entries| - 1];
      LoadsOnce(env, init);
      var p := VisitAll(env, init);
      if Readable(env, e) {
        var source := env.fs[e.path];
        var p' := p.(asserts := CountAsserts(source));
        RequireOnceLog(env, p', e.path);
        InvokeAllLog(env, RequireOnce(env, p', e.path), TestNames(source));
      }
    }
  }
}
