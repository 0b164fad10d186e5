/**
 Setting up the writer modules of a job: sorting the configured modules into metadata, links and
 streams, and expanding the stream list, which grows while it is being walked.
 */
module JobCreator {
  import opened Common

  // ----- Sorting the modules

  datatype Settings = Settings(isLink: bool, writer: string, config: nat, place: string)

  /** A module found in the NeXus structure; `settings` is `None` when its configuration is rejected. */
  datatype ModuleInfo = ModuleInfo(writer: string, settings: Option<Settings>)

  function Keep<T>(p: T -> bool, xs: seq<T>): seq<T>
  {
    if xs == [] then []
    else
      var rest, x := Keep(p, xs[..|xs| - 1]), xs[|xs| - 1];
      if p(x) then rest + [x] else rest
  }

  predicate IsMdat(m: ModuleInfo)
  {
    m.writer == "mdat"
  }

  predicate NotMdat(m: ModuleInfo)
  {
    m.writer != "mdat"
  }

  predicate IsLink(s: Settings)
  {
    s.isLink
  }

  predicate IsStream(s: Settings)
  {
    !s.isLink
  }

  function Configured(modules: seq<ModuleInfo>): seq<Settings>
  {
    if modules == [] then []
    else
      var rest, m := Configured(modules[..|modules| - 1]), modules[|modules| - 1];
      if m.settings.Some? then rest + [m.settings.value] else rest
  }

  // ----- What the selections are, by positions

  /** `kept` are the members of `xs` that satisfy `p`, in their order. */
  ghost predicate KeptAt<T>(p: T -> bool, xs: seq<T>, at: seq<nat>, kept: seq<T>)
  {
    && Increasing(at, |xs|) && |kept| == |at|
    && (forall j :: 0 <= j < |at| ==> kept[j] == xs[at[j]] && p(kept[j]))
    && (forall k :: 0 <= k < |xs| && p(xs[k]) ==> k in at)
  }

  /** `settings` are the settings of the validly configured modules, in their order. */
  ghost predicate SettingsAt(modules: seq<ModuleInfo>, at: seq<nat>, settings: seq<Settings>)
  {
    && Increasing(at, |modules|) && |settings| == |at|
    && (forall j :: 0 <= j < |at| ==> modules[at[j]].settings == Some(settings[j]))
    && (forall k :: 0 <= k < |modules| && modules[k].settings.Some? ==> k in at)
  }

  lemma KeptNext<T>(p: T -> bool, xs: seq<T>, x: T, at: seq<nat>, kept: seq<T>)
    requires KeptAt(p, xs, at, kept)
    ensures KeptAt(p, xs + [x], if p(x) then at + [|xs|] else at, if p(x) then kept + [x] else kept)
  {
    var at' := if p(x) then at + [|xs|] else at;
    forall k | 0 <= k < |xs + [x]| && p((xs + [x])[k]) ensures k in at' {
      if k < |xs| { assert p(xs[k]); } else { assert at'[|at|] == k; }
    }
  }

  /** `Keep` selects the wanted members, each once and in order. */
  lemma {:induction false} KeepMeaning<T>(p: T -> bool, xs: seq<T>) returns (at: seq<nat>)
    ensures KeptAt(p, xs, at, Keep(p, xs))
  {
    hide KeptAt;
    if xs == [] {
      at := [];
      NoneKept(p);
    } else {
      var rest, x := xs[..|xs| - 1], xs[|xs| - 1];
      var before := KeepMeaning(p, rest);
      KeptNext(p, rest, x, before, Keep(p, rest));
      assert rest + [x] == xs;
      at := if p(x) then before + [|rest|] else before;
    }
  }

  lemma NoneKept<T>(p: T -> bool)
    ensures KeptAt(p, [], [], [])
  {
  }

  lemma NoSettings()
    ensures SettingsAt([], [], [])
  {
  }

  lemma SettingsNext(modules: seq<ModuleInfo>, m: ModuleInfo, at: seq<nat>, settings: seq<Settings>)
    requires SettingsAt(modules, at, settings)
    ensures SettingsAt(modules + [m], if m.settings.Some? then at + [|modules|] else at,
                       if m.settings.Some? then settings + [m.settings.value] else settings)
  {
    var at' := if m.settings.Some? then at + [|modules|] else at;
    forall k | 0 <= k < |modules + [m]| && (modules + [m])[k].settings.Some? ensures k in at' {
      if k < |modules| { assert modules[k].settings.Some?; } else { assert at'[|at|] == k; }
    }
  }

  /** `Configured` selects the accepted settings, each once and in order. */
  lemma {:induction false} ConfiguredMeaning(modules: seq<ModuleInfo>) returns (at: seq<nat>)
    ensures SettingsAt(modules, at, Configured(modules))
  {
    hide SettingsAt;
    if modules == [] {
      at := [];
      NoSettings();
    } else {
      var rest, m := modules[..|modules| - 1], modules[|modules| - 1];
      var before := ConfiguredMeaning(rest);
      SettingsNext(rest, m, before, Configured(rest));
      assert rest + [m] == modules;
      at := if m.settings.Some? then before + [|rest|] else before;
    }
  }

  // ----- The loops

  /** Moves the metadata modules out of the list; both parts keep their order. */
  method ExtractMdatModules(modules: seq<ModuleInfo>) returns (others: seq<ModuleInfo>, mdat: seq<ModuleInfo>)
    ensures exists at :: KeptAt(IsMdat, modules, at, mdat)
    ensures exists at :: KeptAt(NotMdat, modules, at, others)
    ensures mdat == Keep(IsMdat, modules) && others == Keep(NotMdat, modules)
    ensures (forall m :: m in mdat ==> m.writer == "mdat") && (forall m :: m in others ==> m.writer != "mdat")
  {
    others, mdat := [], [];
    for i := 0 to |modules|
      invariant mdat == Keep(IsMdat, modules[..i]) && others == Keep(NotMdat, modules[..i])
    {
      assert modules[..i + 1][..i] == modules[..i];
      if IsMdat(modules[i]) {
        mdat := mdat + [modules[i]];
      } else {
        others := others + [modules[i]];
      }
    }
    assert modules[..|modules|] == modules;
    ghost var moved := KeepMeaning(IsMdat, modules);
    ghost var left := KeepMeaning(NotMdat, modules);
  }

  /** The settings of exactly the modules whose configuration is accepted, each once and in order. */
  method ExtractSettings(modules: seq<ModuleInfo>) returns (settings: seq<Settings>)
    ensures exists at :: SettingsAt(modules, at, settings)
    ensures settings == Configured(modules)
  {
    settings := [];
    for i := 0 to |modules|
      invariant settings == Configured(modules[..i])
    {
      assert modules[..i + 1][..i] == modules[..i];
      if modules[i].settings.Some? {
        settings := settings + [modules[i].settings.value];
      }
    }
    assert modules[..|modules|] == modules;
    ghost var at := ConfiguredMeaning(modules);
  }

  method SplitSettings(settings: seq<Settings>) returns (links: seq<Settings>, streams: seq<Settings>)
    ensures exists at :: KeptAt(IsLink, settings, at, links)
    ensures exists at :: KeptAt(IsStream, settings, at, streams)
    ensures links == Keep(IsLink, settings) && streams == Keep(IsStream, settings)
    ensures (forall s :: s in links ==> s.isLink) && (forall s :: s in streams ==> !s.isLink)
  {
    links, streams := [], [];
    for i := 0 to |settings|
      invariant links == Keep(IsLink, settings[..i])
      invariant streams == Keep(IsStream, settings[..i])
    {
      assert settings[..i + 1][..i] == settings[..i];
      if settings[i].isLink {
        links := links + [settings[i]];
      } else {
        streams := streams + [settings[i]];
      }
    }
    assert settings[..|settings|] == settings;
    ghost var linked := KeepMeaning(IsLink, settings);
    ghost var streamed := KeepMeaning(IsStream, settings);
  }

  /** Complementary parts lose nothing and duplicate nothing. */
  lemma {:induction false} KeepSplits<T>(p: T -> bool, q: T -> bool, xs: seq<T>)
    requires forall x :: x in xs ==> p(x) != q(x)
    ensures multiset(Keep(p, xs)) + multiset(Keep(q, xs)) == multiset(xs)
  {
    if xs != [] {
      var n := |xs| - 1;
      KeepSplits(p, q, xs[..n]);
      assert xs == xs[..n] + [xs[n]];
    }
  }

  /** Every module is metadata or not, and every validly configured other one is a link or a stream, exactly once. */
  lemma SortedExactlyOnce(modules: seq<ModuleInfo>)
    ensures multiset(Keep(IsMdat, modules)) + multiset(Keep(NotMdat, modules)) == multiset(modules)
    ensures var settings := Configured(Keep(NotMdat, modules));
            multiset(Keep(IsLink, settings)) + multiset(Keep(IsStream, settings)) == multiset(settings)
  {
    KeepSplits(IsMdat, NotMdat, modules);
    KeepSplits(IsLink, IsStream, Configured(Keep(NotMdat, modules)));
  }

  // ----- Expanding the stream list

  /** A stream to be written: writer module, its configuration, and the place in the file. */
  datatype Stream = Stream(writer: string, config: nat, place: string)

  /** Extra modules get an empty configuration. */
  const EMPTY_CONFIG := 0

  /** The enabled extra modules of a writer with a configuration; `None` when it cannot be created. */
  type Registry = (string, nat) -> Option<seq<string>>

  predicate Creatable(reg: Registry, s: Stream)
  {
    reg(s.writer, s.config).Some?
  }

  function Extras(reg: Registry, s: Stream): seq<Stream>
  {
    var names := reg(s.writer, s.config);
    if names.None? then [] else seq(|names.value|, i requires 0 <= i < |names.value| => Stream(names.value[i], EMPTY_CONFIG, s.place))
  }

  /** The extras of a whole list, in order. */
  function Spawned(reg: Registry, streams: seq<Stream>): seq<Stream>
  {
    if streams == [] then [] else Spawned(reg, streams[..|streams| - 1]) + Extras(reg, streams[|streams| - 1])
  }

  /** "Spawns extra module" is acyclic: it lowers a rank. */
  ghost predicate Acyclic(reg: Registry, rank: Stream -> nat)
  {
    forall s, e :: e in Extras(reg, s) ==> rank(e) < rank(s)
  }

  /** Number of streams a stream ends up contributing, itself included. */
  ghost function Family(reg: Registry, rank: Stream -> nat, s: Stream): nat
    requires Acyclic(reg, rank)
    decreases rank(s), 1, 0
  {
    1 + Families(reg, rank, Extras(reg, s), rank(s))
  }

  ghost function Families(reg: Registry, rank: Stream -> nat, streams: seq<Stream>, bound: nat): nat
    requires Acyclic(reg, rank) && forall s :: s in streams ==> rank(s) < bound
    decreases bound, 0, |streams|
  {
    if streams == [] then 0
    else Families(reg, rank, streams[..|streams| - 1], bound) + Family(reg, rank, streams[|streams| - 1])
  }

  ghost function Total(reg: Registry, rank: Stream -> nat, streams: seq<Stream>): nat
    requires Acyclic(reg, rank)
  {
    if streams == [] then 0
    else Total(reg, rank, streams[..|streams| - 1]) + Family(reg, rank, streams[|streams| - 1])
  }

  lemma {:induction false} FamiliesIsTotal(reg: Registry, rank: Stream -> nat, streams: seq<Stream>, bound: nat)
    requires Acyclic(reg, rank) && forall s :: s in streams ==> rank(s) < bound
    ensures Families(reg, rank, streams, bound) == Total(reg, rank, streams)
  {
    if streams != [] {
      FamiliesIsTotal(reg, rank, streams[..|streams| - 1], bound);
    }
  }

  lemma {:induction false} TotalAdds(reg: Registry, rank: Stream -> nat, a: seq<Stream>, b: seq<Stream>)
    requires Acyclic(reg, rank)
    ensures Total(reg, rank, a + b) == Total(reg, rank, a) + Total(reg, rank, b)
  {
    hide Acyclic, Family;
    if b == [] {
      assert a + b == a;
    } else {
      var n := |b| - 1;
      TotalAdds(reg, rank, a, b[..n]);
      assert (a + b)[..|a| + n] == a + b[..n];
    }
  }

  lemma FamilySize(reg: Registry, rank: Stream -> nat, s: Stream)
    requires Acyclic(reg, rank)
    ensures Family(reg, rank, s) == 1 + Total(reg, rank, Extras(reg, s))
  {
    FamiliesIsTotal(reg, rank, Extras(reg, s), rank(s));
  }

  /** Each generation is smaller, in total, by the number of streams that spawned it. */
  lemma {:induction false} SpawnedTotal(reg: Registry, rank: Stream -> nat, streams: seq<Stream>)
    requires Acyclic(reg, rank)
    ensures Total(reg, rank, Spawned(reg, streams)) == Total(reg, rank, streams) - |streams|
  {
    hide Acyclic, Family, Extras;
    if streams != [] {
      var n := |streams| - 1;
      SpawnedTotal(reg, rank, streams[..n]);
      FamilySize(reg, rank, streams[n]);
      TotalAdds(reg, rank, Spawned(reg, streams[..n]), Extras(reg, streams[n]));
    }
  }

  /** Breadth first: the streams, then all their extras, then the extras of those, and so on. */
  ghost function Generations(reg: Registry, rank: Stream -> nat, streams: seq<Stream>): seq<Stream>
    requires Acyclic(reg, rank)
    decreases Total(reg, rank, streams)
  {
    if streams == [] then []
    else
      SpawnedTotal(reg, rank, streams);
      streams + Generations(reg, rank, Spawned(reg, streams))
  }

  /**
   The growing list, walked up to member `j` of generation `current`: behind it are the earlier
   generations, ahead the rest of this one and the extras found so far.
   */
  ghost predicate WalkedTo(reg: Registry, rank: Stream -> nat, original: seq<Stream>,
                           list: seq<Stream>, past: seq<Stream>, current: seq<Stream>, j: nat)
    requires Acyclic(reg, rank)
  {
    && j <= |current|
    && list == past + current + Spawned(reg, current[..j])
    && past + Generations(reg, rank, current) == Generations(reg, rank, original)
  }

  lemma WalkStarts(reg: Registry, rank: Stream -> nat, original: seq<Stream>)
    requires Acyclic(reg, rank)
    ensures WalkedTo(reg, rank, original, original, [], original, 0)
  {
    hide Generations, Acyclic, Extras;
    assert original[..0] == [];
    assert original == [] + original + [];
    assert [] + Generations(reg, rank, original) == Generations(reg, rank, original);
  }

  lemma GenerationTurns(reg: Registry, rank: Stream -> nat, past: seq<Stream>, current: seq<Stream>)
    requires Acyclic(reg, rank)
    ensures past + Generations(reg, rank, current) == past + current + Generations(reg, rank, Spawned(reg, current))
  {
    hide Acyclic, Extras;
    if current == [] {
      assert past + current == past;
    } else {
      assert past + (current + Generations(reg, rank, Spawned(reg, current)))
          == past + current + Generations(reg, rank, Spawned(reg, current));
    }
  }

  /** At the end of a generation the walk goes on with the next one. */
  lemma WalkTurns(reg: Registry, rank: Stream -> nat, original: seq<Stream>, list: seq<Stream>, past: seq<Stream>, current: seq<Stream>)
    requires Acyclic(reg, rank) && WalkedTo(reg, rank, original, list, past, current, |current|)
    ensures WalkedTo(reg, rank, original, list, past + current, Spawned(reg, current), 0)
  {
    hide Generations, Acyclic, Extras;
    assert current[..|current|] == current;
    GenerationTurns(reg, rank, past, current);
    var next := Spawned(reg, current);
    assert next[..0] == [] && list == past + current + next + [];
  }

  /** One step: the extras of the stream at the walked position go to the end. */
  lemma WalkStep(reg: Registry, rank: Stream -> nat, original: seq<Stream>, list: seq<Stream>, past: seq<Stream>, current: seq<Stream>, j: nat)
    requires Acyclic(reg, rank) && WalkedTo(reg, rank, original, list, past, current, j) && j < |current|
    ensures |past| + j < |list| && list[|past| + j] == current[j]
    ensures WalkedTo(reg, rank, original, list + Extras(reg, current[j]), past, current, j + 1)
    ensures current[j] in Generations(reg, rank, original)
  {
    hide Generations, Acyclic, Extras;
    SpawnedNext(reg, current, j);
    hide Spawned;
    assert list + Extras(reg, current[j]) == past + current + (Spawned(reg, current[..j]) + Extras(reg, current[j]));
    GenerationTurns(reg, rank, past, current);
    assert (past + current + Generations(reg, rank, Spawned(reg, current)))[|past| + j] == current[j];
  }

  lemma SpawnedNext(reg: Registry, current: seq<Stream>, j: nat)
    requires j < |current|
    ensures Spawned(reg, current[..j + 1]) == Spawned(reg, current[..j]) + Extras(reg, current[j])
  {
    hide Extras;
    assert current[..j + 1][..j] == current[..j];
  }

  /** Walked to its end, the list is the breadth-first expansion. */
  lemma WalkEnds(reg: Registry, rank: Stream -> nat, original: seq<Stream>, list: seq<Stream>, past: seq<Stream>, current: seq<Stream>)
    requires Acyclic(reg, rank) && WalkedTo(reg, rank, original, list, past, current, |current|) && |list| == |past| + |current|
    ensures list == Generations(reg, rank, original)
  {
    hide Acyclic, Extras;
    assert current[..|current|] == current;
    GenerationTurns(reg, rank, past, current);
    assert Spawned(reg, current) == [];
    assert list == past + current + [];
  }

  // ----- What was appended, by positions

  /** How many extra modules of a stream are enabled. */
  function Enabled(reg: Registry, s: Stream): nat
  {
    if reg(s.writer, s.config).Some? then |reg(s.writer, s.config).value| else 0
  }

  function EnabledIn(reg: Registry, streams: seq<Stream>): nat
  {
    if streams == [] then 0 else EnabledIn(reg, streams[..|streams| - 1]) + Enabled(reg, streams[|streams| - 1])
  }

  /** Extra module number `k` of stream `i` is where it belongs: after the original list and all extra modules before it. */
  ghost predicate InPlace(reg: Registry, original: seq<Stream>, list: seq<Stream>, i: nat, k: nat)
    requires i < |list| && k < Enabled(reg, list[i])
  {
    var at := |original| + EnabledIn(reg, list[..i]) + k;
    at < |list| && list[at] == Stream(reg(list[i].writer, list[i].config).value[k], EMPTY_CONFIG, list[i].place)
  }

  /** Behind the original list come the enabled extra modules of the first `n` streams, each in its place, and nothing else. */
  ghost predicate Appended(reg: Registry, original: seq<Stream>, list: seq<Stream>, n: nat)
  {
    && original <= list && n <= |list| && |list| == |original| + EnabledIn(reg, list[..n])
    && forall i, k :: 0 <= i < n && 0 <= k < Enabled(reg, list[i]) ==> InPlace(reg, original, list, i, k)
  }

  lemma AppendedStart(reg: Registry, original: seq<Stream>)
    ensures Appended(reg, original, original, 0)
  {
  }

  lemma {:induction false} EnabledInPrefix(reg: Registry, streams: seq<Stream>, n: nat)
    requires n <= |streams|
    ensures EnabledIn(reg, streams[..n]) <= EnabledIn(reg, streams)
  {
    if n < |streams| {
      EnabledInPrefix(reg, streams[..|streams| - 1], n);
      assert streams[..|streams| - 1][..n] == streams[..n];
    } else {
      assert streams[..n] == streams;
    }
  }

  lemma EnabledNext(reg: Registry, list: seq<Stream>, n: nat)
    requires n < |list|
    ensures EnabledIn(reg, list[..n + 1]) == EnabledIn(reg, list[..n]) + Enabled(reg, list[n])
  {
    assert list[..n + 1][..n] == list[..n];
  }

  lemma AppendedStep(reg: Registry, original: seq<Stream>, list: seq<Stream>, n: nat)
    requires Appended(reg, original, list, n) && n < |list|
    ensures Appended(reg, original, list + Extras(reg, list[n]), n + 1)
  {
    hide EnabledIn;
    var after := list + Extras(reg, list[n]);
    assert after[..n + 1] == list[..n + 1];
    EnabledNext(reg, list, n);
    forall i, k | 0 <= i < n + 1 && 0 <= k < Enabled(reg, after[i]) ensures InPlace(reg, original, after, i, k) {
      assert after[i] == list[i] && after[..i] == list[..i];
      if i < n {
        assert InPlace(reg, original, list, i, k);
      }
    }
  }

  /** Walks the list while appending to it. `None` is the exception for a module that cannot be created. */
  method ExpandStreams(reg: Registry, ghost rank: Stream -> nat, original: seq<Stream>) returns (r: Option<seq<Stream>>)
    requires Acyclic(reg, rank)
    ensures var all := Generations(reg, rank, original);
            r == if forall s :: s in all ==> Creatable(reg, s) then Some(all) else None
    ensures r.Some? ==> Appended(reg, original, r.value, |r.value|)
    ensures r.Some? <==> forall s :: s in Generations(reg, rank, original) ==> reg(s.writer, s.config).Some?
  {
    CreatableIff(reg);
    hide Acyclic, Extras, Generations, Spawned, WalkedTo, Total, Creatable, Appended;
    AppendedStart(reg, original);
    var list := original;
    ghost var past: seq<Stream>, current: seq<Stream>, j: nat := [], original, 0;
    WalkStarts(reg, rank, original);
    var i := 0;
    while i < |list|
      invariant i == |past| + j <= |list| && j <= |current|
      invariant WalkedTo(reg, rank, original, list, past, current, j)
      invariant Appended(reg, original, list, i)
      invariant forall k :: 0 <= k < i ==> Creatable(reg, list[k])
      decreases Total(reg, rank, list[i..])
    {
      if j == |current| {
        WalkTurns(reg, rank, original, list, past, current);
        NextIsThere(reg, rank, original, list, past + current, Spawned(reg, current));
        past, current, j := past + current, Spawned(reg, current), 0;
      }
      WalkStep(reg, rank, original, list, past, current, j);
      ShrinkingRest(reg, rank, list, i);
      if !Creatable(reg, list[i]) {
        return None;
      }
      AppendedStep(reg, original, list, i);
      list := list + Extras(reg, list[i]);
      i, j := i + 1, j + 1;
    }
    AtTheEnd(reg, rank, original, list, past, current, j);
    WalkEnds(reg, rank, original, list, past, current);
    return Some(list);
  }

  lemma CreatableIff(reg: Registry)
    ensures forall s :: Creatable(reg, s) <==> reg(s.writer, s.config).Some?
  {
  }

  lemma NextIsThere(reg: Registry, rank: Stream -> nat, original: seq<Stream>, list: seq<Stream>, past: seq<Stream>, current: seq<Stream>)
    requires Acyclic(reg, rank) && WalkedTo(reg, rank, original, list, past, current, 0)
    ensures |list| == |past| + |current|
  {
    hide Acyclic, Generations, Extras;
    assert current[..0] == [];
  }

  lemma AtTheEnd(reg: Registry, rank: Stream -> nat, original: seq<Stream>, list: seq<Stream>, past: seq<Stream>, current: seq<Stream>, j: nat)
    requires Acyclic(reg, rank) && WalkedTo(reg, rank, original, list, past, current, j) && |list| == |past| + j
    ensures j == |current|
  {
    hide Acyclic, Generations, Spawned;
  }

  lemma ShrinkingRest(reg: Registry, rank: Stream -> nat, list: seq<Stream>, i: nat)
    requires Acyclic(reg, rank) && i < |list|
    ensures Total(reg, rank, (list + Extras(reg, list[i]))[i + 1..]) < Total(reg, rank, list[i..])
  {
    hide Acyclic, Extras, Total, Family;
    var s, rest := list[i], list[i + 1..];
    FamilySize(reg, rank, s);
    TotalAdds(reg, rank, rest, Extras(reg, s));
    TotalAdds(reg, rank, [s], rest);
    SingleTotal(reg, rank, s);
    assert (list + Extras(reg, s))[i + 1..] == rest + Extras(reg, s);
    assert list[i..] == [s] + rest;
  }

  lemma SingleTotal(reg: Registry, rank: Stream -> nat, s: Stream)
    requires Acyclic(reg, rank)
    ensures Total(reg, rank, [s]) == Family(reg, rank, s)
  {
    hide Acyclic, Family;
    assert [s][..0] == [];
  }

  // ----- The writer modules there are

  const EPICS_CON_STATUS := "epics_con_status"
  const EPICS_CON_INFO := "epics_con_info"
  const ALARM_INFO := "alarm_info"

  /** The extra modules that each writer module offers; any of them can be disabled. */
  function OfferedExtras(writer: string): seq<string>
  {
    if writer == "f142" then [EPICS_CON_STATUS]
    else if writer in {"f144", "senv", "se00", "tdct"} then [EPICS_CON_INFO, ALARM_INFO]
    else []
  }

  /** A registry of these modules: whatever the configuration, a writer enables only extras that it offers. */
  ghost predicate Shipped(reg: Registry)
  {
    forall writer: string, config: nat, name: string ::
      reg(writer, config).Some? && name in reg(writer, config).value ==> name in OfferedExtras(writer)
  }

  /** One for modules that offer extras, zero for the others. */
  function ShippedRank(s: Stream): nat
  {
    if OfferedExtras(s.writer) == [] then 0 else 1
  }

  /** Extra modules offer no extras themselves, so the relation is acyclic whatever is configured. */
  lemma ShippedIsAcyclic(reg: Registry)
    requires Shipped(reg)
    ensures Acyclic(reg, ShippedRank)
    ensures forall s, e :: e in Extras(reg, s) ==> Extras(reg, e) == []
  {
    forall s, e | e in Extras(reg, s) ensures ShippedRank(e) < ShippedRank(s) && Extras(reg, e) == [] {
      var i :| 0 <= i < |Extras(reg, s)| && Extras(reg, s)[i] == e;
      assert e.writer in reg(s.writer, s.config).value;
      assert e.writer in OfferedExtras(s.writer);
      if Extras(reg, e) != [] { ExtrasAreOffered(reg, e); }
    }
  }

  lemma ExtrasAreOffered(reg: Registry, s: Stream)
    requires Shipped(reg) && Extras(reg, s) != []
    ensures OfferedExtras(s.writer) != []
  {
    var name := reg(s.writer, s.config).value[0];
    assert name in reg(s.writer, s.config).value && name in OfferedExtras(s.writer);
  }

  lemma {:induction false} SpawnedMember(reg: Registry, streams: seq<Stream>, e: Stream)
    requires e in Spawned(reg, streams)
    ensures exists s :: s in streams && e in Extras(reg, s)
  {
    hide Extras;
    var n := |streams| - 1;
    if e in Spawned(reg, streams[..n]) {
      SpawnedMember(reg, streams[..n], e);
      var s :| s in streams[..n] && e in Extras(reg, s);
      assert s in streams;
    } else {
      assert streams[n] in streams;
    }
  }

  lemma {:induction false} NothingSpawned(reg: Registry, streams: seq<Stream>)
    requires forall s :: s in streams ==> Extras(reg, s) == []
    ensures Spawned(reg, streams) == []
  {
    hide Extras;
    if streams != [] {
      NothingSpawned(reg, streams[..|streams| - 1]);
      assert streams[|streams| - 1] in streams;
    }
  }

  lemma TwoGenerations(reg: Registry, streams: seq<Stream>)
    requires Shipped(reg) && Acyclic(reg, ShippedRank)
    ensures Generations(reg, ShippedRank, streams) == streams + Spawned(reg, streams)
  {
    hide Extras, Shipped, Acyclic, Spawned;
    ShippedIsAcyclic(reg);
    var next := Spawned(reg, streams);
    forall e | e in next ensures Extras(reg, e) == [] {
      SpawnedMember(reg, streams, e);
    }
    NothingSpawned(reg, next);
    GenerationTurns(reg, ShippedRank, [], streams);
    GenerationTurns(reg, ShippedRank, streams, next);
    assert [] + Generations(reg, ShippedRank, streams) == Generations(reg, ShippedRank, streams);
    assert [] + streams == streams;
    assert Generations(reg, ShippedRank, []) == [];
  }

  /**
   With the modules there are, the loop ends for every list of streams: with the list followed by
   the enabled extras of its members, in their order, unless one of all these cannot be created.
   */
  method ExpandShipped(reg: Registry, original: seq<Stream>) returns (r: Option<seq<Stream>>)
    requires Shipped(reg)
    ensures var all := original + Spawned(reg, original);
            r == if forall s :: s in all ==> Creatable(reg, s) then Some(all) else None
    ensures r.Some? ==>
              && original <= r.value && |r.value| == |original| + EnabledIn(reg, original)
              && forall i, k :: 0 <= i < |original| && 0 <= k < Enabled(reg, original[i]) ==>
                   InPlace(reg, original, r.value, i, k)
    ensures r.Some? ==> forall s :: s in r.value ==> reg(s.writer, s.config).Some?
    ensures (forall writer, config :: reg(writer, config).Some?) ==> r.Some?
  {
    CreatableIff(reg);
    hide Shipped, Acyclic, Extras, Generations, Spawned, Creatable, EnabledIn, InPlace;
    ShippedIsAcyclic(reg);
    TwoGenerations(reg, original);
    SpawnedEnableNothing(reg, original);
    r := ExpandStreams(reg, ShippedRank, original);
    if r.Some? {
      assert r.value[..|r.value|] == r.value;
    }
  }

  lemma {:induction false} NothingMoreEnabled(reg: Registry, a: seq<Stream>, b: seq<Stream>)
    requires forall e :: e in b ==> Enabled(reg, e) == 0
    ensures EnabledIn(reg, a + b) == EnabledIn(reg, a)
  {
    if b == [] {
      assert a + b == a;
    } else {
      var n := |b| - 1;
      NothingMoreEnabled(reg, a, b[..n]);
      assert (a + b)[..|a| + n] == a + b[..n] && b[n] in b;
    }
  }

  lemma SpawnedEnableNothing(reg: Registry, streams: seq<Stream>)
    requires Shipped(reg)
    ensures EnabledIn(reg, streams + Spawned(reg, streams)) == EnabledIn(reg, streams)
  {
    hide Shipped, Acyclic, Spawned;
    ShippedIsAcyclic(reg);
    forall e | e in Spawned(reg, streams) ensures Enabled(reg, e) == 0 {
      SpawnedMember(reg, streams, e);
      assert |Extras(reg, e)| == 0;
    }
    NothingMoreEnabled(reg, streams, Spawned(reg, streams));
  }
}
