/**
 * One private tracing session: it creates an instance, defines and enables its probes, and undoes
 * every step on closing. Whatever fails on the way, an empty report from closing means that the file
 * system is as it was, unless the instance's creation or removal was not what it claimed to be.
 */
module TraceSession {
  import opened Wrappers
  import opened Seqs
  import opened Tracefs

  const OBSERVER_PREFIX := "sp1obs_"

  const TRACE_CLOCK := "mono"
  const BUFFER_KB := "4096"

  datatype ProbeSpec = ProbeSpec(name: string, returning: bool, text: string, filter: Option<string>)

  function NamesOf(specs: seq<ProbeSpec>): (names: seq<string>)
    ensures |names| == |specs| && forall i :: 0 <= i < |specs| ==> names[i] == specs[i].name
  {
    seq(|specs|, i requires 0 <= i < |specs| => specs[i].name)
  }

  datatype OpenError = OperationFailed | ProbeRefused(name: string) | ProbeMissing

  datatype Left =
    | MarkerNotClosed
    | TracingNotStopped
    | NotDisabled(name: string)
    | InstanceNotRemoved
    | NotRemoved(name: string)
    | NotVerified
    | ProbesRemain(count: nat)
    | InstanceRemains

  datatype Refusal = TracefsUnavailable | InstanceExists | ProbesExist | ReadFailed

  /** No observer, of this run or another, has left a probe or an instance behind. */
  ghost predicate NoObserver(s: State) {
    && (forall i :: i in s.instances ==> !(OBSERVER_PREFIX <= i))
    && (forall p :: p in s.probes ==> !(OBSERVER_PREFIX <= p.group))
  }

  lemma {:induction false} NoneOfGroup(probes: seq<Probe>, g: string)
    requires forall p :: p in probes ==> p.group != g
    ensures OwnNames(probes, g) == []
  {
    if probes != [] {
      var init := probes[..|probes| - 1];
      assert probes == init + [probes[|probes| - 1]];
      NoneOfGroup(init, g);
    }
  }

  lemma NoObserverIsVacant(s: State, g: string)
    requires NoObserver(s) && OBSERVER_PREFIX <= g
    ensures Vacant(s, g)
  {
    NoneOfGroup(s.probes, g);
  }

  // ----- what the session knows of what it did ----------------------------------------------

  ghost predicate TracksProbes(probes: seq<Probe>, g: string, defined: seq<string>, enabled: seq<string>) {
    && OwnNames(probes, g) == defined && Distinct(defined)
    && forall n :: n in enabled ==> n in defined
  }

  ghost predicate TracksInstances(
      instances: map<string, Instance>, g: string, enabled: seq<string>, created: bool, marker: bool) {
    && (g in instances <==> created)
    && marker == (created && instances[g].markerOpen)
    && forall i, e :: i in instances && e in instances[i].enabled && e.group == g ==> i == g && e.name in enabled
  }

  /** The session's record of its steps is exactly what the file system holds of its group. */
  ghost predicate Tracks(s: State, g: string, defined: seq<string>, enabled: seq<string>, created: bool, marker: bool) {
    && Kernel(s)
    && TracksProbes(s.probes, g, defined, enabled)
    && TracksInstances(s.instances, g, enabled, created, marker)
    && (created || enabled == [])
  }

  lemma TracksNothing(s: State, g: string)
    requires Kernel(s) && Vacant(s, g)
    ensures Tracks(s, g, [], [], false, false)
  {
    forall i, e | i in s.instances && i != g && e in s.instances[i].enabled ensures e.group != g {
      assert Defined(s, e);
      NamesAreListed(s.probes, g, e.name);
    }
  }

  /** An operation on the instance that defines nothing and removes nothing. */
  predicate Writes(op: Op) {
    op.Configure? || op.SetTracing? || op.WriteMarker?
  }

  lemma TracksSetting(s: State, op: Op, g: string, d: seq<string>, e: seq<string>, c: bool, m: bool)
    requires Tracks(s, g, d, e, c, m) && OwnOp(op, g) && Writes(op) && Allowed(s, op)
    ensures Tracks(After(s, op, Works), g, d, e, c, m)
  {
    KernelKept(s, op, Works);
  }

  lemma TracksMarker(s: State, g: string, d: seq<string>, e: seq<string>, c: bool, m: bool, on: bool)
    requires Tracks(s, g, d, e, c, m)
    requires Allowed(s, if on then OpenMarker(g) else CloseMarker(g))
    ensures Tracks(After(s, if on then OpenMarker(g) else CloseMarker(g), Works), g, d, e, c, on)
  {
    KernelKept(s, if on then OpenMarker(g) else CloseMarker(g), Works);
  }

  lemma TracksEnable(s: State, g: string, d: seq<string>, e: seq<string>, c: bool, m: bool, n: string)
    requires Tracks(s, g, d, e, c, m) && Allowed(s, Enable(g, Event(g, n)))
    ensures Tracks(After(s, Enable(g, Event(g, n)), Works), g, d, e + [n], c, m)
  {
    KernelKept(s, Enable(g, Event(g, n)), Works);
    NamesAreListed(s.probes, g, n);
  }

  lemma ProbesDefine(probes: seq<Probe>, g: string, d: seq<string>, e: seq<string>, p: Probe)
    requires TracksProbes(probes, g, d, e) && p.group == g && !Listed(probes, EventOf(p))
    ensures TracksProbes(probes + [p], g, d + [p.name], e)
  {
    hide Listed, Distinct;
    NamesAreListed(probes, g, p.name);
    DistinctSnoc(d, p.name);
    assert (probes + [p])[..|probes + [p]| - 1] == probes;
  }

  lemma TracksDefine(s: State, g: string, d: seq<string>, e: seq<string>, c: bool, m: bool, p: Probe)
    requires Tracks(s, g, d, e, c, m) && p.group == g && Allowed(s, Define(p))
    ensures Tracks(After(s, Define(p), Works), g, d + [p.name], e, c, m)
  {
    hide Listed, Kernel, TracksInstances, TracksProbes;
    KernelKept(s, Define(p), Works);
    ProbesDefine(s.probes, g, d, e, p);
  }

  lemma TracksMake(s: State, g: string, d: seq<string>)
    requires Tracks(s, g, d, [], false, false) && Allowed(s, MakeInstance(g))
    ensures Tracks(After(s, MakeInstance(g), Works), g, d, [], true, false)
  {
    KernelKept(s, MakeInstance(g), Works);
  }

  /** Disabling the probe enabled last leaves at most the others enabled. */
  lemma TracksDisable(s: State, g: string, d: seq<string>, e: seq<string>, c: bool, m: bool)
    requires Tracks(s, g, d, e, c, m) && e != []
    ensures Allowed(s, Disable(g, Event(g, e[|e| - 1])))
    ensures Tracks(After(s, Disable(g, Event(g, e[|e| - 1])), Works), g, d, e[..|e| - 1], c, m)
  {
    hide Listed, Kernel, OwnNames, Distinct;
    var init, n := e[..|e| - 1], e[|e| - 1];
    assert e == init + [n];
    NamesAreListed(s.probes, g, n);
    KernelKept(s, Disable(g, Event(g, n)), Works);
  }

  /** Whatever becomes of an attempt on an instance nothing is enabled in, the record can follow it. */
  lemma TracksRemoveInstance(s: State, g: string, d: seq<string>, o: Outcome)
    requires Tracks(s, g, d, [], true, false)
    ensures var t := After(s, RemoveInstance(g), o);
            && Tracks(t, g, d, [], g in t.instances, false)
            && (o == Works ==> g !in t.instances) && (o == Silent ==> g in t.instances)
            && (g in t.instances ==> t == s)
  {
    KernelKept(s, RemoveInstance(g), o);
  }

  /** Once nothing of the group is enabled, the kernel lets go of any of its probes. */
  lemma RemoveAllowed(s: State, g: string, d: seq<string>, c: bool, m: bool, n: string)
    requires Tracks(s, g, d, [], c, m) && n in d
    ensures Allowed(s, Remove(Event(g, n)))
  {
    hide Listed, Kernel, Distinct;
    NamesAreListed(s.probes, g, n);
  }

  lemma ProbesRemove(probes: seq<Probe>, g: string, d: seq<string>)
    requires TracksProbes(probes, g, d, []) && d != []
    ensures TracksProbes(Without(probes, Event(g, d[|d| - 1])), g, d[..|d| - 1], [])
  {
    hide OwnNames, Without;
    var init, n := d[..|d| - 1], d[|d| - 1];
    WithoutIs(probes, Event(g, n), g);
    DroppedAbsent(init, n);
    assert init + [] == init;
  }

  lemma TracksRemove(s: State, g: string, d: seq<string>, c: bool, m: bool)
    requires Tracks(s, g, d, [], c, m) && d != []
    ensures Allowed(s, Remove(Event(g, d[|d| - 1])))
    ensures Tracks(After(s, Remove(Event(g, d[|d| - 1])), Works), g, d[..|d| - 1], [], c, m)
  {
    hide Listed, Kernel, TracksInstances, TracksProbes, Allowed;
    var n := d[|d| - 1];
    RemoveAllowed(s, g, d, c, m, n);
    KernelKept(s, Remove(Event(g, n)), Works);
    ProbesRemove(s.probes, g, d);
  }

  // ----- settings ---------------------------------------------------------------------------

  function SettingsOf(s: State, g: string): map<Setting, string> {
    if g in s.instances then s.instances[g].settings else map[]
  }

  function SettingsAfter(settings: map<Setting, string>, op: Op): map<Setting, string> {
    if op.Configure? then settings[op.setting := op.text] else settings
  }

  /** An honest operation on an existing instance changes no setting but the one it writes. */
  lemma SettingsChange(s: State, op: Op, g: string)
    requires OwnOp(op, g) && !op.MakeInstance? && !op.RemoveInstance? && Allowed(s, op)
    ensures SettingsOf(After(s, op, Works), g) == SettingsAfter(SettingsOf(s, g), op)
  {
  }

  ghost predicate Holds(settings: map<Setting, string>, f: Setting, text: string) {
    f in settings && settings[f] == text
  }

  /** The clock, thread groups recorded, a full buffer dropping new events, and the buffer's size. */
  ghost predicate Configured(settings: map<Setting, string>) {
    && Holds(settings, TraceClock, TRACE_CLOCK) && Holds(settings, RecordTgid, "1")
    && Holds(settings, Overwrite, "0") && Holds(settings, BufferSize, BUFFER_KB)
  }

  ghost predicate Filtered(settings: map<Setting, string>, specs: seq<ProbeSpec>) {
    forall i :: 0 <= i < |specs| && specs[i].filter.Some? ==> Holds(settings, Filter(specs[i].name), specs[i].filter.value)
  }

  lemma FilterNext(settings: map<Setting, string>, specs: seq<ProbeSpec>, k: nat)
    requires k < |specs| && Distinct(NamesOf(specs)) && Filtered(settings, specs[..k])
    ensures specs[k].filter.Some? ==> Filtered(settings[Filter(specs[k].name) := specs[k].filter.value], specs[..k + 1])
    ensures specs[k].filter.None? ==> Filtered(settings, specs[..k + 1])
  {
    var names := NamesOf(specs);
    forall i | 0 <= i < k ensures specs[i].name != specs[k].name {
      assert names[i] != names[k];
    }
  }

  // ----- the session ------------------------------------------------------------------------

  ghost predicate AllEnabled(s: State, g: string, names: seq<string>) {
    forall n :: n in names ==> g in s.instances && Event(g, n) in s.instances[g].enabled
  }

  function OwnProbes(probes: seq<Probe>, g: string): seq<Probe> {
    if probes == [] then []
    else OwnProbes(probes[..|probes| - 1], g) + if probes[|probes| - 1].group == g then [probes[|probes| - 1]] else []
  }

  function ProbeOf(g: string, spec: ProbeSpec): Probe {
    Probe(spec.returning, g, spec.name, spec.text)
  }

  function ProbesOf(g: string, specs: seq<ProbeSpec>): (probes: seq<Probe>)
    ensures |probes| == |specs| && forall i :: 0 <= i < |specs| ==> probes[i] == ProbeOf(g, specs[i])
  {
    seq(|specs|, i requires 0 <= i < |specs| => ProbeOf(g, specs[i]))
  }

  lemma OwnProbesSnoc(probes: seq<Probe>, p: Probe, g: string)
    ensures p.group == g ==> OwnProbes(probes + [p], g) == OwnProbes(probes, g) + [p]
  {
    assert (probes + [p])[..|probes|] == probes;
  }

  lemma {:induction false} NoNamesNoProbes(probes: seq<Probe>, g: string)
    requires OwnNames(probes, g) == []
    ensures OwnProbes(probes, g) == []
  {
    if probes != [] {
      NoNamesNoProbes(probes[..|probes| - 1], g);
    }
  }

  lemma ProbesListed(probes: seq<Probe>, g: string, specs: seq<ProbeSpec>)
    requires OwnProbes(probes, g) == ProbesOf(g, specs)
    ensures AllListed(probes, g, specs)
  {
    forall i | 0 <= i < |specs| ensures HasSpec(OwnProbes(probes, g), specs[i]) {
      assert ProbesOf(g, specs)[i] in ProbesOf(g, specs);
    }
  }

  /** The group's probes are those of the first specifications. */
  ghost predicate DefinedSoFar(probes: seq<Probe>, g: string, specs: seq<ProbeSpec>, i: nat) {
    i <= |specs| && OwnProbes(probes, g) == ProbesOf(g, specs)[..i]
  }

  lemma ProbeIsOwn(g: string, spec: ProbeSpec)
    ensures OwnOp(Define(ProbeOf(g, spec)), g) && ProbeOf(g, spec).name == spec.name
  {
  }

  lemma FreshProbes(s: State, g: string, e: seq<string>, c: bool, m: bool, specs: seq<ProbeSpec>)
    requires Tracks(s, g, [], e, c, m)
    ensures DefinedSoFar(s.probes, g, specs, 0)
  {
    NoNamesNoProbes(s.probes, g);
  }

  lemma AllDefined(probes: seq<Probe>, g: string, specs: seq<ProbeSpec>)
    ensures DefinedSoFar(probes, g, specs, |specs|) ==> OwnProbes(probes, g) == ProbesOf(g, specs)
  {
    assert ProbesOf(g, specs)[..|specs|] == ProbesOf(g, specs);
  }

  /** The next probe may be defined, and is then the last of the group's. */
  lemma DefineNext(s: State, g: string, d: seq<string>, e: seq<string>, c: bool, m: bool, specs: seq<ProbeSpec>, i: nat)
    requires i < |specs| && Distinct(NamesOf(specs)) && d == NamesOf(specs)[..i]
    requires Tracks(s, g, d, e, c, m) && DefinedSoFar(s.probes, g, specs, i)
    ensures Allowed(s, Define(ProbeOf(g, specs[i])))
    ensures DefinedSoFar(After(s, Define(ProbeOf(g, specs[i])), Works).probes, g, specs, i + 1)
  {
    hide Listed, Kernel, OwnProbes;
    assert NamesOf(specs)[i] !in d;
    NamesAreListed(s.probes, g, specs[i].name);
    OwnProbesSnoc(s.probes, ProbeOf(g, specs[i]), g);
    assert ProbesOf(g, specs)[..i + 1] == ProbesOf(g, specs)[..i] + [ProbeOf(g, specs[i])];
  }

  lemma EnableAllowed(s: State, g: string, d: seq<string>, e: seq<string>, m: bool, n: string)
    requires Tracks(s, g, d, e, true, m) && n in d
    ensures Allowed(s, Enable(g, Event(g, n)))
  {
    hide Listed, Kernel, Distinct;
    NamesAreListed(s.probes, g, n);
  }

  lemma TracingAllowed(s: State, g: string)
    ensures Allowed(s, OpenMarker(g)) <==> g in s.instances
    ensures forall on :: OwnOp(SetTracing(g, on), g) && (Allowed(s, SetTracing(g, on)) <==> g in s.instances)
  {
  }

  lemma ConfigureAllowed(s: State, g: string)
    ensures forall f: Setting, text: string ::
              OwnOp(Configure(g, f, text), g) && (Allowed(s, Configure(g, f, text)) <==> g in s.instances)
  {
  }

  predicate HasSpec(probes: seq<Probe>, spec: ProbeSpec) {
    exists p :: p in probes && p.name == spec.name && p.returning == spec.returning
  }

  /** The group's probes are as many as the specifications, and each specification has its probe. */
  ghost predicate AllListed(probes: seq<Probe>, g: string, specs: seq<ProbeSpec>) {
    |OwnProbes(probes, g)| == |specs| && forall i :: 0 <= i < |specs| ==> HasSpec(OwnProbes(probes, g), specs[i])
  }

  /** Every operation worked, except perhaps those at some ticks. */
  ghost predicate WorkedBut(oracle: nat -> Outcome, from: nat, to: nat, but: set<nat>) {
    forall t :: from <= t < to && t !in but ==> oracle(t) == Works
  }

  /** Creating an instance that is not there takes effect at such an outcome. */
  predicate Takes(o: Outcome) {
    o == Works || o == Late
  }

  /** Creating an instance that is not there returns at such an outcome. */
  predicate Claims(o: Outcome) {
    o == Works || o == Silent
  }

  /** Both states have the instance, or neither has. */
  ghost predicate SameThere(s: State, t: State, g: string) {
    g in s.instances <==> g in t.instances
  }

  /** What becomes of the instance when its removal returns: it goes, or the removal is silently lost. */
  ghost predicate WentOrLost(o: Outcome, s: State, t: State, g: string) {
    if o == Works then g in s.instances && g !in t.instances else o == Silent && SameThere(t, s, g)
  }

  /** Every operation between two ticks returned, except perhaps those at some. */
  ghost predicate ReturnedBut(oracle: nat -> Outcome, from: nat, to: nat, but: set<nat>) {
    forall t :: from <= t < to && t !in but ==> Claims(oracle(t))
  }

  ghost predicate StepsOnly(left: seq<Left>) {
    forall l :: l in left ==> !l.NotVerified? && !l.ProbesRemain? && !l.InstanceRemains?
  }

  class TraceSession {
    const fs: TraceFs
    const group: string
    const specs: seq<ProbeSpec>
    var defined: seq<string>
    var enabled: seq<string>
    var created: bool
    var marker: bool
    var armShown: bool
    var number: nat

    constructor (fs: TraceFs, group: string, specs: seq<ProbeSpec>)
      ensures this.fs == fs && this.group == group && this.specs == specs && IsFresh() && number == 0
    {
      this.fs, this.group, this.specs := fs, group, specs;
      defined, enabled, created, marker, armShown, number := [], [], false, false, false, 0;
    }

    ghost predicate IsFresh() reads this {
      defined == [] && enabled == [] && !created && !marker
    }

    ghost predicate InStep() reads this, fs {
      Tracks(fs.state, group, defined, enabled, created, marker)
    }

    /** Settings and filters are in force, every probe of the session is enabled, and the instance traces. */
    ghost predicate Live() reads this, fs {
      && group in fs.state.instances && fs.state.instances[group].tracing
      && AllEnabled(fs.state, group, enabled)
      && Configured(SettingsOf(fs.state, group)) && Filtered(SettingsOf(fs.state, group), specs)
    }

    /** One operation on the group's own. */
    method Own(op: Op) returns (ok: bool)
      requires OwnOp(op, group)
      modifies fs
      ensures fs.tick == old(fs.tick) + 1
      ensures fs.state == After(old(fs.state), op, fs.oracle(old(fs.tick)))
      ensures ok == Returns(old(fs.state), op, fs.oracle(old(fs.tick)))
      ensures SameElsewhere(fs.state, old(fs.state), group)
      ensures Honest(fs.oracle, old(fs.tick), fs.tick) ==>
                if ok then Allowed(old(fs.state), op) && fs.state == After(old(fs.state), op, Works) else fs.state == old(fs.state)
      ensures Worked(fs.oracle, old(fs.tick), fs.tick) ==> ok == Allowed(old(fs.state), op)
      ensures !op.Define? && !op.Remove? ==> fs.state.probes == old(fs.state.probes)
      ensures op.Define? || op.Remove? ==> fs.state.instances == old(fs.state.instances)
      ensures !op.MakeInstance? && !op.RemoveInstance? ==> SameThere(fs.state, old(fs.state), group)
      ensures fs.removals == old(fs.removals) + if op.RemoveInstance? then [old(fs.tick)] else []
    {
      hide Allowed, SameElsewhere, OwnOp;
      ghost var o := fs.oracle(fs.tick);
      OwnOpStaysInside(fs.state, op, group, o);
      if !op.MakeInstance? && !op.RemoveInstance? {
        InstanceStays(fs.state, op, group, o);
      }
      ok := fs.Do(op);
    }

    /** A write to one of the instance's control files. */
    method Set(op: Op) returns (ok: bool)
      requires OwnOp(op, group) && Writes(op)
      modifies fs
      ensures fs.tick == old(fs.tick) + 1
      ensures SameElsewhere(fs.state, old(fs.state), group) && fs.state.probes == old(fs.state.probes)
      ensures Honest(fs.oracle, old(fs.tick), fs.tick) && old(InStep()) ==> InStep()
      ensures Honest(fs.oracle, old(fs.tick), fs.tick) && ok ==>
                && fs.state == After(old(fs.state), op, Works)
                && SettingsOf(fs.state, group) == SettingsAfter(SettingsOf(old(fs.state), group), op)
      ensures Worked(fs.oracle, old(fs.tick), fs.tick) && Allowed(old(fs.state), op) ==> ok
      ensures SameThere(fs.state, old(fs.state), group) && fs.removals == old(fs.removals)
      ensures ok ==> Claims(fs.oracle(old(fs.tick)))
    {
      hide Allowed, SameElsewhere, OwnOp, Tracks, After, SettingsOf, SettingsAfter;
      ghost var before := fs.state;
      ReturnsClaims(fs.state, op, fs.oracle(fs.tick));
      ok := Own(op);
      if ok && Allowed(before, op) {
        SettingsChange(before, op, group);
        if Tracks(before, group, defined, enabled, created, marker) {
          TracksSetting(before, op, group, defined, enabled, created, marker);
        }
      }
    }

    /** Clock, options and buffer size. */
    method Settings() returns (ok: bool)
      modifies fs
      ensures fs.tick >= old(fs.tick)
      ensures SameElsewhere(fs.state, old(fs.state), group)
      ensures Honest(fs.oracle, old(fs.tick), fs.tick) && old(InStep()) ==> InStep()
      ensures Honest(fs.oracle, old(fs.tick), fs.tick) && ok ==> Configured(SettingsOf(fs.state, group))
      ensures SameThere(fs.state, old(fs.state), group) && fs.removals == old(fs.removals)
      ensures Worked(fs.oracle, old(fs.tick), fs.tick) && old(group in fs.state.instances) ==> ok
    {
      hide Tracks, Allowed, After, SettingsOf, OwnOp;
      ConfigureAllowed(fs.state, group);
      ok := Set(Configure(group, TraceClock, TRACE_CLOCK));
      if ok {
        ConfigureAllowed(fs.state, group);
        ok := Set(Configure(group, RecordTgid, "1"));
      }
      if ok {
        ConfigureAllowed(fs.state, group);
        ok := Set(Configure(group, Overwrite, "0"));
      }
      if ok {
        ConfigureAllowed(fs.state, group);
        ok := Set(Configure(group, BufferSize, BUFFER_KB));
      }
    }

    /** Defines the next probe, and records it when that returns. */
    method DefineProbe(i: nat) returns (ok: bool)
      requires i < |specs| && defined == NamesOf(specs)[..i]
      modifies this`defined, fs
      ensures fs.tick == old(fs.tick) + 1 && fs.removals == old(fs.removals)
      ensures SameElsewhere(fs.state, old(fs.state), group) && fs.state.instances == old(fs.state.instances)
      ensures Honest(fs.oracle, old(fs.tick), fs.tick) && old(InStep()) ==> InStep()
      ensures defined == NamesOf(specs)[..if ok then i + 1 else i]
      ensures Worked(fs.oracle, old(fs.tick), fs.tick) && old(InStep()) && Distinct(NamesOf(specs)) &&
              old(DefinedSoFar(fs.state.probes, group, specs, i)) ==>
                ok && DefinedSoFar(fs.state.probes, group, specs, i + 1)
    {
      hide Tracks, Allowed, After, SameElsewhere, OwnProbes, Distinct, DefinedSoFar, ProbeOf;
      ghost var before := fs.state;
      var p := ProbeOf(group, specs[i]);
      ProbeIsOwn(group, specs[i]);
      if InStep() && Distinct(NamesOf(specs)) && DefinedSoFar(before.probes, group, specs, i) {
        DefineNext(before, group, defined, enabled, created, marker, specs, i);
      }
      ok := Own(Define(p));
      if ok {
        if Tracks(before, group, defined, enabled, created, marker) && Allowed(before, Define(p)) {
          TracksDefine(before, group, defined, enabled, created, marker, p);
        }
        defined := defined + [specs[i].name];
      }
    }

    method DefineProbes() returns (r: Result<(), OpenError>)
      requires defined == []
      modifies this`defined, fs
      ensures fs.tick >= old(fs.tick)
      ensures SameElsewhere(fs.state, old(fs.state), group) && fs.state.instances == old(fs.state.instances)
      ensures Honest(fs.oracle, old(fs.tick), fs.tick) && old(InStep()) ==> InStep()
      ensures r.Success? ==> defined == NamesOf(specs)
      ensures r.Failure? ==> r.error.ProbeRefused?
      ensures fs.removals == old(fs.removals)
      ensures Worked(fs.oracle, old(fs.tick), fs.tick) && old(InStep()) && Distinct(NamesOf(specs)) ==>
                r.Success? && OwnProbes(fs.state.probes, group) == ProbesOf(group, specs)
    {
      hide Tracks, SameElsewhere, OwnProbes, Distinct, DefinedSoFar;
      ElsewhereSame(fs.state, group);
      if InStep() {
        FreshProbes(fs.state, group, enabled, created, marker, specs);
      }
      for i := 0 to |specs|
        invariant fs.tick >= old(fs.tick)
        invariant fs.removals == old(fs.removals)
        invariant SameElsewhere(fs.state, old(fs.state), group) && fs.state.instances == old(fs.state.instances)
        invariant Honest(fs.oracle, old(fs.tick), fs.tick) && old(InStep()) ==> InStep()
        invariant defined == NamesOf(specs)[..i]
        invariant Worked(fs.oracle, old(fs.tick), fs.tick) && old(InStep()) && Distinct(NamesOf(specs)) ==>
                    DefinedSoFar(fs.state.probes, group, specs, i)
      {
        ghost var before := fs.state;
        var ok := DefineProbe(i);
        Elsewhere3(fs.state, before, old(fs.state), group);
        if !ok {
          return Failure(ProbeRefused(specs[i].name));
        }
      }
      AllDefined(fs.state.probes, group, specs);
      return Success(());
    }

    /** The kernel lists exactly as many probes of the group as were defined, each of them by its kind and name. */
    method ReadBack() returns (r: Result<(), OpenError>)
      modifies fs`tick
      ensures fs.tick >= old(fs.tick)
      ensures r.Success? ==> AllListed(fs.state.probes, group, specs)
      ensures r == Failure(ProbeMissing) ==> !AllListed(fs.state.probes, group, specs)
      ensures Worked(fs.oracle, old(fs.tick), fs.tick) ==> (r.Success? <==> AllListed(fs.state.probes, group, specs))
    {
      var read := fs.ReadProbes();
      if read.None? {
        return Failure(OperationFailed);
      }
      var got := OwnProbes(read.value, group);
      for i := 0 to |specs|
        invariant forall j :: 0 <= j < i ==> HasSpec(got, specs[j])
      {
        if !HasSpec(got, specs[i]) {
          return Failure(ProbeMissing);
        }
      }
      if |got| != |specs| {
        return Failure(ProbeMissing);
      }
      return Success(());
    }

    method SetFilters() returns (ok: bool)
      requires Distinct(NamesOf(specs))
      modifies fs
      ensures fs.tick >= old(fs.tick)
      ensures SameElsewhere(fs.state, old(fs.state), group) && fs.state.probes == old(fs.state.probes)
      ensures Honest(fs.oracle, old(fs.tick), fs.tick) && old(InStep()) ==> InStep()
      ensures Honest(fs.oracle, old(fs.tick), fs.tick) && ok ==>
                && Filtered(SettingsOf(fs.state, group), specs)
                && (old(Configured(SettingsOf(fs.state, group))) ==> Configured(SettingsOf(fs.state, group)))
      ensures SameThere(fs.state, old(fs.state), group) && fs.removals == old(fs.removals)
      ensures Worked(fs.oracle, old(fs.tick), fs.tick) && old(group in fs.state.instances) ==> ok
    {
      hide Tracks, Allowed, After, SettingsOf, Distinct, Filtered;
      ElsewhereSame(fs.state, group);
      assert Filtered(SettingsOf(fs.state, group), specs[..0]) by { NothingFiltered(SettingsOf(fs.state, group)); }
      for i := 0 to |specs|
        invariant fs.tick >= old(fs.tick)
        invariant SameThere(fs.state, old(fs.state), group) && fs.removals == old(fs.removals)
        invariant SameElsewhere(fs.state, old(fs.state), group) && fs.state.probes == old(fs.state.probes)
        invariant Honest(fs.oracle, old(fs.tick), fs.tick) && old(InStep()) ==> InStep()
        invariant Honest(fs.oracle, old(fs.tick), fs.tick) ==>
                    && Filtered(SettingsOf(fs.state, group), specs[..i])
                    && (old(Configured(SettingsOf(fs.state, group))) ==> Configured(SettingsOf(fs.state, group)))
      {
        if Filtered(SettingsOf(fs.state, group), specs[..i]) {
          FilterNext(SettingsOf(fs.state, group), specs, i);
        }
        if specs[i].filter.Some? {
          ConfigureAllowed(fs.state, group);
          ok := Set(Configure(group, Filter(specs[i].name), specs[i].filter.value));
          if !ok {
            return;
          }
        }
      }
      assert specs[..|specs|] == specs;
      ok := true;
    }

    method EnableProbes() returns (ok: bool)
      requires enabled == []
      modifies this`enabled, fs
      ensures fs.tick >= old(fs.tick)
      ensures SameElsewhere(fs.state, old(fs.state), group) && fs.state.probes == old(fs.state.probes)
      ensures Honest(fs.oracle, old(fs.tick), fs.tick) && old(InStep()) ==> InStep() && AllEnabled(fs.state, group, enabled)
      ensures Honest(fs.oracle, old(fs.tick), fs.tick) ==> SettingsOf(fs.state, group) == old(SettingsOf(fs.state, group))
      ensures ok ==> enabled == NamesOf(specs)
      ensures SameThere(fs.state, old(fs.state), group) && fs.removals == old(fs.removals)
      ensures Worked(fs.oracle, old(fs.tick), fs.tick) && old(InStep()) && created && defined == NamesOf(specs) ==> ok
    {
      hide Tracks, SameElsewhere, AllEnabled, Allowed, After, SettingsOf;
      ElsewhereSame(fs.state, group);
      NothingEnabled(fs.state, group);
      for i := 0 to |specs|
        invariant fs.tick >= old(fs.tick)
        invariant SameThere(fs.state, old(fs.state), group) && fs.removals == old(fs.removals)
        invariant SameElsewhere(fs.state, old(fs.state), group) && fs.state.probes == old(fs.state.probes)
        invariant Honest(fs.oracle, old(fs.tick), fs.tick) && old(InStep()) ==> InStep() && AllEnabled(fs.state, group, enabled)
        invariant Honest(fs.oracle, old(fs.tick), fs.tick) ==> SettingsOf(fs.state, group) == old(SettingsOf(fs.state, group))
        invariant enabled == NamesOf(specs)[..i]
      {
        ghost var before := fs.state;
        var n := specs[i].name;
        if Tracks(before, group, defined, enabled, created, marker) && created && defined == NamesOf(specs) {
          assert NamesOf(specs)[i] == n;
          EnableAllowed(before, group, defined, enabled, marker, n);
        }
        ok := Own(Enable(group, Event(group, n)));
        Elsewhere3(fs.state, before, old(fs.state), group);
        if !ok {
          return;
        }
        if Allowed(before, Enable(group, Event(group, n))) {
          SettingsChange(before, Enable(group, Event(group, n)), group);
          EnabledToo(before, group, enabled, n);
          if Tracks(before, group, defined, enabled, created, marker) {
            TracksEnable(before, group, defined, enabled, created, marker, n);
          }
        }
        enabled := enabled + [n];
      }
      ok := true;
    }

    /** Creates the instance, configures it, defines every probe, and reads them back. */
    method Prepare() returns (r: Result<(), OpenError>)
      requires IsFresh()
      modifies this`defined, this`created, fs
      ensures fs.tick >= old(fs.tick)
      ensures SameElsewhere(fs.state, old(fs.state), group)
      ensures Honest(fs.oracle, old(fs.tick), fs.tick) && old(InStep()) ==> InStep()
      ensures Honest(fs.oracle, old(fs.tick), fs.tick) && r.Success? ==> Configured(SettingsOf(fs.state, group))
      ensures r.Success? ==> created && defined == NamesOf(specs) && AllListed(fs.state.probes, group, specs)
      ensures fs.tick > old(fs.tick)
      ensures old(group !in fs.state.instances) ==>
                && (created <==> Claims(fs.oracle(old(fs.tick))))
                && (group in fs.state.instances <==> Takes(fs.oracle(old(fs.tick))))
      ensures fs.removals == old(fs.removals)
      ensures Worked(fs.oracle, old(fs.tick), fs.tick) && old(InStep()) && Distinct(NamesOf(specs)) ==> r.Success?
    {
      hide Allowed, Writes, SameElsewhere, AllListed, Tracks, After, Configured;
      ghost var s0, ok0 := fs.state, InStep();
      if ok0 {
        TracksCreated(s0, group, defined, enabled, created, marker);
      }
      if group !in s0.instances {
        MakingIt(s0, group, fs.oracle(fs.tick));
      }
      var ok := Own(MakeInstance(group));
      if !ok {
        return Failure(OperationFailed);
      }
      created := true;
      if ok0 && Allowed(s0, MakeInstance(group)) {
        TracksMake(s0, group, []);
      }
      ghost var s1 := fs.state;
      ok := Settings();
      Elsewhere3(fs.state, s1, s0, group);
      if !ok {
        return Failure(OperationFailed);
      }
      ghost var s2 := fs.state;
      r := DefineProbes();
      Elsewhere3(fs.state, s2, s0, group);
      if r.Success? {
        if OwnProbes(fs.state.probes, group) == ProbesOf(group, specs) {
          ProbesListed(fs.state.probes, group, specs);
        }
        r := ReadBack();
      }
    }

    /** Sets the filters, enables every probe, opens the marker and starts tracing. */
    method Start() returns (ok: bool)
      requires created && enabled == [] && !marker && Distinct(NamesOf(specs))
      modifies this`enabled, this`marker, fs
      ensures fs.tick >= old(fs.tick)
      ensures SameElsewhere(fs.state, old(fs.state), group) && fs.state.probes == old(fs.state.probes)
      ensures Honest(fs.oracle, old(fs.tick), fs.tick) && old(InStep()) ==> InStep()
      ensures Honest(fs.oracle, old(fs.tick), fs.tick) && old(InStep()) && old(Configured(SettingsOf(fs.state, group))) && ok ==> Live()
      ensures ok ==> marker && enabled == NamesOf(specs)
      ensures SameThere(fs.state, old(fs.state), group) && fs.removals == old(fs.removals)
      ensures Worked(fs.oracle, old(fs.tick), fs.tick) && old(InStep()) && defined == NamesOf(specs) ==> ok
    {
      hide Allowed, Writes, SameElsewhere, Tracks, Configured, Filtered, SettingsOf, Distinct;
      ghost var s0 := fs.state;
      if InStep() {
        TracksCreated(s0, group, defined, enabled, created, marker);
      }
      ok := SetFilters();
      if !ok {
        return;
      }
      ghost var s1 := fs.state;
      ok := EnableProbes();
      Elsewhere3(fs.state, s1, s0, group);
      if !ok {
        return;
      }
      if InStep() {
        TracksCreated(fs.state, group, defined, enabled, created, marker);
      }
      ok := StartTracing(s0);
    }

    method StartTracing(ghost s0: State) returns (ok: bool)
      requires created && !marker && SameElsewhere(fs.state, s0, group)
      modifies this`marker, fs
      ensures fs.tick >= old(fs.tick)
      ensures SameElsewhere(fs.state, s0, group) && fs.state.probes == old(fs.state.probes)
      ensures Honest(fs.oracle, old(fs.tick), fs.tick) && old(InStep()) ==> InStep()
      ensures Honest(fs.oracle, old(fs.tick), fs.tick) && ok ==>
                && group in fs.state.instances && fs.state.instances[group].tracing
                && SettingsOf(fs.state, group) == old(SettingsOf(fs.state, group))
                && (old(AllEnabled(fs.state, group, enabled)) ==> AllEnabled(fs.state, group, enabled))
      ensures ok ==> marker
      ensures SameThere(fs.state, old(fs.state), group) && fs.removals == old(fs.removals)
      ensures Worked(fs.oracle, old(fs.tick), fs.tick) && old(group in fs.state.instances) ==> ok
    {
      hide SameElsewhere, Tracks;
      ghost var s2 := fs.state;
      TracingAllowed(s2, group);
      ok := Own(OpenMarker(group));
      Elsewhere3(fs.state, s2, s0, group);
      if !ok {
        return;
      }
      marker := true;
      if Tracks(s2, group, defined, enabled, created, false) && Allowed(s2, OpenMarker(group)) {
        TracksMarker(s2, group, defined, enabled, created, false, true);
      }
      ghost var s3 := fs.state;
      TracingAllowed(s3, group);
      ok := Set(SetTracing(group, true));
      Elsewhere3(fs.state, s3, s0, group);
    }

    /**
     * Opens the session. Wherever it fails, honest operations leave exactly what the session recorded;
     * when it succeeds, the kernel lists every probe, whatever the operations claimed, and with honest
     * operations the session is live.
     */
    method Open() returns (r: Result<(), OpenError>)
      requires IsFresh() && Distinct(NamesOf(specs))
      modifies this`defined, this`enabled, this`created, this`marker, this`armShown, fs
      ensures fs.tick >= old(fs.tick)
      ensures SameElsewhere(fs.state, old(fs.state), group)
      ensures Honest(fs.oracle, old(fs.tick), fs.tick) && old(InStep()) ==> InStep() && (r.Success? ==> Live())
      ensures r.Success? && armShown ==> fs.state.arm.Some?
      ensures r.Success? ==> created && marker && defined == enabled == NamesOf(specs) && AllListed(fs.state.probes, group, specs)
      ensures old(group !in fs.state.instances) ==>
                && (created <==> Claims(fs.oracle(old(fs.tick))))
                && (group in fs.state.instances <==> Takes(fs.oracle(old(fs.tick))))
      ensures fs.removals == old(fs.removals)
      ensures Worked(fs.oracle, old(fs.tick), fs.tick) && old(InStep()) ==> r.Success? && (armShown <==> fs.state.arm.Some?)
    {
      hide SameElsewhere, AllListed, Tracks, AllEnabled, Configured, SettingsOf, Filtered, Distinct;
      r := Prepare();
      if r.Failure? {
        return;
      }
      ghost var s1, s0 := fs.state, old(fs.state);
      var ok := Start();
      Elsewhere3(fs.state, s1, s0, group);
      if !ok {
        return Failure(OperationFailed);
      }
      var arm := fs.ReadArm();
      armShown := arm.Some?;
    }

    // ----- closing --------------------------------------------------------------------------

    method CloseMarkerFile() returns (left: seq<Left>)
      modifies this`marker, fs
      ensures fs.tick == old(fs.tick) + (if old(marker) then 1 else 0) && !marker
      ensures SameElsewhere(fs.state, old(fs.state), group) && StepsOnly(left)
      ensures Worked(fs.oracle, old(fs.tick), fs.tick) && old(InStep()) ==> left == [] && InStep()
      ensures SameThere(fs.state, old(fs.state), group) && fs.removals == old(fs.removals)
      ensures left == [] ==> ReturnedBut(fs.oracle, old(fs.tick), fs.tick, {})
    {
      hide SameElsewhere, Kernel, TracksProbes;
      ghost var s0, t0 := fs.state, fs.tick;
      left := [];
      ElsewhereSame(fs.state, group);
      if marker {
        ReturnsClaims(fs.state, CloseMarker(group), fs.oracle(fs.tick));
        var ok := Own(CloseMarker(group));
        if !ok {
          left := [MarkerNotClosed];
        }
        if Tracks(s0, group, defined, enabled, created, true) {
          assert Allowed(s0, CloseMarker(group));
          TracksMarker(s0, group, defined, enabled, created, true, false);
        }
      }
      marker := false;
    }

    /** Disables what was enabled, the last first. */
    method DisableAll() returns (left: seq<Left>)
      modifies this`enabled, fs
      ensures fs.tick == old(fs.tick) + |old(enabled)| && enabled == []
      ensures SameElsewhere(fs.state, old(fs.state), group) && StepsOnly(left)
      ensures TracingOf(fs.state, group) == old(TracingOf(fs.state, group))
      ensures Worked(fs.oracle, old(fs.tick), fs.tick) && old(InStep()) ==> left == [] && InStep()
      ensures SameThere(fs.state, old(fs.state), group) && fs.removals == old(fs.removals)
      ensures left == [] ==> ReturnedBut(fs.oracle, old(fs.tick), fs.tick, {})
    {
      hide SameElsewhere, Tracks, Allowed, After, TracingOf;
      ElsewhereSame(fs.state, group);
      left := [];
      var names := enabled;
      assert names[..|names|] == names;
      for i := |names| downto 0
        invariant left == [] ==> ReturnedBut(fs.oracle, old(fs.tick), fs.tick, {})
        invariant fs.tick == old(fs.tick) + (|names| - i)
        invariant SameThere(fs.state, old(fs.state), group) && fs.removals == old(fs.removals)
        invariant SameElsewhere(fs.state, old(fs.state), group) && StepsOnly(left)
        invariant TracingOf(fs.state, group) == old(TracingOf(fs.state, group))
        invariant Worked(fs.oracle, old(fs.tick), fs.tick) && old(InStep()) ==>
                    left == [] && Tracks(fs.state, group, defined, names[..i], created, marker)
      {
        ghost var before := fs.state;
        if Tracks(before, group, defined, names[..i + 1], created, marker) {
          TracksDisable(before, group, defined, names[..i + 1], created, marker);
          assert names[..i + 1][..i] == names[..i];
        }
        ReturnsClaims(before, Disable(group, Event(group, names[i])), fs.oracle(fs.tick));
        var ok := Own(Disable(group, Event(group, names[i])));
        Elsewhere3(fs.state, before, old(fs.state), group);
        TracingStays(before, Disable(group, Event(group, names[i])), group, fs.oracle(fs.tick - 1));
        if !ok {
          left := left + [NotDisabled(names[i])];
        }
      }
      enabled := [];
    }

    /** Stops tracing and disables every probe. */
    method QuietInstance() returns (left: seq<Left>)
      requires created && !marker
      modifies this`enabled, fs
      ensures fs.tick == old(fs.tick) + |old(enabled)| + 1 && enabled == []
      ensures SameElsewhere(fs.state, old(fs.state), group) && StepsOnly(left)
      ensures Worked(fs.oracle, old(fs.tick), fs.tick) && old(InStep()) ==>
                left == [] && InStep() && !TracingOf(fs.state, group)
      ensures SameThere(fs.state, old(fs.state), group) && fs.removals == old(fs.removals)
      ensures left == [] ==> ReturnedBut(fs.oracle, old(fs.tick), fs.tick, {})
    {
      hide SameElsewhere, Tracks, Allowed, Kernel, TracksProbes, TracksInstances, TracingOf;
      ghost var s0 := fs.state;
      if InStep() {
        InstanceClosable(s0, group, defined, enabled);
      }
      var stopped := Set(SetTracing(group, false));
      StoppedTracing(s0, group);
      ghost var s1 := fs.state;
      left := DisableAll();
      Elsewhere3(fs.state, s1, s0, group);
      left := (if stopped then [] else [TracingNotStopped]) + left;
    }

    /**
     * Stops tracing, disables and removes the instance. If the removal or the test after it fails, the
     * instance is at least quiet: not tracing, and nothing enabled in it.
     */
    method CloseInstance() returns (left: seq<Left>)
      requires created && !marker
      modifies this`enabled, this`created, fs
      ensures fs.tick == old(fs.tick) + |old(enabled)| + 3 && enabled == []
      ensures SameElsewhere(fs.state, old(fs.state), group) && StepsOnly(left)
      ensures created == (Tells(fs.oracle(fs.tick - 1)) && group in fs.state.instances)
      ensures fs.removals == old(fs.removals) + [fs.tick - 2]
      ensures InstanceNotRemoved !in left ==> WentOrLost(fs.oracle(fs.tick - 2), old(fs.state), fs.state, group)
      ensures WorkedBut(fs.oracle, old(fs.tick), fs.tick, {fs.tick - 2, fs.tick - 1}) && old(InStep()) ==>
                && Tracks(fs.state, group, defined, [], group in fs.state.instances, false) && !TracingOf(fs.state, group)
                && (fs.oracle(fs.tick - 2) == Works ==> left == [] && group !in fs.state.instances)
                && (fs.oracle(fs.tick - 2) == Silent ==> left == [] && group in fs.state.instances)
      ensures left == [] ==> ReturnedBut(fs.oracle, old(fs.tick), fs.tick, {fs.tick - 1})
    {
      hide SameElsewhere, Tracks, Allowed, Kernel, TracksProbes, TracksInstances, TracingOf, After;
      left := QuietInstance();
      ghost var s2 := fs.state;
      if InStep() {
        InstanceClosable(s2, group, defined, []);
        TracksRemoveInstance(s2, group, defined, fs.oracle(fs.tick));
      }
      ReturnsClaims(s2, RemoveInstance(group), fs.oracle(fs.tick));
      var removed := Own(RemoveInstance(group));
      Elsewhere3(fs.state, s2, old(fs.state), group);
      RemovedOrNot(s2, group, fs.oracle(fs.tick - 1));
      RemovalReturns(s2, group, fs.oracle(fs.tick - 1));
      var more := if removed then [] else [InstanceNotRemoved];
      assert !removed ==> InstanceNotRemoved in more;
      left := left + more;
      created := fs.Exists(group);
    }

    /** Removes what was defined, the last first. */
    method RemoveProbes() returns (left: seq<Left>)
      modifies this`defined, fs
      ensures fs.tick == old(fs.tick) + |old(defined)| && defined == []
      ensures SameElsewhere(fs.state, old(fs.state), group) && fs.state.instances == old(fs.state.instances) && StepsOnly(left)
      ensures Worked(fs.oracle, old(fs.tick), fs.tick) &&
              old(Tracks(fs.state, group, defined, [], group in fs.state.instances, false)) ==>
                left == [] && Tracks(fs.state, group, [], [], group in fs.state.instances, false)
      ensures fs.removals == old(fs.removals)
      ensures left == [] ==> ReturnedBut(fs.oracle, old(fs.tick), fs.tick, {})
    {
      hide SameElsewhere, Tracks, Allowed, After;
      ElsewhereSame(fs.state, group);
      ghost var there := group in fs.state.instances;
      ghost var clean := Tracks(fs.state, group, defined, [], there, false);
      left := [];
      var names := defined;
      assert names[..|names|] == names;
      for i := |names| downto 0
        invariant left == [] ==> ReturnedBut(fs.oracle, old(fs.tick), fs.tick, {})
        invariant fs.tick == old(fs.tick) + (|names| - i)
        invariant fs.removals == old(fs.removals)
        invariant SameElsewhere(fs.state, old(fs.state), group) && fs.state.instances == old(fs.state.instances)
        invariant StepsOnly(left)
        invariant Worked(fs.oracle, old(fs.tick), fs.tick) && clean ==>
                    left == [] && Tracks(fs.state, group, names[..i], [], there, false)
      {
        ghost var before := fs.state;
        if Tracks(before, group, names[..i + 1], [], there, false) {
          TracksRemove(before, group, names[..i + 1], there, false);
          assert names[..i + 1][..i] == names[..i];
        }
        ReturnsClaims(before, Remove(Event(group, names[i])), fs.oracle(fs.tick));
        var ok := Own(Remove(Event(group, names[i])));
        Elsewhere3(fs.state, before, old(fs.state), group);
        if !ok {
          left := left + [NotRemoved(names[i])];
        }
      }
      defined := [];
    }

    /** What the file system still holds of the group, when it can be read; an existence test that fails says no. */
    method Verify() returns (left: seq<Left>)
      modifies fs`tick
      ensures fs.tick > old(fs.tick)
      ensures left == [NotVerified] || (fs.tick == old(fs.tick) + 2 &&
                left == Remaining(fs.state, group, Tells(fs.oracle(fs.tick - 1))))
      ensures left == [] ==> Tells(fs.oracle(old(fs.tick)))
      ensures Tells(fs.oracle(old(fs.tick))) ==>
                fs.tick == old(fs.tick) + 2 && left == Remaining(fs.state, group, Tells(fs.oracle(fs.tick - 1)))
    {
      var read := fs.ReadProbes();
      if read.None? {
        return [NotVerified];
      }
      var still := OwnNames(read.value, group);
      var exists_ := fs.Exists(group);
      left := (if still == [] then [] else [ProbesRemain(|still|)]) + if exists_ then [InstanceRemains] else [];
    }

    /**
     * Undoes every step and reports what it could not undo. An empty report always means that no probe
     * of the group remains. It means that nothing does, whatever the existence tests answered, if every
     * operation was done or threw without effect; and under any faults exactly when the instance was
     * not there or its removal worked: for a session whose record is exact, when that was not silently
     * lost. Unless the last reading failed, the report says what that reading and the last test found.
     * Operations that work leave nothing to report; and if only the instance's removal or the test after
     * it fails, every probe is removed all the same, and the instance is left quiet. No operation throws
     * unreported. One clause is an empty report that is not the truth: the removal silently lost, and
     * both existence tests failing.
     */
    method Close() returns (left: seq<Left>)
      modifies this`defined, this`enabled, this`created, this`marker, fs
      ensures fs.tick > old(fs.tick)
      ensures SameElsewhere(fs.state, old(fs.state), group)
      ensures left == [] ==>
                && OwnNames(fs.state.probes, group) == []
                && (Tells(fs.oracle(fs.tick - 1)) ==> Vacant(fs.state, group))
                && (Vacant(fs.state, group) <==>
                    old(group !in fs.state.instances) || (old(created) && fs.oracle(old(RemovalTick())) == Works))
                && (old(InStep()) ==>
                    (Vacant(fs.state, group) <==> !(old(created) && fs.oracle(old(RemovalTick())) == Silent)))
      ensures Honest(fs.oracle, old(fs.tick), fs.tick) && old(InStep()) && left == [] ==> Vacant(fs.state, group)
      ensures fs.removals == old(fs.removals) + if old(created) then [old(RemovalTick())] else []
      ensures old(created) ==> old(fs.tick) < old(RemovalTick()) < fs.tick
      ensures old(created) && left == [] ==> Claims(fs.oracle(old(RemovalTick())))
      ensures NotVerified !in left ==>
                forall l: Left :: l.ProbesRemain? || l.InstanceRemains? ==>
                  (l in left <==> l in Remaining(fs.state, group, Tells(fs.oracle(fs.tick - 1))))
      ensures Worked(fs.oracle, old(fs.tick), fs.tick) && old(InStep()) ==> left == [] && InStep()
      ensures old(created) && old(InStep()) &&
              WorkedBut(fs.oracle, old(fs.tick), fs.tick, {old(RemovalTick()), old(RemovalTick()) + 1}) ==>
                OwnNames(fs.state.probes, group) == [] && !TracingOf(fs.state, group)
      ensures old(created) && old(InStep()) &&
              WorkedBut(fs.oracle, old(fs.tick), fs.tick, {old(RemovalTick()), old(RemovalTick()) + 1, old(LastTestTick())}) &&
              fs.oracle(old(RemovalTick())) == Silent && fs.oracle(old(LastTestTick())) == Throws ==>
                left == [] && group in fs.state.instances
      ensures defined == [] && !marker
      ensures left == [] ==>
                ReturnedBut(fs.oracle, old(fs.tick), fs.tick - 1, if old(created) then {old(RemovalTick()) + 1} else {})
    {
      hide SameElsewhere, Tracks, TracingOf, Remaining, OwnNames;
      if InStep() {
        TracksCreated(fs.state, group, defined, enabled, created, marker);
      }
      left := CloseSteps();
      if Tracks(fs.state, group, [], [], group in fs.state.instances, false) {
        TracksNoneIsEmpty(fs.state, group);
      }
      ghost var steps := left;
      var last := Verify();
      RemainingMeans(fs.state, group, Tells(fs.oracle(fs.tick - 1)));
      left := left + last;
      assert forall l :: l in left <==> l in steps || l in last;
    }

    /** Closes the marker and the instance, and removes every probe. */
    method CloseSteps() returns (left: seq<Left>)
      modifies this`defined, this`enabled, this`created, this`marker, fs
      ensures fs.tick >= old(fs.tick) && (old(created) ==> fs.tick + 1 == old(LastTestTick()))
      ensures SameElsewhere(fs.state, old(fs.state), group) && StepsOnly(left)
      ensures defined == [] && !marker
      ensures fs.removals == old(fs.removals) + if old(created) then [old(RemovalTick())] else []
      ensures InstanceNotRemoved !in left ==>
                if old(created) then WentOrLost(fs.oracle(old(RemovalTick())), old(fs.state), fs.state, group)
                else SameThere(fs.state, old(fs.state), group)
      ensures Worked(fs.oracle, old(fs.tick), fs.tick) && old(InStep()) ==>
                left == [] && InStep() && Tracks(fs.state, group, [], [], group in fs.state.instances, false)
                && group !in fs.state.instances
      ensures old(created) && old(InStep()) &&
              WorkedBut(fs.oracle, old(fs.tick), fs.tick, {old(RemovalTick()), old(RemovalTick()) + 1}) ==>
                && Tracks(fs.state, group, [], [], group in fs.state.instances, false) && !TracingOf(fs.state, group)
                && (fs.oracle(old(RemovalTick())) == Silent ==> left == [] && group in fs.state.instances)
      ensures left == [] ==> ReturnedBut(fs.oracle, old(fs.tick), fs.tick, if old(created) then {old(RemovalTick()) + 1} else {})
    {
      hide SameElsewhere, Tracks, TracingOf;
      ghost var rm := RemovalTick();
      left := CloseMarkerFile();
      ghost var s1 := fs.state;
      ElsewhereSame(s1, group);
      if created {
        var more := CloseInstance();
        left := left + more;
        assert fs.tick - 2 == rm;
      } else if InStep() {
        UncreatedIsQuiet(fs.state, group, defined, enabled, marker);
      }
      Elsewhere3(fs.state, s1, old(fs.state), group);
      ghost var s2 := fs.state;
      var more := RemoveProbes();
      Elsewhere3(fs.state, s2, old(fs.state), group);
      TracingSame(s2, fs.state, group);
      left := left + more;
    }

    /** When closing a created session removes the instance. */
    ghost function RemovalTick(): nat reads this, fs {
      fs.tick + (if marker then 1 else 0) + |enabled| + 1
    }

    /** When it last tests whether the instance exists, the reading before having succeeded. */
    ghost function LastTestTick(): nat reads this, fs {
      RemovalTick() + |defined| + 3
    }

    // ----- while open -----------------------------------------------------------------------

    /** Writes one marker; its number is spent even when the write throws. */
    method Mark(kind: string) returns (r: Option<nat>)
      modifies this`number, fs
      ensures fs.tick >= old(fs.tick)
      ensures SameElsewhere(fs.state, old(fs.state), group)
      ensures Honest(fs.oracle, old(fs.tick), fs.tick) && old(InStep()) ==> InStep()
      ensures !marker ==> r.None? && number == old(number) && fs.state == old(fs.state)
      ensures marker ==> number == old(number) + 1
      ensures r.Some? ==> marker && r.value == number
      ensures Honest(fs.oracle, old(fs.tick), fs.tick) && old(InStep()) && r.Some? ==>
                LinesOf(fs.state, group) == LinesOf(old(fs.state), group) + [Line(number, kind)]
      ensures Honest(fs.oracle, old(fs.tick), fs.tick) && old(InStep()) && r.None? ==> fs.state == old(fs.state)
      ensures SameThere(fs.state, old(fs.state), group) && fs.removals == old(fs.removals)
      ensures Worked(fs.oracle, old(fs.tick), fs.tick) && old(InStep()) && marker ==> r.Some?
    {
      hide SameElsewhere, Kernel, TracksProbes;
      ElsewhereSame(fs.state, group);
      if !marker {
        return None;
      }
      number := number + 1;
      ghost var s0 := fs.state;
      var ok := Own(WriteMarker(group, Line(number, kind)));
      if Tracks(s0, group, defined, enabled, created, marker) {
        TracksSetting(s0, WriteMarker(group, Line(number, kind)), group, defined, enabled, created, marker);
      }
      r := if ok then Some(number) else None;
    }

    /** Every probe is enabled, and the switch for all is on where the session saw it. */
    ghost predicate AllArmed() reads this, fs {
      enabled != [] && AllEnabled(fs.state, group, enabled) && (armShown ==> fs.state.arm == Some(true))
    }

    /** Whether the probes are armed; none when a file does not read. */
    method Armed() returns (r: Option<bool>)
      modifies fs`tick
      ensures fs.tick >= old(fs.tick)
      ensures r.Some? ==> (r.value <==> AllArmed())
      ensures (forall t :: old(fs.tick) <= t < fs.tick ==> Tells(fs.oracle(t))) && old(InStep()) && (armShown ==> fs.state.arm.Some?) ==>
                r.Some?
    {
      if enabled == [] {
        return Some(false);
      }
      if InStep() {
        EnabledKnown(fs.state, group, defined, enabled, created, marker);
      }
      for i := 0 to |enabled|
        invariant fs.tick >= old(fs.tick)
        invariant forall n :: n in enabled[..i] ==> group in fs.state.instances && Event(group, n) in fs.state.instances[group].enabled
      {
        assert enabled[..i + 1] == enabled[..i] + [enabled[i]];
        var on := fs.ReadEnabled(group, Event(group, enabled[i]));
        if on != Some(true) {
          return on;
        }
      }
      assert enabled[..|enabled|] == enabled;
      if armShown {
        r := fs.ReadArm();
        return r;
      }
      return Some(true);
    }

    method StopTracing() returns (ok: bool)
      modifies fs
      ensures fs.tick >= old(fs.tick)
      ensures SameElsewhere(fs.state, old(fs.state), group)
      ensures Honest(fs.oracle, old(fs.tick), fs.tick) && old(InStep()) ==> InStep()
      ensures Honest(fs.oracle, old(fs.tick), fs.tick) && ok && created ==> !TracingOf(fs.state, group)
      ensures SameThere(fs.state, old(fs.state), group) && fs.removals == old(fs.removals)
      ensures Worked(fs.oracle, old(fs.tick), fs.tick) && old(InStep()) ==> ok
    {
      ok := true;
      if created {
        StoppedTracing(fs.state, group);
        if InStep() {
          TracksCreated(fs.state, group, defined, enabled, created, marker);
        }
        TracingAllowed(fs.state, group);
        ok := Set(SetTracing(group, false));
      }
    }

    /** Refuses where tracefs lacks what the probes need or an observer has left something behind. */
    method Precheck(available: bool) returns (r: Result<(), Refusal>)
      modifies fs`tick
      ensures fs.tick >= old(fs.tick)
      ensures r.Success? ==> available && NoObserver(fs.state) && fs.tick == old(fs.tick) + 2
      ensures r.Failure? && r.error != ReadFailed ==> !available || !NoObserver(fs.state)
      ensures (forall t :: old(fs.tick) <= t < fs.tick ==> Tells(fs.oracle(t))) ==> (r.Success? <==> available && NoObserver(fs.state))
    {
      if !available {
        return Failure(TracefsUnavailable);
      }
      var instances := fs.ListInstances();
      if instances.None? {
        return Failure(ReadFailed);
      }
      if exists i :: i in instances.value && OBSERVER_PREFIX <= i {
        return Failure(InstanceExists);
      }
      var read := fs.ReadProbes();
      if read.None? {
        return Failure(ReadFailed);
      }
      if exists p :: p in read.value && OBSERVER_PREFIX <= p.group {
        return Failure(ProbesExist);
      }
      return Success(());
    }
  }

  function LinesOf(s: State, g: string): seq<Line> {
    if g in s.instances then s.instances[g].lines else []
  }

  predicate TracingOf(s: State, g: string) {
    g in s.instances && s.instances[g].tracing
  }

  /** What a reading finds left, the existence test telling the truth or failing. */
  function Remaining(s: State, g: string, told: bool): seq<Left> {
    (if OwnNames(s.probes, g) == [] then [] else [ProbesRemain(|OwnNames(s.probes, g)|)]) +
    if told && g in s.instances then [InstanceRemains] else []
  }

  // ----- a whole run ------------------------------------------------------------------------

  /**
   * The observer's run around a session: check, open, mark, stop, and always close. Past the check, an
   * empty report means that the file system is exactly as it was before, wherever opening failed and
   * whatever the existence tests answered, if every operation was done or threw without effect. Under
   * any faults it means so exactly unless the instance's creation took effect and threw, or it was
   * created and its removal was silently lost. Honest opening and working closing give the empty report.
   * The instance is created by the run's third operation, and its removal is attempted at most once.
   * Where tracefs is available and no observer has left anything, working operations do open the session.
   */
  method Observe(fs: TraceFs, group: string, specs: seq<ProbeSpec>, available: bool, kinds: seq<string>)
    returns (ran: bool, ready: bool, ghost closing: nat, left: seq<Left>)
    requires OBSERVER_PREFIX <= group && Kernel(fs.state) && Distinct(NamesOf(specs))
    modifies fs
    ensures SameElsewhere(fs.state, old(fs.state), group)
    ensures ready ==> ran
    ensures Worked(fs.oracle, old(fs.tick), closing) && available && old(NoObserver(fs.state)) ==> ran && ready
    ensures ran ==> |fs.removals| == |old(fs.removals)| + if Claims(fs.oracle(old(fs.tick) + 2)) then 1 else 0
    ensures ran && left == [] ==>
              var making := fs.oracle(old(fs.tick) + 2);
              fs.state == old(fs.state) <==>
                !(making == Late || (making == Works && fs.oracle(fs.removals[|old(fs.removals)|]) == Silent))
    ensures Honest(fs.oracle, old(fs.tick), fs.tick) && ran && left == [] ==> fs.state == old(fs.state)
    ensures Honest(fs.oracle, old(fs.tick), closing) && Worked(fs.oracle, closing, fs.tick) && ran ==>
              left == [] && fs.state == old(fs.state)
  {
    hide SameElsewhere, Vacant, Kernel, Tracks, NoObserver, AllListed, TraceSession.Live, Distinct, Remaining, OwnNames,
      ReturnedBut, WorkedBut, AllEnabled, Configured, Filtered, TracingOf;
    ghost var s0, t0 := fs.state, fs.tick;
    ElsewhereSame(s0, group);
    var session := new TraceSession(fs, group, specs);
    var check := session.Precheck(available);
    ran, ready := check.Success?, false;
    if ran {
      NoObserverIsVacant(s0, group);
      TracksNothing(s0, group);
      var started := session.Open();
      ready := started.Success?;
      if ready {
        ghost var s1 := fs.state;
        MarkAll(session, kinds, s0);
        s1 := fs.state;
        var _ := session.StopTracing();
        Elsewhere3(fs.state, s1, s0, group);
      }
    }
    closing := fs.tick;
    ghost var s2 := fs.state;
    left := session.Close();
    Elsewhere3(fs.state, s2, s0, group);
    if ran && left == [] && Vacant(fs.state, group) {
      VacantAgain(s0, fs.state, group);
    }
  }

  method MarkAll(session: TraceSession, kinds: seq<string>, ghost s0: State)
    requires SameElsewhere(session.fs.state, s0, session.group)
    modifies session`number, session.fs
    ensures session.fs.tick >= old(session.fs.tick)
    ensures SameElsewhere(session.fs.state, s0, session.group)
    ensures SameThere(session.fs.state, old(session.fs.state), session.group) && session.fs.removals == old(session.fs.removals)
    ensures Honest(session.fs.oracle, old(session.fs.tick), session.fs.tick) && old(session.InStep()) ==> session.InStep()
  {
    hide SameElsewhere, Tracks;
    for i := 0 to |kinds|
      invariant session.fs.tick >= old(session.fs.tick)
      invariant SameElsewhere(session.fs.state, s0, session.group)
      invariant SameThere(session.fs.state, old(session.fs.state), session.group) && session.fs.removals == old(session.fs.removals)
      invariant Honest(session.fs.oracle, old(session.fs.tick), session.fs.tick) && old(session.InStep()) ==> session.InStep()
    {
      ghost var before := session.fs.state;
      var _ := session.Mark(kinds[i]);
      Elsewhere3(session.fs.state, before, s0, session.group);
    }
  }

  // ----- facts the session's methods use ----------------------------------------------------

  lemma NothingEnabled(s: State, g: string)
    ensures AllEnabled(s, g, [])
  {
  }

  lemma NothingFiltered(settings: map<Setting, string>)
    ensures Filtered(settings, [])
  {
  }

  lemma EnabledToo(s: State, g: string, names: seq<string>, n: string)
    requires Allowed(s, Enable(g, Event(g, n)))
    ensures AllEnabled(s, g, names) ==> AllEnabled(After(s, Enable(g, Event(g, n)), Works), g, names + [n])
  {
  }

  lemma ReturnsClaims(s: State, op: Op, o: Outcome)
    ensures Returns(s, op, o) ==> Claims(o)
  {
  }

  lemma InstanceStays(s: State, op: Op, g: string, o: Outcome)
    requires !op.MakeInstance? && !op.RemoveInstance?
    ensures SameThere(After(s, op, o), s, g)
  {
  }

  lemma MakingIt(s: State, g: string, o: Outcome)
    requires g !in s.instances
    ensures Returns(s, MakeInstance(g), o) <==> Claims(o)
    ensures g in After(s, MakeInstance(g), o).instances <==> Takes(o)
  {
  }

  lemma StoppedTracing(s: State, g: string)
    ensures Allowed(s, SetTracing(g, false)) ==> !TracingOf(After(s, SetTracing(g, false), Works), g)
  {
  }

  lemma TracingStays(s: State, op: Op, g: string, o: Outcome)
    requires op.Disable?
    ensures TracingOf(After(s, op, o), g) == TracingOf(s, g)
  {
  }

  lemma TracingSame(s: State, t: State, g: string)
    requires s.instances == t.instances
    ensures TracingOf(s, g) == TracingOf(t, g)
  {
  }

  lemma InstanceClosable(s: State, g: string, d: seq<string>, e: seq<string>)
    requires Tracks(s, g, d, e, true, false)
    ensures Allowed(s, SetTracing(g, false)) && Allowed(s, RemoveInstance(g))
  {
  }

  lemma TracksNoneIsEmpty(s: State, g: string)
    requires Tracks(s, g, [], [], g in s.instances, false)
    ensures OwnNames(s.probes, g) == []
    ensures g !in s.instances ==> Vacant(s, g) && !TracingOf(s, g)
  {
  }

  lemma RemovedOrNot(s: State, g: string, o: Outcome)
    ensures !TracingOf(s, g) ==> !TracingOf(After(s, RemoveInstance(g), o), g)
    ensures o == Silent ==> Returns(s, RemoveInstance(g), o)
    ensures o == Works ==> Returns(s, RemoveInstance(g), o) == Allowed(s, RemoveInstance(g))
  {
  }

  lemma RemovalReturns(s: State, g: string, o: Outcome)
    ensures Returns(s, RemoveInstance(g), o) ==> WentOrLost(o, s, After(s, RemoveInstance(g), o), g)
  {
  }

  lemma TracksCreated(s: State, g: string, d: seq<string>, e: seq<string>, c: bool, m: bool)
    requires Tracks(s, g, d, e, c, m)
    ensures g in s.instances <==> c
  {
  }

  /** What was enabled is in an instance that is there, and defined. */
  lemma EnabledKnown(s: State, g: string, d: seq<string>, e: seq<string>, c: bool, m: bool)
    requires Tracks(s, g, d, e, c, m) && e != []
    ensures g in s.instances && forall n :: n in e ==> Defined(s, Event(g, n))
  {
    hide Listed, Kernel, Distinct;
    forall n | n in e ensures Defined(s, Event(g, n)) {
      NamesAreListed(s.probes, g, n);
    }
  }

  lemma RemainingMeans(s: State, g: string, told: bool)
    ensures Remaining(s, g, told) == [] <==> OwnNames(s.probes, g) == [] && !(told && g in s.instances)
    ensures Remaining(s, g, told) == [] ==> (Vacant(s, g) <==> told || g !in s.instances)
  {
  }

  lemma UncreatedIsQuiet(s: State, g: string, d: seq<string>, e: seq<string>, m: bool)
    requires Tracks(s, g, d, e, false, m)
    ensures e == [] && !m && g !in s.instances
  {
  }

  lemma ElsewhereSame(s: State, g: string)
    ensures SameElsewhere(s, s, g)
  {
  }

  lemma Elsewhere3(c: State, b: State, a: State, g: string)
    requires SameElsewhere(c, b, g) && SameElsewhere(b, a, g)
    ensures SameElsewhere(c, a, g)
  {
  }
}
