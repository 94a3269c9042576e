/**
 * The kernel's tracing file system as the observer meets it: the probes defined, in order, and the
 * instances with the events enabled in each. Every operation asks an oracle whether it works,
 * throws, is silently lost, or takes effect and throws all the same.
 */
module Tracefs {
  import opened Wrappers

  datatype Probe = Probe(returning: bool, group: string, name: string, spec: string)

  datatype Event = Event(group: string, name: string)

  /** A marker line: its sequence number and kind. */
  datatype Line = Line(number: nat, kind: string)

  /** The control files of an instance that are only written. */
  datatype Setting = TraceClock | RecordTgid | Overwrite | BufferSize | Filter(name: string)

  datatype Instance = Instance(
    enabled: set<Event>, tracing: bool, markerOpen: bool, lines: seq<Line>, settings: map<Setting, string>)

  /** `arm` is the kernel's one switch for all probes, where debugfs shows it. */
  datatype State = State(probes: seq<Probe>, instances: map<string, Instance>, arm: Option<bool>)

  datatype Op =
    | MakeInstance(instance: string)
    | RemoveInstance(instance: string)
    | Configure(instance: string, setting: Setting, text: string)
    | SetTracing(instance: string, on: bool)
    | OpenMarker(instance: string)
    | CloseMarker(instance: string)
    | WriteMarker(instance: string, line: Line)
    | Enable(instance: string, event: Event)
    | Disable(instance: string, event: Event)
    | Define(probe: Probe)
    | Remove(event: Event)

  function EventOf(p: Probe): Event { Event(p.group, p.name) }

  predicate Listed(probes: seq<Probe>, e: Event) {
    exists p :: p in probes && EventOf(p) == e
  }

  predicate Defined(s: State, e: Event) {
    Listed(s.probes, e)
  }

  predicate EnabledSomewhere(s: State, e: Event) {
    exists i :: i in s.instances && e in s.instances[i].enabled
  }

  /** Only what is defined is enabled: the kernel keeps a probe as long as an instance uses it. */
  ghost predicate Kernel(s: State) {
    forall i, e :: i in s.instances && e in s.instances[i].enabled ==> Defined(s, e)
  }

  /**
   * What the kernel does not refuse: it never lets go of an enabled probe, nor of an instance whose
   * marker file is open.
   */
  predicate Allowed(s: State, op: Op) {
    match op
    case MakeInstance(i) => i !in s.instances
    case RemoveInstance(i) => i in s.instances && !s.instances[i].markerOpen
    case Configure(i, _, _) => i in s.instances
    case SetTracing(i, on) => i in s.instances
    case OpenMarker(i) => i in s.instances
    case CloseMarker(i) => i in s.instances && s.instances[i].markerOpen
    case WriteMarker(i, l) => i in s.instances && s.instances[i].markerOpen
    case Enable(i, e) => i in s.instances && Defined(s, e)
    case Disable(i, e) => i in s.instances && Defined(s, e)
    case Define(p) => !Defined(s, EventOf(p))
    case Remove(e) => Defined(s, e) && !EnabledSomewhere(s, e)
  }

  function Without(probes: seq<Probe>, e: Event): seq<Probe> {
    if probes == [] then []
    else
      var p := probes[|probes| - 1];
      Without(probes[..|probes| - 1], e) + if EventOf(p) == e then [] else [p]
  }

  function Effect(s: State, op: Op): State
    requires Allowed(s, op)
  {
    match op
    case MakeInstance(i) => s.(instances := s.instances[i := Instance({}, false, false, [], map[])])
    case RemoveInstance(i) => s.(instances := s.instances - {i})
    case Configure(i, f, text) =>
      s.(instances := s.instances[i := s.instances[i].(settings := s.instances[i].settings[f := text])])
    case SetTracing(i, on) => s.(instances := s.instances[i := s.instances[i].(tracing := on)])
    case OpenMarker(i) => s.(instances := s.instances[i := s.instances[i].(markerOpen := true)])
    case CloseMarker(i) => s.(instances := s.instances[i := s.instances[i].(markerOpen := false)])
    case WriteMarker(i, l) => s.(instances := s.instances[i := s.instances[i].(lines := s.instances[i].lines + [l])])
    case Enable(i, e) => s.(instances := s.instances[i := s.instances[i].(enabled := s.instances[i].enabled + {e})])
    case Disable(i, e) => s.(instances := s.instances[i := s.instances[i].(enabled := s.instances[i].enabled - {e})])
    case Define(p) => s.(probes := s.probes + [p])
    case Remove(e) => s.(probes := Without(s.probes, e))
  }

  // ----- faults -----------------------------------------------------------------------------

  datatype Outcome =
    | Works
    | Throws   // no effect, and the caller is told
    | Silent   // no effect, and the caller is not told
    | Late     // takes effect, and throws

  function After(s: State, op: Op, o: Outcome): State {
    if Allowed(s, op) && (o == Works || o == Late) then Effect(s, op) else s
  }

  predicate Returns(s: State, op: Op, o: Outcome) {
    o == Silent || (o == Works && Allowed(s, op))
  }

  /** Between two ticks every operation did what the kernel allows. */
  ghost predicate Worked(oracle: nat -> Outcome, from: nat, to: nat) {
    forall t :: from <= t < to ==> oracle(t) == Works
  }

  /** Between two ticks every operation was done, or threw without effect. */
  ghost predicate Honest(oracle: nat -> Outcome, from: nat, to: nat) {
    forall t :: from <= t < to ==> oracle(t) == Works || oracle(t) == Throws
  }

  /** A read or an existence test at such an outcome tells the truth. */
  predicate Tells(o: Outcome) {
    o == Works || o == Silent
  }

  // ----- one group's part -------------------------------------------------------------------

  /** The names of a group's probes, in the order the kernel lists them. */
  function OwnNames(probes: seq<Probe>, g: string): seq<string> {
    if probes == [] then []
    else
      var p := probes[|probes| - 1];
      OwnNames(probes[..|probes| - 1], g) + if p.group == g then [p.name] else []
  }

  function Others(probes: seq<Probe>, g: string): seq<Probe> {
    if probes == [] then []
    else
      var p := probes[|probes| - 1];
      Others(probes[..|probes| - 1], g) + if p.group == g then [] else [p]
  }

  function Dropped(names: seq<string>, n: string): seq<string> {
    if names == [] then []
    else Dropped(names[..|names| - 1], n) + if names[|names| - 1] == n then [] else [names[|names| - 1]]
  }

  lemma {:induction false} DroppedAbsent(names: seq<string>, n: string)
    requires n !in names
    ensures Dropped(names, n) == names
  {
    if names != [] {
      var init := names[..|names| - 1];
      assert names == init + [names[|names| - 1]];
      DroppedAbsent(init, n);
    }
  }

  lemma {:induction false} WithoutIs(probes: seq<Probe>, e: Event, g: string)
    requires e.group == g
    ensures Others(Without(probes, e), g) == Others(probes, g)
    ensures OwnNames(Without(probes, e), g) == Dropped(OwnNames(probes, g), e.name)
  {
    if probes != [] {
      var init, p := probes[..|probes| - 1], probes[|probes| - 1];
      WithoutIs(init, e, g);
      var kept := Without(init, e);
      assert (kept + [p])[..|kept + [p]| - 1] == kept;
      var names := OwnNames(init, g);
      assert (names + [p.name])[..|names + [p.name]| - 1] == names;
      assert kept + [] == kept && names + [] == names;
    }
  }

  lemma {:induction false} WithoutMembers(probes: seq<Probe>, e: Event)
    ensures forall p :: p in Without(probes, e) <==> p in probes && EventOf(p) != e
  {
    if probes != [] {
      var init := probes[..|probes| - 1];
      assert probes == init + [probes[|probes| - 1]];
      WithoutMembers(init, e);
    }
  }

  lemma ListedSnoc(init: seq<Probe>, p: Probe, e: Event)
    ensures Listed(init + [p], e) <==> Listed(init, e) || EventOf(p) == e
  {
    var probes := init + [p];
    if Listed(init, e) {
      var q :| q in init && EventOf(q) == e;
      assert q in probes;
    }
    if EventOf(p) == e {
      assert probes[|init|] in probes;
    }
  }

  lemma {:induction false} NamesAreListed(probes: seq<Probe>, g: string, n: string)
    ensures n in OwnNames(probes, g) <==> Listed(probes, Event(g, n))
  {
    hide Listed;
    if probes == [] {
      NothingListed(Event(g, n));
    } else {
      var init, p := probes[..|probes| - 1], probes[|probes| - 1];
      assert probes == init + [p];
      ListedSnoc(init, p, Event(g, n));
      NamesAreListed(init, g, n);
    }
  }

  lemma NothingListed(e: Event)
    ensures !Listed([], e)
  {
  }

  lemma GroupSnoc(init: seq<Probe>, p: Probe, g: string)
    ensures p.group == g ==> OwnNames(init + [p], g) == OwnNames(init, g) + [p.name]
    ensures p.group != g ==> OwnNames(init + [p], g) == OwnNames(init, g)
    ensures Others(init + [p], g) == if p.group == g then Others(init, g) else Others(init, g) + [p]
  {
    assert (init + [p])[..|init|] == init;
  }

  lemma {:induction false} NoOwnNames(probes: seq<Probe>, g: string)
    requires |OwnNames(probes, g)| == 0
    ensures Others(probes, g) == probes
  {
    if probes != [] {
      hide OwnNames, Others;
      var init, p := probes[..|probes| - 1], probes[|probes| - 1];
      assert probes == init + [p];
      GroupSnoc(init, p, g);
      NoOwnNames(init, g);
    }
  }

  /** Everything but the group's probes and its instance is the same. */
  ghost predicate SameElsewhere(s: State, t: State, g: string) {
    Others(s.probes, g) == Others(t.probes, g) && s.instances - {g} == t.instances - {g} && s.arm == t.arm
  }

  /** Nothing of the group: no probe, no instance. */
  ghost predicate Vacant(s: State, g: string) {
    OwnNames(s.probes, g) == [] && g !in s.instances
  }

  /** The operation is on the group's own probes and instance. */
  predicate OwnOp(op: Op, g: string) {
    match op
    case MakeInstance(i) => i == g
    case RemoveInstance(i) => i == g
    case Configure(i, _, _) => i == g
    case SetTracing(i, on) => i == g
    case OpenMarker(i) => i == g
    case CloseMarker(i) => i == g
    case WriteMarker(i, l) => i == g
    case Enable(i, e) => i == g && e.group == g
    case Disable(i, e) => i == g && e.group == g
    case Define(p) => p.group == g
    case Remove(e) => e.group == g
  }

  /** Whatever becomes of it, an operation on the group's own leaves all else alone. */
  lemma OwnOpStaysInside(s: State, op: Op, g: string, o: Outcome)
    requires OwnOp(op, g)
    ensures SameElsewhere(After(s, op, o), s, g)
  {
    match op
    case Remove(e) => WithoutIs(s.probes, e, g);
    case Define(p) => assert (s.probes + [p])[..|s.probes + [p]| - 1] == s.probes;
    case _ =>
  }

  /** Vacant before and vacant after, and nothing else touched: everything is as it was. */
  lemma VacantAgain(before: State, after: State, g: string)
    requires SameElsewhere(after, before, g) && Vacant(before, g) && Vacant(after, g)
    ensures after == before
  {
    NoOwnNames(before.probes, g);
    NoOwnNames(after.probes, g);
    assert before.instances - {g} == before.instances;
    assert after.instances - {g} == after.instances;
  }

  lemma KernelKept(s: State, op: Op, o: Outcome)
    requires Kernel(s)
    ensures Kernel(After(s, op, o))
  {
    hide Listed;
    var t := After(s, op, o);
    forall i, e | i in t.instances && e in t.instances[i].enabled ensures Defined(t, e) {
      if i in s.instances && e in s.instances[i].enabled {
        assert Defined(s, e) && EnabledSomewhere(s, e);
        if op.Remove? && t != s {
          WithoutKeeps(s.probes, op.event, e);
        } else if op.Define? && t != s {
          ListedSnoc(s.probes, op.probe, e);
        }
      } else {
        assert op.Enable? && e == op.event && t.probes == s.probes;
      }
    }
  }

  lemma WithoutKeeps(probes: seq<Probe>, gone: Event, e: Event)
    requires Listed(probes, e) && e != gone
    ensures Listed(Without(probes, gone), e)
  {
    WithoutMembers(probes, gone);
    var p :| p in probes && EventOf(p) == e;
    assert p in Without(probes, gone);
  }

  // ----- the file system --------------------------------------------------------------------

  class TraceFs {
    var state: State
    var tick: nat
    ghost var removals: seq<nat>   // when the removal of an instance was attempted
    const oracle: nat -> Outcome

    constructor (state: State, oracle: nat -> Outcome)
      ensures this.state == state && this.oracle == oracle && tick == 0 && removals == []
    {
      this.state, this.oracle, this.tick, this.removals := state, oracle, 0, [];
    }

    method Do(op: Op) returns (ok: bool)
      modifies this
      ensures tick == old(tick) + 1
      ensures state == After(old(state), op, oracle(old(tick)))
      ensures ok <==> Returns(old(state), op, oracle(old(tick)))
      ensures removals == old(removals) + if op.RemoveInstance? then [old(tick)] else []
    {
      ok := Returns(state, op, oracle(tick));
      removals := removals + if op.RemoveInstance? then [tick] else [];
      state, tick := After(state, op, oracle(tick)), tick + 1;
    }

    /** The probes the kernel lists; a read tells the truth or throws. */
    method ReadProbes() returns (r: Option<seq<Probe>>)
      modifies this`tick
      ensures tick == old(tick) + 1
      ensures r == if Tells(oracle(old(tick))) then Some(state.probes) else None
    {
      r := if Tells(oracle(tick)) then Some(state.probes) else None;
      tick := tick + 1;
    }

    /** The instances the kernel lists. */
    method ListInstances() returns (r: Option<set<string>>)
      modifies this`tick
      ensures tick == old(tick) + 1
      ensures r == if Tells(oracle(old(tick))) then Some(state.instances.Keys) else None
    {
      r := if Tells(oracle(tick)) then Some(state.instances.Keys) else None;
      tick := tick + 1;
    }

    /** Whether the instance exists; a test that fails says no. */
    method Exists(i: string) returns (r: bool)
      modifies this`tick
      ensures tick == old(tick) + 1
      ensures r == (Tells(oracle(old(tick))) && i in state.instances)
    {
      r := Tells(oracle(tick)) && i in state.instances;
      tick := tick + 1;
    }

    /** The switch for all probes, where it is shown and reads. */
    method ReadArm() returns (r: Option<bool>)
      modifies this`tick
      ensures tick == old(tick) + 1
      ensures r == if Tells(oracle(old(tick))) then state.arm else None
    {
      r := if Tells(oracle(tick)) then state.arm else None;
      tick := tick + 1;
    }

    /** Whether a file under the instance reads as switched on. */
    method ReadEnabled(i: string, e: Event) returns (r: Option<bool>)
      modifies this`tick
      ensures tick == old(tick) + 1
      ensures r.Some? ==> i in state.instances && Defined(state, e) && r.value == (e in state.instances[i].enabled)
      ensures r.Some? <==> Tells(oracle(old(tick))) && i in state.instances && Defined(state, e)
    {
      r := if Tells(oracle(tick)) && i in state.instances && Defined(state, e)
           then Some(e in state.instances[i].enabled) else None;
      tick := tick + 1;
    }
  }
}
