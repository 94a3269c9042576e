/**
 * The observer's run as a machine: the main line of work, the heartbeats, the tool's lines and its
 * exit interleave in any order, and any operation may fail. If the run returns 0, the trace holds
 * what it should, in order and without gap.
 */
module Observer {
  import opened Wrappers
  import opened ControlProtocol

  // ----- heartbeats -------------------------------------------------------------------------

  datatype CpuStats = CpuStats(overrun: nat, commitOverrun: nat, droppedEvents: nat)

  function LostOn(c: CpuStats): nat { c.overrun + c.commitOverrun + c.droppedEvents }

  function Lost(stats: seq<CpuStats>): nat {
    if stats == [] then 0
    else LostOn(stats[0]) + Lost(stats[1..])
  }

  datatype Sample = Sample(readable: bool, stats: seq<CpuStats>, tracingOn: bool, misses: nat, armed: bool)

  datatype Beat = Beat(tracingOn: nat, loss: nat, ok: bool)

  function HeartbeatOf(sample: Sample): Beat {
    var loss := Lost(sample.stats) + sample.misses;
    var on := sample.tracingOn && sample.armed;
    Beat(if on then 1 else 0, loss, on && loss == 0 && sample.stats != [])
  }

  lemma {:induction false} NothingLost(stats: seq<CpuStats>)
    ensures Lost(stats) == 0 <==> forall c :: c in stats ==> LostOn(c) == 0
  {
    if stats != [] {
      NothingLost(stats[1..]);
      assert stats == [stats[0]] + stats[1..];
      assert forall c :: c in stats <==> c == stats[0] || c in stats[1..];
      assert Lost(stats) == LostOn(stats[0]) + Lost(stats[1..]);
    }
  }

  /** A heartbeat is good exactly when tracing is on, the probes armed, and no counter of any CPU or probe moved. */
  lemma GoodHeartbeat(sample: Sample)
    ensures HeartbeatOf(sample).ok <==>
              && sample.stats != [] && (forall c :: c in sample.stats ==> c == CpuStats(0, 0, 0))
              && sample.tracingOn && sample.armed && sample.misses == 0
  {
    NothingLost(sample.stats);
  }

  lemma GoodHeartbeatShows(sample: Sample)
    ensures HeartbeatOf(sample).ok ==> HeartbeatOf(sample).tracingOn == 1 && HeartbeatOf(sample).loss == 0
    ensures HeartbeatOf(sample).tracingOn == 1 <==> sample.tracingOn && sample.armed
  {
  }

  /** The loss a heartbeat shows is nought exactly when no counter of any CPU and no probe shows one. */
  lemma LossShows(sample: Sample)
    ensures HeartbeatOf(sample).loss == 0 <==>
            sample.misses == 0 && forall c :: c in sample.stats ==> c.overrun == 0 && c.commitOverrun == 0 && c.droppedEvents == 0
  {
    NothingLost(sample.stats);
  }

  // ----- the trace --------------------------------------------------------------------------

  datatype Kind =
    | Ready
    | CountersBegin(n: nat)
    | CountersEnd(n: nat)
    | Heartbeat(beat: nat, tracingOn: nat, loss: nat)
    | Spawned
    | HelloMark
    | PhaseMark(phase: string)
    | ContainerMark(id: string, pid: nat, netns: string)
    | ToolDone(ok: nat)
    | Stop(failures: nat)
    | FailMark(code: string)

  datatype Marker = Marker(number: nat, kind: Kind)

  /** A marker in the trace, or an acknowledgement sent to the tool. */
  datatype Entry = Wrote(marker: Marker) | Ack(number: nat)

  function Markers(log: seq<Entry>): seq<Marker> {
    if log == [] then []
    else Markers(log[..|log| - 1]) + match log[|log| - 1] case Wrote(m) => [m] case Ack(_) => []
  }

  lemma MarkersSnoc(log: seq<Entry>, e: Entry)
    ensures Markers(log + [e]) == Markers(log) + match e case Wrote(m) => [m] case Ack(_) => []
  {
    assert (log + [e])[..|log + [e]| - 1] == log;
  }

  function Beats(ms: seq<Marker>): nat {
    if ms == [] then 0 else Beats(ms[..|ms| - 1]) + if ms[|ms| - 1].kind.Heartbeat? then 1 else 0
  }

  predicate GoodKind(kind: Kind, beats: nat) {
    match kind
    case Heartbeat(n, on, loss) => n == beats + 1 && on == 1 && loss == 0
    case FailMark(_) => false
    case _ => true
  }

  /** Numbered without gap, no failure, and every heartbeat good and numbered in turn. */
  ghost predicate Sound(ms: seq<Marker>) {
    ms == [] || (var init, m := ms[..|ms| - 1], ms[|ms| - 1];
                 Sound(init) && m.number == |ms| && GoodKind(m.kind, Beats(init)))
  }

  lemma {:induction false} SoundMeans(ms: seq<Marker>)
    requires Sound(ms)
    ensures forall i :: 0 <= i < |ms| ==> ms[i].number == i + 1
    ensures forall m :: m in ms ==> !m.kind.FailMark?
    ensures forall m :: m in ms && m.kind.Heartbeat? ==> m.kind.tracingOn == 1 && m.kind.loss == 0
  {
    if ms != [] {
      var init := ms[..|ms| - 1];
      SoundMeans(init);
      assert ms == init + [ms[|ms| - 1]];
    }
  }

  predicate Structural(kind: Kind) {
    !kind.Heartbeat? && !kind.ContainerMark? && !kind.FailMark?
  }

  /** The kinds of the markers that are neither heartbeats, containers nor failures. */
  function Skeleton(ms: seq<Marker>): seq<Kind> {
    if ms == [] then []
    else Skeleton(ms[..|ms| - 1]) + if Structural(ms[|ms| - 1].kind) then [ms[|ms| - 1].kind] else []
  }

  lemma MarkerSnoc(ms: seq<Marker>, m: Marker)
    ensures Skeleton(ms + [m]) == Skeleton(ms) + if Structural(m.kind) then [m.kind] else []
    ensures Beats(ms + [m]) == Beats(ms) + if m.kind.Heartbeat? then 1 else 0
    ensures Sound(ms + [m]) <==> Sound(ms) && m.number == |ms| + 1 && GoodKind(m.kind, Beats(ms))
  {
    assert (ms + [m])[..|ms + [m]| - 1] == ms;
  }

  /** Each acknowledgement comes right after the marker it names, which is one the tool asked for. */
  ghost predicate AcksFollow(log: seq<Entry>) {
    forall i :: 0 <= i < |log| && log[i].Ack? ==>
      && i > 0 && log[i - 1].Wrote? && log[i - 1].marker.number == log[i].number
      && (log[i - 1].marker.kind.HelloMark? || log[i - 1].marker.kind.PhaseMark? || log[i - 1].marker.kind.ContainerMark?)
  }

  function PhaseMarks(phases: seq<string>): (kinds: seq<Kind>)
    ensures |kinds| == |phases| && forall i :: 0 <= i < |kinds| ==> kinds[i] == PhaseMark(phases[i])
  {
    seq(|phases|, i requires 0 <= i < |phases| => PhaseMark(phases[i]))
  }

  // ----- the machine ------------------------------------------------------------------------

  datatype Settled = Pending | Resolved(code: Option<int>) | Rejected

  /** `writes` records what became of each mark made while the session was open. */
  datatype State = State(
    pc: nat, log: seq<Entry>, failures: seq<string>, number: nat, beats: nat, writes: seq<Write>, sessionOpen: bool, ticking: bool,
    listening: bool, stopping: bool, settled: Settled, proto: Protocol, exitCode: int, closed: bool)

  const INITIAL := State(0, [], [], 0, 0, [], false, false, false, false, Pending, START, 3, false)

  /** What becomes of a marker's write: a write that returns has been made. */
  datatype Write = Written | NotWritten | WrittenButThrew

  datatype Op =
    | Open
    | Check
    | MarkKind(kind: Kind)
    | BeatOnce
    | StartTicking
    | Listen
    | Await
    | StopTicking
    | MarkToolDone
    | MarkStop
    | SetExitCode

  /** The main line of work; `Check` stands for the steps that only may throw. */
  const SCRIPT: seq<Op> := [
    Open, Check, MarkKind(Ready), MarkKind(CountersBegin(1)), Check, MarkKind(CountersEnd(1)), BeatOnce, StartTicking, Check,
    MarkKind(Spawned), Listen, Await, StopTicking, MarkToolDone, MarkKind(CountersBegin(2)), Check, MarkKind(CountersEnd(2)),
    BeatOnce, MarkStop, Check, SetExitCode]

  const LISTEN := 10
  const AWAIT := 11

  /** What the world decides at a step: whether it throws, what it reads, and what becomes of its writes. */
  datatype World = World(ok: bool, sample: Sample, write: Write, failWrite: Write, stdinOpen: bool, markerOpen: bool)

  datatype Content = Malformed | Output | Request(msg: Msg)

  datatype Event =
    | Main(world: World)
    | Tick(world: World)
    | ToolLine(content: Content, world: World)
    | ToolExit(code: int, world: World)
    | ToolError
    | Close(left: nat)

  function MarkIn(s: State, kind: Kind, write: Write): (State, bool) {
    if !s.sessionOpen then (s, false)
    else
      var n := s.number + 1;
      (s.(number := n, writes := s.writes + [write], log := if write == NotWritten then s.log else s.log + [Wrote(Marker(n, kind))]), write == Written)
  }

  /** Records a failure; its marker is written if it can be. */
  function FailIn(s: State, code: string, write: Write): State {
    MarkIn(s.(failures := s.failures + [code]), FailMark(code), write).0
  }

  function BeatIn(s: State, w: World): (State, bool) {
    var s1 := s.(beats := s.beats + 1);
    if !w.sample.readable then (s1, false)
    else
      var h := HeartbeatOf(w.sample);
      var (s2, ok) := MarkIn(s1, Heartbeat(s1.beats, h.tracingOn, h.loss), w.write);
      (s2, ok && h.ok)
  }

  /** One operation of the main line, and whether it threw nothing. */
  function Do(s: State, op: Op, w: World): (State, bool) {
    match op
    case Open => (s.(sessionOpen := w.ok || w.markerOpen), w.ok)
    case Check => (s, w.ok)
    case MarkKind(kind) => MarkIn(s, kind, w.write)
    case BeatOnce => BeatIn(s, w)
    case StartTicking => (s.(ticking := true), true)
    case Listen => (s.(listening := true), true)
    case Await => (s, s.settled != Rejected)
    case StopTicking => (s.(ticking := false), true)
    case MarkToolDone => MarkIn(s, ToolDone(if s.settled == Resolved(None) && s.failures == [] then 1 else 0), w.write)
    case MarkStop => MarkIn(s, Stop(|s.failures|), w.write)
    case SetExitCode =>
      (s.(exitCode := match s.settled case Resolved(Some(code)) => if code == 0 then 4 else code case _ => 0), true)
  }

  function MainStep(s: State, w: World): State {
    if s.pc >= |SCRIPT| || (SCRIPT[s.pc] == Await && s.settled == Pending) then s
    else
      var (t, ok) := Do(s, SCRIPT[s.pc], w);
      if ok then t.(pc := s.pc + 1) else FailIn(t, "OBSERVER_ERROR", w.failWrite).(pc := |SCRIPT|)
  }

  function TickStep(s: State, w: World): State {
    if !s.ticking then s
    else
      var (t, ok) := BeatIn(s, w);
      if ok then t else FailIn(t, "OBSERVER_LOSS", w.failWrite)
  }

  function Settle(s: State, v: Settled): State {
    if s.settled == Pending then s.(settled := v) else s
  }

  function KindOf(act: Act): Kind
    requires act.MarkHello? || act.MarkPhase? || act.MarkContainer?
  {
    match act
    case MarkHello(_, _) => HelloMark
    case MarkPhase(phase) => PhaseMark(phase)
    case MarkContainer(id, pid, netns) => ContainerMark(id, pid, netns)
  }

  function Serve(s: State, act: Act, w: World): State
    requires act.MarkHello? || act.MarkPhase? || act.MarkContainer?
  {
    var (t, ok) := MarkIn(s, KindOf(act), w.write);
    if !ok then FailIn(t, "CTL_REFUSED", w.failWrite)
    else if w.stdinOpen then t.(log := t.log + [Ack(t.number)])
    else t
  }

  function RequestStep(s: State, msg: Msg, w: World, netns: (string, nat) -> string): State {
    var (p, act) := Step(s.proto, msg, netns);
    var t := s.(proto := p);
    match act
    case None => FailIn(t, "PHASE_ORDER", w.failWrite)
    case Some(AbortRun(reason)) => FailIn(t, "TOOL_ABORTED", w.failWrite)
    case Some(Finish) => Settle(t.(stopping := true), Resolved(None))
    case Some(a) => Serve(t, a, w)
  }

  function LineStep(s: State, content: Content, w: World, netns: (string, nat) -> string): State {
    if !s.listening then s
    else match content
      case Malformed => FailIn(s, "CTL_MALFORMED", w.failWrite)
      case Output => s
      case Request(msg) => if s.stopping then s else RequestStep(s, msg, w, netns)
  }

  function ExitStep(s: State, code: int, w: World): State {
    if s.stopping || !s.listening then s
    else Settle(FailIn(s.(stopping := true), "TOOL_EXITED", w.failWrite), Resolved(Some(code)))
  }

  function CloseStep(s: State, left: nat): State {
    if s.pc < |SCRIPT| || s.closed then s
    else s.(closed := true, ticking := false, sessionOpen := false,
            failures := if left > 0 then s.failures + ["CLEANUP_INCOMPLETE"] else s.failures)
  }

  function Next(s: State, e: Event, netns: (string, nat) -> string): State {
    match e
    case Main(w) => MainStep(s, w)
    case Tick(w) => TickStep(s, w)
    case ToolLine(content, w) => LineStep(s, content, w, netns)
    case ToolExit(code, w) => ExitStep(s, code, w)
    case ToolError => if s.listening then Settle(s, Rejected) else s
    case Close(left) => CloseStep(s, left)
  }

  function RunOf(events: seq<Event>, netns: (string, nat) -> string): State {
    if events == [] then INITIAL else Next(RunOf(events[..|events| - 1], netns), events[|events| - 1], netns)
  }

  /** What the run returns once it has closed and the tool has ended with `toolExit`. */
  function ReturnCode(s: State, toolExit: int): Option<int> {
    if !s.closed then None
    else if s.failures != [] then Some(3)
    else if s.exitCode != 0 then Some(s.exitCode)
    else Some(toolExit)
  }

  // ----- what every run keeps ---------------------------------------------------------------

  /** The markers agree with the counters of markers and heartbeats. */
  ghost predicate Tidy(s: State) {
    var ms := Markers(s.log);
    Sound(ms) && |ms| == s.number && Beats(ms) == s.beats
  }

  /** What has been marked of the tool's requests. */
  function Served(p: Protocol): seq<Kind> {
    (if p.hello then [HelloMark] else []) + if p.next <= |PHASES| then PhaseMarks(PHASES[..p.next]) else []
  }

  function KindsOf(op: Op): seq<Kind> {
    match op
    case MarkKind(kind) => [kind]
    case MarkToolDone => [ToolDone(1)]
    case MarkStop => [Stop(0)]
    case _ => []
  }

  /** What the main line has marked between two of its steps. */
  function MainKinds(lo: nat, hi: nat): seq<Kind>
    requires lo <= hi <= |SCRIPT|
    decreases hi
  {
    if lo == hi then [] else MainKinds(lo, hi - 1) + KindsOf(SCRIPT[hi - 1])
  }

  function Expected(pc: nat, p: Protocol): seq<Kind>
    requires pc <= |SCRIPT|
  {
    if pc <= AWAIT then MainKinds(0, pc) + Served(p) else MainKinds(0, AWAIT) + Served(p) + MainKinds(AWAIT, pc)
  }

  /** While nothing has failed: where the run is. */
  ghost predicate Flags(s: State) {
    && (s.listening <==> s.pc > LISTEN)
    && (!s.listening ==> s.proto == START)
    && (s.stopping ==> s.proto.done)
    && (s.settled.Resolved? ==> s.stopping && s.settled == Resolved(None))
    && (s.pc > AWAIT ==> s.settled.Resolved?)
    && s.exitCode == (if s.pc == |SCRIPT| then 0 else 3)
  }

  /** While nothing has failed, what has been marked is what was expected by now. */
  ghost predicate OnCourse(s: State)
    requires s.pc <= |SCRIPT|
  {
    Tidy(s) && Skeleton(Markers(s.log)) == Expected(s.pc, s.proto) && Flags(s)
  }

  ghost predicate Inv(s: State) {
    && s.pc <= |SCRIPT| && Reachable(s.proto) && AcksFollow(s.log)
    && (s.closed ==> s.pc == |SCRIPT|)
    && (s.failures == [] ==> OnCourse(s))
  }

  // ----- marking ----------------------------------------------------------------------------

  lemma AcksAfterMarker(log: seq<Entry>, m: Marker)
    requires AcksFollow(log)
    ensures AcksFollow(log + [Wrote(m)])
  {
    var more := log + [Wrote(m)];
    forall i | 0 <= i < |more| && more[i].Ack?
      ensures i > 0 && more[i - 1] == log[i - 1] && more[i] == log[i]
    {
    }
  }

  lemma AcksAfterAck(log: seq<Entry>, n: nat)
    requires AcksFollow(log) && log != [] && log[|log| - 1].Wrote?
    requires var m := log[|log| - 1].marker;
             m.number == n && (m.kind.HelloMark? || m.kind.PhaseMark? || m.kind.ContainerMark?)
    ensures AcksFollow(log + [Ack(n)])
  {
    var more := log + [Ack(n)];
    forall i | 0 <= i < |more| && more[i].Ack?
      ensures i > 0 && more[i - 1] == log[i - 1]
    {
    }
  }

  lemma MarkKeepsAcks(s: State, kind: Kind, write: Write)
    requires AcksFollow(s.log)
    ensures AcksFollow(MarkIn(s, kind, write).0.log)
  {
    hide AcksFollow;
    AcksAfterMarker(s.log, Marker(s.number + 1, kind));
  }

  /** A mark that succeeds adds its kind, and nothing else. */
  lemma MarkSucceeds(s: State, kind: Kind, write: Write)
    requires MarkIn(s, kind, write).1
    ensures var t := MarkIn(s, kind, write).0;
            && s.sessionOpen && t == s.(number := s.number + 1, writes := s.writes + [Written], log := s.log + [Wrote(Marker(s.number + 1, kind))])
            && Skeleton(Markers(t.log)) == Skeleton(Markers(s.log)) + (if Structural(kind) then [kind] else [])
            && (Tidy(s) && GoodKind(kind, s.beats) && !kind.Heartbeat? ==> Tidy(t))
  {
    hide Sound, Skeleton, Beats, Markers;
    MarkersSnoc(s.log, Wrote(Marker(s.number + 1, kind)));
    MarkerSnoc(Markers(s.log), Marker(s.number + 1, kind));
  }

  /** A heartbeat that succeeds adds one good heartbeat. */
  lemma BeatSucceeds(s: State, w: World)
    requires BeatIn(s, w).1
    ensures var t := BeatIn(s, w).0;
            && Skeleton(Markers(t.log)) == Skeleton(Markers(s.log))
            && (Tidy(s) ==> Tidy(t))
            && t == s.(number := t.number, writes := t.writes, beats := t.beats, log := t.log)
  {
    hide Sound, Skeleton, Beats, Markers, HeartbeatOf;
    GoodHeartbeatShows(w.sample);
    var h := HeartbeatOf(w.sample);
    var m := Marker(s.number + 1, Heartbeat(s.beats + 1, h.tracingOn, h.loss));
    MarkersSnoc(s.log, Wrote(m));
    MarkerSnoc(Markers(s.log), m);
    assert Skeleton(Markers(s.log)) + [] == Skeleton(Markers(s.log));
  }

  lemma BeatKeeps(s: State, w: World)
    requires AcksFollow(s.log)
    ensures AcksFollow(BeatIn(s, w).0.log)
    ensures var t := BeatIn(s, w).0;
            t == s.(number := t.number, writes := t.writes, beats := t.beats, log := t.log)
  {
    hide AcksFollow, HeartbeatOf;
    var h := HeartbeatOf(w.sample);
    MarkKeepsAcks(s.(beats := s.beats + 1), Heartbeat(s.beats + 1, h.tracingOn, h.loss), w.write);
  }

  /** A failure is recorded for good, whatever becomes of its marker. */
  lemma FailKeeps(s: State, code: string, write: Write)
    requires AcksFollow(s.log)
    ensures var t := FailIn(s, code, write);
            && AcksFollow(t.log) && t.failures == s.failures + [code]
            && t == s.(failures := t.failures, number := t.number, writes := t.writes, log := t.log)
  {
    hide AcksFollow;
    MarkKeepsAcks(s.(failures := s.failures + [code]), FailMark(code), write);
  }

  // ----- each step --------------------------------------------------------------------------

  lemma FailInv(s: State, code: string, write: Write)
    requires s.pc <= |SCRIPT| && Reachable(s.proto) && AcksFollow(s.log) && (s.closed ==> s.pc == |SCRIPT|)
    ensures Inv(FailIn(s, code, write)) && FailIn(s, code, write).failures != []
    ensures Inv(FailIn(s, code, write).(pc := |SCRIPT|))
  {
    hide AcksFollow, OnCourse, Reachable;
    FailKeeps(s, code, write);
  }

  lemma TickInv(s: State, w: World)
    requires Inv(s)
    ensures Inv(TickStep(s, w))
  {
    hide AcksFollow, Reachable, Sound, Skeleton, Beats, Markers, HeartbeatOf, Expected, FailIn, BeatIn, Tidy;
    if s.ticking {
      var (t, ok) := BeatIn(s, w);
      BeatKeeps(s, w);
      if ok {
        BeatSucceeds(s, w);
      } else {
        FailInv(t, "OBSERVER_LOSS", w.failWrite);
      }
    }
  }

  lemma CloseInv(s: State, left: nat)
    requires Inv(s)
    ensures Inv(CloseStep(s, left))
  {
    hide AcksFollow, Reachable, Sound, Skeleton, Beats, Markers, Expected;
  }

  lemma ExitInv(s: State, code: int, w: World)
    requires Inv(s)
    ensures Inv(ExitStep(s, code, w))
  {
    hide AcksFollow, Reachable, FailIn, OnCourse;
    if !s.stopping && s.listening {
      FailKeeps(s.(stopping := true), "TOOL_EXITED", w.failWrite);
    }
  }

  lemma ToolErrorInv(s: State)
    requires Inv(s)
    ensures Inv(Settle(s, Rejected))
  {
    hide AcksFollow, Reachable, Sound, Skeleton, Beats, Markers, Expected;
  }

  /** The next served request extends what is expected. */
  lemma ServedGrows(p: Protocol, msg: Msg, netns: (string, nat) -> string)
    requires Reachable(p)
    ensures var (q, act) := Step(p, msg, netns);
            && Reachable(q)
            && (act.Some? && act.value.MarkHello? ==> !p.hello && Served(q) == Served(p) + [HelloMark])
            && (act.Some? && act.value.MarkPhase? ==> Served(q) == Served(p) + [PhaseMark(act.value.phase)])
            && (act.Some? && act.value.MarkContainer? ==> q == p)
            && (act.Some? && act.value.Finish? ==> q.done && Served(q) == Served(p))
            && (act.Some? && !act.value.Finish? ==> q.done == p.done)
  {
    var (q, act) := Step(p, msg, netns);
    if act.Some? && act.value.MarkPhase? {
      assert PHASES[..q.next] == PHASES[..p.next] + [PHASES[p.next]];
      assert PhaseMarks(PHASES[..q.next]) == PhaseMarks(PHASES[..p.next]) + [PhaseMark(PHASES[p.next])];
    }
  }

  lemma ServeInv(s: State, p: Protocol, act: Act, w: World)
    requires Inv(s) && s.listening && Reachable(p) && (act.MarkHello? || act.MarkPhase? || act.MarkContainer?)
    requires !s.stopping && p.done == s.proto.done
    requires Served(p) == Served(s.proto) + if Structural(KindOf(act)) then [KindOf(act)] else []
    ensures Inv(Serve(s.(proto := p), act, w))
  {
    hide AcksFollow, Reachable, Sound, Skeleton, Beats, Markers, FailIn, MarkIn, Tidy, Served, MainKinds;
    var s1 := s.(proto := p);
    var kind := KindOf(act);
    var (t, ok) := MarkIn(s1, kind, w.write);
    MarkKeepsAcks(s1, kind, w.write);
    MarkOnlyLogs(s1, kind, w.write);
    if !ok {
      FailInv(t, "CTL_REFUSED", w.failWrite);
    } else {
      MarkSucceeds(s1, kind, w.write);
      AcksAfterAck(t.log, t.number);
      AckIsNoMarker(t);
      if s.failures == [] {
        ServedExpected(s.pc, s.proto, p, if Structural(kind) then [kind] else []);
        TidyRegardless(s, s1);
      }
    }
  }

  lemma MarkOnlyLogs(s: State, kind: Kind, write: Write)
    ensures var t := MarkIn(s, kind, write).0;
            t == s.(number := t.number, writes := t.writes, log := t.log)
  {
  }

  lemma AckIsNoMarker(s: State)
    ensures var t := s.(log := s.log + [Ack(s.number)]);
            Markers(t.log) == Markers(s.log) && (Tidy(s) ==> Tidy(t))
  {
    MarkersSnoc(s.log, Ack(s.number));
  }

  lemma TidyRegardless(s: State, t: State)
    requires Tidy(s) && t.log == s.log && t.number == s.number && t.beats == s.beats
    ensures Tidy(t)
  {
  }

  /** Before the wait is over, what is served next is what is expected next. */
  lemma ServedExpected(pc: nat, p: Protocol, q: Protocol, more: seq<Kind>)
    requires pc <= AWAIT && Served(q) == Served(p) + more
    ensures Expected(pc, q) == Expected(pc, p) + more
  {
    hide Served, MainKinds;
  }

  lemma RequestInv(s: State, msg: Msg, w: World, netns: (string, nat) -> string)
    requires Inv(s) && s.listening && !s.stopping
    ensures Inv(RequestStep(s, msg, w, netns))
  {
    hide AcksFollow, Reachable, Sound, Skeleton, Beats, Markers, FailIn, Serve, Served, MainKinds, Step, Tidy;
    var (p, act) := Step(s.proto, msg, netns);
    ServedGrows(s.proto, msg, netns);
    var t := s.(proto := p);
    match act
    case None => FailInv(t, "PHASE_ORDER", w.failWrite);
    case Some(AbortRun(reason)) => FailInv(t, "TOOL_ABORTED", w.failWrite);
    case Some(Finish) =>
      if s.failures == [] {
        assert Served(p) + [] == Served(p);
        ServedExpected(s.pc, s.proto, p, []);
        TidyRegardless(s, Settle(t.(stopping := true), Resolved(None)));
      }
    case Some(a) =>
      assert Served(p) + [] == Served(p);
      ServeInv(s, p, a, w);
  }

  lemma LineInv(s: State, content: Content, w: World, netns: (string, nat) -> string)
    requires Inv(s)
    ensures Inv(LineStep(s, content, w, netns))
  {
    hide Inv, RequestStep, FailIn;
    if s.listening {
      match content
      case Malformed => FailAnywhere(s, "CTL_MALFORMED", w.failWrite);
      case Output =>
      case Request(msg) =>
        if !s.stopping {
          RequestInv(s, msg, w, netns);
        }
    }
  }

  lemma FailAnywhere(s: State, code: string, write: Write)
    requires Inv(s)
    ensures Inv(FailIn(s, code, write))
  {
    hide AcksFollow, Reachable, OnCourse, FailIn;
    FailInv(s, code, write);
  }

  // ----- the main line ----------------------------------------------------------------------

  lemma DoKeeps(s: State, op: Op, w: World)
    requires AcksFollow(s.log)
    ensures var t := Do(s, op, w).0;
            && AcksFollow(t.log) && t.pc == s.pc && t.failures == s.failures && t.proto == s.proto && t.closed == s.closed
  {
    hide AcksFollow, Do;
    if Marking(op) {
      MarkingKeepsFlags(s, op, w);
      MarkingKeepsAcks(s, op, w);
    } else {
      OthersOnlySet(s, op, w);
    }
  }

  lemma MarkingKeepsAcks(s: State, op: Op, w: World)
    requires AcksFollow(s.log) && Marking(op)
    ensures AcksFollow(Do(s, op, w).0.log)
  {
    hide AcksFollow, BeatIn, MarkIn;
    match op
    case MarkKind(kind) => MarkKeepsAcks(s, kind, w.write);
    case MarkToolDone => MarkKeepsAcks(s, ToolDone(if s.settled == Resolved(None) && s.failures == [] then 1 else 0), w.write);
    case MarkStop => MarkKeepsAcks(s, Stop(|s.failures|), w.write);
    case BeatOnce => BeatKeeps(s, w);
  }

  lemma OthersOnlySet(s: State, op: Op, w: World)
    requires !Marking(op)
    ensures var t := Do(s, op, w).0;
            t == s.(sessionOpen := t.sessionOpen, ticking := t.ticking, listening := t.listening, exitCode := t.exitCode)
  {
  }

  predicate Marking(op: Op) {
    op.MarkKind? || op == MarkToolDone || op == MarkStop || op == BeatOnce
  }

  /** A step of the main line that throws nothing, while nothing has failed, marks what is expected. */
  lemma DoMarks(s: State, op: Op, w: World)
    requires Tidy(s) && s.failures == [] && Do(s, op, w).1
    requires op == MarkToolDone ==> s.settled == Resolved(None)
    requires op.MarkKind? ==> Structural(op.kind)
    ensures var t := Do(s, op, w).0;
            && Tidy(t) && Skeleton(Markers(t.log)) == Skeleton(Markers(s.log)) + KindsOf(op)
  {
    hide Sound, Skeleton, Beats, Markers, BeatIn, MarkIn, Tidy;
    assert Skeleton(Markers(s.log)) + [] == Skeleton(Markers(s.log));
    match op
    case MarkKind(kind) => MarkSucceeds(s, kind, w.write);
    case MarkToolDone => MarkSucceeds(s, ToolDone(1), w.write);
    case MarkStop => MarkSucceeds(s, Stop(0), w.write);
    case BeatOnce =>
      BeatSucceeds(s, w);
      assert Skeleton(Markers(BeatIn(s, w).0.log)) == Skeleton(Markers(s.log)) + KindsOf(BeatOnce);
    case _ => TidyRegardless(s, Do(s, op, w).0);
  }

  lemma ExpectedGrows(pc: nat, p: Protocol)
    requires pc < |SCRIPT| && (pc <= LISTEN ==> p == START)
    ensures Expected(pc + 1, p) == Expected(pc, p) + KindsOf(SCRIPT[pc])
  {
    hide MainKinds;
    MainKindsGrow(0, pc);
    if pc <= LISTEN {
      assert Served(START) == [];
      assert MainKinds(0, pc) + [] == MainKinds(0, pc);
      assert MainKinds(0, pc + 1) + [] == MainKinds(0, pc + 1);
    } else {
      MainKindsGrow(AWAIT, pc);
      assert MainKinds(AWAIT, AWAIT) == [] by { MainKindsNone(AWAIT); }
    }
  }

  lemma MainKindsNone(n: nat)
    requires n <= |SCRIPT|
    ensures MainKinds(n, n) == []
  {
  }

  lemma MainKindsGrow(lo: nat, pc: nat)
    requires lo <= pc < |SCRIPT|
    ensures MainKinds(lo, pc + 1) == MainKinds(lo, pc) + KindsOf(SCRIPT[pc])
  {
  }

  /** Marking changes no flag. */
  lemma MarkingKeepsFlags(s: State, op: Op, w: World)
    requires Marking(op)
    ensures var t := Do(s, op, w).0;
            t == s.(number := t.number, writes := t.writes, beats := t.beats, log := t.log)
  {
    hide BeatIn;
    if op == BeatOnce {
      BeatOnlyLogs(s, w);
    }
  }

  lemma BeatOnlyLogs(s: State, w: World)
    ensures var t := BeatIn(s, w).0;
            t == s.(number := t.number, writes := t.writes, beats := t.beats, log := t.log)
  {
  }

  lemma FlagsNext(s: State, w: World)
    requires Flags(s) && s.pc < |SCRIPT| && !(SCRIPT[s.pc] == Await && s.settled == Pending)
    requires Do(s, SCRIPT[s.pc], w).1
    ensures Flags(Do(s, SCRIPT[s.pc], w).0.(pc := s.pc + 1))
  {
    hide BeatIn, MarkIn;
    var op := SCRIPT[s.pc];
    if Marking(op) {
      MarkingKeepsFlags(s, op, w);
    }
  }

  lemma MainInv(s: State, w: World)
    requires Inv(s)
    ensures Inv(MainStep(s, w))
  {
    hide AcksFollow, Reachable, Sound, Skeleton, Beats, Markers, FailIn, Expected, Do, Tidy, KindsOf;
    if s.pc < |SCRIPT| && !(SCRIPT[s.pc] == Await && s.settled == Pending) {
      var op := SCRIPT[s.pc];
      var (t, ok) := Do(s, op, w);
      DoKeeps(s, op, w);
      if !ok {
        FailInv(t, "OBSERVER_ERROR", w.failWrite);
      } else if s.failures == [] {
        DoMarks(s, op, w);
        ExpectedGrows(s.pc, s.proto);
        FlagsNext(s, w);
        TidyRegardless(t, t.(pc := s.pc + 1));
      }
    }
  }

  // ----- every run --------------------------------------------------------------------------

  lemma NextInv(s: State, e: Event, netns: (string, nat) -> string)
    requires Inv(s)
    ensures Inv(Next(s, e, netns))
  {
    hide Inv, MainStep, TickStep, LineStep, ExitStep, CloseStep, Settle;
    match e
    case Main(w) => MainInv(s, w);
    case Tick(w) => TickInv(s, w);
    case ToolLine(content, w) => LineInv(s, content, w, netns);
    case ToolExit(code, w) => ExitInv(s, code, w);
    case ToolError => ToolErrorInv(s);
    case Close(left) => CloseInv(s, left);
  }

  lemma InitialInv()
    ensures Inv(INITIAL)
  {
    assert Expected(0, START) == [];
  }

  lemma {:induction false} RunInv(events: seq<Event>, netns: (string, nat) -> string)
    ensures Inv(RunOf(events, netns))
  {
    hide Inv, Next;
    if events == [] {
      InitialInv();
    } else {
      RunInv(events[..|events| - 1], netns);
      NextInv(RunOf(events[..|events| - 1], netns), events[|events| - 1], netns);
    }
  }

  /** The markers a run without failure leaves, heartbeats and containers aside. */
  const FULL_SKELETON: seq<Kind> :=
    [Ready, CountersBegin(1), CountersEnd(1), Spawned, HelloMark] + PhaseMarks(PHASES) +
    [ToolDone(1), CountersBegin(2), CountersEnd(2), Stop(0)]

  lemma ExpectedAtEnd(p: Protocol)
    requires Reachable(p) && p.done
    ensures Expected(|SCRIPT|, p) == FULL_SKELETON
  {
    assert PHASES[..p.next] == PHASES;
    FirstKinds();
    LastKinds();
    assert Served(p) == [HelloMark] + PhaseMarks(PHASES);
  }

  lemma FirstKinds()
    ensures MainKinds(0, AWAIT) == [Ready, CountersBegin(1), CountersEnd(1), Spawned]
  {
    hide MainKinds;
    MainKindsNone(0);
    for pc := 0 to 6
      invariant MainKinds(0, pc) == [Ready, CountersBegin(1), CountersEnd(1)][..if pc <= 2 then 0 else if pc == 3 then 1 else if pc <= 5 then 2 else 3]
    {
      MainKindsGrow(0, pc);
    }
    for pc := 6 to AWAIT
      invariant MainKinds(0, pc) == [Ready, CountersBegin(1), CountersEnd(1)] + if pc <= 9 then [] else [Spawned]
    {
      MainKindsGrow(0, pc);
    }
  }

  lemma LastKinds()
    ensures MainKinds(AWAIT, |SCRIPT|) == [ToolDone(1), CountersBegin(2), CountersEnd(2), Stop(0)]
  {
    hide MainKinds;
    MainKindsNone(AWAIT);
    for pc := AWAIT to |SCRIPT|
      invariant MainKinds(AWAIT, pc) == [ToolDone(1), CountersBegin(2), CountersEnd(2), Stop(0)]
        [..if pc <= 13 then 0 else if pc == 14 then 1 else if pc <= 16 then 2 else if pc <= 18 then 3 else 4]
    {
      MainKindsGrow(AWAIT, pc);
    }
  }

  /** What a trace must be: numbered without gap, in order and complete, no failure, no loss, every answer deserved. */
  ghost predicate GoodTrace(log: seq<Entry>) {
    var ms := Markers(log);
    && (forall i :: 0 <= i < |ms| ==> ms[i].number == i + 1)
    && Skeleton(ms) == FULL_SKELETON
    && (forall m :: m in ms ==> !m.kind.FailMark?)
    && (forall m :: m in ms && m.kind.Heartbeat? ==> m.kind.tracingOn == 1 && m.kind.loss == 0)
    && AcksFollow(log)
  }

  /**
   * However heartbeats, control lines, failures and the tool's end interleave: the run returns 0 only
   * if no failure was recorded and the tool returned 0, and then the trace is good.
   */
  lemma ZeroMeansGoodTrace(events: seq<Event>, netns: (string, nat) -> string, toolExit: int)
    ensures var s := RunOf(events, netns);
            && (ReturnCode(s, toolExit) == Some(0) <==> s.closed && s.failures == [] && toolExit == 0)
            && (ReturnCode(s, toolExit) == Some(0) ==> GoodTrace(s.log))
            && AcksFollow(s.log)
  {
    hide AcksFollow, Reachable, Sound, Skeleton, Beats, Markers, Expected, RunOf;
    var s := RunOf(events, netns);
    RunInv(events, netns);
    if s.closed && s.failures == [] {
      SoundMeans(Markers(s.log));
      ExpectedAtEnd(s.proto);
    }
  }

  // ----- a run in which nothing fails -------------------------------------------------------

  predicate GoodWorld(w: World) {
    w.ok && w.sample.readable && HeartbeatOf(w.sample).ok && w.write == Written
  }

  lemma GoodDo(s: State, op: Op, w: World)
    requires GoodWorld(w) && (op != Open ==> s.sessionOpen) && (op == Await ==> s.settled.Resolved?)
    ensures var (t, ok) := Do(s, op, w);
            && ok && t.sessionOpen && t.listening == (s.listening || op == Listen)
            && t.failures == s.failures && t.stopping == s.stopping && t.settled == s.settled
            && t.proto == s.proto && t.closed == s.closed
  {
    hide HeartbeatOf, BeatIn;
    if op == BeatOnce {
      GoodBeat(s, w);
      BeatOnlyLogs(s, w);
    }
  }

  lemma GoodBeat(s: State, w: World)
    requires GoodWorld(w) && s.sessionOpen
    ensures BeatIn(s, w).1
  {
    hide HeartbeatOf;
  }

  lemma ScriptPlaces(pc: nat)
    requires pc < |SCRIPT|
    ensures SCRIPT[pc] == Open <==> pc == 0
    ensures SCRIPT[pc] == Listen <==> pc == LISTEN
  {
  }

  lemma GoodMainStep(s: State, w: World)
    requires s.pc < |SCRIPT| && GoodWorld(w) && (s.pc > 0 ==> s.sessionOpen)
    requires SCRIPT[s.pc] == Await ==> s.settled.Resolved?
    ensures var t := MainStep(s, w);
            && t.pc == s.pc + 1 && t.sessionOpen && t.listening == (s.listening || s.pc == LISTEN)
            && t.failures == s.failures && t.stopping == s.stopping && t.settled == s.settled
            && t.proto == s.proto && t.closed == s.closed
  {
    hide HeartbeatOf, Do, FailIn;
    ScriptPlaces(s.pc);
    GoodDo(s, SCRIPT[s.pc], w);
  }

  /** A request served: nothing fails. */
  lemma GoodRequest(s: State, msg: Msg, w: World, netns: (string, nat) -> string)
    requires s.listening && !s.stopping && s.sessionOpen && GoodWorld(w)
    requires Step(s.proto, msg, netns).1.Some? && !msg.Abort?
    ensures var t := LineStep(s, Request(msg), w, netns);
            && t.proto == Step(s.proto, msg, netns).0 && t.failures == s.failures && t.pc == s.pc
            && t.sessionOpen && t.listening && t.closed == s.closed
            && (if msg.Done? then t.stopping && t.settled == Settle(s, Resolved(None)).settled
                else !t.stopping && t.settled == s.settled)
  {
    hide HeartbeatOf, FailIn, MarkIn, KindOf, Step;
    var (p, act) := Step(s.proto, msg, netns);
    StepAnswers(s.proto, msg, netns);
    if act.Some? && !act.value.AbortRun? && !act.value.Finish? {
      MarkOnlyLogs(s.(proto := p), KindOf(act.value), w.write);
      GoodMark(s.(proto := p), KindOf(act.value), w);
    }
  }

  lemma StepAnswers(p: Protocol, msg: Msg, netns: (string, nat) -> string)
    ensures var act := Step(p, msg, netns).1;
            act.Some? ==> (act.value.AbortRun? <==> msg.Abort?) && (act.value.Finish? <==> msg.Done?)
  {
  }

  lemma GoodMark(s: State, kind: Kind, w: World)
    requires GoodWorld(w) && s.sessionOpen
    ensures MarkIn(s, kind, w.write).1
  {
    hide HeartbeatOf;
  }

  lemma RunSnoc(events: seq<Event>, e: Event, netns: (string, nat) -> string)
    ensures RunOf(events + [e], netns) == Next(RunOf(events, netns), e, netns)
  {
    assert (events + [e])[..|events|] == events;
  }

  /** Nothing has failed, the session is open from the first step on, and the run is at `pc`. */
  predicate Fine(s: State, pc: nat) {
    s.pc == pc && s.failures == [] && !s.closed && (pc > 0 ==> s.sessionOpen) && s.listening == (pc > LISTEN)
  }

  lemma MainRuns(events: seq<Event>, hi: nat, w: World, netns: (string, nat) -> string) returns (more: seq<Event>)
    requires var s := RunOf(events, netns);
             s.pc <= hi <= |SCRIPT| && Fine(s, s.pc) && GoodWorld(w) && (hi <= AWAIT || s.settled.Resolved?)
    ensures var s, t := RunOf(events, netns), RunOf(more, netns);
            Fine(t, hi) && t.stopping == s.stopping && t.settled == s.settled && t.proto == s.proto
    decreases hi - RunOf(events, netns).pc
  {
    hide RunOf, MainStep, HeartbeatOf;
    var s := RunOf(events, netns);
    if s.pc == hi {
      more := events;
    } else {
      RunSnoc(events, Main(w), netns);
      GoodMainStep(s, w);
      more := MainRuns(events + [Main(w)], hi, w, netns);
    }
  }

  lemma RequestRuns(events: seq<Event>, msg: Msg, w: World, netns: (string, nat) -> string) returns (more: seq<Event>)
    requires var s := RunOf(events, netns);
             && Fine(s, AWAIT) && !s.stopping && s.settled == Pending && GoodWorld(w)
             && Step(s.proto, msg, netns).1.Some? && !msg.Abort?
    ensures var s, t := RunOf(events, netns), RunOf(more, netns);
            && Fine(t, AWAIT) && t.proto == Step(s.proto, msg, netns).0
            && (if msg.Done? then t.stopping && t.settled == Resolved(None) else !t.stopping && t.settled == Pending)
  {
    hide RunOf, LineStep, Step, HeartbeatOf;
    more := events + [ToolLine(Request(msg), w)];
    RunSnoc(events, ToolLine(Request(msg), w), netns);
    GoodRequest(RunOf(events, netns), msg, w, netns);
  }

  /** A run in which nothing fails ends, and returns what the tool returns. */
  lemma FaultFreeRun(commit: string, host: string, w: World, netns: (string, nat) -> string, toolExit: int)
    returns (events: seq<Event>)
    requires GoodWorld(w)
    ensures ReturnCode(RunOf(events, netns), toolExit) == Some(toolExit)
    ensures GoodTrace(RunOf(events, netns).log)
  {
    hide RunOf, Next, MainStep, LineStep, HeartbeatOf, GoodTrace;
    assert RunOf([], netns) == INITIAL by { RunOfNothing(netns); }
    events := MainRuns([], AWAIT, w, netns);
    events := RequestRuns(events, Hello(commit, host), w, netns);
    for i := 0 to |PHASES|
      invariant Fine(RunOf(events, netns), AWAIT) && RunOf(events, netns).proto == Protocol(i, true, false)
      invariant !RunOf(events, netns).stopping && RunOf(events, netns).settled == Pending
    {
      events := RequestRuns(events, Phase(PHASES[i]), w, netns);
    }
    events := RequestRuns(events, Done, w, netns);
    events := MainRuns(events, |SCRIPT|, w, netns);
    RunSnoc(events, Close(0), netns);
    NextOfClose(RunOf(events, netns), netns);
    events := events + [Close(0)];
    ZeroMeansGoodTrace(events, netns, 0);
    ReturnsToolExit(RunOf(events, netns), toolExit);
  }

  lemma RunOfNothing(netns: (string, nat) -> string)
    ensures RunOf([], netns) == INITIAL
  {
  }

  lemma NextOfClose(s: State, netns: (string, nat) -> string)
    requires Fine(s, |SCRIPT|)
    ensures Next(s, Close(0), netns).closed && Next(s, Close(0), netns).failures == []
  {
  }

  lemma ReturnsToolExit(s: State, toolExit: int)
    requires ReturnCode(s, 0) == Some(0)
    ensures ReturnCode(s, toolExit) == Some(toolExit)
  {
  }

  // ----- the numbers ------------------------------------------------------------------------

  function NumbersOf(ms: seq<Marker>): (ns: seq<nat>)
    ensures |ns| == |ms| && forall i :: 0 <= i < |ns| ==> ns[i] == ms[i].number
  {
    seq(|ms|, i requires 0 <= i < |ms| => ms[i].number)
  }

  /** The turns, counted from one, whose write was made. */
  function Turns(writes: seq<Write>): seq<nat> {
    if writes == [] then []
    else Turns(writes[..|writes| - 1]) + if writes[|writes| - 1] == NotWritten then [] else [|writes|]
  }

  /** Each mark spends the next number, and the trace holds those that were written. */
  ghost predicate Numbered(s: State) {
    s.number == |s.writes| && NumbersOf(Markers(s.log)) == Turns(s.writes)
  }

  lemma NumberedAlike(s: State, t: State)
    requires Numbered(s) && t.number == s.number && t.writes == s.writes && Markers(t.log) == Markers(s.log)
    ensures Numbered(t)
  {
  }

  lemma MarkNumbered(s: State, kind: Kind, write: Write)
    requires Numbered(s)
    ensures Numbered(MarkIn(s, kind, write).0)
  {
    hide Markers;
    var m := Marker(s.number + 1, kind);
    MarkersSnoc(s.log, Wrote(m));
    assert NumbersOf(Markers(s.log) + [m]) == NumbersOf(Markers(s.log)) + [m.number];
    TurnsSnoc(s.writes, write);
  }

  lemma TurnsSnoc(writes: seq<Write>, write: Write)
    ensures Turns(writes + [write]) == Turns(writes) + if write == NotWritten then [] else [|writes| + 1]
  {
    assert (writes + [write])[..|writes|] == writes;
  }

  lemma FailNumbered(s: State, code: string, write: Write)
    requires Numbered(s)
    ensures Numbered(FailIn(s, code, write))
  {
    hide MarkIn, Turns, Markers;
    NumberedAlike(s, s.(failures := s.failures + [code]));
    MarkNumbered(s.(failures := s.failures + [code]), FailMark(code), write);
  }

  lemma BeatNumbered(s: State, w: World)
    requires Numbered(s)
    ensures Numbered(BeatIn(s, w).0)
  {
    hide MarkIn, Turns, Markers, HeartbeatOf;
    var h := HeartbeatOf(w.sample);
    NumberedAlike(s, s.(beats := s.beats + 1));
    MarkNumbered(s.(beats := s.beats + 1), Heartbeat(s.beats + 1, h.tracingOn, h.loss), w.write);
  }

  lemma DoNumbered(s: State, op: Op, w: World)
    requires Numbered(s)
    ensures Numbered(Do(s, op, w).0)
  {
    hide MarkIn, BeatIn, Turns, Markers;
    match op
    case MarkKind(kind) => MarkNumbered(s, kind, w.write);
    case MarkToolDone => MarkNumbered(s, ToolDone(if s.settled == Resolved(None) && s.failures == [] then 1 else 0), w.write);
    case MarkStop => MarkNumbered(s, Stop(|s.failures|), w.write);
    case BeatOnce => BeatNumbered(s, w);
    case _ => NumberedAlike(s, Do(s, op, w).0);
  }

  lemma ServeNumbered(s: State, act: Act, w: World)
    requires Numbered(s) && (act.MarkHello? || act.MarkPhase? || act.MarkContainer?)
    ensures Numbered(Serve(s, act, w))
  {
    hide MarkIn, FailIn, Turns, Markers;
    var (t, ok) := MarkIn(s, KindOf(act), w.write);
    MarkNumbered(s, KindOf(act), w.write);
    FailNumbered(t, "CTL_REFUSED", w.failWrite);
    MarkersSnoc(t.log, Ack(t.number));
  }

  lemma RequestNumbered(s: State, msg: Msg, w: World, netns: (string, nat) -> string)
    requires Numbered(s)
    ensures Numbered(RequestStep(s, msg, w, netns))
  {
    hide Serve, FailIn, Turns, Markers, Step;
    var (p, act) := Step(s.proto, msg, netns);
    var t := s.(proto := p);
    NumberedAlike(s, t);
    match act
    case None => FailNumbered(t, "PHASE_ORDER", w.failWrite);
    case Some(AbortRun(reason)) => FailNumbered(t, "TOOL_ABORTED", w.failWrite);
    case Some(Finish) => NumberedAlike(t, Settle(t.(stopping := true), Resolved(None)));
    case Some(a) => ServeNumbered(t, a, w);
  }

  lemma NextNumbered(s: State, e: Event, netns: (string, nat) -> string)
    requires Numbered(s)
    ensures Numbered(Next(s, e, netns))
  {
    hide Do, BeatIn, FailIn, RequestStep, Turns, Markers;
    match e
    case Main(w) =>
      if s.pc < |SCRIPT| {
        DoNumbered(s, SCRIPT[s.pc], w);
        FailNumbered(Do(s, SCRIPT[s.pc], w).0, "OBSERVER_ERROR", w.failWrite);
      }
    case Tick(w) =>
      BeatNumbered(s, w);
      FailNumbered(BeatIn(s, w).0, "OBSERVER_LOSS", w.failWrite);
    case ToolLine(content, w) =>
      FailNumbered(s, "CTL_MALFORMED", w.failWrite);
      if content.Request? {
        RequestNumbered(s, content.msg, w, netns);
      }
    case ToolExit(code, w) =>
      NumberedAlike(s, s.(stopping := true));
      FailNumbered(s.(stopping := true), "TOOL_EXITED", w.failWrite);
    case ToolError =>
    case Close(left) =>
  }

  lemma {:induction false} RunNumbered(events: seq<Event>, netns: (string, nat) -> string)
    ensures Numbered(RunOf(events, netns))
  {
    hide Next;
    if events != [] {
      RunNumbered(events[..|events| - 1], netns);
      NextNumbered(RunOf(events[..|events| - 1], netns), events[|events| - 1], netns);
    }
  }

  /** Numbers grow, and none is beyond the last. */
  lemma {:induction false} TurnsGrow(writes: seq<Write>)
    ensures forall i, j :: 0 <= i < j < |Turns(writes)| ==> Turns(writes)[i] < Turns(writes)[j]
    ensures forall n :: n in Turns(writes) ==> 1 <= n <= |writes|
  {
    if writes != [] {
      var init := writes[..|writes| - 1];
      TurnsGrow(init);
      var before := Turns(init);
      forall i | 0 <= i < |before| ensures before[i] <= |init| {
        assert before[i] in before;
      }
    }
  }

  /** No write failed to be made before one that was. */
  ghost predicate LostOnlyAtTheEnd(writes: seq<Write>) {
    forall i, j :: 0 <= i < j < |writes| && writes[i] == NotWritten ==> writes[j] == NotWritten
  }

  ghost predicate Gapless(ns: seq<nat>) {
    forall i :: 0 <= i < |ns| ==> ns[i] == i + 1
  }

  lemma {:induction false} AllMade(writes: seq<Write>)
    ensures |Turns(writes)| <= |writes|
    ensures |Turns(writes)| == |writes| <==> NotWritten !in writes
  {
    if writes != [] {
      var init := writes[..|writes| - 1];
      assert writes == init + [writes[|writes| - 1]];
      AllMade(init);
    }
  }

  lemma {:induction false} TurnsGapless(writes: seq<Write>)
    ensures Gapless(Turns(writes)) <==> LostOnlyAtTheEnd(writes)
  {
    if writes != [] {
      var init, last := writes[..|writes| - 1], writes[|writes| - 1];
      var before, after := Turns(init), Turns(writes);
      TurnsGapless(init);
      AllMade(init);
      LostSnoc(init, last);
      assert writes == init + [last];
      if last == NotWritten {
        assert after == before + [] == before;
      } else {
        GaplessSnoc(before, |writes|);
      }
    }
  }

  lemma GaplessSnoc(ns: seq<nat>, n: nat)
    ensures Gapless(ns + [n]) <==> Gapless(ns) && n == |ns| + 1
  {
    var more := ns + [n];
    if Gapless(more) {
      assert more[|ns|] == |ns| + 1;
      forall i | 0 <= i < |ns| ensures ns[i] == i + 1 {
        assert more[i] == ns[i];
      }
    }
  }

  lemma LostSnoc(init: seq<Write>, last: Write)
    ensures LostOnlyAtTheEnd(init + [last]) <==> LostOnlyAtTheEnd(init) && (last == NotWritten || NotWritten !in init)
  {
    var writes := init + [last];
    if LostOnlyAtTheEnd(writes) {
      forall i, j | 0 <= i < j < |init| && init[i] == NotWritten ensures init[j] == NotWritten {
        assert writes[i] == init[i] && writes[j] == init[j];
      }
      if NotWritten in init {
        var i :| 0 <= i < |init| && init[i] == NotWritten;
        assert writes[i] == NotWritten && writes[|init|] == last;
      }
    }
  }

  /**
   * In every run the markers' numbers grow and none is beyond the last number spent; and they are
   * 1, 2, 3 and so on without a gap exactly when no mark made while the session was open failed to be
   * written before one that was.
   */
  lemma NumbersGaplessExactly(events: seq<Event>, netns: (string, nat) -> string)
    ensures var s := RunOf(events, netns);
            var ns := NumbersOf(Markers(s.log));
            && (forall i, j :: 0 <= i < j < |ns| ==> ns[i] < ns[j])
            && (forall n :: n in ns ==> 1 <= n <= s.number) && s.number == |s.writes|
            && (Gapless(ns) <==> LostOnlyAtTheEnd(s.writes))
  {
    hide RunOf, Markers;
    var s := RunOf(events, netns);
    RunNumbered(events, netns);
    TurnsGrow(s.writes);
    TurnsGapless(s.writes);
  }

  lemma LostStep(w: World)
    requires w.ok && w.write == NotWritten && w.failWrite == Written && !w.markerOpen
    ensures MainStep(INITIAL.(pc := 2, sessionOpen := true), w).log == [Wrote(Marker(2, FailMark("OBSERVER_ERROR")))]
  {
    var s := INITIAL.(pc := 2, sessionOpen := true);
    assert SCRIPT[2] == MarkKind(Ready);
    assert s.writes + [NotWritten] == [NotWritten];
    assert Do(s, MarkKind(Ready), w) == (s.(number := 1, writes := [NotWritten]), false);
    assert s.log + [Wrote(Marker(2, FailMark("OBSERVER_ERROR")))] == [Wrote(Marker(2, FailMark("OBSERVER_ERROR")))];
  }

  lemma OpeningSteps(w: World)
    requires w.ok && !w.markerOpen
    ensures MainStep(INITIAL, w) == INITIAL.(pc := 1, sessionOpen := true)
    ensures MainStep(INITIAL.(pc := 1, sessionOpen := true), w) == INITIAL.(pc := 2, sessionOpen := true)
  {
    assert SCRIPT[0] == Open && SCRIPT[1] == Check;
  }

  /** A mark that is lost before another is written leaves a gap. */
  lemma LostMarkLeavesGap(sample: Sample, netns: (string, nat) -> string)
    ensures var good := World(true, sample, Written, Written, true, false);
            var lost := World(true, sample, NotWritten, Written, true, false);
            Markers(RunOf([Main(good), Main(good), Main(lost)], netns).log) == [Marker(2, FailMark("OBSERVER_ERROR"))]
  {
    hide RunOf, MainStep;
    var good := World(true, sample, Written, Written, true, false);
    var lost := World(true, sample, NotWritten, Written, true, false);
    OpeningSteps(good);
    LostStep(lost);
    RunOfNothing(netns);
    RunSnoc([], Main(good), netns);
    RunSnoc([Main(good)], Main(good), netns);
    RunSnoc([Main(good), Main(good)], Main(lost), netns);
    assert [] + [Main(good)] == [Main(good)] && [Main(good)] + [Main(good)] == [Main(good), Main(good)];
    assert [Main(good), Main(good)] + [Main(lost)] == [Main(good), Main(good), Main(lost)];
    OneMarker(Marker(2, FailMark("OBSERVER_ERROR")));
  }

  lemma OneMarker(m: Marker)
    ensures Markers([Wrote(m)]) == [m]
  {
    assert [Wrote(m)][..0] == [];
  }
}
