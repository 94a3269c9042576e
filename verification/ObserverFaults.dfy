/**
 * What a run of the observer never forgives, and what it never does: every fault makes it return 3,
 * no heartbeat is marked once the tool is done, every request marked was asked for, and a closed run
 * writes nothing more.
 */
module ObserverFaults {
  import opened Wrappers
  import opened ControlProtocol
  import opened Observer

  // ----- faults -----------------------------------------------------------------------------

  /** A sample with which the run may go on: readable, tracing, armed, some CPU read, nothing lost. */
  ghost predicate GoodSample(sample: Sample) {
    && sample.readable && sample.tracingOn && sample.armed && sample.misses == 0
    && sample.stats != [] && forall c :: c in sample.stats ==> c == CpuStats(0, 0, 0)
  }

  ghost predicate MarkFails(s: State, w: World) {
    !s.sessionOpen || w.write != Written
  }

  /** What must not happen at an event: an operation that throws, a bad heartbeat, a request out of order, an early end. */
  ghost predicate Faulty(s: State, e: Event, netns: (string, nat) -> string) {
    match e
    case Main(w) =>
      s.pc < |Observer.SCRIPT| &&
      (match Observer.SCRIPT[s.pc]
       case Open => !w.ok
       case Check => !w.ok
       case MarkKind(_) => MarkFails(s, w)
       case MarkToolDone => MarkFails(s, w)
       case MarkStop => MarkFails(s, w)
       case BeatOnce => !GoodSample(w.sample) || MarkFails(s, w)
       case Await => s.settled == Rejected
       case _ => false)
    case Tick(w) => s.ticking && (!GoodSample(w.sample) || MarkFails(s, w))
    case ToolLine(Malformed, _) => s.listening
    case ToolLine(Request(msg), w) =>
      s.listening && !s.stopping &&
      (msg.Abort? || Step(s.proto, msg, netns).1.None? || (!msg.Done? && MarkFails(s, w)))
    case ToolExit(_, _) => s.listening && !s.stopping
    case Close(left) => s.pc >= |Observer.SCRIPT| && !s.closed && left > 0
    case _ => false
  }

  lemma FailCounts(s: State, code: string, write: Write)
    ensures var t := FailIn(s, code, write);
            t.failures == s.failures + [code] && t == s.(failures := t.failures, number := t.number, writes := t.writes, log := t.log)
  {
  }

  lemma BeatAnswers(s: State, w: World)
    ensures BeatIn(s, w).1 <==> GoodSample(w.sample) && !MarkFails(s, w)
    ensures var t := BeatIn(s, w).0;
            t == s.(number := t.number, writes := t.writes, beats := t.beats, log := t.log)
  {
    hide HeartbeatOf;
    GoodHeartbeat(w.sample);
  }

  lemma MarkAnswers(s: State, kind: Kind, w: World)
    ensures MarkIn(s, kind, w.write).1 <==> !MarkFails(s, w)
    ensures var t := MarkIn(s, kind, w.write).0;
            t == s.(number := t.number, writes := t.writes, log := t.log)
  {
  }

  lemma DoAnswers(s: State, op: Op, w: World)
    ensures Do(s, op, w).1 <==>
            match op
            case Open => w.ok
            case Check => w.ok
            case MarkKind(_) => !MarkFails(s, w)
            case MarkToolDone => !MarkFails(s, w)
            case MarkStop => !MarkFails(s, w)
            case BeatOnce => GoodSample(w.sample) && !MarkFails(s, w)
            case Await => s.settled != Rejected
            case _ => true
    ensures Do(s, op, w).0.failures == s.failures
  {
    hide BeatIn, MarkIn, GoodSample, MarkFails;
    BeatAnswers(s, w);
    match op
    case MarkKind(kind) => MarkAnswers(s, kind, w);
    case MarkToolDone => MarkAnswers(s, ToolDone(if s.settled == Resolved(None) && s.failures == [] then 1 else 0), w);
    case MarkStop => MarkAnswers(s, Stop(|s.failures|), w);
    case _ =>
  }

  /** A failure stays. */
  lemma FailuresStay(s: State, e: Event, netns: (string, nat) -> string)
    ensures s.failures != [] ==> Next(s, e, netns).failures != []
  {
    hide FailIn, Do, BeatIn, MarkIn, Step, KindOf;
    match e
    case Main(w) =>
      if s.pc < |Observer.SCRIPT| {
        DoAnswers(s, Observer.SCRIPT[s.pc], w);
        FailCounts(Do(s, Observer.SCRIPT[s.pc], w).0, "OBSERVER_ERROR", w.failWrite);
      }
    case Tick(w) =>
      BeatAnswers(s, w);
      FailCounts(BeatIn(s, w).0, "OBSERVER_LOSS", w.failWrite);
    case ToolLine(content, w) => LineFailuresStay(s, content, w, netns);
    case ToolExit(_, w) =>
      FailCounts(s.(stopping := true), "TOOL_EXITED", w.failWrite);
    case _ =>
  }

  lemma LineFailuresStay(s: State, content: Content, w: World, netns: (string, nat) -> string)
    ensures s.failures != [] ==> LineStep(s, content, w, netns).failures != []
    ensures Faulty(s, ToolLine(content, w), netns) ==> LineStep(s, content, w, netns).failures != []
  {
    hide FailIn, Step, MarkFails, RequestStep;
    FailCounts(s, "CTL_MALFORMED", w.failWrite);
    if content.Request? {
      RequestFails(s, content.msg, w, netns);
    }
  }

  lemma RequestFails(s: State, msg: Msg, w: World, netns: (string, nat) -> string)
    ensures s.failures != [] ==> RequestStep(s, msg, w, netns).failures != []
    ensures msg.Abort? || Step(s.proto, msg, netns).1.None? || (!msg.Done? && MarkFails(s, w)) ==>
              RequestStep(s, msg, w, netns).failures != []
  {
    hide FailIn, MarkIn, Step, KindOf;
    var (p, act) := Step(s.proto, msg, netns);
    var t := s.(proto := p);
    StepAnswers(s.proto, msg, netns);
    FailCounts(t, "PHASE_ORDER", w.failWrite);
    FailCounts(t, "TOOL_ABORTED", w.failWrite);
    if act.Some? && !act.value.AbortRun? && !act.value.Finish? {
      MarkAnswers(t, KindOf(act.value), w);
      FailCounts(MarkIn(t, KindOf(act.value), w.write).0, "CTL_REFUSED", w.failWrite);
    }
  }

  lemma FaultCounts(s: State, e: Event, netns: (string, nat) -> string)
    requires Faulty(s, e, netns)
    ensures Next(s, e, netns).failures != []
  {
    hide FailIn, Do, BeatIn, MarkIn, Step, KindOf, MarkFails, GoodSample;
    match e
    case Main(w) =>
      DoAnswers(s, Observer.SCRIPT[s.pc], w);
      FailCounts(Do(s, Observer.SCRIPT[s.pc], w).0, "OBSERVER_ERROR", w.failWrite);
    case Tick(w) =>
      BeatAnswers(s, w);
      FailCounts(BeatIn(s, w).0, "OBSERVER_LOSS", w.failWrite);
    case ToolLine(content, w) => LineFailuresStay(s, content, w, netns);
    case ToolExit(_, w) =>
      FailCounts(s.(stopping := true), "TOOL_EXITED", w.failWrite);
    case _ =>
  }

  lemma {:induction false} FailuresStayLong(events: seq<Event>, more: seq<Event>, netns: (string, nat) -> string)
    requires RunOf(events, netns).failures != []
    ensures RunOf(events + more, netns).failures != []
    decreases |more|
  {
    hide RunOf, Next;
    if more == [] {
      assert events + more == events;
    } else {
      var init, e := more[..|more| - 1], more[|more| - 1];
      FailuresStayLong(events, init, netns);
      assert events + more == (events + init) + [e];
      RunSnoc(events + init, e, netns);
      FailuresStay(RunOf(events + init, netns), e, netns);
    }
  }

  /** A run without a failure that has closed returns what the tool returns; any other returns 3. */
  lemma ReturnsToolOrThree(events: seq<Event>, netns: (string, nat) -> string, toolExit: int)
    ensures var s := RunOf(events, netns);
            ReturnCode(s, toolExit) ==
            if !s.closed then None else Some(if s.failures == [] then toolExit else 3)
  {
    hide RunOf, AcksFollow, Reachable, Tidy, Skeleton, Markers, Expected;
    RunInv(events, netns);
  }

  /** No fault is forgiven: whatever happens after it, a run that returns returns 3. */
  lemma FaultIsFatal(events: seq<Event>, e: Event, more: seq<Event>, netns: (string, nat) -> string, toolExit: int)
    requires Faulty(RunOf(events, netns), e, netns)
    ensures var code := ReturnCode(RunOf(events + [e] + more, netns), toolExit);
            code.Some? ==> code == Some(3)
  {
    hide RunOf, Next, Faulty;
    RunSnoc(events, e, netns);
    FaultCounts(RunOf(events, netns), e, netns);
    FailuresStayLong(events + [e], more, netns);
    ReturnsToolOrThree(events + [e] + more, netns, toolExit);
  }

  /** An error of the tool while it is awaited is fatal too. */
  lemma ToolErrorIsFatal(events: seq<Event>, w: World, more: seq<Event>, netns: (string, nat) -> string, toolExit: int)
    requires var s := RunOf(events, netns);
             s.pc == AWAIT && s.listening && s.settled == Pending
    ensures var code := ReturnCode(RunOf(events + [ToolError] + [Main(w)] + more, netns), toolExit);
            code.Some? ==> code == Some(3)
  {
    hide RunOf;
    RunSnoc(events, ToolError, netns);
    assert Observer.SCRIPT[AWAIT] == Await;
    FaultIsFatal(events + [ToolError], Main(w), more, netns, toolExit);
  }

  // ----- answers ----------------------------------------------------------------------------

  /**
   * A request that is no fault, DONE apart, is marked with the next number and, while the tool's input is
   * open, acknowledged with that number; nothing else is written.
   */
  lemma RequestIsAnswered(events: seq<Event>, msg: Msg, w: World, netns: (string, nat) -> string)
    requires var s := RunOf(events, netns);
             s.listening && !s.stopping && !Faulty(s, ToolLine(Request(msg), w), netns) && !msg.Done?
    ensures var s, t := RunOf(events, netns), RunOf(events + [ToolLine(Request(msg), w)], netns);
            exists kind :: OnRequest(kind) && Asks(ToolLine(Request(msg), w), kind, netns) &&
              t.log == s.log + [Wrote(Marker(s.number + 1, kind))] + if w.stdinOpen then [Ack(s.number + 1)] else []
  {
    hide RunOf, Step, FailIn;
    var s := RunOf(events, netns);
    RunSnoc(events, ToolLine(Request(msg), w), netns);
    var (p, act) := Step(s.proto, msg, netns);
    StepAnswers(s.proto, msg, netns);
    ServedIsMarked(s.proto, msg, netns);
    var kind := KindOf(act.value);
    assert OnRequest(kind) && Asks(ToolLine(Request(msg), w), kind, netns);
    assert s.log + [Wrote(Marker(s.number + 1, kind))] + [] == s.log + [Wrote(Marker(s.number + 1, kind))];
  }

  // ----- after closing ----------------------------------------------------------------------

  ghost predicate Shut(s: State) {
    s.closed && s.pc >= |Observer.SCRIPT| && !s.ticking && !s.sessionOpen
  }

  lemma StaysShut(s: State, e: Event, netns: (string, nat) -> string)
    requires Shut(s)
    ensures Shut(Next(s, e, netns)) && Next(s, e, netns).log == s.log
  {
    hide Step, KindOf;
  }

  lemma {:induction false} ClosedIsShut(events: seq<Event>, netns: (string, nat) -> string)
    ensures RunOf(events, netns).closed ==> Shut(RunOf(events, netns))
  {
    hide Next, Shut;
    if events == [] {
      assert !INITIAL.closed;
    } else {
      var init, e := events[..|events| - 1], events[|events| - 1];
      ClosedIsShut(init, netns);
      if RunOf(init, netns).closed {
        StaysShut(RunOf(init, netns), e, netns);
      } else {
        ClosingShuts(RunOf(init, netns), e, netns);
      }
    }
  }

  lemma ClosingShuts(s: State, e: Event, netns: (string, nat) -> string)
    requires !s.closed
    ensures Next(s, e, netns).closed ==> Shut(Next(s, e, netns))
  {
    hide Step, KindOf, Do, HeartbeatOf;
    if e.Main? && s.pc < |Observer.SCRIPT| {
      DoClosesNothing(s, Observer.SCRIPT[s.pc], e.world);
    }
  }

  lemma DoClosesNothing(s: State, op: Op, w: World)
    ensures Do(s, op, w).0.closed == s.closed
  {
    hide HeartbeatOf;
  }

  /** A closed run writes nothing more, whatever still arrives. */
  lemma {:induction false} ClosedIsSilent(events: seq<Event>, more: seq<Event>, netns: (string, nat) -> string)
    requires RunOf(events, netns).closed
    ensures RunOf(events + more, netns).closed && RunOf(events + more, netns).log == RunOf(events, netns).log
    decreases |more|
  {
    hide RunOf, Next;
    if more == [] {
      assert events + more == events;
    } else {
      var init, e := more[..|more| - 1], more[|more| - 1];
      ClosedIsSilent(events, init, netns);
      assert events + more == (events + init) + [e];
      RunSnoc(events + init, e, netns);
      ClosedIsShut(events + init, netns);
      StaysShut(RunOf(events + init, netns), e, netns);
    }
  }

  // ----- what was asked for -----------------------------------------------------------------

  /** The request an event carries is the one the marker tells of. */
  ghost predicate Asks(e: Event, kind: Kind, netns: (string, nat) -> string) {
    match kind
    case HelloMark => e.ToolLine? && e.content.Request? && e.content.msg.Hello?
    case PhaseMark(phase) => e.ToolLine? && e.content == Request(Phase(phase))
    case ContainerMark(id, pid, found) => e.ToolLine? && e.content == Request(Container(id, pid)) && found == netns(id, pid)
    case _ => true
  }

  lemma MarksAre(s: State, kind: Kind, write: Write)
    ensures forall m :: m in Markers(MarkIn(s, kind, write).0.log) ==> m in Markers(s.log) || m.kind == kind
  {
    if s.sessionOpen && write != NotWritten {
      MarkersSnoc(s.log, Wrote(Marker(s.number + 1, kind)));
    }
  }

  lemma FailMarksAre(s: State, code: string, write: Write)
    ensures forall m :: m in Markers(FailIn(s, code, write).log) ==> m in Markers(s.log) || m.kind.FailMark?
  {
    hide Markers, MarkIn;
    MarksAre(s.(failures := s.failures + [code]), FailMark(code), write);
  }

  lemma BeatMarksAre(s: State, w: World)
    ensures forall m :: m in Markers(BeatIn(s, w).0.log) ==> m in Markers(s.log) || m.kind.Heartbeat?
  {
    hide Markers, MarkIn, HeartbeatOf;
    var h := HeartbeatOf(w.sample);
    MarksAre(s.(beats := s.beats + 1), Heartbeat(s.beats + 1, h.tracingOn, h.loss), w.write);
  }

  ghost predicate OnRequest(kind: Kind) {
    kind.HelloMark? || kind.PhaseMark? || kind.ContainerMark?
  }

  lemma DoMarksAre(s: State, op: Op, w: World)
    requires op.MarkKind? ==> !OnRequest(op.kind)
    ensures forall m :: m in Markers(Do(s, op, w).0.log) ==> m in Markers(s.log) || !OnRequest(m.kind)
  {
    hide Markers, MarkIn, BeatIn;
    match op
    case MarkKind(kind) => MarksAre(s, kind, w.write);
    case MarkToolDone => MarksAre(s, ToolDone(if s.settled == Resolved(None) && s.failures == [] then 1 else 0), w.write);
    case MarkStop => MarksAre(s, Stop(|s.failures|), w.write);
    case BeatOnce => BeatMarksAre(s, w);
    case _ =>
  }

  lemma MainMarksAre(s: State, w: World)
    ensures forall m :: m in Markers(MainStep(s, w).log) ==> m in Markers(s.log) || !OnRequest(m.kind)
  {
    hide Markers, Do, FailIn;
    if s.pc < |Observer.SCRIPT| {
      DoMarksAre(s, Observer.SCRIPT[s.pc], w);
      FailMarksAre(Do(s, Observer.SCRIPT[s.pc], w).0, "OBSERVER_ERROR", w.failWrite);
    }
  }

  lemma TickMarksAre(s: State, w: World)
    ensures forall m :: m in Markers(TickStep(s, w).log) ==> m in Markers(s.log) || !OnRequest(m.kind)
  {
    hide Markers, BeatIn, FailIn;
    BeatMarksAre(s, w);
    FailMarksAre(BeatIn(s, w).0, "OBSERVER_LOSS", w.failWrite);
  }

  lemma ServeMarksAre(s: State, act: Act, w: World)
    requires act.MarkHello? || act.MarkPhase? || act.MarkContainer?
    ensures forall m :: m in Markers(Serve(s, act, w).log) ==> m in Markers(s.log) || m.kind == KindOf(act) || !OnRequest(m.kind)
  {
    hide Markers, MarkIn, FailIn, KindOf;
    var t := MarkIn(s, KindOf(act), w.write).0;
    MarksAre(s, KindOf(act), w.write);
    FailMarksAre(t, "CTL_REFUSED", w.failWrite);
    MarkersSnoc(t.log, Ack(t.number));
  }

  lemma RequestMarksAre(s: State, msg: Msg, w: World, netns: (string, nat) -> string)
    ensures forall m :: m in Markers(RequestStep(s, msg, w, netns).log) ==>
              m in Markers(s.log) || Asks(ToolLine(Request(msg), w), m.kind, netns)
  {
    hide Markers, Serve, FailIn, Step;
    var (p, act) := Step(s.proto, msg, netns);
    var t := s.(proto := p);
    FailMarksAre(t, "PHASE_ORDER", w.failWrite);
    FailMarksAre(t, "TOOL_ABORTED", w.failWrite);
    if act.Some? {
      ServedIsMarked(s.proto, msg, netns);
      if act.value.MarkHello? || act.value.MarkPhase? || act.value.MarkContainer? {
        ServeMarksAre(t, act.value, w);
      }
    }
  }

  lemma NextMarksAre(s: State, e: Event, netns: (string, nat) -> string)
    ensures forall m :: m in Markers(Next(s, e, netns).log) ==> m in Markers(s.log) || Asks(e, m.kind, netns)
  {
    hide Markers, MainStep, TickStep, RequestStep, FailIn;
    match e
    case Main(w) => MainMarksAre(s, w);
    case Tick(w) => TickMarksAre(s, w);
    case ToolLine(content, w) =>
      FailMarksAre(s, "CTL_MALFORMED", w.failWrite);
      if content.Request? {
        RequestMarksAre(s, content.msg, w, netns);
      }
    case ToolExit(_, w) => FailMarksAre(s.(stopping := true), "TOOL_EXITED", w.failWrite);
    case _ =>
  }

  /** Every hello, phase and container in the trace was asked for by a line of the tool, and says what it said. */
  lemma {:induction false} MarkedIsAsked(events: seq<Event>, netns: (string, nat) -> string, m: Marker)
    requires m in Markers(RunOf(events, netns).log) && OnRequest(m.kind)
    ensures exists e :: e in events && Asks(e, m.kind, netns)
  {
    hide Markers, Next, Asks;
    if events != [] {
      var init, e := events[..|events| - 1], events[|events| - 1];
      assert events == init + [e];
      NextMarksAre(RunOf(init, netns), e, netns);
      if m in Markers(RunOf(init, netns).log) {
        MarkedIsAsked(init, netns, m);
      } else {
        assert e in events && Asks(e, m.kind, netns);
      }
    } else {
      NothingMarked();
    }
  }

  lemma NothingMarked()
    ensures Markers(INITIAL.log) == []
  {
  }

  // ----- the end of a good run --------------------------------------------------------------

  const TOOL_DONE_AT := 13

  /** The last markers of a good run, one by one. */
  predicate IsLast(kind: Kind, j: nat) {
    match j
    case 0 => kind == ToolDone(1)
    case 1 => kind == CountersBegin(2)
    case 2 => kind == CountersEnd(2)
    case 3 => kind.Heartbeat?
    case _ => kind == Stop(0)
  }

  /** How many of them the main line has marked. */
  function LastMarked(pc: nat): nat {
    if pc <= TOOL_DONE_AT then 0 else if pc == 14 then 1 else if pc <= 16 then 2 else if pc == 17 then 3 else if pc == 18 then 4 else 5
  }

  ghost predicate EndsWith(ms: seq<Marker>, n: nat) {
    n <= |ms| && forall i :: |ms| - n <= i < |ms| ==> IsLast(ms[i].kind, i - (|ms| - n))
  }

  /** Once the tool is done nothing ticks, and the markers since are these and no others. */
  ghost predicate Ending(s: State) {
    s.failures == [] ==> (s.pc >= TOOL_DONE_AT ==> !s.ticking) && EndsWith(Markers(s.log), LastMarked(s.pc))
  }

  lemma EndsWithNone(ms: seq<Marker>)
    ensures EndsWith(ms, 0)
  {
  }

  lemma EndsWithNext(ms: seq<Marker>, n: nat, m: Marker)
    requires EndsWith(ms, n) && IsLast(m.kind, n)
    ensures EndsWith(ms + [m], n + 1)
  {
    hide IsLast;
    var after := ms + [m];
    forall i | |after| - (n + 1) <= i < |after| ensures IsLast(after[i].kind, i - (|after| - (n + 1))) {
      if i < |ms| {
        assert after[i] == ms[i];
      }
    }
  }

  /** What an operation that throws nothing adds to the trace. */
  lemma DoAdds(s: State, op: Op, w: World)
    requires Do(s, op, w).1 && s.failures == [] && s.settled == Resolved(None)
    ensures var t := Do(s, op, w).0;
            match op
            case MarkKind(kind) => t.log == s.log + [Wrote(Marker(s.number + 1, kind))] && t.ticking == s.ticking
            case MarkToolDone => t.log == s.log + [Wrote(Marker(s.number + 1, ToolDone(1)))] && t.ticking == s.ticking
            case MarkStop => t.log == s.log + [Wrote(Marker(s.number + 1, Stop(0)))] && t.ticking == s.ticking
            case BeatOnce => (exists m: Marker :: m.kind.Heartbeat? && t.log == s.log + [Wrote(m)]) && t.ticking == s.ticking
            case StartTicking => t.log == s.log
            case StopTicking => t.log == s.log
            case _ => t.log == s.log && t.ticking == s.ticking
  {
    hide MarkIn, HeartbeatOf, BeatIn;
    match op
    case MarkKind(kind) => MarkSucceeds(s, kind, w.write);
    case MarkToolDone => MarkSucceeds(s, ToolDone(1), w.write);
    case MarkStop => MarkSucceeds(s, Stop(0), w.write);
    case BeatOnce => BeatAdds(s, w);
    case _ =>
  }

  lemma BeatAdds(s: State, w: World)
    requires BeatIn(s, w).1
    ensures exists m: Marker :: m.kind.Heartbeat? && BeatIn(s, w).0.log == s.log + [Wrote(m)]
    ensures BeatIn(s, w).0.ticking == s.ticking
  {
    hide HeartbeatOf;
    var h := HeartbeatOf(w.sample);
    assert BeatIn(s, w).0.log == s.log + [Wrote(Marker(s.number + 1, Heartbeat(s.beats + 1, h.tracingOn, h.loss)))];
  }

  /** What the main line marks after the tool is done is the next of the last markers, or nothing. */
  lemma EndDo(s: State, w: World)
    requires TOOL_DONE_AT <= s.pc < |Observer.SCRIPT| && s.failures == [] && s.settled == Resolved(None)
    requires EndsWith(Markers(s.log), LastMarked(s.pc)) && Do(s, Observer.SCRIPT[s.pc], w).1
    ensures var t := Do(s, Observer.SCRIPT[s.pc], w).0;
            EndsWith(Markers(t.log), LastMarked(s.pc + 1)) && t.ticking == s.ticking
  {
    hide Markers, Do, EndsWith;
    var op, n := Observer.SCRIPT[s.pc], LastMarked(s.pc);
    var t := Do(s, op, w).0;
    DoAdds(s, op, w);
    if op.MarkKind? || op.MarkToolDone? || op.MarkStop? || op.BeatOnce? {
      var m :| t.log == s.log + [Wrote(m)] && IsLast(m.kind, n);
      MarkersSnoc(s.log, Wrote(m));
      EndsWithNext(Markers(s.log), n, m);
    }
  }

  lemma EarlyDo(s: State, w: World)
    requires s.pc < TOOL_DONE_AT
    ensures s.pc == 12 ==> !Do(s, Observer.SCRIPT[s.pc], w).0.ticking
  {
  }

  lemma EndingMain(s: State, w: World)
    requires Inv(s) && Ending(s)
    ensures Ending(MainStep(s, w))
  {
    hide Do, FailIn, Markers, EndsWith, AcksFollow, Reachable, Tidy, Skeleton, Expected;
    if s.pc < |Observer.SCRIPT| && !(Observer.SCRIPT[s.pc] == Await && s.settled == Pending) {
      var (t, ok) := Do(s, Observer.SCRIPT[s.pc], w);
      DoAnswers(s, Observer.SCRIPT[s.pc], w);
      FailCounts(t, "OBSERVER_ERROR", w.failWrite);
      EndsWithNone(Markers(t.log));
      if ok && s.failures == [] {
        if s.pc < TOOL_DONE_AT {
          EarlyDo(s, w);
        } else {
          EndDo(s, w);
        }
      }
    }
  }

  lemma EndingNext(s: State, e: Event, netns: (string, nat) -> string)
    requires Inv(s) && Ending(s)
    ensures Ending(Next(s, e, netns))
  {
    hide FailIn, BeatIn, RequestStep, Markers, EndsWith, AcksFollow, Reachable, Tidy, Skeleton, Expected, MainStep;
    EndsWithNone(Markers(Next(s, e, netns).log));
    match e
    case Main(w) => EndingMain(s, w);
    case Tick(w) =>
      BeatAnswers(s, w);
      FailCounts(BeatIn(s, w).0, "OBSERVER_LOSS", w.failWrite);
    case ToolLine(content, w) =>
      FailCounts(s, "CTL_MALFORMED", w.failWrite);
      if content.Request? && s.listening && !s.stopping {
        EndingRequest(s, content.msg, w, netns);
      }
    case ToolExit(_, w) => FailCounts(s.(stopping := true), "TOOL_EXITED", w.failWrite);
    case _ =>
  }

  lemma EndingRequest(s: State, msg: Msg, w: World, netns: (string, nat) -> string)
    requires Inv(s) && Ending(s) && s.listening && !s.stopping
    ensures RequestStep(s, msg, w, netns).failures == [] ==> s.failures == [] && RequestStep(s, msg, w, netns).pc < TOOL_DONE_AT
  {
    hide FailIn, MarkIn, KindOf, Step, Markers, EndsWith, AcksFollow, Reachable, Tidy, Skeleton, Expected;
    RequestFails(s, msg, w, netns);
    var (p, act) := Step(s.proto, msg, netns);
    var t := s.(proto := p);
    FailCounts(t, "PHASE_ORDER", w.failWrite);
    FailCounts(t, "TOOL_ABORTED", w.failWrite);
    if act.Some? && !act.value.AbortRun? && !act.value.Finish? {
      MarkAnswers(t, KindOf(act.value), w);
      FailCounts(MarkIn(t, KindOf(act.value), w.write).0, "CTL_REFUSED", w.failWrite);
    }
  }

  lemma {:induction false} RunEnding(events: seq<Event>, netns: (string, nat) -> string)
    ensures Ending(RunOf(events, netns))
  {
    hide Next, Inv, Ending;
    if events == [] {
      InitialEnding();
    } else {
      RunEnding(events[..|events| - 1], netns);
      RunInv(events[..|events| - 1], netns);
      EndingNext(RunOf(events[..|events| - 1], netns), events[|events| - 1], netns);
    }
  }

  lemma InitialEnding()
    ensures Ending(INITIAL)
  {
  }

  /**
   * However the events interleave, the trace of a run that closes without a failure ends with TOOL_DONE,
   * the second counters, one heartbeat and STOP: after the tool is done no other heartbeat, no request
   * and nothing else is marked.
   */
  lemma GoodRunEnds(events: seq<Event>, netns: (string, nat) -> string)
    ensures var s := RunOf(events, netns);
            s.closed && s.failures == [] ==>
              var ms := Markers(s.log);
              && |ms| >= 5 && ms[|ms| - 5].kind == ToolDone(1)
              && ms[|ms| - 4].kind == CountersBegin(2) && ms[|ms| - 3].kind == CountersEnd(2)
              && ms[|ms| - 2].kind.Heartbeat? && ms[|ms| - 1].kind == Stop(0)
  {
    hide RunOf, Markers, AcksFollow, Reachable, Tidy, Skeleton, Expected, IsLast;
    RunInv(events, netns);
    RunEnding(events, netns);
    var s := RunOf(events, netns);
    if s.closed && s.failures == [] {
      var ms := Markers(s.log);
      assert EndsWith(ms, 5);
      var n := |ms| - 5;
      LastAre(ms[n].kind, ms[n + 1].kind, ms[n + 2].kind, ms[n + 3].kind, ms[n + 4].kind);
    }
  }

  lemma LastAre(a: Kind, b: Kind, c: Kind, d: Kind, e: Kind)
    requires IsLast(a, 0) && IsLast(b, 1) && IsLast(c, 2) && IsLast(d, 3) && IsLast(e, 4)
    ensures a == ToolDone(1) && b == CountersBegin(2) && c == CountersEnd(2) && d.Heartbeat? && e == Stop(0)
  {
  }
}
