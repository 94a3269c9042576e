/**
 * The tool's requests and the only order the observer serves them in: HELLO once, the phases in
 * order and each once, DONE only after the last.
 */
module ControlProtocol {
  import opened Wrappers

  const PHASES: seq<string> := [
    "PROBES_BEFORE_BEGIN", "PROBES_BEFORE_END", "GATE_BEGIN", "HOST_SPAWN",
    "HOST_EXIT", "GATE_END", "PROBES_AFTER_BEGIN", "PROBES_AFTER_END"]

  datatype Msg =
    | Hello(commit: string, host: string)
    | Phase(phase: string)
    | Container(id: string, pid: nat)
    | Done
    | Abort(reason: string)

  datatype Act =
    | MarkHello(commit: string, host: string)
    | MarkPhase(phase: string)
    | MarkContainer(id: string, pid: nat, netns: string)
    | AbortRun(reason: string)
    | Finish

  datatype Protocol = Protocol(next: nat, hello: bool, done: bool)

  const START := Protocol(0, false, false)

  /** What a request is answered with, and the protocol after it; a refused request changes nothing. */
  function Step(p: Protocol, msg: Msg, netns: (string, nat) -> string): (r: (Protocol, Option<Act>)) {
    if p.done then (p, None)
    else match msg
      case Hello(commit, host) =>
        if p.hello then (p, None) else (p.(hello := true), Some(MarkHello(commit, host)))
      case Phase(phase) =>
        if !p.hello || p.next >= |PHASES| || PHASES[p.next] != phase then (p, None)
        else (p.(next := p.next + 1), Some(MarkPhase(phase)))
      case Container(id, pid) =>
        if !p.hello then (p, None) else (p, Some(MarkContainer(id, pid, netns(id, pid))))
      case Abort(reason) => (p, Some(AbortRun(reason)))
      case Done =>
        if p.next != |PHASES| then (p, None) else (p.(done := true), Some(Finish))
  }

  class ControlProtocol {
    var next: nat
    var hello: bool
    var done: bool

    constructor ()
      ensures State() == START
    {
      next, hello, done := 0, false, false;
    }

    function State(): Protocol reads this { Protocol(next, hello, done) }

    method Accept(msg: Msg, netns: (string, nat) -> string) returns (act: Option<Act>)
      modifies this
      ensures (State(), act) == Step(old(State()), msg, netns)
    {
      if done {
        return None;
      }
      match msg
      case Hello(commit, host) =>
        if hello {
          return None;
        }
        hello := true;
        return Some(MarkHello(commit, host));
      case Phase(phase) =>
        if !hello {
          return None;
        }
        if next >= |PHASES| || PHASES[next] != phase {
          return None;
        }
        next := next + 1;
        return Some(MarkPhase(phase));
      case Container(id, pid) =>
        if !hello {
          return None;
        }
        return Some(MarkContainer(id, pid, netns(id, pid)));
      case Abort(reason) =>
        return Some(AbortRun(reason));
      case Done =>
        if next != |PHASES| {
          return None;
        }
        done := true;
        return Some(Finish);
    }
  }

  // ----- the order, said on its own ---------------------------------------------------------

  /** The requests whose order matters. */
  datatype Key = KeyHello | KeyPhase(phase: string) | KeyDone

  function KeyOf(msg: Msg): seq<Key> {
    match msg
    case Hello(_, _) => [KeyHello]
    case Phase(phase) => [KeyPhase(phase)]
    case Done => [KeyDone]
    case _ => []
  }

  function Keys(msgs: seq<Msg>): seq<Key> {
    if msgs == [] then [] else Keys(msgs[..|msgs| - 1]) + KeyOf(msgs[|msgs| - 1])
  }

  function PhaseKeys(phases: seq<string>): (keys: seq<Key>)
    ensures |keys| == |phases| && forall i :: 0 <= i < |keys| ==> keys[i] == KeyPhase(phases[i])
  {
    seq(|phases|, i requires 0 <= i < |phases| => KeyPhase(phases[i]))
  }

  const SCRIPT: seq<Key> := [KeyHello] + PhaseKeys(PHASES) + [KeyDone]

  /**
   * HELLO, the phases and DONE come in the script's order, as far as they come; a container comes
   * after HELLO; and nothing comes after DONE.
   */
  ghost predicate Orderly(msgs: seq<Msg>) {
    && Keys(msgs) <= SCRIPT
    && (forall i :: 0 <= i < |msgs| && msgs[i].Container? ==> KeyHello in Keys(msgs[..i]))
    && (forall i :: 0 <= i < |msgs| ==> KeyDone !in Keys(msgs[..i]))
  }

  /** The protocol after the requests, and whether it served every one. */
  function RunAll(msgs: seq<Msg>, netns: (string, nat) -> string): (Protocol, bool) {
    if msgs == [] then (START, true)
    else
      var (p, all) := RunAll(msgs[..|msgs| - 1], netns);
      var (q, act) := Step(p, msgs[|msgs| - 1], netns);
      (q, all && act.Some?)
  }

  /** How far along the script the protocol is. */
  function Progress(p: Protocol): nat {
    (if p.hello then 1 else 0) + p.next + if p.done then 1 else 0
  }

  function SoFar(p: Protocol): (keys: seq<Key>)
    ensures keys <= SCRIPT
  {
    if Progress(p) <= |SCRIPT| then SCRIPT[..Progress(p)] else SCRIPT
  }

  ghost predicate Reachable(p: Protocol) {
    && p.next <= |PHASES|
    && (!p.hello ==> p.next == 0)
    && (p.done ==> p.hello && p.next == |PHASES|)
  }

  /** A served request that has a key is the script's next. */
  lemma ServedIsNext(p: Protocol, msg: Msg, netns: (string, nat) -> string)
    requires Reachable(p)
    ensures var (q, act) := Step(p, msg, netns);
            && (act.Some? ==> SoFar(q) == SoFar(p) + KeyOf(msg))
            && (act.None? ==> q == p)
  {
    var (q, act) := Step(p, msg, netns);
    if act.Some? && KeyOf(msg) != [] {
      assert SCRIPT[Progress(p)] == KeyOf(msg)[0];
      assert Progress(q) == Progress(p) + 1;
      PrefixGrows(Progress(p));
    } else {
      assert SoFar(p) + [] == SoFar(p);
    }
  }

  /** A served request is answered with what it says: a container with the namespace found for it. */
  lemma ServedIsMarked(p: Protocol, msg: Msg, netns: (string, nat) -> string)
    requires Step(p, msg, netns).1.Some?
    ensures var act := Step(p, msg, netns).1.value;
            match msg
            case Hello(commit, host) => act == MarkHello(commit, host)
            case Phase(phase) => act == MarkPhase(phase)
            case Container(id, pid) => act == MarkContainer(id, pid, netns(id, pid))
            case Abort(reason) => act == AbortRun(reason)
            case Done => act == Finish
  {
  }

  lemma PrefixGrows(n: nat)
    requires n < |SCRIPT|
    ensures SCRIPT[..n + 1] == SCRIPT[..n] + [SCRIPT[n]]
  {
  }

  lemma NextInScript(p: Protocol, k: Key)
    requires Reachable(p) && SoFar(p) + [k] <= SCRIPT
    ensures Progress(p) < |SCRIPT| && SCRIPT[Progress(p)] == k
  {
    assert |SoFar(p)| == Progress(p);
    assert (SoFar(p) + [k])[Progress(p)] == k;
  }

  /** A request is refused only where serving it would break the order. */
  lemma RefusedIsDisorder(p: Protocol, msg: Msg, netns: (string, nat) -> string)
    requires Reachable(p) && Step(p, msg, netns).1.None?
    ensures p.done || (msg.Container? && !p.hello) || !(SoFar(p) + KeyOf(msg) <= SCRIPT)
  {
    hide SoFar;
    if KeyOf(msg) != [] && SoFar(p) + KeyOf(msg) <= SCRIPT {
      NextInScript(p, KeyOf(msg)[0]);
    }
  }

  lemma ScriptPrefix(p: Protocol)
    requires Reachable(p)
    ensures KeyHello in SoFar(p) <==> p.hello
    ensures KeyDone in SoFar(p) <==> p.done
  {
    if p.hello {
      assert SoFar(p)[0] == KeyHello;
    }
    if p.done {
      assert SoFar(p)[|SCRIPT| - 1] == KeyDone;
    }
  }

  lemma {:induction false} RunReachable(msgs: seq<Msg>, netns: (string, nat) -> string)
    ensures Reachable(RunAll(msgs, netns).0)
  {
    if msgs != [] {
      RunReachable(msgs[..|msgs| - 1], netns);
    }
  }

  /** The protocol serves every request of a run exactly when the run is orderly. */
  lemma {:induction false} ServesExactlyTheOrderly(msgs: seq<Msg>, netns: (string, nat) -> string)
    ensures RunAll(msgs, netns).1 <==> Orderly(msgs)
    ensures RunAll(msgs, netns).1 ==> Keys(msgs) == SoFar(RunAll(msgs, netns).0)
  {
    hide Step, KeyOf, Progress, SoFar;
    if msgs == [] {
      NothingSoFar();
    } else {
      var init, msg := msgs[..|msgs| - 1], msgs[|msgs| - 1];
      var (p, all) := RunAll(init, netns);
      RunReachable(init, netns);
      ServesExactlyTheOrderly(init, netns);
      OrderlySnoc(init, msg);
      assert msgs == init + [msg];
      if all {
        ServedIsNext(p, msg, netns);
        ScriptPrefix(p);
        if Step(p, msg, netns).1.None? {
          RefusedIsDisorder(p, msg, netns);
        } else {
          ServedIsOrderly(p, msg, netns);
        }
      }
    }
  }

  lemma NothingSoFar()
    ensures SoFar(START) == []
  {
  }

  lemma ServedIsOrderly(p: Protocol, msg: Msg, netns: (string, nat) -> string)
    requires Reachable(p) && Step(p, msg, netns).1.Some?
    ensures !p.done && (msg.Container? ==> p.hello)
  {
  }

  lemma OrderlySnoc(init: seq<Msg>, msg: Msg)
    ensures Orderly(init + [msg]) <==>
              && Orderly(init) && Keys(init) + KeyOf(msg) <= SCRIPT
              && (msg.Container? ==> KeyHello in Keys(init)) && KeyDone !in Keys(init)
  {
    hide KeyOf;
    var msgs := init + [msg];
    assert msgs[..|init|] == init;
    assert forall i :: 0 <= i <= |init| ==> msgs[..i] == init[..i];
    if Orderly(init) && Keys(init) + KeyOf(msg) <= SCRIPT && (msg.Container? ==> KeyHello in Keys(init)) && KeyDone !in Keys(init) {
      forall i | 0 <= i < |msgs| ensures KeyDone !in Keys(msgs[..i]) {
        assert msgs[..i] == init[..i];
      }
    }
    if Orderly(msgs) {
      assert Keys(init) <= SCRIPT by { assert Keys(init) <= Keys(msgs); }
      forall i | 0 <= i < |init| ensures KeyDone !in Keys(init[..i]) {
        assert msgs[..i] == init[..i];
      }
      forall i | 0 <= i < |init| && init[i].Container? ensures KeyHello in Keys(init[..i]) {
        assert msgs[i] == init[i];
      }
    }
  }
}
