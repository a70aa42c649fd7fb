/** The node's whole way in: the version check, the per-peer limit, and only then the admission. */
module Intake {
  import opened TokenBucket
  import opened PeerLimit
  import Admission

  datatype World = World(memory: Memory, tasks: Admission.State)

  /** What a request is told at once, or that it was taken in. */
  datatype Answer = WrongVersion | Repeated | TooFast | NodeBusy | TakenIn

  /** A request arrives, or one of the tasks or the main loop makes a step. */
  datatype Event = Request(versionOk: bool, c: Call) | Internal(e: Admission.Event)

  predicate PassesGate(w: World, rate: real, versionOk: bool, c: Call) {
    versionOk && Decide(w.memory, rate, c) == Admitted
  }

  function AnswerTo(w: World, rate: real, versionOk: bool, c: Call): Answer {
    if !versionOk then WrongVersion else
      match Decide(w.memory, rate, c)
      case RepeatedJob => Repeated
      case RateLimited => TooFast
      case Admitted => if w.tasks.permits == 0 then NodeBusy else TakenIn
  }

  /** The memory is written before the admission is asked for. */
  function Step(w: World, rate: real, event: Event): World {
    match event
    case Request(versionOk, c) =>
      World(if versionOk then Next(w.memory, rate, c) else w.memory,
            Admission.Apply(w.tasks, Admission.Arrive(PassesGate(w, rate, versionOk, c))))
    case Internal(e) =>
      if !e.Arrive? && Admission.Enabled(w.tasks, e) then w.(tasks := Admission.Apply(w.tasks, e)) else w
  }

  const EMPTY_MEMORY := Memory(map[], [])

  function Run(maxJobs: nat, rate: real, events: seq<Event>): World {
    if events == [] then World(EMPTY_MEMORY, Admission.Start(maxJobs))
    else Step(Run(maxJobs, rate, events[..|events| - 1]), rate, events[|events| - 1])
  }

  // ---------------------------------------------------------------- the two parts of a run

  /** The calls the limit sees: the requests of the right version. */
  function Calls(events: seq<Event>): seq<Call> {
    if events == [] then [] else
      var before, e := Calls(events[..|events| - 1]), events[|events| - 1];
      if e.Request? && e.versionOk then before + [e.c] else before
  }

  lemma CallsSnoc(events: seq<Event>, e: Event)
    ensures Calls(events + [e]) == Calls(events) + if e.Request? && e.versionOk then [e.c] else []
  {
    assert (events + [e])[..|events|] == events;
  }

  lemma AfterSnoc(m: Memory, rate: real, calls: seq<Call>, c: Call)
    ensures After(m, rate, calls + [c]) == Next(After(m, rate, calls), rate, c)
  {
    assert (calls + [c])[..|calls|] == calls;
  }

  lemma {:induction false} MemoryOfRun(maxJobs: nat, rate: real, events: seq<Event>)
    ensures Run(maxJobs, rate, events).memory == After(EMPTY_MEMORY, rate, Calls(events))
  {
    if events != [] {
      var n := |events| - 1;
      MemoryOfRun(maxJobs, rate, events[..n]);
      if events[n].Request? { AfterSnoc(EMPTY_MEMORY, rate, Calls(events[..n]), events[n].c); }
    }
  }

  /** What the admission sees. */
  function Steps(maxJobs: nat, rate: real, events: seq<Event>): seq<Admission.Event> {
    if events == [] then [] else
      var n := |events| - 1;
      var before := Steps(maxJobs, rate, events[..n]);
      match events[n]
      case Request(versionOk, c) =>
        before + [Admission.Arrive(PassesGate(Run(maxJobs, rate, events[..n]), rate, versionOk, c))]
      case Internal(e) => if e.Arrive? then before else before + [e]
  }

  lemma TasksSnoc(s: Admission.State, steps: seq<Admission.Event>, e: Admission.Event)
    ensures Admission.After(s, steps + [e]) ==
            var t := Admission.After(s, steps); if Admission.Enabled(t, e) then Admission.Apply(t, e) else t
  {
    assert (steps + [e])[..|steps|] == steps;
  }

  lemma {:induction false} TasksOfRun(maxJobs: nat, rate: real, events: seq<Event>)
    ensures Run(maxJobs, rate, events).tasks == Admission.After(Admission.Start(maxJobs), Steps(maxJobs, rate, events))
  {
    if events != [] {
      var n := |events| - 1;
      var before := Steps(maxJobs, rate, events[..n]);
      TasksOfRun(maxJobs, rate, events[..n]);
      match events[n]
      case Request(versionOk, c) =>
        TasksSnoc(Admission.Start(maxJobs), before, Admission.Arrive(PassesGate(Run(maxJobs, rate, events[..n]), rate, versionOk, c)));
      case Internal(e) => TasksSnoc(Admission.Start(maxJobs), before, e);
    }
  }

  /** Over any run: a request is told the node is busy exactly if its version is right, the limit lets
      it through, and all admissions are held. */
  lemma BusyExactly(maxJobs: nat, rate: real, events: seq<Event>, versionOk: bool, c: Call)
    ensures var w := Run(maxJobs, rate, events);
            AnswerTo(w, rate, versionOk, c) == NodeBusy <==>
              PassesGate(w, rate, versionOk, c) && |Admission.Held(w.tasks)| == maxJobs * Admission.QUEUE_PER_SLOT
  {
    TasksOfRun(maxJobs, rate, events);
    Admission.BusyExactlyWhenFull(maxJobs, Steps(maxJobs, rate, events), true);
    Admission.ReachableInv(maxJobs, Steps(maxJobs, rate, events));
    var s := Run(maxJobs, rate, events).tasks;
    assert |Admission.Held(s)| == |s.waiting| + |s.running| + |s.replied| + |s.leaving|;
  }

  /** What a request is told, and what becomes of it: one of the wrong version or refused by the limit is
      answered at the gate, a busy node's is answered as such, and one taken in waits for a slot. */
  lemma ToldAsTreated(maxJobs: nat, rate: real, events: seq<Event>, versionOk: bool, c: Call)
    ensures var (w, w') := (Run(maxJobs, rate, events), Run(maxJobs, rate, events + [Request(versionOk, c)]));
            var (a, id) := (AnswerTo(w, rate, versionOk, c), w.tasks.next);
            && (a == WrongVersion <==> !versionOk)
            && (a == TakenIn <==> PassesGate(w, rate, versionOk, c) && |Admission.Held(w.tasks)| < maxJobs * 4)
            && w'.tasks.next == id + 1
            && w'.tasks.waiting == w.tasks.waiting + (if a == TakenIn then {id} else {})
            && w'.tasks.answered == w.tasks.answered + (
                 if a == TakenIn then [] else [(id, if a == NodeBusy then Admission.Busy else Admission.GateRefusal)])
  {
    assert (events + [Request(versionOk, c)])[..|events|] == events;
    HeldExactly(maxJobs, rate, events);
  }

  lemma HeldExactly(maxJobs: nat, rate: real, events: seq<Event>)
    ensures var s := Run(maxJobs, rate, events).tasks;
            |Admission.Held(s)| + s.permits == maxJobs * 4
  {
    TasksOfRun(maxJobs, rate, events);
    Admission.ReachableInv(maxJobs, Steps(maxJobs, rate, events));
    var s := Run(maxJobs, rate, events).tasks;
    assert |Admission.Held(s)| == |s.waiting| + |s.running| + |s.replied| + |s.leaving|;
  }

  // ---------------------------------------------------------------- trying again

  /** The jobs that have passed the limit, in order. */
  function Passed(rate: real, events: seq<Event>): seq<(Peer, string)> {
    Admissions(EMPTY_MEMORY, rate, Calls(events))
  }

  /** Over any run a request of the right version is refused as repeated exactly if the same job of the
      same peer is among the last 4096 that passed the limit, whatever the node did with it then. */
  lemma RepeatedExactly(maxJobs: nat, rate: real, events: seq<Event>, c: Call)
    ensures AnswerTo(Run(maxJobs, rate, events), rate, true, c) == Repeated <==>
            AmongLatest(Passed(rate, events), (c.peer, c.job))
  {
    MemoryOfRun(maxJobs, rate, events);
    RepeatExactly(rate, Calls(events), c);
  }

  lemma PassedSnoc(maxJobs: nat, rate: real, events: seq<Event>, e: Event)
    ensures Passed(rate, events) <= Passed(rate, events + [e])
    ensures e.Request? && PassesGate(Run(maxJobs, rate, events), rate, e.versionOk, e.c) ==>
              Passed(rate, events + [e]) == Passed(rate, events) + [(e.c.peer, e.c.job)]
  {
    CallsSnoc(events, e);
    MemoryOfRun(maxJobs, rate, events);
    if e.Request? && e.versionOk {
      var calls := Calls(events);
      assert (calls + [e.c])[..|calls|] == calls;
    }
  }

  lemma {:induction false} PassedGrows(maxJobs: nat, rate: real, events: seq<Event>, later: seq<Event>)
    ensures Passed(rate, events) <= Passed(rate, events + later)
  {
    if later == [] {
      assert events + later == events;
    } else {
      var n := |later| - 1;
      PassedGrows(maxJobs, rate, events, later[..n]);
      PassedSnoc(maxJobs, rate, events + later[..n], later[n]);
      assert events + later == events + later[..n] + [later[n]];
    }
  }

  /** A request that was told the node is busy, and to try later, is remembered as if it had been taken.
      Tried again it is refused as repeated exactly while it is among the last 4096 that passed the
      limit, so in any case until 4096 others have passed; at once, for instance. */
  lemma BusyIsNotRetried(maxJobs: nat, rate: real, events: seq<Event>, c: Call, later: seq<Event>, again: Call)
    requires AnswerTo(Run(maxJobs, rate, events), rate, true, c) == NodeBusy
    requires again.peer == c.peer && again.job == c.job
    ensures var all := events + [Request(true, c)] + later;
            && (AnswerTo(Run(maxJobs, rate, all), rate, true, again) == Repeated <==>
                  AmongLatest(Passed(rate, all), (c.peer, c.job)))
            && (|Passed(rate, all)| - |Passed(rate, events)| <= MEMORY ==>
                  AnswerTo(Run(maxJobs, rate, all), rate, true, again) == Repeated)
  {
    var first := events + [Request(true, c)];
    var all := first + later;
    RepeatedExactly(maxJobs, rate, all, again);
    PassedSnoc(maxJobs, rate, events, Request(true, c));
    PassedGrows(maxJobs, rate, first, later);
    var i := |Passed(rate, events)|;
    assert Passed(rate, all)[i] == Passed(rate, first)[i] == (c.peer, c.job);
  }

  /** With no slots at all, for instance, a first request is busy and its second try is repeated. */
  lemma FirstIsBusyThenRepeated(peer: Peer, job: string, now: nat)
    ensures var c := Call(peer, job, now);
            && AnswerTo(Run(0, 0.0, []), 0.0, true, c) == NodeBusy
            && AnswerTo(Run(0, 0.0, [Request(true, c)]), 0.0, true, c) == Repeated
  {
    var c := Call(peer, job, now);
    assert [Request(true, c)][..0] == [];
    var w := Run(0, 0.0, [Request(true, c)]);
    assert Run(0, 0.0, []) == World(EMPTY_MEMORY, Admission.Start(0));
    assert w.memory == Next(EMPTY_MEMORY, 0.0, c);
    assert (peer, job) in Remember([], (peer, job));
  }
}
