/** How a node takes in requests: an admission semaphore in the main loop, a slot semaphore awaited
    by the spawned tasks, and a channel that brings replies back to the main loop. The tasks run
    concurrently, so the whole is a state machine over interleaved steps. */
module Admission {
  const QUEUE_PER_SLOT := 4

  type Id = nat

  /** `GateRefusal` stands for a wrong version or a refusal by the per-peer limit. */
  datatype Answer = Reply | Busy | GateRefusal

  /** Free permits, the tasks by what they are doing, the reply channel, and what was answered.
      A task in `replied` has sent its reply and still holds both permits; one in `leaving` has
      dropped the slot and still holds the admission. */
  datatype State = State(
    maxJobs: nat, slots: nat, permits: nat,
    waiting: set<Id>, running: set<Id>, replied: set<Id>, leaving: set<Id>,
    channel: seq<Id>, answered: seq<(Id, Answer)>, crashed: set<Id>, next: Id)

  function Start(maxJobs: nat): State {
    State(maxJobs, maxJobs, maxJobs * QUEUE_PER_SLOT, {}, {}, {}, {}, [], [], {}, 0)
  }

  datatype Event =
    | Arrive(passesGate: bool)   // main loop: a request comes in
    | Deliver                    // main loop: a reply leaves the channel
    | Acquire(id: Id)            // a waiting task gets a slot
    | Finish(id: Id)             // a running task sends its reply
    | Panic(id: Id)              // a running task dies and drops its slot
    | DropSlot(id: Id)           // a finished task drops its slot
    | DropPermit(id: Id)         // ... and then its admission

  predicate Enabled(s: State, e: Event) {
    match e
    case Arrive(_) => true
    case Deliver => s.channel != []
    case Acquire(id) => id in s.waiting && s.slots > 0
    case Finish(id) => id in s.running
    case Panic(id) => id in s.running
    case DropSlot(id) => id in s.replied
    case DropPermit(id) => id in s.leaving
  }

  function Apply(s: State, e: Event): State
    requires Enabled(s, e)
  {
    match e
    case Arrive(passesGate) =>
      if !passesGate then s.(answered := s.answered + [(s.next, GateRefusal)], next := s.next + 1)
      else if s.permits == 0 then s.(answered := s.answered + [(s.next, Busy)], next := s.next + 1)
      else s.(permits := s.permits - 1, waiting := s.waiting + {s.next}, next := s.next + 1)
    case Deliver => s.(answered := s.answered + [(s.channel[0], Reply)], channel := s.channel[1..])
    case Acquire(id) => s.(slots := s.slots - 1, waiting := s.waiting - {id}, running := s.running + {id})
    case Finish(id) => s.(running := s.running - {id}, replied := s.replied + {id}, channel := s.channel + [id])
    case Panic(id) =>
      s.(slots := s.slots + 1, running := s.running - {id}, leaving := s.leaving + {id}, crashed := s.crashed + {id})
    case DropSlot(id) => s.(slots := s.slots + 1, replied := s.replied - {id}, leaving := s.leaving + {id})
    case DropPermit(id) => s.(permits := s.permits + 1, leaving := s.leaving - {id})
  }

  /** Any list of events, in which those that cannot happen do not. */
  function After(s: State, events: seq<Event>): State {
    if events == [] then s else
      var t := After(s, events[..|events| - 1]);
      var e := events[|events| - 1];
      if Enabled(t, e) then Apply(t, e) else t
  }

  // ---------------------------------------------------------------- what always holds

  function TimesAnswered(answered: seq<(Id, Answer)>, id: Id): nat {
    if answered == [] then 0 else
      var n := |answered| - 1;
      TimesAnswered(answered[..n], id) + if answered[n].0 == id then 1 else 0
  }

  /** In how many stages a request is, repetitions in the channel and among the answers included. */
  function Stages(s: State, id: Id): nat {
    (if id in s.waiting then 1 else 0) + (if id in s.running then 1 else 0) +
    multiset(s.channel)[id] + TimesAnswered(s.answered, id) + (if id in s.crashed then 1 else 0)
  }

  /** No permit is lost or made up. */
  ghost predicate PermitsConserved(s: State) {
    && s.slots + |s.running| + |s.replied| == s.maxJobs
    && s.permits + |s.waiting| + |s.running| + |s.replied| + |s.leaving| == s.maxJobs * QUEUE_PER_SLOT
  }

  ghost predicate Disjoint(s: State) {
    && s.waiting !! s.running && s.waiting !! s.replied && s.waiting !! s.leaving
    && s.running !! s.replied && s.running !! s.leaving && s.replied !! s.leaving
    && forall id :: id in s.waiting || id in s.running || id in s.replied || id in s.leaving ==> id < s.next
  }

  /** Every request that has come in is in exactly one stage: waiting, running, its reply on the way,
      answered, or lost to a crash. So no request is ever answered twice. */
  ghost predicate OneStage(s: State) {
    forall id: Id :: Stages(s, id) == if id < s.next then 1 else 0
  }

  ghost predicate Inv(s: State) {
    PermitsConserved(s) && Disjoint(s) && OneStage(s)
  }

  lemma TimesAnsweredSnoc(answered: seq<(Id, Answer)>, a: (Id, Answer), id: Id)
    ensures TimesAnswered(answered + [a], id) == TimesAnswered(answered, id) + if a.0 == id then 1 else 0
  {
    assert (answered + [a])[..|answered|] == answered;
  }

  lemma TimesInChannel(channel: seq<Id>, id: Id)
    requires channel != []
    ensures multiset(channel)[id] == multiset(channel[1..])[id] + if channel[0] == id then 1 else 0
  {
    assert channel == [channel[0]] + channel[1..];
  }

  lemma ArrivalAddsStage(s: State, passesGate: bool, id: Id)
    requires Disjoint(s) && OneStage(s)
    ensures Stages(Apply(s, Arrive(passesGate)), id) == Stages(s, id) + if id == s.next then 1 else 0
  {
    TimesAnsweredSnoc(s.answered, (s.next, if passesGate then Busy else GateRefusal), id);
    assert Stages(s, s.next) == 0;
  }

  lemma DeliveryKeepsStage(s: State, id: Id)
    requires s.channel != []
    ensures Stages(Apply(s, Deliver), id) == Stages(s, id)
  {
    TimesAnsweredSnoc(s.answered, (s.channel[0], Reply), id);
    TimesInChannel(s.channel, id);
  }

  lemma StagesChange(s: State, e: Event, id: Id)
    requires Enabled(s, e) && Disjoint(s) && OneStage(s)
    ensures Stages(Apply(s, e), id) == Stages(s, id) + if e.Arrive? && id == s.next then 1 else 0
  {
    match e
    case Arrive(passesGate) => ArrivalAddsStage(s, passesGate, id);
    case Deliver => DeliveryKeepsStage(s, id);
    case Acquire(_) =>
    case Finish(_) =>
    case Panic(x) => assert Stages(s, x) <= 1;
    case DropSlot(_) =>
    case DropPermit(_) =>
  }

  lemma StepKeepsDisjoint(s: State, e: Event)
    requires Enabled(s, e) && Disjoint(s)
    ensures Disjoint(Apply(s, e))
  {
    match e
    case Arrive(_) =>
    case Deliver =>
    case Acquire(_) =>
    case Finish(_) =>
    case Panic(_) =>
    case DropSlot(_) =>
    case DropPermit(_) =>
  }

  /** A member moves from one set to another, and one less or more is counted. */
  lemma Moved(from: set<Id>, to: set<Id>, id: Id)
    ensures id in from ==> |from - {id}| == |from| - 1
    ensures id !in to ==> |to + {id}| == |to| + 1
  {}

  lemma StepKeepsPermits(s: State, e: Event)
    requires Enabled(s, e) && Disjoint(s) && PermitsConserved(s)
    ensures Disjoint(Apply(s, e)) && PermitsConserved(Apply(s, e)) && Apply(s, e).maxJobs == s.maxJobs
  {
    StepKeepsDisjoint(s, e);
    match e
    case Arrive(_) => Moved({}, s.waiting, s.next);
    case Deliver =>
    case Acquire(id) => Moved(s.waiting, s.running, id);
    case Finish(id) => Moved(s.running, s.replied, id);
    case Panic(id) => Moved(s.running, s.leaving, id);
    case DropSlot(id) => Moved(s.replied, s.leaving, id);
    case DropPermit(id) => Moved(s.leaving, {}, id);
  }

  /** What every reachable state satisfies. */
  lemma {:induction false} ReachableInv(maxJobs: nat, events: seq<Event>)
    ensures Inv(After(Start(maxJobs), events)) && After(Start(maxJobs), events).maxJobs == maxJobs
  {
    if events != [] {
      var n := |events| - 1;
      ReachableInv(maxJobs, events[..n]);
      var s := After(Start(maxJobs), events[..n]);
      if Enabled(s, events[n]) {
        StepKeepsPermits(s, events[n]);
        forall id: Id
          ensures Stages(Apply(s, events[n]), id) == if id < Apply(s, events[n]).next then 1 else 0
        { StagesChange(s, events[n], id); }
      }
    } else {
      forall id: Id
        ensures Stages(Start(maxJobs), id) == 0
      {}
    }
  }

  /** The requests that hold an admission. */
  function Held(s: State): set<Id> {
    s.waiting + s.running + s.replied + s.leaving
  }

  /** In every reachable state at most `maxJobs` requests are being computed and at most four times
      as many are admitted; a request is told the node is busy exactly when it passes the gate while
      all admissions are held. */
  lemma BusyExactlyWhenFull(maxJobs: nat, events: seq<Event>, passesGate: bool)
    ensures var s := After(Start(maxJobs), events);
            && |s.running| <= maxJobs
            && |Held(s)| <= maxJobs * QUEUE_PER_SLOT
            && (Apply(s, Arrive(passesGate)).answered == s.answered + [(s.next, Busy)] <==>
                passesGate && |Held(s)| == maxJobs * QUEUE_PER_SLOT)
  {
    ReachableInv(maxJobs, events);
    var s := After(Start(maxJobs), events);
    assert |Held(s)| == |s.waiting| + |s.running| + |s.replied| + |s.leaving|;
    var t := Apply(s, Arrive(passesGate));
    if t.answered != s.answered {
      assert t.answered[|s.answered|] == t.answered[|t.answered| - 1];
    }
  }

  // ---------------------------------------------------------------- who is told what

  /** The i-th event brings this request in and turns it away: at the gate, or because all admissions
      are held. */
  ghost predicate TurnsAway(maxJobs: nat, events: seq<Event>, i: nat, id: Id, a: Answer) {
    && i < |events| && After(Start(maxJobs), events[..i]).next == id
    && match a
       case Reply => false
       case Busy => events[i] == Arrive(true) && |Held(After(Start(maxJobs), events[..i]))| == maxJobs * 4
       case GateRefusal => events[i] == Arrive(false)
  }

  lemma TurnsAwayBefore(maxJobs: nat, events: seq<Event>, i: nat, id: Id, a: Answer)
    requires i < |events| - 1
    ensures TurnsAway(maxJobs, events[..|events| - 1], i, id, a) <==> TurnsAway(maxJobs, events, i, id, a)
  {
    assert events[..|events| - 1][..i] == events[..i];
  }

  lemma AnsweredInStep(maxJobs: nat, events: seq<Event>, id: Id, a: Answer)
    requires events != [] && a != Reply
    ensures var n := |events| - 1;
            (id, a) in After(Start(maxJobs), events).answered <==>
              (id, a) in After(Start(maxJobs), events[..n]).answered || TurnsAway(maxJobs, events, n, id, a)
  {
    var n := |events| - 1;
    var s, e := After(Start(maxJobs), events[..n]), events[n];
    if e.Arrive? {
      ReachableInv(maxJobs, events[..n]);
      HeldIsCounted(s);
      ArrivalTurnsAway(s, e.passesGate, id, a);
    } else if Enabled(s, e) {
      OthersTurnNobodyAway(s, e, id, a);
    }
  }

  lemma HeldIsCounted(s: State)
    requires PermitsConserved(s) && Disjoint(s)
    ensures |Held(s)| + s.permits == s.maxJobs * 4
  {
    assert |Held(s)| == |s.waiting| + |s.running| + |s.replied| + |s.leaving|;
  }

  lemma ArrivalTurnsAway(s: State, passesGate: bool, id: Id, a: Answer)
    requires a != Reply
    ensures (id, a) in Apply(s, Arrive(passesGate)).answered <==>
              || (id, a) in s.answered
              || (id == s.next && if passesGate then a == Busy && s.permits == 0 else a == GateRefusal)
  {}

  lemma OthersTurnNobodyAway(s: State, e: Event, id: Id, a: Answer)
    requires Enabled(s, e) && !e.Arrive? && a != Reply
    ensures (id, a) in Apply(s, e).answered <==> (id, a) in s.answered
  {}

  /** Over every run: a request is told the node is busy if and only if it passed the gate when as many
      as four times the slots were held, and is told of the gate if and only if it did not pass. */
  lemma {:induction false} TurnedAwayExactly(maxJobs: nat, events: seq<Event>, id: Id, a: Answer)
    requires a != Reply
    ensures (id, a) in After(Start(maxJobs), events).answered <==> TurnedAway(maxJobs, events, id, a)
  {
    if events != [] {
      TurnedAwayExactly(maxJobs, events[..|events| - 1], id, a);
      AnsweredInStep(maxJobs, events, id, a);
      TurnedAwayStep(maxJobs, events, id, a);
    }
  }

  ghost predicate TurnedAway(maxJobs: nat, events: seq<Event>, id: Id, a: Answer) {
    exists i: nat :: TurnsAway(maxJobs, events, i, id, a)
  }

  lemma TurnedAwayStep(maxJobs: nat, events: seq<Event>, id: Id, a: Answer)
    requires events != []
    ensures var n := |events| - 1;
            TurnedAway(maxJobs, events, id, a) <==> TurnedAway(maxJobs, events[..n], id, a) || TurnsAway(maxJobs, events, n, id, a)
  {
    var n := |events| - 1;
    if i: nat :| TurnsAway(maxJobs, events[..n], i, id, a) { TurnsAwayBefore(maxJobs, events, i, id, a); }
    if i: nat :| TurnsAway(maxJobs, events, i, id, a) && i < n { TurnsAwayBefore(maxJobs, events, i, id, a); }
  }

  /** The requests that got a reply, in order. */
  function Replies(answered: seq<(Id, Answer)>): seq<Id> {
    if answered == [] then [] else
      var n := |answered| - 1;
      Replies(answered[..n]) + if answered[n].1 == Reply then [answered[n].0] else []
  }

  /** The requests whose computation finished, in order. */
  function Finished(maxJobs: nat, events: seq<Event>): seq<Id> {
    if events == [] then [] else
      var n := |events| - 1;
      Finished(maxJobs, events[..n]) +
        if events[n].Finish? && Enabled(After(Start(maxJobs), events[..n]), events[n]) then [events[n].id] else []
  }

  lemma RepliesSnoc(answered: seq<(Id, Answer)>, a: (Id, Answer))
    ensures Replies(answered + [a]) == Replies(answered) + if a.1 == Reply then [a.0] else []
  {
    assert (answered + [a])[..|answered|] == answered;
  }

  lemma MoveOver(replies: seq<Id>, channel: seq<Id>)
    requires channel != []
    ensures (replies + [channel[0]]) + channel[1..] == replies + channel
  {}

  lemma RepliesInStep(s: State, e: Event)
    requires Enabled(s, e)
    ensures var t := Apply(s, e);
            Replies(t.answered) + t.channel == Replies(s.answered) + s.channel + if e.Finish? then [e.id] else []
  {
    match e
    case Arrive(passesGate) => RepliesSnoc(s.answered, (s.next, if passesGate then Busy else GateRefusal));
    case Deliver =>
      RepliesSnoc(s.answered, (s.channel[0], Reply));
      MoveOver(Replies(s.answered), s.channel);
    case Finish(id) => assert Replies(s.answered) + (s.channel + [id]) == Replies(s.answered) + s.channel + [id];
    case _ =>
  }

  /** Replies are delivered first come, first served: those given and those under way are, in order, the
      requests that finished. */
  lemma {:induction false} RepliesInOrder(maxJobs: nat, events: seq<Event>)
    ensures var s := After(Start(maxJobs), events);
            Replies(s.answered) + s.channel == Finished(maxJobs, events)
  {
    if events != [] {
      var n := |events| - 1;
      RepliesInOrder(maxJobs, events[..n]);
      var s := After(Start(maxJobs), events[..n]);
      if Enabled(s, events[n]) { RepliesInStep(s, events[n]); }
    }
  }

  /** At the i-th event the request's computation finishes, or its task dies. */
  ghost predicate HappensAt(maxJobs: nat, events: seq<Event>, i: nat, e: Event) {
    i < |events| && events[i] == e && Enabled(After(Start(maxJobs), events[..i]), e)
  }

  lemma HappensBefore(maxJobs: nat, events: seq<Event>, i: nat, e: Event)
    requires i < |events| - 1
    ensures HappensAt(maxJobs, events[..|events| - 1], i, e) <==> HappensAt(maxJobs, events, i, e)
  {
    assert events[..|events| - 1][..i] == events[..i];
  }

  ghost predicate Happened(maxJobs: nat, events: seq<Event>, e: Event) {
    exists i: nat :: HappensAt(maxJobs, events, i, e)
  }

  lemma HappenedStep(maxJobs: nat, events: seq<Event>, e: Event)
    requires events != []
    ensures var n := |events| - 1;
            Happened(maxJobs, events, e) <==>
              Happened(maxJobs, events[..n], e) || (events[n] == e && Enabled(After(Start(maxJobs), events[..n]), e))
  {
    var n := |events| - 1;
    assert HappensAt(maxJobs, events, n, e) <==> events[n] == e && Enabled(After(Start(maxJobs), events[..n]), e);
    if i: nat :| HappensAt(maxJobs, events[..n], i, e) { HappensBefore(maxJobs, events, i, e); }
    if i: nat :| HappensAt(maxJobs, events, i, e) && i < n { HappensBefore(maxJobs, events, i, e); }
  }

  lemma {:induction false} FinishedExactly(maxJobs: nat, events: seq<Event>, id: Id)
    ensures id in Finished(maxJobs, events) <==> Happened(maxJobs, events, Finish(id))
  {
    if events != [] {
      FinishedExactly(maxJobs, events[..|events| - 1], id);
      HappenedStep(maxJobs, events, Finish(id));
    }
  }

  /** Exactly the requests whose task died while it was computing are lost. */
  lemma {:induction false} CrashedExactly(maxJobs: nat, events: seq<Event>, id: Id)
    ensures id in After(Start(maxJobs), events).crashed <==> Happened(maxJobs, events, Panic(id))
  {
    if events != [] {
      CrashedExactly(maxJobs, events[..|events| - 1], id);
      HappenedStep(maxJobs, events, Panic(id));
    }
  }

  lemma {:induction false} ReplyIsAnswer(answered: seq<(Id, Answer)>, id: Id)
    ensures id in Replies(answered) <==> (id, Reply) in answered
    ensures forall a :: (id, a) in answered ==> TimesAnswered(answered, id) >= 1
  {
    if answered != [] {
      var n := |answered| - 1;
      ReplyIsAnswer(answered[..n], id);
      assert answered == answered[..n] + [answered[n]];
    }
  }

  lemma OnceIn(channel: seq<Id>, id: Id)
    ensures id in channel <==> multiset(channel)[id] >= 1
  {
    assert id in channel <==> id in multiset(channel);
  }

  /** Over every run: a request has its reply if and only if its computation finished and the reply is no
      longer under way. */
  lemma RepliedExactly(maxJobs: nat, events: seq<Event>, id: Id)
    ensures var s := After(Start(maxJobs), events);
            (id, Reply) in s.answered <==> Happened(maxJobs, events, Finish(id)) && id !in s.channel
  {
    var s := After(Start(maxJobs), events);
    RepliesInOrder(maxJobs, events);
    FinishedExactly(maxJobs, events, id);
    ReplyIsAnswer(s.answered, id);
    ReachableInv(maxJobs, events);
    OnceIn(s.channel, id);
    assert id in Finished(maxJobs, events) <==> id in Replies(s.answered) || id in s.channel;
    assert Stages(s, id) <= 1;
  }

  lemma {:induction false} TimesAnsweredAtLeast(answered: seq<(Id, Answer)>, id: Id, a: Answer, b: Answer)
    requires (id, a) in answered && (id, b) in answered && a != b
    ensures TimesAnswered(answered, id) >= 2
  {
    var n := |answered| - 1;
    assert answered == answered[..n] + [answered[n]];
    if (id, a) in answered[..n] && (id, b) in answered[..n] {
      TimesAnsweredAtLeast(answered[..n], id, a, b);
    } else {
      ReplyIsAnswer(answered[..n], id);
    }
  }

  /** Where a task that has left its slot's work comes from. */
  ghost predicate Ended(s: State) {
    && (forall id :: id in s.replied ==> id in s.channel || (id, Reply) in s.answered)
    && (forall id :: id in s.leaving ==> id in s.channel || (id, Reply) in s.answered || id in s.crashed)
  }

  lemma {:induction false} ReachableEnded(maxJobs: nat, events: seq<Event>)
    ensures Ended(After(Start(maxJobs), events))
  {
    if events != [] {
      ReachableEnded(maxJobs, events[..|events| - 1]);
      StepKeepsEnded(After(Start(maxJobs), events[..|events| - 1]), events[|events| - 1]);
    }
  }

  lemma StepKeepsEnded(s: State, e: Event)
    requires Ended(s)
    ensures Enabled(s, e) ==> Ended(Apply(s, e))
  {
    match e
    case Deliver =>
      if s.channel != [] { assert s.channel == [s.channel[0]] + s.channel[1..]; }
    case _ =>
  }

  /** A request that was turned away is never anywhere else: it waits for no slot, is not computed, has no
      reply under way and holds no admission. */
  lemma TurnedAwayHoldsNothing(maxJobs: nat, events: seq<Event>, id: Id, a: Answer)
    requires a != Reply && (id, a) in After(Start(maxJobs), events).answered
    ensures var s := After(Start(maxJobs), events);
            id !in Held(s) && id !in s.channel && id !in s.crashed && (id, Reply) !in s.answered
  {
    var s := After(Start(maxJobs), events);
    ReachableInv(maxJobs, events);
    ReachableEnded(maxJobs, events);
    ReplyIsAnswer(s.answered, id);
    OnceIn(s.channel, id);
    assert Stages(s, id) <= 1;
    if (id, Reply) in s.answered { TimesAnsweredAtLeast(s.answered, id, a, Reply); }
  }

  // ---------------------------------------------------------------- nothing gets stuck

  predicate Internal(e: Event) {
    !e.Arrive?
  }

  /** The steps the requests taken in so far can still cause. */
  function Remaining(s: State): nat {
    5 * |s.waiting| + 4 * |s.running| + 2 * |s.replied| + |s.leaving| + |s.channel|
  }

  lemma InternalStepsRunOut(s: State, e: Event)
    requires Enabled(s, e) && Internal(e) && Disjoint(s)
    ensures Remaining(Apply(s, e)) < Remaining(s)
  {}

  /** Nothing is left to do: everything came in is answered or crashed, and every permit is back. */
  ghost predicate Settled(s: State) {
    && s.slots == s.maxJobs && s.permits == s.maxJobs * QUEUE_PER_SLOT
    && forall id: Id :: id < s.next ==> TimesAnswered(s.answered, id) == (if id in s.crashed then 0 else 1)
  }

  /** In every reachable state either some task or the main loop can take a step, or all is settled.
      With `InternalStepsRunOut`: once no more requests come in, every way of continuing ends, after
      at most `Remaining` steps, with each request answered once unless its task crashed. */
  lemma NeverStuck(maxJobs: nat, events: seq<Event>)
    ensures var s := After(Start(maxJobs), events);
            Settled(s) || exists e :: Internal(e) && Enabled(s, e)
  {
    ReachableInv(maxJobs, events);
    var s := After(Start(maxJobs), events);
    if s.channel != [] {
      assert Internal(Deliver) && Enabled(s, Deliver);
    } else if s.running != {} {
      var id :| id in s.running;
      assert Internal(Finish(id)) && Enabled(s, Finish(id));
    } else if s.replied != {} {
      var id :| id in s.replied;
      assert Internal(DropSlot(id)) && Enabled(s, DropSlot(id));
    } else if s.leaving != {} {
      var id :| id in s.leaving;
      assert Internal(DropPermit(id)) && Enabled(s, DropPermit(id));
    } else if s.waiting != {} {
      var id :| id in s.waiting;
      assert s.slots == s.maxJobs;
      assert |s.waiting| > 0;
      assert Internal(Acquire(id)) && Enabled(s, Acquire(id));
    } else {
      forall id: Id | id < s.next
        ensures TimesAnswered(s.answered, id) == (if id in s.crashed then 0 else 1)
      { assert Stages(s, id) == 1; }
    }
  }

  /** Every step of the run is an internal one that can happen where it stands. */
  ghost predicate AllInternal(s: State, more: seq<Event>) {
    more == [] || (
      var n := |more| - 1;
      AllInternal(s, more[..n]) && Internal(more[n]) && Enabled(After(s, more[..n]), more[n]))
  }

  /** A run of internal steps alone is no longer than what remained at its start. */
  lemma {:induction false} DrainIsBounded(maxJobs: nat, events: seq<Event>, more: seq<Event>)
    requires AllInternal(After(Start(maxJobs), events), more)
    ensures |more| + Remaining(After(After(Start(maxJobs), events), more)) <= Remaining(After(Start(maxJobs), events))
  {
    if more != [] {
      var n := |more| - 1;
      DrainIsBounded(maxJobs, events, more[..n]);
      LastStepUsesUp(maxJobs, events, more[..n], more[n]);
    }
  }

  lemma LastStepUsesUp(maxJobs: nat, events: seq<Event>, more: seq<Event>, e: Event)
    requires Internal(e) && Enabled(After(After(Start(maxJobs), events), more), e)
    ensures Remaining(Apply(After(After(Start(maxJobs), events), more), e)) < Remaining(After(After(Start(maxJobs), events), more))
  {
    AfterTwice(Start(maxJobs), events, more);
    ReachableInv(maxJobs, events + more);
    InternalStepsRunOut(After(After(Start(maxJobs), events), more), e);
  }

  lemma {:induction false} AfterTwice(s: State, a: seq<Event>, b: seq<Event>)
    ensures After(After(s, a), b) == After(s, a + b)
  {
    if b == [] {
      assert a + b == a;
    } else {
      assert (a + b)[..|a + b| - 1] == a + b[..|b| - 1];
      AfterTwice(s, a, b[..|b| - 1]);
    }
  }
}
