/** The client's side: orders it has placed, the race of coordinators for each, and the check of the
    result before it is shown. */
module OrderRace {
  import opened Basics
  import opened Protocol
  import opened Lex
  import Coordinator
  import CoordinatorRuns
  import NodeRegistry

  // ---------------------------------------------------------------- the race

  /** The hashes in use: the rank of a coordinator for an order, the name of an order, the digest of its
      content under a nonce, the job name derived from an order's name, and the digest of a shown text;
      and the decoding of keys. */
  datatype Hashes = Hashes(
    rank: (string, string) -> string,
    orderId: Body -> string,
    payload: (string, string) -> string,
    jobHash: string -> string,
    text: string -> string,
    fromHex: string -> Option<PublicKey>)

  function RaceKey(h: Hashes, a: OrderAccepted): (string, string) {
    (h.rank(a.orderId, a.coordinator), a.jobId)
  }

  /** The batch rule: the smallest rank, then the smallest job name, then the first to arrive. */
  function Winner(h: Hashes, candidates: seq<OrderAccepted>): Option<OrderAccepted> {
    if candidates == [] then None else
      var n := |candidates| - 1;
      match Winner(h, candidates[..n])
      case None => Some(candidates[n])
      case Some(w) => if PairLess(RaceKey(h, candidates[n]), RaceKey(h, w)) then Some(candidates[n]) else Some(w)
  }

  lemma {:induction false} WinnerIsLeast(h: Hashes, candidates: seq<OrderAccepted>)
    ensures Winner(h, candidates).None? <==> candidates == []
    ensures Winner(h, candidates).Some? ==>
              var w := Winner(h, candidates).value;
              w in candidates && forall c :: c in candidates ==> !PairLess(RaceKey(h, c), RaceKey(h, w))
  {
    if candidates != [] {
      var n := |candidates| - 1;
      WinnerIsLeast(h, candidates[..n]);
      var last := candidates[n];
      assert candidates == candidates[..n] + [last];
      PairLessOrder(RaceKey(h, last), RaceKey(h, last), RaceKey(h, last));
      if n > 0 {
        var w := Winner(h, candidates[..n]).value;
        forall c | c in candidates[..n]
          ensures PairLess(RaceKey(h, last), RaceKey(h, w)) ==> !PairLess(RaceKey(h, c), RaceKey(h, last))
        { PairLessOrder(RaceKey(h, c), RaceKey(h, last), RaceKey(h, w)); }
      }
    }
  }

  /** And of several least ones it is the first to arrive. */
  lemma {:induction false} WinnerIsFirst(h: Hashes, candidates: seq<OrderAccepted>) returns (k: nat)
    requires candidates != []
    ensures k < |candidates| && Winner(h, candidates) == Some(candidates[k])
    ensures forall j :: 0 <= j < k ==> PairLess(RaceKey(h, candidates[k]), RaceKey(h, candidates[j]))
  {
    var n := |candidates| - 1;
    k := n;
    if n > 0 {
      var w := WinnerIsFirst(h, candidates[..n]);
      if PairLess(RaceKey(h, candidates[n]), RaceKey(h, candidates[w])) {
        WinnerIsLeast(h, candidates[..n]);
        forall j | 0 <= j < n
          ensures PairLess(RaceKey(h, candidates[n]), RaceKey(h, candidates[j]))
        {
          assert candidates[..n][j] in candidates[..n];
          NotAbove(RaceKey(h, candidates[n]), RaceKey(h, candidates[w]), RaceKey(h, candidates[j]));
        }
      } else {
        k := w;
      }
    }
  }

  lemma NotAbove(a: (string, string), b: (string, string), c: (string, string))
    requires PairLess(a, b) && !PairLess(c, b)
    ensures PairLess(a, c)
  {
    PairLessOrder(a, b, c);
    PairLessOrder(b, c, a);
  }

  /** Who wins, by rank and job name, does not depend on the order of arrival. */
  lemma WinnerIgnoresOrder(h: Hashes, xs: seq<OrderAccepted>, ys: seq<OrderAccepted>)
    requires multiset(xs) == multiset(ys)
    ensures Winner(h, xs).None? <==> Winner(h, ys).None?
    ensures Winner(h, xs).Some? ==> RaceKey(h, Winner(h, xs).value) == RaceKey(h, Winner(h, ys).value)
  {
    WinnerIsLeast(h, xs);
    WinnerIsLeast(h, ys);
    assert |multiset(xs)| == |xs| && |multiset(ys)| == |ys|;
    if xs != [] {
      var v, w := Winner(h, xs).value, Winner(h, ys).value;
      assert v in multiset(ys) && w in multiset(xs);
      PairLessOrder(RaceKey(h, v), RaceKey(h, w), RaceKey(h, v));
    }
  }

  // ---------------------------------------------------------------- only registered coordinators

  /** For this order, by a registered coordinator, and signed by it. */
  predicate IsAdmitted(h: Hashes, registered: set<string>, orderId: string, a: OrderAccepted) {
    a.orderId == orderId && a.coordinator in registered && AcceptanceSigned(h.fromHex, a)
  }

  function Admitted(h: Hashes, registered: set<string>, orderId: string, xs: seq<OrderAccepted>): seq<OrderAccepted> {
    if xs == [] then [] else
      var n := |xs| - 1;
      var before := Admitted(h, registered, orderId, xs[..n]);
      if IsAdmitted(h, registered, orderId, xs[n]) then before + [xs[n]] else before
  }

  function WinnerRegistered(h: Hashes, registered: set<string>, orderId: string, xs: seq<OrderAccepted>): Option<OrderAccepted> {
    Winner(h, Admitted(h, registered, orderId, xs))
  }

  lemma {:induction false} AdmittedMembers(h: Hashes, registered: set<string>, orderId: string, xs: seq<OrderAccepted>)
    ensures forall a :: a in Admitted(h, registered, orderId, xs) <==> a in xs && IsAdmitted(h, registered, orderId, a)
  {
    if xs != [] {
      var n := |xs| - 1;
      AdmittedMembers(h, registered, orderId, xs[..n]);
      assert xs == xs[..n] + [xs[n]];
    }
  }

  lemma {:induction false} AdmittedInsert(h: Hashes, registered: set<string>, orderId: string,
                                          xs: seq<OrderAccepted>, c: OrderAccepted, ys: seq<OrderAccepted>)
    requires !IsAdmitted(h, registered, orderId, c)
    ensures Admitted(h, registered, orderId, xs + [c] + ys) == Admitted(h, registered, orderId, xs + ys)
  {
    if ys == [] {
      assert xs + [c] + ys == xs + [c] && (xs + [c])[..|xs|] == xs && xs + ys == xs;
    } else {
      var n := |ys| - 1;
      AdmittedInsert(h, registered, orderId, xs, c, ys[..n]);
      assert (xs + [c] + ys)[..|xs| + 1 + n] == xs + [c] + ys[..n];
      assert (xs + ys)[..|xs| + n] == xs + ys[..n];
    }
  }

  /** Filtering comes before ranking: the winner is registered and has signed, it is the least among
      all who did, and an acceptance that is not admitted cannot influence who wins, wherever it
      arrives. */
  lemma OnlyAdmittedCount(h: Hashes, registered: set<string>, orderId: string,
                          xs: seq<OrderAccepted>, c: OrderAccepted, ys: seq<OrderAccepted>)
    ensures var w := WinnerRegistered(h, registered, orderId, xs + ys);
            && (w.Some? ==> w.value in xs + ys && IsAdmitted(h, registered, orderId, w.value))
            && forall a :: a in xs + ys && IsAdmitted(h, registered, orderId, a) ==>
                 w.Some? && !PairLess(RaceKey(h, a), RaceKey(h, w.value))
    ensures !IsAdmitted(h, registered, orderId, c) ==>
            WinnerRegistered(h, registered, orderId, xs + [c] + ys) == WinnerRegistered(h, registered, orderId, xs + ys)
  {
    AdmittedMembers(h, registered, orderId, xs + ys);
    WinnerIsLeast(h, Admitted(h, registered, orderId, xs + ys));
    if !IsAdmitted(h, registered, orderId, c) { AdmittedInsert(h, registered, orderId, xs, c, ys); }
  }

  /** The race as it is decided without the filter agrees with the filtered one, by rank and job name,
      exactly if somebody admitted is beaten by nobody who is not. */
  lemma FilterMattersExactly(h: Hashes, registered: set<string>, orderId: string, xs: seq<OrderAccepted>)
    requires xs != []
    ensures Winner(h, xs).Some?
    ensures var w, f := Winner(h, xs).value, WinnerRegistered(h, registered, orderId, xs);
            f.Some? && RaceKey(h, f.value) == RaceKey(h, w) <==>
              exists a :: a in xs && IsAdmitted(h, registered, orderId, a) && BeatenByNoOutsider(h, registered, orderId, xs, a)
  {
    WinnerIsLeast(h, xs);
    AdmittedMembers(h, registered, orderId, xs);
    WinnerIsLeast(h, Admitted(h, registered, orderId, xs));
    var w, f := Winner(h, xs).value, WinnerRegistered(h, registered, orderId, xs);
    if f.Some? {
      PairLessOrder(RaceKey(h, f.value), RaceKey(h, w), RaceKey(h, f.value));
      if RaceKey(h, f.value) == RaceKey(h, w) {
        assert BeatenByNoOutsider(h, registered, orderId, xs, f.value);
      }
      if a :| a in xs && IsAdmitted(h, registered, orderId, a) && BeatenByNoOutsider(h, registered, orderId, xs, a) {
        PairLessOrder(RaceKey(h, w), RaceKey(h, f.value), RaceKey(h, a));
        PairLessOrder(RaceKey(h, f.value), RaceKey(h, a), RaceKey(h, w));
        PairLessOrder(RaceKey(h, a), RaceKey(h, w), RaceKey(h, a));
      }
    }
  }

  ghost predicate BeatenByNoOutsider(h: Hashes, registered: set<string>, orderId: string, xs: seq<OrderAccepted>, a: OrderAccepted) {
    forall c :: c in xs && !IsAdmitted(h, registered, orderId, c) ==> !PairLess(RaceKey(h, c), RaceKey(h, a))
  }

  /** What a coordinator issues passes the filter of a client that has it registered. */
  lemma IssuedIsAdmitted(h: Hashes, env: Coordinator.Env, s: Coordinator.State, o: JobOrder, now: nat, registered: set<string>)
    requires Coordinator.Process(env, s, o, now).1.Accepted?
    requires h.fromHex(env.toHex(env.coordinator)) == Some(env.coordinator) && env.toHex(env.coordinator) in registered
    ensures IsAdmitted(h, registered, o.orderId, Coordinator.Process(env, s, o, now).1.acceptance)
  {}

  // ---------------------------------------------------------------- the client's state

  datatype Phase = Broadcast | Taken(jobId: string) | Verifying | Ready

  /** What an order is about; its name is a digest of this. */
  datatype Body = Body(model: string, payload: string, fee: nat, timeout: nat, userPubkey: string, nonce: string)

  datatype Active = Active(body: Body, accepted: Option<OrderAccepted>, phase: Phase)

  datatype State = State(active: map<string, Active>, outbox: seq<Body>)

  const NOTHING := State(map[], [])

  /** The user's key signed this very request. */
  predicate Authorises(h: Hashes, r: UserRequest, signature: Option<Signature>) {
    var key := h.fromHex(r.userPubkey);
    key.Some? && Verifies(key.value, OfRequest(r), signature)
  }

  /** The order made of a request; the content itself stays with the client. */
  function BodyOf(h: Hashes, r: UserRequest, nonce: string): Body {
    Body(r.model, h.payload(nonce, r.content), r.fee, r.timeout, r.userPubkey, nonce)
  }

  predicate MaySubmit(h: Hashes, r: UserRequest, signature: Option<Signature>) {
    Authorises(h, r, signature) && r.fee > 0
  }

  /** Places an order, if its user authorised it and it carries a fee. */
  function Submit(h: Hashes, s: State, r: UserRequest, signature: Option<Signature>, nonce: string): State {
    if !MaySubmit(h, r, signature) then s else
      var body := BodyOf(h, r, nonce);
      State(s.active[h.orderId(body) := Active(body, None, Broadcast)], s.outbox + [body])
  }

  /** Once the result has arrived the race is over. */
  predicate IsFrozen(a: Active) {
    a.phase == Verifying || a.phase == Ready
  }

  function OnAccepted(h: Hashes, s: State, acc: OrderAccepted): State {
    if acc.orderId !in s.active || IsFrozen(s.active[acc.orderId]) then s else
      var a := s.active[acc.orderId];
      var w := (if a.accepted.None? || PairLess(RaceKey(h, acc), RaceKey(h, a.accepted.value)) then acc else a.accepted.value);
      s.(active := s.active[acc.orderId := a.(accepted := Some(w), phase := Taken(w.jobId))])
  }

  function OnCompleted(s: State, orderId: string): State {
    if orderId !in s.active then s else s.(active := s.active[orderId := s.active[orderId].(phase := Verifying)])
  }

  datatype Completed = Completed(orderId: string, jobId: string, nodeId: string, receipt: Receipt, coordinator: string)

  function JobIdOf(h: Hashes, orderId: string): string {
    "job-" + h.jobHash(orderId)
  }

  /** The checks before a result is shown. */
  predicate MayShow(h: Hashes, s: State, c: Completed, nodeKey: PublicKey, text: string) {
    && c.orderId in s.active
    && var a := s.active[c.orderId];
    && (a.accepted.Some? ==> a.accepted.value.jobId == c.jobId && a.accepted.value.coordinator == c.coordinator)
    && c.jobId == JobIdOf(h, c.orderId)
    && c.receipt.body.modelHash == a.body.model
    && ReceiptVerifies(c.receipt, c.jobId, c.nodeId, nodeKey)
    && h.text(text) == c.receipt.body.outputDigest
  }

  function Finish(h: Hashes, s: State, c: Completed, nodeKey: PublicKey, text: string): State {
    if MayShow(h, s, c, nodeKey, text) then s.(active := s.active[c.orderId := s.active[c.orderId].(phase := Ready)]) else s
  }

  /** The orders in front of the first that fails to be published. */
  function Published(publishes: Body -> bool, waiting: seq<Body>): seq<Body> {
    if waiting == [] || !publishes(waiting[0]) then [] else [waiting[0]] + Published(publishes, waiting[1..])
  }

  lemma {:induction false} PublishedIs(publishes: Body -> bool, waiting: seq<Body>, i: nat)
    requires i <= |waiting| && forall j :: 0 <= j < i ==> publishes(waiting[j])
    requires i == |waiting| || !publishes(waiting[i])
    ensures Published(publishes, waiting) == waiting[..i]
    decreases i
  {
    if i > 0 {
      PublishedIs(publishes, waiting[1..], i - 1);
      assert [waiting[0]] + waiting[1..][..i - 1] == waiting[..i];
    }
  }

  lemma FirstFailure(publishes: Body -> bool, waiting: seq<Body>, i: nat) returns (n: nat)
    requires i <= |waiting| && forall j :: 0 <= j < i ==> publishes(waiting[j])
    ensures n <= |waiting| && (forall j :: 0 <= j < n ==> publishes(waiting[j])) && (n == |waiting| || !publishes(waiting[n]))
    decreases |waiting| - i
  {
    if i == |waiting| || !publishes(waiting[i]) { n := i; } else { n := FirstFailure(publishes, waiting, i + 1); }
  }

  /** Since the queue is emptied, an order is neither published nor tried, and lost, exactly if one
      before it fails. */
  lemma DroppedExactly(publishes: Body -> bool, waiting: seq<Body>, i: nat)
    requires i < |waiting|
    ensures Published(publishes, waiting) <= waiting
    ensures i < |Published(publishes, waiting)| <==> forall j :: 0 <= j <= i ==> publishes(waiting[j])
    ensures i > |Published(publishes, waiting)| <==> exists j :: 0 <= j < i && !publishes(waiting[j])
  {
    var n := FirstFailure(publishes, waiting, 0);
    PublishedIs(publishes, waiting, n);
  }

  /** For instance of two orders of which the first cannot be published neither is, and neither is kept. */
  lemma TwoDropped(first: Body, second: Body)
    requires first != second
    ensures Published(b => b != first, [first, second]) == []
  {}

  class AcpServer {
    const h: Hashes
    var active: map<string, Active>
    var outbox: seq<Body>

    function Contents(): State
      reads this
    {
      State(active, outbox)
    }

    constructor (h: Hashes)
      ensures Contents() == NOTHING && this.h == h
    {
      this.h := h;
      active, outbox := map[], [];
    }

    /** Takes a user's request: first the gate, then the fee, then the order under a fresh nonce. */
    method Place(r: UserRequest, signature: Option<Signature>, nonce: string) returns (orderId: Option<string>)
      modifies this
      ensures orderId == if MaySubmit(h, r, signature) then Some(h.orderId(BodyOf(h, r, nonce))) else None
      ensures Contents() == Submit(h, old(Contents()), r, signature, nonce)
    {
      var key := h.fromHex(r.userPubkey);
      if key.None? || !Verifies(key.value, OfRequest(r), signature) {
        return None;
      }
      if r.fee == 0 {
        return None;
      }
      var body := BodyOf(h, r, nonce);
      var id := h.orderId(body);
      active := active[id := Active(body, None, Broadcast)];
      outbox := outbox + [body];
      return Some(id);
    }

    /** Publishes what is waiting, in order, up to the first failure. The queue is empty afterwards in
        either case: what comes behind a failed one is not kept for another attempt. */
    method PublishAll(publishes: Body -> bool) returns (published: seq<Body>, ok: bool)
      modifies this
      ensures published == Published(publishes, old(outbox))
      ensures ok <==> published == old(outbox)
      ensures Contents() == old(Contents()).(outbox := [])
    {
      var waiting := outbox;
      outbox := [];
      published := [];
      var i := 0;
      while i < |waiting|
        invariant 0 <= i <= |waiting| && published == waiting[..i]
        invariant forall j :: 0 <= j < i ==> publishes(waiting[j])
        invariant Contents() == old(Contents()).(outbox := [])
      {
        if !publishes(waiting[i]) {
          PublishedIs(publishes, waiting, i);
          return published, false;
        }
        published := published + [waiting[i]];
        i := i + 1;
      }
      PublishedIs(publishes, waiting, i);
      return published, true;
    }

    /** An acceptance arrives: the race is decided again between it and the winner so far. */
    method TakeAcceptance(acc: OrderAccepted) returns (r: Option<(string, Phase)>)
      modifies this
      ensures Contents() == OnAccepted(h, old(Contents()), acc)
      ensures r.Some? <==> acc.orderId in old(active) && !IsFrozen(old(active)[acc.orderId])
      ensures r.Some? ==> r.value == (acc.orderId, active[acc.orderId].phase)
    {
      if acc.orderId !in active {
        return None;
      }
      var state := active[acc.orderId];
      var candidates := (if state.accepted.Some? then [state.accepted.value] else []) + [acc];
      TwoInTheRace(h, state.accepted, acc);
      var winner := Winner(h, candidates);
      if winner.None? {
        return None;
      }
      var phase := Taken(winner.value.jobId);
      if IsFrozen(state) {
        return None;
      }
      active := active[acc.orderId := state.(accepted := winner, phase := phase)];
      return Some((acc.orderId, phase));
    }

    method TakeCompletion(orderId: string) returns (r: Option<(string, Phase)>)
      modifies this
      ensures Contents() == OnCompleted(old(Contents()), orderId)
      ensures r == if orderId in old(active) then Some((orderId, Verifying)) else None
    {
      if orderId !in active {
        return None;
      }
      active := active[orderId := active[orderId].(phase := Verifying)];
      return Some((orderId, Verifying));
    }

    method Show(c: Completed, nodeKey: PublicKey, text: string) returns (ok: bool)
      modifies this
      ensures ok == MayShow(h, old(Contents()), c, nodeKey, text)
      ensures Contents() == Finish(h, old(Contents()), c, nodeKey, text)
    {
      if c.orderId !in active {
        return false;
      }
      var state := active[c.orderId];
      if state.accepted.Some? {
        if state.accepted.value.jobId != c.jobId || state.accepted.value.coordinator != c.coordinator {
          return false;
        }
      }
      if c.jobId != JobIdOf(h, c.orderId) || c.receipt.body.modelHash != state.body.model {
        return false;
      }
      if !ReceiptVerifies(c.receipt, c.jobId, c.nodeId, nodeKey) {
        return false;
      }
      if h.text(text) != c.receipt.body.outputDigest {
        return false;
      }
      active := active[c.orderId := state.(phase := Ready)];
      return true;
    }
  }

  lemma TwoInTheRace(h: Hashes, prev: Option<OrderAccepted>, acc: OrderAccepted)
    ensures Winner(h, (if prev.Some? then [prev.value] else []) + [acc]) ==
            Some(if prev.None? || PairLess(RaceKey(h, acc), RaceKey(h, prev.value)) then acc else prev.value)
  {
    if prev.Some? {
      var cs := [prev.value] + [acc];
      assert cs[..1] == [prev.value] && cs[..1][..0] == [];
      assert Winner(h, cs[..1]) == Some(prev.value);
    } else {
      assert [] + [acc] == [acc] && [acc][..0] == [];
    }
  }

  // ---------------------------------------------------------------- whole runs

  datatype Event =
    | Submitted(request: UserRequest, signature: Option<Signature>, nonce: string)
    | Acceptance(acc: OrderAccepted)
    | Completion(orderId: string)
    | Finished(c: Completed, nodeKey: PublicKey, text: string)

  function Happen(h: Hashes, s: State, e: Event): State {
    match e
    case Submitted(r, signature, nonce) => Submit(h, s, r, signature, nonce)
    case Acceptance(acc) => OnAccepted(h, s, acc)
    case Completion(orderId) => OnCompleted(s, orderId)
    case Finished(c, nodeKey, text) => Finish(h, s, c, nodeKey, text)
  }

  function After(h: Hashes, events: seq<Event>): State {
    if events == [] then NOTHING else Happen(h, After(h, events[..|events| - 1]), events[|events| - 1])
  }

  predicate Submits(h: Hashes, e: Event, id: string) {
    e.Submitted? && MaySubmit(h, e.request, e.signature) && h.orderId(BodyOf(h, e.request, e.nonce)) == id
  }

  /** Whether an event shows that a result for the order is there. */
  predicate ShowsResult(h: Hashes, s: State, e: Event, id: string) {
    || (id in s.active && e == Completion(id))
    || (e.Finished? && e.c.orderId == id && MayShow(h, s, e.c, e.nodeKey, e.text))
  }

  /** Whether a result for the order has arrived or was shown since it was placed. */
  predicate ResultSeen(h: Hashes, events: seq<Event>, id: string) {
    if events == [] then false else
      var before, e := events[..|events| - 1], events[|events| - 1];
      if Submits(h, e, id) then false
      else ResultSeen(h, before, id) || ShowsResult(h, After(h, before), e, id)
  }

  /** The acceptances for the order that came in since it was placed and before any result. */
  function InRace(h: Hashes, events: seq<Event>, id: string): seq<OrderAccepted> {
    if events == [] then [] else
      var before, e := events[..|events| - 1], events[|events| - 1];
      if Submits(h, e, id) then []
      else if e.Acceptance? && e.acc.orderId == id && id in After(h, before).active && !ResultSeen(h, before, id)
      then InRace(h, before, id) + [e.acc]
      else InRace(h, before, id)
  }

  /** The phase follows from the winner, until a result is seen. */
  ghost predicate InPhase(h: Hashes, a: Active, race: seq<OrderAccepted>, seen: bool) {
    && a.accepted == Winner(h, race)
    && (seen <==> IsFrozen(a))
    && (!seen ==> a.phase == if race == [] then Broadcast else Taken(a.accepted.value.jobId))
  }

  lemma WinnerSnoc(h: Hashes, race: seq<OrderAccepted>, acc: OrderAccepted)
    ensures Winner(h, race + [acc]) ==
            match Winner(h, race)
            case None => Some(acc)
            case Some(w) => if PairLess(RaceKey(h, acc), RaceKey(h, w)) then Some(acc) else Some(w)
  {
    assert (race + [acc])[..|race|] == race;
  }

  /** An acceptance: it joins the race if it is for this order and no result has been seen. */
  lemma AcceptanceStep(h: Hashes, s: State, acc: OrderAccepted, id: string, race: seq<OrderAccepted>, seen: bool)
    requires id in s.active && InPhase(h, s.active[id], race, seen)
    ensures id in OnAccepted(h, s, acc).active
    ensures InPhase(h, OnAccepted(h, s, acc).active[id], if acc.orderId == id && !seen then race + [acc] else race, seen)
  {
    WinnerIsLeast(h, race);
    WinnerSnoc(h, race, acc);
  }

  /** Any other event leaves the race as it is. */
  lemma OtherStep(h: Hashes, s: State, e: Event, id: string, race: seq<OrderAccepted>, seen: bool)
    requires id in s.active && InPhase(h, s.active[id], race, seen)
    requires !e.Acceptance? && !Submits(h, e, id)
    ensures id in Happen(h, s, e).active
    ensures InPhase(h, Happen(h, s, e).active[id], race, seen || ShowsResult(h, s, e, id))
  {
    match e
    case Submitted(r, signature, nonce) =>
    case Completion(orderId) =>
    case Finished(c, nodeKey, text) =>
  }

  /** Placing the order starts its race; no other event makes it appear. */
  lemma FirstStep(h: Hashes, s: State, e: Event, id: string)
    requires id in Happen(h, s, e).active && (id !in s.active || Submits(h, e, id))
    ensures Submits(h, e, id) && InPhase(h, Happen(h, s, e).active[id], [], false)
  {
    match e
    case Submitted(r, signature, nonce) =>
    case Acceptance(acc) =>
    case Completion(orderId) =>
    case Finished(c, nodeKey, text) =>
  }

  /** Online equals batch: whatever the order of events, the acceptance stored for an order is the
      winner of the batch rule over all acceptances that came in for it before its result. */
  lemma {:induction false} OnlineIsBatch(h: Hashes, events: seq<Event>, id: string)
    requires id in After(h, events).active
    ensures InPhase(h, After(h, events).active[id], InRace(h, events, id), ResultSeen(h, events, id))
  {
    var n := |events| - 1;
    var before, e := events[..n], events[n];
    var s := After(h, before);
    if id !in s.active || Submits(h, e, id) {
      FirstStep(h, s, e, id);
    } else {
      OnlineIsBatch(h, before, id);
      if e.Acceptance? {
        AcceptanceStep(h, s, e.acc, id, InRace(h, before, id), ResultSeen(h, before, id));
      } else {
        OtherStep(h, s, e, id, InRace(h, before, id), ResultSeen(h, before, id));
      }
    }
  }

  /** A step on an order whose result has been seen. */
  lemma FrozenStep(h: Hashes, s: State, e: Event, id: string)
    requires id in s.active && IsFrozen(s.active[id]) && !Submits(h, e, id)
    ensures id in Happen(h, s, e).active
    ensures Happen(h, s, e).active[id] == s.active[id].(phase := Happen(h, s, e).active[id].phase)
    ensures IsFrozen(Happen(h, s, e).active[id])
  {
    match e
    case Submitted(r, signature, nonce) =>
    case Acceptance(acc) =>
    case Completion(orderId) =>
    case Finished(c, nodeKey, text) =>
  }

  /** From the moment a result is seen, and unless the very same order is placed again, the winner is
      fixed and the phase never goes back to waiting or taken. */
  lemma {:induction false} RaceStaysDecided(h: Hashes, events: seq<Event>, i: nat, id: string)
    requires i <= |events| && id in After(h, events[..i]).active && IsFrozen(After(h, events[..i]).active[id])
    requires forall j :: i <= j < |events| ==> !Submits(h, events[j], id)
    ensures id in After(h, events).active && IsFrozen(After(h, events).active[id])
    ensures After(h, events).active[id].accepted == After(h, events[..i]).active[id].accepted
    ensures After(h, events).active[id].body == After(h, events[..i]).active[id].body
    decreases |events|
  {
    if i < |events| {
      var n := |events| - 1;
      assert events[..n][..i] == events[..i];
      RaceStaysDecided(h, events[..n], i, id);
      FrozenStep(h, After(h, events[..n]), events[n], id);
    } else {
      assert events[..i] == events;
    }
  }

  /** Placing an order never disturbs another one: with a fresh nonce and an injective digest its name
      is new. */
  ghost predicate NamedByContent(h: Hashes, s: State) {
    forall id :: id in s.active ==> id == h.orderId(s.active[id].body)
  }

  lemma {:induction false} NamesAreContents(h: Hashes, events: seq<Event>)
    ensures NamedByContent(h, After(h, events))
  {
    if events != [] { NamesAreContents(h, events[..|events| - 1]); }
  }

  lemma FreshNonceFreshName(h: Hashes, events: seq<Event>, body: Body)
    requires forall a, b :: h.orderId(a) == h.orderId(b) ==> a == b
    requires forall id :: id in After(h, events).active ==> After(h, events).active[id].body.nonce != body.nonce
    ensures h.orderId(body) !in After(h, events).active
  {
    NamesAreContents(h, events);
  }

  /** The i-th event is this order's request, signed by its user's key. */
  ghost predicate IsRequestOf(h: Hashes, events: seq<Event>, i: nat, body: Body, key: PublicKey) {
    && i < |events| && events[i].Submitted?
    && var (r, nonce) := (events[i].request, events[i].nonce);
    && body == Body(r.model, h.payload(nonce, r.content), r.fee, r.timeout, r.userPubkey, nonce)
    && h.fromHex(r.userPubkey) == Some(key) && r.fee > 0
    && events[i].signature == Some(Signature(key, OfRequest(r)))
  }

  /** The request the last event brings in. */
  lemma LastRequest(h: Hashes, events: seq<Event>, e: Event)
    ensures e.Submitted? && MaySubmit(h, e.request, e.signature) <==>
              exists body, key :: IsRequestOf(h, events + [e], |events|, body, key)
    ensures e.Submitted? && MaySubmit(h, e.request, e.signature) ==>
              exists key :: IsRequestOf(h, events + [e], |events|, BodyOf(h, e.request, e.nonce), key)
  {
    if e.Submitted? && MaySubmit(h, e.request, e.signature) {
      assert IsRequestOf(h, events + [e], |events|, BodyOf(h, e.request, e.nonce), h.fromHex(e.request.userPubkey).value);
    }
  }

  ghost predicate BringsIn(h: Hashes, events: seq<Event>, i: nat, body: Body) {
    exists key :: IsRequestOf(h, events, i, body, key)
  }

  lemma BroughtInBefore(h: Hashes, events: seq<Event>, e: Event, i: nat, body: Body)
    requires i < |events|
    ensures BringsIn(h, events, i, body) <==> BringsIn(h, events + [e], i, body)
  {
    assert (events + [e])[i] == events[i];
    if key :| IsRequestOf(h, events, i, body, key) { assert IsRequestOf(h, events + [e], i, body, key); }
    if key :| IsRequestOf(h, events + [e], i, body, key) { assert IsRequestOf(h, events, i, body, key); }
  }

  /** `idx` holds, ascending, the events that brought in an authorised request, and `queue` what each
      ordered. */
  ghost predicate AreRequests(h: Hashes, events: seq<Event>, queue: seq<Body>, idx: seq<nat>) {
    && |idx| == |queue|
    && (forall k, l :: 0 <= k < l < |idx| ==> idx[k] < idx[l])
    && (forall k :: 0 <= k < |idx| ==> idx[k] < |events| && BringsIn(h, events, idx[k], queue[k]))
    && (forall i: nat, body :: BringsIn(h, events, i, body) ==> i in idx)
  }

  /** Until it is published every authorised request is queued once, in order, and nothing else is. */
  lemma {:induction false} QueueExactly(h: Hashes, events: seq<Event>) returns (idx: seq<nat>)
    ensures AreRequests(h, events, After(h, events).outbox, idx)
  {
    if events == [] {
      idx := [];
    } else {
      var n := |events| - 1;
      idx := QueueExactly(h, events[..n]);
      assert events[..n] + [events[n]] == events;
      QueueStep(h, events[..n], events[n], After(h, events[..n]).outbox, idx);
      var e := events[n];
      if e.Submitted? && MaySubmit(h, e.request, e.signature) { idx := idx + [n]; }
    }
  }

  lemma QueueStep(h: Hashes, events: seq<Event>, e: Event, queue: seq<Body>, idx: seq<nat>)
    requires AreRequests(h, events, queue, idx)
    ensures if e.Submitted? && MaySubmit(h, e.request, e.signature)
            then AreRequests(h, events + [e], queue + [BodyOf(h, e.request, e.nonce)], idx + [|events|])
            else AreRequests(h, events + [e], queue, idx)
  {
    LastRequest(h, events, e);
    forall i: nat, body | i < |events|
      ensures BringsIn(h, events, i, body) <==> BringsIn(h, events + [e], i, body)
    { BroughtInBefore(h, events, e, i, body); }
    if e.Submitted? && MaySubmit(h, e.request, e.signature) {
      var idx', queue' := idx + [|events|], queue + [BodyOf(h, e.request, e.nonce)];
      assert BringsIn(h, events + [e], |events|, BodyOf(h, e.request, e.nonce));
      forall k | 0 <= k < |idx'|
        ensures idx'[k] < |events + [e]| && BringsIn(h, events + [e], idx'[k], queue'[k])
      { if k < |idx| { assert idx'[k] == idx[k] && queue'[k] == queue[k]; } }
      assert forall i :: i in idx ==> i in idx';
      assert idx'[|idx|] == |events|;
    }
  }

  /** Nothing is ordered that its user did not sign: every order stems from a request whose model, fee,
      timeout and content the key it names has signed. */
  lemma {:induction false} OrdersAreAuthorised(h: Hashes, events: seq<Event>, id: string)
    requires id in After(h, events).active
    ensures exists i: nat, key :: IsRequestOf(h, events, i, After(h, events).active[id].body, key)
  {
    var n := |events| - 1;
    var before, e := events[..n], events[n];
    if Submits(h, e, id) {
      assert IsRequestOf(h, events, n, After(h, events).active[id].body, h.fromHex(e.request.userPubkey).value);
    } else {
      BodyStays(h, After(h, before), e, id);
      OrdersAreAuthorised(h, before, id);
      var i: nat, key :| IsRequestOf(h, before, i, After(h, before).active[id].body, key);
      assert IsRequestOf(h, events, i, After(h, events).active[id].body, key);
    }
  }

  lemma BodyStays(h: Hashes, s: State, e: Event, id: string)
    requires id in Happen(h, s, e).active && !Submits(h, e, id)
    ensures id in s.active && Happen(h, s, e).active[id].body == s.active[id].body
  {
    match e
    case Submitted(r, signature, nonce) =>
    case Acceptance(acc) =>
    case Completion(orderId) =>
    case Finished(c, nodeKey, text) =>
  }

  /** The running race has no filter: an acceptance takes over exactly if no result is there and it is
      the first or has the smaller rank, whether or not anybody has signed it. */
  lemma TakesOverExactly(h: Hashes, events: seq<Event>, acc: OrderAccepted)
    requires acc.orderId in After(h, events).active
    ensures var a := After(h, events).active[acc.orderId];
            var b := After(h, events + [Acceptance(acc)]).active;
            && acc.orderId in b
            && (b[acc.orderId].accepted != a.accepted <==>
                  !IsFrozen(a) && (a.accepted.None? || PairLess(RaceKey(h, acc), RaceKey(h, a.accepted.value))))
  {
    assert (events + [Acceptance(acc)])[..|events|] == events;
    LessIrreflexive(RaceKey(h, acc).0);
    LessIrreflexive(RaceKey(h, acc).1);
  }

  lemma OneCandidate(h: Hashes, a: OrderAccepted)
    ensures Winner(h, [a]) == Some(a)
  {
    assert [a][..0] == [];
  }

  lemma OnlyGoodIsAdmitted(h: Hashes, registered: set<string>, good: OrderAccepted, bad: OrderAccepted)
    requires IsAdmitted(h, registered, good.orderId, good) && !IsAdmitted(h, registered, good.orderId, bad)
    ensures Admitted(h, registered, good.orderId, [good, bad]) == [good]
  {
    assert [good, bad][..1] == [good] && [good][..0] == [];
    assert Admitted(h, registered, good.orderId, [good]) == [good];
  }

  /** For instance a registered coordinator has taken an order and signed; an acceptance that nobody has
      signed, of a lower rank, takes the order away from it. */
  lemma OutsiderWins(h: Hashes, events: seq<Event>, registered: set<string>, good: OrderAccepted, bad: OrderAccepted)
    requires IsAdmitted(h, registered, good.orderId, good) && bad.orderId == good.orderId && bad.signature.None?
    requires good.orderId in After(h, events).active && After(h, events).active[good.orderId].phase == Broadcast
    requires After(h, events).active[good.orderId].accepted.None? && PairLess(RaceKey(h, bad), RaceKey(h, good))
    ensures WinnerRegistered(h, registered, good.orderId, [good, bad]) == Some(good)
    ensures var s := After(h, events + [Acceptance(good)] + [Acceptance(bad)]);
            good.orderId in s.active && s.active[good.orderId].accepted == Some(bad)
  {
    OnlyGoodIsAdmitted(h, registered, good, bad);
    OneCandidate(h, good);
    AfterSnoc(h, events, Acceptance(good));
    AfterSnoc(h, events + [Acceptance(good)], Acceptance(bad));
  }

  /** There are such acceptances, and an order for them to take. */
  lemma OutsiderExists() returns (h: Hashes, events: seq<Event>, registered: set<string>, good: OrderAccepted, bad: OrderAccepted)
    ensures IsAdmitted(h, registered, good.orderId, good) && bad.orderId == good.orderId && bad.signature.None?
    ensures good.orderId in After(h, events).active && After(h, events).active[good.orderId].phase == Broadcast
    ensures After(h, events).active[good.orderId].accepted.None? && PairLess(RaceKey(h, bad), RaceKey(h, good))
  {
    h := Hashes((id, coordinator) => if coordinator == "good" then "1" else "0", b => "order", (n, content) => "", id => "", t => "",
                (s: string) => Some(PublicKey(s)));
    var r := UserRequest("", "", "", 1, 1, "user");
    events := [Submitted(r, Some(Signature(PublicKey("user"), OfRequest(r))), "")];
    assert events == [] + events;
    AfterSnoc(h, [], events[0]);
    registered := {"good"};
    good := OrderAccepted("order", "job", "good", "", 0, 0, None);
    good := good.(signature := Some(Signature(PublicKey("good"), AcceptanceDigest(good))));
    bad := OrderAccepted("order", "job", "bad", "", 0, 0, None);
    assert "good"[0] != "bad"[0] && "0"[0] < "1"[0];
  }

  // ---------------------------------------------------------------- what is shown

  /** A result is shown only if the node's key signed a receipt for the job of this very order, for the
      model that was ordered, and for this very text, and the coordinator is the one that won. */
  lemma ShownIsSigned(h: Hashes, events: seq<Event>, c: Completed, nodeKey: PublicKey, text: string)
    requires MayShow(h, After(h, events), c, nodeKey, text)
    ensures var order := After(h, events).active[c.orderId].body;
            exists receipt: ReceiptBody ::
              && c.receipt.signature == Some(Signature(nodeKey, OfReceipt(receipt)))
              && receipt.jobId == JobIdOf(h, h.orderId(order)) && receipt.nodeId == c.nodeId
              && receipt.modelHash == order.model && receipt.outputDigest == h.text(text)
    ensures InRace(h, events, c.orderId) != [] ==>
              Winner(h, InRace(h, events, c.orderId)).Some? &&
              Winner(h, InRace(h, events, c.orderId)).value.coordinator == c.coordinator
  {
    NamesAreContents(h, events);
    OnlineIsBatch(h, events, c.orderId);
    WinnerIsLeast(h, InRace(h, events, c.orderId));
    assert c.receipt.signature == Some(Signature(nodeKey, OfReceipt(c.receipt.body)));
  }

  /** Field by field: a text is shown exactly for an active order, with a receipt of this node's key for the
      job name the client derives, the model that was ordered and the digest of this very text; and if
      somebody has won, the winner is the coordinator named and used that job name. */
  lemma ShownExactly(h: Hashes, s: State, c: Completed, nodeKey: PublicKey, text: string)
    ensures MayShow(h, s, c, nodeKey, text) <==>
              && c.orderId in s.active
              && c.jobId == "job-" + h.jobHash(c.orderId)
              && (exists rest :: c.receipt == NodeRegistry.SignedReceipt(nodeKey,
                    ReceiptBody(c.jobId, c.nodeId, s.active[c.orderId].body.model, h.text(text), nodeKey, rest)))
              && match s.active[c.orderId].accepted
                 case None => true
                 case Some(w) => w.jobId == c.jobId && w.coordinator == c.coordinator
  {
    ReceiptExactly(c.receipt, c.jobId, c.nodeId, nodeKey);
    if MayShow(h, s, c, nodeKey, text) {
      var body := c.receipt.body;
      assert c.receipt == NodeRegistry.SignedReceipt(nodeKey,
        ReceiptBody(c.jobId, c.nodeId, s.active[c.orderId].body.model, h.text(text), nodeKey, body.rest));
    }
  }

  /** The i-th event shows the order's text, or brings its result. */
  ghost predicate ShowsAt(h: Hashes, events: seq<Event>, i: nat, id: string) {
    && i < |events| && events[i].Finished? && events[i].c.orderId == id
    && MayShow(h, After(h, events[..i]), events[i].c, events[i].nodeKey, events[i].text)
  }

  ghost predicate CompletesAt(h: Hashes, events: seq<Event>, i: nat, id: string) {
    i < |events| && events[i] == Completion(id) && id in After(h, events[..i]).active
  }

  /** Nothing behind the i-th event completes the order, shows it, or places it anew. */
  ghost predicate LastAt(h: Hashes, events: seq<Event>, i: nat, id: string) {
    forall j: nat :: i < j < |events| ==> !CompletesAt(h, events, j, id) && !ShowsAt(h, events, j, id) && !Submits(h, events[j], id)
  }

  lemma SameBefore(h: Hashes, events: seq<Event>, i: nat, id: string)
    requires i < |events| - 1
    ensures ShowsAt(h, events[..|events| - 1], i, id) <==> ShowsAt(h, events, i, id)
    ensures CompletesAt(h, events[..|events| - 1], i, id) <==> CompletesAt(h, events, i, id)
  {
    assert events[..|events| - 1][..i] == events[..i];
  }

  lemma LastBefore(h: Hashes, events: seq<Event>, i: nat, id: string)
    requires i < |events| - 1
    ensures var n := |events| - 1;
            LastAt(h, events, i, id) <==>
              LastAt(h, events[..n], i, id) && !CompletesAt(h, events, n, id) && !ShowsAt(h, events, n, id) && !Submits(h, events[n], id)
  {
    var n := |events| - 1;
    forall j: nat | j < n
      ensures ShowsAt(h, events[..n], j, id) <==> ShowsAt(h, events, j, id)
      ensures CompletesAt(h, events[..n], j, id) <==> CompletesAt(h, events, j, id)
    { SameBefore(h, events, j, id); }
  }

  ghost predicate WasShown(h: Hashes, events: seq<Event>, id: string) {
    exists i: nat :: ShowsAt(h, events, i, id) && LastAt(h, events, i, id)
  }

  ghost predicate WasCompleted(h: Hashes, events: seq<Event>, id: string) {
    exists i: nat :: CompletesAt(h, events, i, id) && LastAt(h, events, i, id)
  }

  lemma WasShownStep(h: Hashes, events: seq<Event>, id: string)
    requires events != []
    ensures var n := |events| - 1;
            WasShown(h, events, id) <==>
              || ShowsAt(h, events, n, id)
              || (WasShown(h, events[..n], id) && !CompletesAt(h, events, n, id) && !Submits(h, events[n], id))
  {
    var n := |events| - 1;
    forall i: nat | i < n
      ensures ShowsAt(h, events[..n], i, id) <==> ShowsAt(h, events, i, id)
      ensures LastAt(h, events, i, id) <==>
              LastAt(h, events[..n], i, id) && !CompletesAt(h, events, n, id) && !ShowsAt(h, events, n, id) && !Submits(h, events[n], id)
    {
      SameBefore(h, events, i, id);
      LastBefore(h, events, i, id);
    }
    if ShowsAt(h, events, n, id) { assert LastAt(h, events, n, id); }
  }

  lemma WasCompletedStep(h: Hashes, events: seq<Event>, id: string)
    requires events != []
    ensures var n := |events| - 1;
            WasCompleted(h, events, id) <==>
              || CompletesAt(h, events, n, id)
              || (WasCompleted(h, events[..n], id) && !ShowsAt(h, events, n, id) && !Submits(h, events[n], id))
  {
    var n := |events| - 1;
    forall i: nat | i < n
      ensures CompletesAt(h, events[..n], i, id) <==> CompletesAt(h, events, i, id)
      ensures LastAt(h, events, i, id) <==>
              LastAt(h, events[..n], i, id) && !CompletesAt(h, events, n, id) && !ShowsAt(h, events, n, id) && !Submits(h, events[n], id)
    {
      SameBefore(h, events, i, id);
      LastBefore(h, events, i, id);
    }
    if CompletesAt(h, events, n, id) { assert LastAt(h, events, n, id); }
  }

  /** An order is ready exactly if the last that happened to it is that its text was shown, and in
      verification exactly if the last is that its result came in. */
  lemma {:induction false} ReadyExactly(h: Hashes, events: seq<Event>, id: string)
    ensures id in After(h, events).active && After(h, events).active[id].phase == Ready <==> WasShown(h, events, id)
    ensures id in After(h, events).active && After(h, events).active[id].phase == Verifying <==> WasCompleted(h, events, id)
  {
    if events != [] {
      var n := |events| - 1;
      ReadyExactly(h, events[..n], id);
      WasShownStep(h, events, id);
      WasCompletedStep(h, events, id);
      PhaseStep(h, After(h, events[..n]), events[n], id);
    }
  }

  ghost predicate HasPhase(s: State, id: string, phase: Phase) {
    id in s.active && s.active[id].phase == phase
  }

  lemma PhaseStep(h: Hashes, s: State, e: Event, id: string)
    ensures var shows := e.Finished? && e.c.orderId == id && MayShow(h, s, e.c, e.nodeKey, e.text);
            var completes := e == Completion(id) && id in s.active;
            && (HasPhase(Happen(h, s, e), id, Ready) <==> shows || (HasPhase(s, id, Ready) && !completes && !Submits(h, e, id)))
            && (HasPhase(Happen(h, s, e), id, Verifying) <==> completes || (HasPhase(s, id, Verifying) && !shows && !Submits(h, e, id)))
  {
    match e
    case Submitted(r, signature, nonce) =>
    case Acceptance(acc) =>
    case Completion(orderId) =>
    case Finished(c, nodeKey, text) =>
  }

  /** An order that is active can be shown, for any node's key and any text, exactly if nobody has won
      its race or the winner uses the job name the client derives. */
  lemma ShowableExactly(h: Hashes, s: State, id: string, nodeKey: PublicKey, text: string)
    requires id in s.active
    ensures (exists c: Completed :: c.orderId == id && MayShow(h, s, c, nodeKey, text)) <==>
            s.active[id].accepted.None? || s.active[id].accepted.value.jobId == JobIdOf(h, id)
  {
    var a := s.active[id];
    var body := ReceiptBody(JobIdOf(h, id), "", a.body.model, h.text(text), nodeKey, "");
    var receipt := Receipt(body, Some(Signature(nodeKey, OfReceipt(body))));
    var c := Completed(id, JobIdOf(h, id), "", receipt, if a.accepted.Some? then a.accepted.value.coordinator else "");
    assert ReceiptVerifies(receipt, c.jobId, c.nodeId, nodeKey);
  }

  /** The two sides disagree on job names: the coordinator uses the first 16 characters of the order's
      name, the client a digest of 64. */
  lemma JobNamesDiffer(h: Hashes, id: string)
    requires |h.jobHash(id)| == 64
    ensures Coordinator.JobName(id) != JobIdOf(h, id)
  {
    assert |Coordinator.JobName(id)| <= 20;
    assert |JobIdOf(h, id)| == 68;
  }

  /** The order as the client publishes it, without an authorisation. */
  function AsPublished(h: Hashes, body: Body): JobOrder {
    JobOrder(h.orderId(body), body.model, body.payload, body.fee, body.timeout, body.userPubkey, body.nonce, None)
  }

  /** What has to come together: a request its user signed, and the order made of it, with an
      authorisation added, that a coordinator accepts. */
  ghost predicate TakenUp(h: Hashes, r: UserRequest, signature: Option<Signature>, nonce: string,
                          env: Coordinator.Env, cs: Coordinator.State, o: JobOrder, now: nat) {
    && MaySubmit(h, r, signature) && o == AsPublished(h, BodyOf(h, r, nonce)).(auth := o.auth)
    && |h.jobHash(o.orderId)| == 64
    && Coordinator.Process(env, cs, o, now).1.Accepted?
  }

  /** Such an order is lost if that coordinator wins its race: placed, taken and completed, there is no
      completion, key or text with which it is ever shown. */
  lemma OrderIsLost(h: Hashes, r: UserRequest, signature: Option<Signature>, nonce: string,
                    env: Coordinator.Env, cs: Coordinator.State, o: JobOrder, now: nat)
    requires TakenUp(h, r, signature, nonce, env, cs, o, now)
    ensures var a := Coordinator.Process(env, cs, o, now).1.acceptance;
            var s := After(h, [Submitted(r, signature, nonce)] + [Acceptance(a)] + [Completion(o.orderId)]);
            && o.orderId in s.active && s.active[o.orderId].phase == Verifying
            && forall c: Completed, nodeKey, text :: c.orderId == o.orderId ==> !MayShow(h, s, c, nodeKey, text)
  {
    var a := Coordinator.Process(env, cs, o, now).1.acceptance;
    var e1 := [Submitted(r, signature, nonce)];
    var e2 := e1 + [Acceptance(a)];
    AfterSnoc(h, [], e1[0]);
    assert [] + e1 == e1;
    AfterSnoc(h, e1, Acceptance(a));
    AfterSnoc(h, e2, Completion(o.orderId));
    var s := After(h, e2 + [Completion(o.orderId)]);
    JobNamesDiffer(h, o.orderId);
    forall c: Completed, nodeKey, text | c.orderId == o.orderId
      ensures !MayShow(h, s, c, nodeKey, text)
    { if MayShow(h, s, c, nodeKey, text) { ShowableExactly(h, s, o.orderId, nodeKey, text); } }
  }

  /** And such orders exist. */
  lemma LostOrderExists() returns (h: Hashes, r: UserRequest, signature: Option<Signature>, env: Coordinator.Env, cs: Coordinator.State, o: JobOrder)
    ensures TakenUp(h, r, signature, o.nonce, env, cs, o, 0)
  {
    var m, client, result;
    env, m, client, o, result := CoordinatorRuns.HonestRunExists();
    CoordinatorRuns.HonestOrderIsAccepted(env, m, client, o, 0, result);
    cs := Coordinator.State(NodeRegistry.Admit(NodeRegistry.EMPTY, m), {});
    GateMeaning(env.fromHex, o, 0);
    var (name, payload, digest) := (o.orderId, o.payloadDigest, seq(64, _ => '0'));
    h := Hashes((a, b) => "", b => name, (n, content) => payload, id => digest, t => "", env.fromHex);
    r := UserRequest("", "", o.modelHash, o.fee, o.timeout, o.clientPubkey);
    signature := Some(Signature(env.fromHex(o.clientPubkey).value, OfRequest(r)));
  }

  lemma AfterSnoc(h: Hashes, events: seq<Event>, e: Event)
    ensures After(h, events + [e]) == Happen(h, After(h, events), e)
  {
    assert (events + [e])[..|events|] == events;
  }

  /** As it is published no coordinator takes it; it passes the gate exactly with an authorisation for
      the same terms added, in time and signed by the user's key. */
  lemma PublishedNeedsAuthorisation(h: Hashes, body: Body, auth: Option<Auth>, now: nat)
    ensures CheckAuth(h.fromHex, AsPublished(h, body), now).None?
    ensures CheckAuth(h.fromHex, AsPublished(h, body).(auth := auth), now).Some? <==>
              && auth.Some? && auth.value.body.version == FORMAT_V
              && var a := auth.value.body;
              && a == AuthBody(a.version, body.payload, body.model, body.fee, body.timeout, body.nonce, a.validUntil, body.userPubkey)
              && h.fromHex(body.userPubkey).Some?
              && auth.value.signature == Some(Signature(h.fromHex(body.userPubkey).value, OfAuth(a)))
              && InTime(a, now)
  {}
}
