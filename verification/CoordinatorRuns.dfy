/** Runs of the coordinator from the beginning. */
module CoordinatorRuns {
  import opened Basics
  import opened Lex
  import opened Protocol
  import opened NodeRegistry
  import opened Coordinator

  // ---------------------------------------------------------------- pieces of runs

  /** A node signs its registration and sends it. */
  function Joins(m: RegisterMsg): seq<Event> {
    [Sign(m.pubkey, RegistrationDigest(m))] + [Registration(m)]
  }

  /** A client signs an authorisation and its order is sent. */
  function Orders(client: PublicKey, o: JobOrder, now: nat): seq<Event>
    requires o.auth.Some?
  {
    [Sign(client, OfAuth(o.auth.value.body))] + [Order(o, now)]
  }

  lemma FollowTwo(env: Env, events: seq<Event>, a: Event, b: Event)
    ensures Follow(env, events + ([a] + [b])) == Happen(env, Happen(env, Follow(env, events), a), b)
  {
    assert events + ([a] + [b]) == (events + [a]) + [b];
    FollowSnoc(env, events, a);
    FollowSnoc(env, events + [a], b);
  }

  /** Ready to join: signed, attested, declaring the model with enough context. */
  ghost predicate Joinable(m: RegisterMsg, model: string) {
    && m.protocol == PROTOCOL_VERSION && m.voucher.None?
    && m.signature == Some(Signature(m.pubkey, RegistrationDigest(m)))
    && m.attested.Some? && m.declared.modelHash == Some(model) && FitsContext(m.declared, 512)
  }

  lemma JoinsLeadsTo(env: Env, events: seq<Event>, m: RegisterMsg, model: string)
    requires Joinable(m, model) && env.operator.None? && m.nodeId !in Follow(env, events).state.registry.nodes
    ensures var s := Follow(env, events).state;
            Follow(env, events + Joins(m)).state == s.(registry := Admit(s.registry, m))
  {
    FollowTwo(env, events, Sign(m.pubkey, RegistrationDigest(m)), Registration(m));
  }

  /** An order with an authorisation of this client that passes the gate. */
  ghost predicate Orderable(env: Env, client: PublicKey, o: JobOrder, now: nat) {
    && o.auth.Some? && o.auth.value.signature == Some(Signature(client, OfAuth(o.auth.value.body)))
    && CheckAuth(env.fromHex, o, now) == Some(OfAuth(o.auth.value.body))
  }

  lemma OrdersLeadsTo(env: Env, events: seq<Event>, client: PublicKey, o: JobOrder, now: nat)
    requires Orderable(env, client, o, now)
    ensures Follow(env, events + Orders(client, o, now)).state == Process(env, Follow(env, events).state, o, now).0
  {
    FollowTwo(env, events, Sign(client, OfAuth(o.auth.value.body)), Order(o, now));
  }

  // ---------------------------------------------------------------- an honest node is degraded

  /** A node registers, a client's order goes to it, and the node signs its receipt and its result. */
  function HonestRun(m: RegisterMsg, client: PublicKey, o: JobOrder, now: nat, r: JobResult): seq<Event>
    requires o.auth.Some? && r.receipt.Some?
  {
    Joins(m) + Orders(client, o, now) + ([Sign(m.pubkey, OfReceipt(r.receipt.value.body))] + [Sign(m.pubkey, ResultDigest(r))])
  }

  /** The only node is drawn. */
  lemma OnlyNodeIsDrawn(env: Env, m: RegisterMsg, o: JobOrder, now: nat)
    requires Joinable(m, o.modelHash)
    ensures Draw(env, Admit(EMPTY, m), o, now) == Some((m.nodeId, 512))
  {
    var v := Admit(EMPTY, m);
    assert Candidates(v, o.modelHash, 512, now) == {m.nodeId};
    PickIs(env.hashes, v, o.modelHash, 512, JobName(o.orderId), now, m.nodeId);
  }

  /** What makes up such a run. */
  ghost predicate Honest(env: Env, m: RegisterMsg, client: PublicKey, o: JobOrder, now: nat, r: JobResult) {
    && Joinable(m, o.modelHash) && env.operator.None? && Orderable(env, client, o, now)
    && r.jobId == JobName(o.orderId) && r.nodeId == m.nodeId
    && r.signature == Some(Signature(m.pubkey, ResultDigest(r)))
    && GoodContent(m.pubkey, ResultDigest(r)) && ReceiptSigned(m.pubkey, r)
  }

  /** The first node and the first order. */
  lemma FirstOrderLeadsTo(env: Env, m: RegisterMsg, client: PublicKey, o: JobOrder, now: nat)
    requires Joinable(m, o.modelHash) && env.operator.None? && Orderable(env, client, o, now)
    ensures Follow(env, Joins(m) + Orders(client, o, now)).state ==
            State(Assign(Admit(EMPTY, m), JobName(o.orderId), m.nodeId), {OfAuth(o.auth.value.body)})
  {
    assert [] + Joins(m) == Joins(m);
    JoinsLeadsTo(env, [], m, o.modelHash);
    OrdersLeadsTo(env, Joins(m), client, o, now);
    OnlyNodeIsDrawn(env, m, o, now);
  }

  lemma HonestRunLeadsTo(env: Env, m: RegisterMsg, client: PublicKey, o: JobOrder, now: nat, r: JobResult)
    requires Honest(env, m, client, o, now, r)
    ensures var w := Follow(env, HonestRun(m, client, o, now, r));
            && w.state.registry == Assign(Admit(EMPTY, m), r.jobId, m.nodeId)
            && Made(w.signed, r.signature) && Made(w.signed, r.receipt.value.signature)
  {
    FirstOrderLeadsTo(env, m, client, o, now);
    FollowTwo(env, Joins(m) + Orders(client, o, now), Sign(m.pubkey, OfReceipt(r.receipt.value.body)), Sign(m.pubkey, ResultDigest(r)));
  }

  lemma HonestRunSignsOnlyGood(m: RegisterMsg, client: PublicKey, o: JobOrder, now: nat, r: JobResult)
    requires o.auth.Some? && r.receipt.Some? && GoodContent(m.pubkey, ResultDigest(r))
    ensures SignsOnlyGood(HonestRun(m, client, o, now, r), m.pubkey, m.nodeId)
  {
    var run := HonestRun(m, client, o, now, r);
    assert run == [Sign(m.pubkey, RegistrationDigest(m)), Registration(m), Sign(client, OfAuth(o.auth.value.body)), Order(o, now),
                   Sign(m.pubkey, OfReceipt(r.receipt.value.body)), Sign(m.pubkey, ResultDigest(r))];
  }

  /** In every such run of six events the stripped result is a seventh that leaves the node degraded,
      although all it ever signed was its registration, a receipt, and one good result. */
  lemma HonestNodeIsDegraded(env: Env, m: RegisterMsg, client: PublicKey, o: JobOrder, now: nat, r: JobResult)
    requires Honest(env, m, client, o, now, r)
    ensures SignsOnlyGood(HonestRun(m, client, o, now, r), m.pubkey, m.nodeId)
    ensures CanHappen(Follow(env, HonestRun(m, client, o, now, r)), Result(Stripped(r)))
    ensures var v := Follow(env, HonestRun(m, client, o, now, r) + [Result(Stripped(r))]).state.registry;
            m.nodeId in v.states && v.states[m.nodeId] == Degraded && v.jobs == map[]
  {
    HonestRunSignsOnlyGood(m, client, o, now, r);
    HonestRunLeadsTo(env, m, client, o, now, r);
    var events := HonestRun(m, client, o, now, r);
    var v := Follow(env, events).state.registry;
    assert IsAssigned(v, r.jobId, r.nodeId) && v.nodes[r.nodeId] == m;
    GoodResultExactly(v, r);
    StrippedResultDegrades(env, events, r);
    assert Unassign(v, r.jobId).jobs == map[];
  }

  lemma HonestOrderIsAccepted(env: Env, m: RegisterMsg, client: PublicKey, o: JobOrder, now: nat, r: JobResult)
    requires Honest(env, m, client, o, now, r)
    ensures Process(env, State(Admit(EMPTY, m), {}), o, now).1.Accepted?
  {
    OnlyNodeIsDrawn(env, m, o, now);
  }

  // ---------------------------------------------------------------- a job is moved

  /** Two nodes and two orders of one job name, the draw preferring the second node. */
  ghost predicate Colliding(env: Env, a: RegisterMsg, b: RegisterMsg, client: PublicKey, o: JobOrder, other: PublicKey, p: JobOrder, now: nat) {
    && env.operator.None? && a.nodeId != b.nodeId && Joinable(a, o.modelHash) && Joinable(b, p.modelHash)
    && o.modelHash == p.modelHash && JobName(o.orderId) == JobName(p.orderId)
    && Orderable(env, client, o, now) && Orderable(env, other, p, now) && o.auth.value.body != p.auth.value.body
    && var seed := env.hashes.seed(o.modelHash, JobName(o.orderId));
       PairLess(Ticket(env.hashes, seed, b.nodeId), Ticket(env.hashes, seed, a.nodeId))
  }

  lemma SecondIsDrawn(env: Env, v: View, a: RegisterMsg, b: RegisterMsg, p: JobOrder, now: nat)
    requires v == Admit(Assign(Admit(EMPTY, a), JobName(p.orderId), a.nodeId), b)
    requires a.nodeId != b.nodeId && Joinable(a, p.modelHash) && Joinable(b, p.modelHash)
    requires var seed := env.hashes.seed(p.modelHash, JobName(p.orderId));
             PairLess(Ticket(env.hashes, seed, b.nodeId), Ticket(env.hashes, seed, a.nodeId))
    ensures Draw(env, v, p, now) == Some((b.nodeId, 512))
  {
    assert Candidates(v, p.modelHash, 512, now) == {a.nodeId, b.nodeId};
    PickIs(env.hashes, v, p.modelHash, 512, JobName(p.orderId), now, b.nodeId);
  }

  /** The first order's job goes to the first node; the second order, of another client, takes it away
      and gives it to the second. */
  lemma JobIsMoved(env: Env, a: RegisterMsg, b: RegisterMsg, client: PublicKey, o: JobOrder, other: PublicKey, p: JobOrder, now: nat)
    requires Colliding(env, a, b, client, o, other, p, now)
    ensures var before := Joins(a) + Orders(client, o, now) + Joins(b);
            && Follow(env, before).state.registry.jobs == map[JobName(o.orderId) := a.nodeId]
            && Follow(env, before + Orders(other, p, now)).state.registry.jobs == map[JobName(o.orderId) := b.nodeId]
  {
    var first := Joins(a) + Orders(client, o, now);
    FirstOrderLeadsTo(env, a, client, o, now);
    JoinsLeadsTo(env, first, b, p.modelHash);
    OrdersLeadsTo(env, first + Joins(b), other, p, now);
    SecondIsDrawn(env, Follow(env, first + Joins(b)).state.registry, a, b, p, now);
    var jobs := map[JobName(o.orderId) := a.nodeId];
    assert jobs[JobName(o.orderId) := b.nodeId] == map[JobName(o.orderId) := b.nodeId];
  }

  // ---------------------------------------------------------------- an authorisation is spent for nothing

  /** With no node registered an order that passes the gate is served by nobody, and sent again it is
      refused as a repetition. */
  lemma SpentForNothing(env: Env, client: PublicKey, o: JobOrder, now: nat)
    requires Orderable(env, client, o, now)
    ensures Process(env, Follow(env, []).state, o, now).1 == NobodyServes
    ensures Process(env, Follow(env, Orders(client, o, now)).state, o, now).1 == Replayed
  {
    assert [] + Orders(client, o, now) == Orders(client, o, now);
    OrdersLeadsTo(env, [], client, o, now);
    assert Candidates(EMPTY, o.modelHash, 512, now) == {} && Candidates(EMPTY, o.modelHash, 0, now) == {};
  }

  // ---------------------------------------------------------------- all of these exist

  /** A registration that can be taken. */
  function Node(name: string): RegisterMsg {
    var d := Declared(Some("model"), None, "");
    var m := RegisterMsg(name, PROTOCOL_VERSION, d, Some(d), "", PublicKey(name), None, None);
    m.(signature := Some(Signature(PublicKey(name), RegistrationDigest(m))))
  }

  /** An order with its client's authorisation. */
  function OrderOf(client: string): JobOrder {
    var auth := AuthBody(FORMAT_V, "payload", "model", 1, 1, "nonce", 0, client);
    JobOrder("order", "model", "payload", 1, 1, client, "nonce", Some(Auth(auth, Some(Signature(PublicKey(client), OfAuth(auth))))))
  }

  /** A draw that prefers the node `b`. */
  function PlainEnv(): Env {
    Env((s: string) => Some(PublicKey(s)), (k: PublicKey) => k.bytes,
        Hashes((model, job) => "", (seed, node) => if node == "b" then "0" else "1"), None, PublicKey("coordinator"))
  }

  lemma OrderOfIsOrderable(client: string)
    ensures Orderable(PlainEnv(), PublicKey(client), OrderOf(client), 0)
  {}

  /** There are honest runs. */
  lemma HonestRunExists() returns (env: Env, m: RegisterMsg, client: PublicKey, o: JobOrder, r: JobResult)
    ensures Honest(env, m, client, o, 0, r) && o.fee > 0
  {
    env, m, client, o := PlainEnv(), Node("a"), PublicKey("c"), OrderOf("c");
    OrderOfIsOrderable("c");
    var body := ReceiptBody(JobName(o.orderId), m.nodeId, "model", "output", m.pubkey, "");
    r := JobResult(JobName(o.orderId), m.nodeId, true, None, Some(Receipt(body, Some(Signature(m.pubkey, OfReceipt(body))))), None, None);
    r := r.(signature := Some(Signature(m.pubkey, ResultDigest(r))));
  }

  lemma CollidingExists()
    ensures Colliding(PlainEnv(), Node("a"), Node("b"), PublicKey("c"), OrderOf("c"), PublicKey("d"), OrderOf("d"), 0)
  {
    OrderOfIsOrderable("c");
    OrderOfIsOrderable("d");
    assert "a"[0] != "b"[0] && "c"[0] != "d"[0];
    assert "0"[0] < "1"[0];
  }
}
