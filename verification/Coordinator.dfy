/** The coordinator: it takes registrations, results and orders from anyone who sends them. */
module Coordinator {
  import opened Basics
  import opened Protocol
  import opened NodeRegistry

  // ---------------------------------------------------------------- registrations

  /** Takes a registration; with an operator's key, only one the operator vouches for. */
  method HandleRegistration(registry: Registry, m: RegisterMsg, operator: Option<PublicKey>) returns (ok: bool)
    modifies registry
    ensures ok == MayRegisterVerified(old(registry.Contents()), m, operator)
    ensures registry.Contents() == if ok then Admit(old(registry.Contents()), m) else old(registry.Contents())
  {
    ok := registry.RegisterVerified(m, operator);
  }

  // ---------------------------------------------------------------- results

  /** An honest success: the result is ok, its receipt names a non-empty output, and the receipt
      verifies for this job, this node and the node's registered key. */
  predicate GoodResult(v: View, r: JobResult) {
    && r.ok && r.receipt.Some? && r.receipt.value.body.outputDigest != ""
    && r.nodeId in v.nodes
    && ReceiptVerifies(r.receipt.value, r.jobId, r.nodeId, v.nodes[r.nodeId].pubkey)
  }

  /** A result counts only for a job assigned to this very node, under its registered key. */
  predicate Counts(v: View, r: JobResult) {
    && IsAssigned(v, r.jobId, r.nodeId)
    && r.nodeId in v.nodes
    && Verifies(v.nodes[r.nodeId].pubkey, ResultDigest(r), r.signature)
  }

  function Settle(v: View, r: JobResult): View {
    if !Counts(v, r) then v
    else if GoodResult(v, r) then Unassign(v, r.jobId)
    else Unassign(WithState(v, r.nodeId, Degraded), r.jobId)
  }

  /** Takes a result. */
  method HandleResult(registry: Registry, r: JobResult)
    modifies registry
    ensures registry.Contents() == Settle(old(registry.Contents()), r)
  {
    if r.jobId !in registry.jobs || registry.jobs[r.jobId] != r.nodeId {
      return;
    }
    if r.nodeId !in registry.nodes {
      return;
    }
    if !Verifies(registry.nodes[r.nodeId].pubkey, ResultDigest(r), r.signature) {
      return;
    }
    var emptyOutput := r.receipt.None? || r.receipt.value.body.outputDigest == "";
    if !r.ok || emptyOutput {
      var _ := registry.SetState(r.nodeId, Degraded);
      var _ := registry.CompleteJob(r.jobId);
    } else {
      var ok := registry.Complete(r);
      if !ok {
        var _ := registry.SetState(r.nodeId, Degraded);
        var _ := registry.CompleteJob(r.jobId);
      }
    }
  }

  /** What a result does: nothing at all, unless the job is assigned to that node and the node's
      registered key signed a digest naming this job, this node and this outcome. Then exactly that
      job ends, and the node's state stays as it was if the result is good and becomes degraded if it
      is not; nothing else changes. */
  lemma SettlementExactly(v: View, r: JobResult)
    requires Consistent(v)
    ensures Settle(v, r) != v <==>
              && IsAssigned(v, r.jobId, r.nodeId)
              && exists receipt :: r.signature ==
                   Some(Signature(v.nodes[r.nodeId].pubkey, OfResult(r.jobId, r.nodeId, r.ok, r.error, receipt))) &&
                   ResultDigest(r) == OfResult(r.jobId, r.nodeId, r.ok, r.error, receipt)
    ensures Settle(v, r) != v ==>
              && Settle(v, r).jobs == v.jobs - {r.jobId}
              && Settle(v, r).states == (if GoodResult(v, r) then v.states else v.states[r.nodeId := Degraded])
              && Settle(v, r).(jobs := v.jobs, states := v.states) == v
    ensures Consistent(Settle(v, r))
  {
    if Counts(v, r) {
      assert r.jobId !in Settle(v, r).jobs;
      var receipt := match r.receipt case None => None case Some(x) => Some(OfReceipt(x.body));
      assert ResultDigest(r) == OfResult(r.jobId, r.nodeId, r.ok, r.error, receipt);
    }
  }

  // ---------------------------------------------------------------- orders

  datatype OrderOutcome =
    | Accepted(acceptance: OrderAccepted, node: string, ctx: nat)
    | BadAuth
    | Replayed
    | NobodyServes
    | NotAssignable

  /** The environment of the coordinator: key coding, the hashes of the draw, the operator whose voucher
      a registration needs, if one is set, and the coordinator's own key. */
  datatype Env = Env(fromHex: string -> Option<PublicKey>, toHex: PublicKey -> string, hashes: Hashes,
                     operator: Option<PublicKey>, coordinator: PublicKey)

  /** The acceptance, signed by the coordinator. */
  function Issue(env: Env, orderId: string, job: string, seed: string): OrderAccepted {
    var a := OrderAccepted(orderId, job, env.toHex(env.coordinator), seed, 0, 1000, None);
    a.(signature := Some(Signature(env.coordinator, AcceptanceDigest(a))))
  }

  /** The job takes its name from the first 16 characters of the order's. */
  function JobName(orderId: string): string {
    "job-" + if |orderId| < 16 then orderId else orderId[..16]
  }

  /** First with 512 tokens of context, then with any. */
  ghost function Draw(env: Env, v: View, o: JobOrder, now: nat): Option<(string, nat)> {
    match Pick(env.hashes, v, o.modelHash, 512, JobName(o.orderId), now)
    case Some(node) => Some((node, 512))
    case None =>
      match Pick(env.hashes, v, o.modelHash, 0, JobName(o.orderId), now)
      case Some(node) => Some((node, 0))
      case None => None
  }

  /** The registry, and the authorisations already used. */
  datatype State = State(registry: View, used: set<Digest>)

  ghost function Process(env: Env, s: State, o: JobOrder, now: nat): (State, OrderOutcome) {
    match CheckAuth(env.fromHex, o, now)
    case None => (s, BadAuth)
    case Some(digest) =>
      if digest in s.used then (s, Replayed) else
        var s1 := s.(used := s.used + {digest});
        match Draw(env, s.registry, o, now)
        case None => (s1, NobodyServes)
        case Some((node, ctx)) =>
          var job := JobName(o.orderId);
          if !Usable(s.registry, node) then (s1, NotAssignable) else
            (s1.(registry := Assign(s.registry, job, node)),
             Accepted(Issue(env, o.orderId, job, env.hashes.seed(o.modelHash, job)), node, ctx))
  }

  /** The authorisations a coordinator has seen used. */
  class UsedAuthorisations {
    var used: set<Digest>

    constructor ()
      ensures used == {}
    {
      used := {};
    }

    method Take(digest: Digest) returns (ok: bool)
      modifies this
      ensures ok == (digest !in old(used)) && used == old(used) + {digest}
    {
      ok := digest !in used;
      used := used + {digest};
    }
  }

  method ProcessOrder(env: Env, registry: Registry, taken: UsedAuthorisations, o: JobOrder, now: nat) returns (r: OrderOutcome)
    requires Consistent(registry.Contents())
    modifies registry, taken
    ensures (State(registry.Contents(), taken.used), r) ==
            Process(env, State(old(registry.Contents()), old(taken.used)), o, now)
  {
    var digest := CheckAuth(env.fromHex, o, now);
    if digest.None? {
      return BadAuth;
    }
    var unused := taken.Take(digest.value);
    if !unused {
      assert taken.used == old(taken.used);
      return Replayed;
    }
    var job := JobName(o.orderId);
    var ctx := 512;
    var drawn := Find(env.hashes, registry, o.modelHash, ctx, job, now);
    if drawn.None? {
      ctx := 0;
      drawn := Find(env.hashes, registry, o.modelHash, ctx, job, now);
    }
    if drawn.None? {
      return NobodyServes;
    }
    var (node, seed) := drawn.value;
    var ok := registry.AssignJob(job, node);
    if !ok {
      return NotAssignable;
    }
    var acceptance := OrderAccepted(o.orderId, job, env.toHex(env.coordinator), seed, 0, 1000, None);
    acceptance := acceptance.(signature := Some(Signature(env.coordinator, AcceptanceDigest(acceptance))));
    return Accepted(acceptance, node, ctx);
  }

  /** The draw, as a function of the registry. */
  method Find(h: Hashes, registry: Registry, model: string, ctx: nat, job: string, now: nat) returns (r: Option<(string, string)>)
    requires Consistent(registry.Contents())
    ensures r.None? <==> Pick(h, registry.Contents(), model, ctx, job, now).None?
    ensures r.Some? ==> Pick(h, registry.Contents(), model, ctx, job, now) == Some(r.value.0) && r.value.1 == h.seed(model, job)
  {
    r := registry.PickCandidate(h, model, ctx, job, now);
    if r.Some? { PickIs(h, registry.Contents(), model, ctx, job, now, r.value.0); }
  }

  /** Two orders share a job name exactly if their names begin with the same 16 characters; a shorter name
      counts as a whole. */
  lemma JobNameExactly(a: string, b: string)
    ensures var n := if |a| < 16 then |a| else 16;
            JobName(a) == "job-" + a[..n]
    ensures JobName(a) == JobName(b) <==> Beginning(a) == Beginning(b)
  {
    assert JobName(a)[4..] == Beginning(a) && JobName(b)[4..] == Beginning(b);
  }

  function Beginning(a: string): string {
    if |a| < 16 then a else a[..16]
  }

  lemma FewerWithContext(v: View, model: string, ctx: nat, now: nat)
    ensures Candidates(v, model, ctx, now) <= Candidates(v, model, 0, now)
  {}

  /** The draw finds nobody exactly if no node serves the model at all, whatever its context; it asks for
      512 tokens exactly if some node has them, and for none otherwise. */
  lemma DrawExactly(env: Env, v: View, o: JobOrder, now: nat)
    ensures var d := Draw(env, v, o, now);
            && (d.None? <==> Candidates(v, o.modelHash, 0, now) == {})
            && (d.Some? ==> d.value.1 == if Candidates(v, o.modelHash, 512, now) != {} then 512 else 0)
  {
    FewerWithContext(v, o.modelHash, 512, now);
  }

  /** What becomes of an order, in every case. */
  lemma OutcomeExactly(env: Env, s: State, o: JobOrder, now: nat)
    ensures var (gate, r) := (CheckAuth(env.fromHex, o, now), Process(env, s, o, now).1);
            && (r.BadAuth? <==> gate.None?)
            && (r.Replayed? <==> gate.Some? && gate.value in s.used)
            && (r.NobodyServes? <==> gate.Some? && gate.value !in s.used && Candidates(s.registry, o.modelHash, 0, now) == {})
            && (r.Accepted? <==> gate.Some? && gate.value !in s.used && Candidates(s.registry, o.modelHash, 0, now) != {})
            && (r.Accepted? ==> r.ctx == if Candidates(s.registry, o.modelHash, 512, now) != {} then 512 else 0)
    ensures var (gate, s') := (CheckAuth(env.fromHex, o, now), Process(env, s, o, now).0);
            && s'.used == s.used + (if gate.Some? then {gate.value} else {})
            && (Process(env, s, o, now).1.Accepted? || s'.registry == s.registry)
  {
    DrawExactly(env, s.registry, o, now);
    AssignmentNeverFails(env, s, o, now);
  }

  /** The drawn node serves the model and can be assigned. */
  lemma DrawnServes(env: Env, v: View, o: JobOrder, now: nat)
    requires Draw(env, v, o, now).Some?
    ensures var (node, ctx) := Draw(env, v, o, now).value;
            node in Candidates(v, o.modelHash, ctx, now) && Usable(v, node)
  {
  }

  /** So an order that passes the gate with a new authorisation is refused only when nobody serves
      the model. */
  lemma AssignmentNeverFails(env: Env, s: State, o: JobOrder, now: nat)
    ensures Process(env, s, o, now).1 != NotAssignable
  {
    if Draw(env, s.registry, o, now).Some? { DrawnServes(env, s.registry, o, now); }
  }

  /** What an accepted order means, at the moment it is accepted. */
  ghost predicate ProperlyAccepted(env: Env, before: View, after: View, o: JobOrder, now: nat, r: OrderOutcome, auth: AuthBody, key: PublicKey)
    requires r.Accepted?
  {
    var (a, node) := (r.acceptance, r.node);
    && AgreesWith(auth, o) && DecodesTo(env, o.clientPubkey, key)
    && now <= auth.validUntil + CLOCK_TOLERANCE
    && a == OrderAccepted(o.orderId, JobName(o.orderId), env.toHex(env.coordinator), env.hashes.seed(o.modelHash, JobName(o.orderId)), 0, 1000,
                          Some(Signature(env.coordinator, AcceptanceDigest(a))))
    && after == before.(jobs := before.jobs[a.jobId := node])
    && node in after.nodes && after.nodes[node].attested.Some?
    && after.nodes[node].declared.modelHash == Some(o.modelHash)
    && node in after.states && after.states[node] != Evicted && after.states[node] != Degraded
    && IsPick(env.hashes, a.vrfSeed, Candidates(before, o.modelHash, r.ctx, now), node)
    && (r.ctx == 512 || (r.ctx == 0 && Candidates(before, o.modelHash, 512, now) == {}))
  }

  ghost predicate DecodesTo(env: Env, hex: string, key: PublicKey) {
    env.fromHex(hex) == Some(key)
  }

  lemma AcceptedIsProper(env: Env, s: State, o: JobOrder, now: nat)
    requires Consistent(s.registry) && Process(env, s, o, now).1.Accepted?
    ensures var (s', r) := Process(env, s, o, now);
            exists auth, key ::
              && ProperlyAccepted(env, s.registry, s'.registry, o, now, r, auth, key)
              && o.auth.Some? && o.auth.value.signature == Some(Signature(key, OfAuth(auth)))
              && OfAuth(auth) !in s.used && s'.used == s.used + {OfAuth(auth)}
  {
    GateMeaning(env.fromHex, o, now);
    DrawnServes(env, s.registry, o, now);
    var auth: AuthBody, key :|
      && CheckAuth(env.fromHex, o, now) == Some(OfAuth(auth)) && AgreesWith(auth, o)
      && env.fromHex(o.clientPubkey) == Some(key)
      && o.auth.value.signature == Some(Signature(key, OfAuth(auth)))
      && now <= auth.validUntil + CLOCK_TOLERANCE;
    var (s', r) := Process(env, s, o, now);
    assert ProperlyAccepted(env, s.registry, s'.registry, o, now, r, auth, key);
  }

  /** Every other job keeps its node. */
  ghost predicate KeepsAssignments(before: View, after: View) {
    forall job :: job in before.jobs ==> job in after.jobs && after.jobs[job] == before.jobs[job]
  }

  /** Job names are no protection: they are the first 16 characters of order names, which the sender
      chooses. An order that passes the gate with a new authorisation, and for whose model a node is
      drawn, is accepted; it leaves all assignments as they were if and only if its job name is free, or
      the job is already with that node. */
  lemma AcceptanceDisturbsExactly(env: Env, s: State, o: JobOrder, now: nat)
    requires CheckAuth(env.fromHex, o, now).Some? && CheckAuth(env.fromHex, o, now).value !in s.used
    requires Draw(env, s.registry, o, now).Some?
    ensures Process(env, s, o, now).1.Accepted?
    ensures KeepsAssignments(s.registry, Process(env, s, o, now).0.registry) <==>
              JobName(o.orderId) !in s.registry.jobs || s.registry.jobs[JobName(o.orderId)] == Draw(env, s.registry, o, now).value.0
  {
    DrawnServes(env, s.registry, o, now);
  }

  // ---------------------------------------------------------------- whole runs, arbitrary senders

  /** Anyone may sign anything with a key of their own, and send any message made of signatures that
      exist. */
  datatype Event =
    | Sign(key: PublicKey, digest: Digest)
    | Registration(m: RegisterMsg)
    | Result(r: JobResult)
    | Order(o: JobOrder, now: nat)

  datatype World = World(state: State, signed: set<Signature>)

  const BEGIN := World(State(EMPTY, {}), {})

  function Made(signed: set<Signature>, signature: Option<Signature>): bool {
    signature.None? || signature.value in signed
  }

  /** A message can only carry signatures that were made before. */
  predicate CanHappen(w: World, e: Event) {
    match e
    case Sign(_, _) => true
    case Registration(m) => Made(w.signed, m.signature) && Made(w.signed, m.voucher)
    case Result(r) => Made(w.signed, r.signature) && (r.receipt.Some? ==> Made(w.signed, r.receipt.value.signature))
    case Order(o, _) => o.auth.Some? ==> Made(w.signed, o.auth.value.signature)
  }

  ghost function Happen(env: Env, w: World, e: Event): World {
    if !CanHappen(w, e) then w else
      match e
      case Sign(key, digest) => w.(signed := w.signed + {Signature(key, digest)})
      case Registration(m) =>
        if MayRegisterVerified(w.state.registry, m, env.operator) then w.(state := w.state.(registry := Admit(w.state.registry, m))) else w
      case Result(r) => w.(state := w.state.(registry := Settle(w.state.registry, r)))
      case Order(o, now) => w.(state := Process(env, w.state, o, now).0)
  }

  ghost function Follow(env: Env, events: seq<Event>): World {
    if events == [] then BEGIN else Happen(env, Follow(env, events[..|events| - 1]), events[|events| - 1])
  }

  lemma FollowSnoc(env: Env, events: seq<Event>, e: Event)
    ensures Follow(env, events + [e]) == Happen(env, Follow(env, events), e)
  {
    assert (events + [e])[..|events|] == events;
  }

  ghost predicate WasSigned(events: seq<Event>, key: PublicKey, digest: Digest) {
    exists i :: 0 <= i < |events| && events[i] == Sign(key, digest)
  }

  lemma WasSignedLater(events: seq<Event>, e: Event, key: PublicKey, digest: Digest)
    requires WasSigned(events, key, digest)
    ensures WasSigned(events + [e], key, digest)
  {
    var i :| 0 <= i < |events| && events[i] == Sign(key, digest);
    assert (events + [e])[i] == Sign(key, digest);
  }

  lemma {:induction false} SignedMeansSigned(env: Env, events: seq<Event>, signature: Signature)
    requires signature in Follow(env, events).signed
    ensures WasSigned(events, signature.signer, signature.digest)
  {
    var n := |events| - 1;
    if signature in Follow(env, events[..n]).signed {
      SignedMeansSigned(env, events[..n], signature);
      WasSignedLater(events[..n], events[n], signature.signer, signature.digest);
      assert events[..n] + [events[n]] == events;
    } else {
      assert events[n] == Sign(signature.signer, signature.digest);
    }
  }

  /** The node has proved possession of the key it is registered with, and the operator, if there is
      one, has vouched for it under that key. */
  ghost predicate Vouched(env: Env, signed: set<Signature>, m: RegisterMsg) {
    && Signature(m.pubkey, RegistrationDigest(m)) in signed
    && (env.operator.Some? ==> Signature(env.operator.value, VoucherDigest(m)) in signed)
  }

  ghost predicate Authentic(env: Env, w: World) {
    && Consistent(w.state.registry)
    && forall k :: k in w.state.registry.nodes ==> Vouched(env, w.signed, w.state.registry.nodes[k])
  }

  lemma HappenKeepsAuthentic(env: Env, w: World, e: Event)
    requires Authentic(env, w)
    ensures Authentic(env, Happen(env, w, e))
    ensures w.signed <= Happen(env, w, e).signed
    ensures forall k :: k in w.state.registry.nodes ==>
              k in Happen(env, w, e).state.registry.nodes &&
              Happen(env, w, e).state.registry.nodes[k] == w.state.registry.nodes[k]
  {
    if CanHappen(w, e) {
      match e
      case Sign(_, _) =>
      case Registration(m) => PerformKeepsConsistent(w.state.registry, DoRegisterVerified(m, env.operator));
      case Result(r) => SettlementExactly(w.state.registry, r);
      case Order(o, now) => ProcessKeepsConsistent(env, w.state, o, now);
    }
  }

  lemma ProcessKeepsConsistent(env: Env, s: State, o: JobOrder, now: nat)
    requires Consistent(s.registry)
    ensures Consistent(Process(env, s, o, now).0.registry)
    ensures Process(env, s, o, now).0.registry.nodes == s.registry.nodes
    ensures Process(env, s, o, now).0.registry.states == s.registry.states
    ensures s.used <= Process(env, s, o, now).0.used
    ensures Process(env, s, o, now).0.registry != s.registry ==> Process(env, s, o, now).1.Accepted?
  {}

  lemma {:induction false} RunIsAuthentic(env: Env, events: seq<Event>)
    ensures Authentic(env, Follow(env, events))
  {
    if events != [] {
      RunIsAuthentic(env, events[..|events| - 1]);
      HappenKeepsAuthentic(env, Follow(env, events[..|events| - 1]), events[|events| - 1]);
    }
  }

  /** Nobody is registered under a key that did not sign this node, key, region and declaration earlier
      in the run, nor, if an operator is set, without the operator's signature for that node and key.
      What was attested is not signed. */
  lemma RegistrationIsAuthorised(env: Env, events: seq<Event>, node: string)
    requires node in Follow(env, events).state.registry.nodes
    ensures var m := Follow(env, events).state.registry.nodes[node];
            && m.nodeId == node
            && WasSigned(events, m.pubkey, RegistrationDigest(m))
            && (env.operator.Some? ==> WasSigned(events, env.operator.value, OfVoucher(node, PROTOCOL_VERSION, m.pubkey)))
  {
    RunIsAuthentic(env, events);
    var m := Follow(env, events).state.registry.nodes[node];
    assert Vouched(env, Follow(env, events).signed, m);
    SignedMeansSigned(env, events, Signature(m.pubkey, RegistrationDigest(m)));
    if env.operator.Some? { SignedMeansSigned(env, events, Signature(env.operator.value, VoucherDigest(m))); }
  }

  /** Nothing the coordinator does evicts a node. */
  lemma {:induction false} NoneEvicted(env: Env, events: seq<Event>, node: string)
    ensures var v := Follow(env, events).state.registry; node in v.states ==> v.states[node] != Evicted
  {
    if events != [] { NoneEvicted(env, events[..|events| - 1], node); }
  }

  /** A node can be given jobs if and only if it was registered with an attestation and is not degraded. */
  lemma UsableExactly(env: Env, events: seq<Event>, node: string)
    ensures var v := Follow(env, events).state.registry;
            Usable(v, node) <==> node in v.nodes && v.nodes[node].attested.Some? && !(node in v.states && v.states[node] == Degraded)
  {
    RunIsAuthentic(env, events);
    NoneEvicted(env, events, node);
  }

  /** The same registration without what was attested, which no signature covers. */
  function Unattested(m: RegisterMsg): RegisterMsg {
    m.(attested := None)
  }

  /** So anyone who has seen a registration before the coordinator has can spoil it: sent without the
      attestation it is taken, the node's own message is refused from then on, and whatever follows the
      node gets no job. */
  lemma UnattestedIsForGood(env: Env, events: seq<Event>, m: RegisterMsg, more: seq<Event>)
    requires var w := Follow(env, events); CanHappen(w, Registration(m)) && MayRegisterVerified(w.state.registry, m, env.operator)
    ensures CanHappen(Follow(env, events), Registration(Unattested(m)))
    ensures var v := Follow(env, events + [Registration(Unattested(m))] + more).state.registry;
            m.nodeId in v.nodes && v.nodes[m.nodeId] == Unattested(m) && !MayRegister(v, m) && !Usable(v, m.nodeId)
  {
    var first := events + [Registration(Unattested(m))];
    FollowSnoc(env, events, Registration(Unattested(m)));
    assert (first + more)[..|first|] == first && (first + more)[..|first + more|] == first + more;
    NodesAreKept(env, first + more, |first|, |first + more|, m.nodeId);
  }

  /** A result changes the registry only if the registered key of the node it names, which is the node
      the job is assigned to, signed a digest naming that job, that node and that outcome at some
      earlier point of the run. */
  lemma SettlementIsAuthorised(env: Env, events: seq<Event>, r: JobResult)
    requires Follow(env, events + [Result(r)]) != Follow(env, events)
    ensures var v := Follow(env, events).state.registry;
            && IsAssigned(v, r.jobId, r.nodeId) && r.nodeId in v.nodes
            && WasSigned(events, v.nodes[r.nodeId].pubkey, ResultDigest(r))
            && Follow(env, events + [Result(r)]).state.registry.jobs == v.jobs - {r.jobId}
            && Follow(env, events + [Result(r)]).state.registry.states ==
               (if GoodResult(v, r) then v.states else v.states[r.nodeId := Degraded])
  {
    RunIsAuthentic(env, events);
    var w := Follow(env, events);
    assert (events + [Result(r)])[..|events|] == events;
    SettlementExactly(w.state.registry, r);
    SignedMeansSigned(env, events, r.signature.value);
  }

  /** A step degrades a node only by a result that names it. */
  lemma OnlyResultsDegrade(env: Env, w: World, e: Event, node: string)
    requires var v := Happen(env, w, e).state.registry; node in v.states && v.states[node] == Degraded
    requires !(node in w.state.registry.states && w.state.registry.states[node] == Degraded)
    ensures e.Result? && e.r.nodeId == node && Happen(env, w, e) != w
  {
    if e.Order? { ProcessKeepsStates(env, w.state, e.o, e.now); }
  }

  lemma ProcessKeepsStates(env: Env, s: State, o: JobOrder, now: nat)
    ensures Process(env, s, o, now).0.registry.states == s.registry.states
  {}

  ghost predicate SignedAResultOf(events: seq<Event>, key: PublicKey, node: string) {
    exists r: JobResult :: r.nodeId == node && WasSigned(events, key, ResultDigest(r))
  }

  /** A node that is degraded has signed some result of its own. It need not have been a bad one: see
      `StrippedResultDegrades`. */
  lemma {:induction false} DegradedNodeSignedAResult(env: Env, events: seq<Event>, node: string)
    requires var v := Follow(env, events).state.registry; node in v.states && v.states[node] == Degraded
    ensures var v := Follow(env, events).state.registry;
            node in v.nodes && SignedAResultOf(events, v.nodes[node].pubkey, node)
  {
    var n := |events| - 1;
    var before, e := events[..n], events[n];
    assert before + [e] == events;
    RunIsAuthentic(env, before);
    var w := Follow(env, before);
    HappenKeepsAuthentic(env, w, e);
    var v := w.state.registry;
    if node in v.states && v.states[node] == Degraded {
      DegradedNodeSignedAResult(env, before, node);
      var r: JobResult :| r.nodeId == node && WasSigned(before, v.nodes[node].pubkey, ResultDigest(r));
      WasSignedLater(before, e, v.nodes[node].pubkey, ResultDigest(r));
    } else {
      OnlyResultsDegrade(env, w, e, node);
      SettlementIsAuthorised(env, before, e.r);
      WasSignedLater(before, e, v.nodes[node].pubkey, ResultDigest(e.r));
    }
  }

  // ---------------------------------------------------------------- who can degrade a node

  /** What the digest of a result says is good: a success with a receipt of this key for this job and
      node that names an output. */
  predicate GoodContent(key: PublicKey, d: Digest) {
    && d.OfResult? && d.ok && d.receipt.Some? && d.receipt.value.OfReceipt?
    && var body := d.receipt.value.body;
    && body.outputDigest != "" && body.signer == key && body.jobId == d.job && body.nodeId == d.node
  }

  /** The receipt that comes with a result is signed by this key. The result's own digest does not
      cover that signature. */
  predicate ReceiptSigned(key: PublicKey, r: JobResult) {
    r.receipt.Some? && r.receipt.value.signature == Some(Signature(key, OfReceipt(r.receipt.value.body)))
  }

  /** A result that counts degrades its node exactly if its signed content is not good or the receipt's
      signature is missing or foreign. */
  lemma DegradedExactly(v: View, r: JobResult)
    requires Consistent(v) && Counts(v, r) && v.states[r.nodeId] != Degraded
    ensures var key := v.nodes[r.nodeId].pubkey;
            Settle(v, r).states[r.nodeId] == Degraded <==> !(GoodContent(key, ResultDigest(r)) && ReceiptSigned(key, r))
  {
    GoodResultExactly(v, r);
  }

  lemma GoodResultExactly(v: View, r: JobResult)
    requires Counts(v, r)
    ensures var key := v.nodes[r.nodeId].pubkey;
            GoodResult(v, r) <==> GoodContent(key, ResultDigest(r)) && ReceiptSigned(key, r)
  {}

  /** Field by field: a result is good exactly if it claims success and comes with a receipt for its job and
      node, over some non-empty output, that names the node's registered key and is signed by it. */
  lemma GoodResultMeans(v: View, r: JobResult)
    requires Counts(v, r)
    ensures var key := v.nodes[r.nodeId].pubkey;
            GoodResult(v, r) <==>
              r.ok && exists m, output, rest ::
                output != "" && r.receipt == Some(SignedReceipt(key, ReceiptBody(r.jobId, r.nodeId, m, output, key, rest)))
  {
    if r.receipt.Some? {
      var key, receipt := v.nodes[r.nodeId].pubkey, r.receipt.value;
      ReceiptExactly(receipt, r.jobId, r.nodeId, key);
      if GoodResult(v, r) {
        var body := receipt.body;
        assert receipt == SignedReceipt(key, ReceiptBody(r.jobId, r.nodeId, body.modelHash, body.outputDigest, key, body.rest));
      }
    }
  }

  /** The same result without the signature of its receipt. Anyone who has seen the result can send it. */
  function Stripped(r: JobResult): JobResult
    requires r.receipt.Some?
  {
    r.(receipt := Some(r.receipt.value.(signature := None)))
  }

  /** So a node can be degraded by somebody else, at any point of any run at which a good result of its
      is on its way: delivered as the node sent it, the result ends the job and nothing more; with the
      receipt's signature taken off it also degrades the node. */
  lemma StrippedResultDegrades(env: Env, events: seq<Event>, r: JobResult)
    requires var w := Follow(env, events); CanHappen(w, Result(r)) && Counts(w.state.registry, r) && GoodResult(w.state.registry, r)
    ensures var v := Follow(env, events).state.registry;
            && Follow(env, events + [Result(r)]).state.registry == Unassign(v, r.jobId)
            && CanHappen(Follow(env, events), Result(Stripped(r)))
            && Follow(env, events + [Result(Stripped(r))]).state.registry == Unassign(WithState(v, r.nodeId, Degraded), r.jobId)
  {
    FollowSnoc(env, events, Result(r));
    FollowSnoc(env, events, Result(Stripped(r)));
    assert ResultDigest(Stripped(r)) == ResultDigest(r);
  }

  /** The i-th event is a good result of the node, except that its receipt is not signed by it. */
  ghost predicate IsStripped(env: Env, events: seq<Event>, i: nat, node: string, key: PublicKey) {
    && i < |events| && events[i].Result? && events[i].r.nodeId == node
    && Counts(Follow(env, events[..i]).state.registry, events[i].r)
    && GoodContent(key, ResultDigest(events[i].r)) && !ReceiptSigned(key, events[i].r)
  }

  /** The key signs results about the node only for good content. */
  ghost predicate SignsOnlyGood(events: seq<Event>, key: PublicKey, node: string) {
    forall d: Digest :: d.OfResult? && d.node == node && WasSigned(events, key, d) ==> GoodContent(key, d)
  }

  lemma SignsOnlyGoodBefore(events: seq<Event>, e: Event, key: PublicKey, node: string)
    requires SignsOnlyGood(events + [e], key, node)
    ensures SignsOnlyGood(events, key, node)
  {
    forall d: Digest | d.OfResult? && d.node == node && WasSigned(events, key, d)
      ensures GoodContent(key, d)
    { WasSignedLater(events, e, key, d); }
  }

  /** And in no other way: a node whose key signs results only for good content is degraded only by such
      a message. */
  lemma {:induction false} HonestNodeIsDegradedOnlyByStripping(env: Env, events: seq<Event>, node: string)
    requires var v := Follow(env, events).state.registry;
             node in v.states && v.states[node] == Degraded && node in v.nodes && SignsOnlyGood(events, v.nodes[node].pubkey, node)
    ensures exists i: nat :: IsStripped(env, events, i, node, Follow(env, events).state.registry.nodes[node].pubkey)
  {
    var n := |events| - 1;
    var before, e := events[..n], events[n];
    assert before + [e] == events;
    RunIsAuthentic(env, before);
    var w := Follow(env, before);
    HappenKeepsAuthentic(env, w, e);
    var key := Follow(env, events).state.registry.nodes[node].pubkey;
    SignsOnlyGoodBefore(before, e, key, node);
    if node in w.state.registry.states && w.state.registry.states[node] == Degraded {
      HonestNodeIsDegradedOnlyByStripping(env, before, node);
      var i: nat :| IsStripped(env, before, i, node, key);
      assert before[..i] == events[..i];
      assert IsStripped(env, events, i, node, key);
    } else {
      DegradingStep(env, before, e, node);
      WasSignedLater(before, e, key, ResultDigest(e.r));
      assert IsStripped(env, events, n, node, key);
    }
  }

  /** The step that degrades a node. */
  lemma DegradingStep(env: Env, before: seq<Event>, e: Event, node: string)
    requires var v := Follow(env, before + [e]).state.registry; node in v.states && v.states[node] == Degraded
    requires var v := Follow(env, before).state.registry; !(node in v.states && v.states[node] == Degraded)
    ensures e.Result? && e.r.nodeId == node
    ensures var v := Follow(env, before).state.registry;
            && Counts(v, e.r) && WasSigned(before, v.nodes[node].pubkey, ResultDigest(e.r))
            && !(GoodContent(v.nodes[node].pubkey, ResultDigest(e.r)) && ReceiptSigned(v.nodes[node].pubkey, e.r))
  {
    var w := Follow(env, before);
    RunIsAuthentic(env, before);
    FollowSnoc(env, before, e);
    OnlyResultsDegrade(env, w, e, node);
    SettlementIsAuthorised(env, before, e.r);
    DegradedExactly(w.state.registry, e.r);
  }

  lemma DegradedStep(env: Env, w: World, e: Event, node: string)
    requires Authentic(env, w) && node in w.state.registry.states && w.state.registry.states[node] == Degraded
    ensures var v := Happen(env, w, e).state.registry; node in v.states && v.states[node] == Degraded
  {
    if e.Result? { SettlementExactly(w.state.registry, e.r); }
    if e.Order? { ProcessKeepsStates(env, w.state, e.o, e.now); }
  }

  /** A degraded node is degraded for good: the coordinator hears no heartbeats, so in no continuation is
      it given a job again. */
  lemma {:induction false} DegradedForGood(env: Env, events: seq<Event>, more: seq<Event>, node: string)
    requires var v := Follow(env, events).state.registry; node in v.states && v.states[node] == Degraded
    ensures var v := Follow(env, events + more).state.registry;
            node in v.states && v.states[node] == Degraded && !Usable(v, node)
  {
    if more == [] {
      assert events + more == events;
    } else {
      var n := |more| - 1;
      DegradedForGood(env, events, more[..n], node);
      RunIsAuthentic(env, events + more[..n]);
      FollowSnoc(env, events + more[..n], more[n]);
      assert events + more == events + more[..n] + [more[n]];
      DegradedStep(env, Follow(env, events + more[..n]), more[n], node);
    }
  }

  /** What ends an assignment: a result whose digest the node's key signed, or an accepted order whose job has the
      same name. */
  ghost predicate EndsAssignment(env: Env, events: seq<Event>, i: nat, job: string, key: PublicKey) {
    i < |events| &&
    match events[i]
    case Result(r) => r.jobId == job && WasSigned(events[..i], key, ResultDigest(r))
    case Order(o, now) => JobName(o.orderId) == job && Process(env, Follow(env, events[..i]).state, o, now).1.Accepted?
    case _ => false
  }

  /** A step ends an assignment only by a result for that job or by an accepted order of its name. */
  lemma OnlyResultsAndOrdersEnd(env: Env, w: World, e: Event, job: string, node: string)
    requires Authentic(env, w) && IsAssigned(w.state.registry, job, node)
    requires !IsAssigned(Happen(env, w, e).state.registry, job, node)
    ensures Happen(env, w, e) != w
    ensures e.Result? || e.Order?
    ensures e.Result? ==> e.r.jobId == job
    ensures e.Order? ==> JobName(e.o.orderId) == job && Process(env, w.state, e.o, e.now).1.Accepted?
  {
    if e.Result? { SettlementExactly(w.state.registry, e.r); }
    if e.Order? { ProcessKeepsConsistent(env, w.state, e.o, e.now); }
  }

  /** The last step of a run that ends an assignment. */
  lemma LastStepEnds(env: Env, before: seq<Event>, e: Event, job: string, node: string)
    requires IsAssigned(Follow(env, before).state.registry, job, node)
    requires !IsAssigned(Follow(env, before + [e]).state.registry, job, node)
    requires node in Follow(env, before).state.registry.nodes
    ensures EndsAssignment(env, before + [e], |before|, job, Follow(env, before).state.registry.nodes[node].pubkey)
  {
    assert (before + [e])[..|before|] == before;
    RunIsAuthentic(env, before);
    OnlyResultsAndOrdersEnd(env, Follow(env, before), e, job, node);
    if e.Result? { SettlementIsAuthorised(env, before, e.r); }
  }

  /** A job stays with its node until a result for it that the node's key signed is handled, or an
      accepted order of the same job name gives it to the node drawn for that order. */
  lemma {:induction false} AssignmentIsKept(env: Env, events: seq<Event>, i: nat, job: string, node: string)
    requires i <= |events|
    requires IsAssigned(Follow(env, events[..i]).state.registry, job, node)
    requires !IsAssigned(Follow(env, events).state.registry, job, node)
    ensures node in Follow(env, events[..i]).state.registry.nodes
    ensures exists j :: i <= j < |events| &&
              EndsAssignment(env, events, j, job, Follow(env, events[..i]).state.registry.nodes[node].pubkey)
    decreases |events|
  {
    RunIsAuthentic(env, events[..i]);
    var key := Follow(env, events[..i]).state.registry.nodes[node].pubkey;
    assert events[..|events|] == events;
    var n := |events| - 1;
    var before, e := events[..n], events[n];
    assert before[..i] == events[..i];
    if !IsAssigned(Follow(env, before).state.registry, job, node) {
      AssignmentIsKept(env, before, i, job, node);
      var j :| i <= j < n && EndsAssignment(env, before, j, job, key);
      assert before[..j] == events[..j];
      assert EndsAssignment(env, events, j, job, key);
    } else {
      NodesAreKept(env, events, i, n, node);
      assert before + [e] == events;
      LastStepEnds(env, before, e, job, node);
    }
  }

  lemma {:induction false} NodesAreKept(env: Env, events: seq<Event>, i: nat, j: nat, node: string)
    requires i <= j <= |events| && node in Follow(env, events[..i]).state.registry.nodes
    ensures node in Follow(env, events[..j]).state.registry.nodes
    ensures Follow(env, events[..j]).state.registry.nodes[node] == Follow(env, events[..i]).state.registry.nodes[node]
    decreases j
  {
    if i < j {
      NodesAreKept(env, events, i, j - 1, node);
      assert events[..j][..j - 1] == events[..j - 1];
      RunIsAuthentic(env, events[..j - 1]);
      HappenKeepsAuthentic(env, Follow(env, events[..j - 1]), events[j - 1]);
    }
  }

  // ---------------------------------------------------------------- one authorisation, one acceptance

  /** The i-th event is an order that is accepted. */
  ghost predicate IsAcceptance(env: Env, events: seq<Event>, i: nat) {
    && i < |events| && events[i].Order?
    && var w := Follow(env, events[..i]);
       CanHappen(w, events[i]) && Process(env, w.state, events[i].o, events[i].now).1.Accepted?
  }

  /** The authorisation an order carries. */
  function AuthOf(e: Event): Option<Digest> {
    if e.Order? && e.o.auth.Some? then Some(OfAuth(e.o.auth.value.body)) else None
  }

  /** Once an order has passed the gate its authorisation is used up, whether or not anybody served
      the model. */
  lemma {:induction false} UsedStaysUsed(env: Env, events: seq<Event>, i: nat, j: nat)
    requires i < j <= |events| && events[i].Order?
    requires var w := Follow(env, events[..i]);
             CanHappen(w, events[i]) && CheckAuth(env.fromHex, events[i].o, events[i].now).Some?
    ensures AuthOf(events[i]).Some? && AuthOf(events[i]).value in Follow(env, events[..j]).state.used
    decreases j
  {
    assert events[..j][..j - 1] == events[..j - 1];
    if i < j - 1 {
      UsedStaysUsed(env, events, i, j - 1);
      if events[j - 1].Order? {
        RunIsAuthentic(env, events[..j - 1]);
        ProcessKeepsConsistent(env, Follow(env, events[..j - 1]).state, events[j - 1].o, events[j - 1].now);
      }
    }
  }

  /** The i-th event is an order that passes the gate with this authorisation. */
  ghost predicate PassedGate(env: Env, events: seq<Event>, i: nat, digest: Digest) {
    && i < |events| && events[i].Order? && CanHappen(Follow(env, events[..i]), events[i])
    && CheckAuth(env.fromHex, events[i].o, events[i].now) == Some(digest)
  }

  /** Exactly the authorisations of orders that have passed the gate are used up. */
  lemma {:induction false} UsedExactly(env: Env, events: seq<Event>, digest: Digest)
    ensures digest in Follow(env, events).state.used <==> exists i: nat :: PassedGate(env, events, i, digest)
  {
    if events != [] {
      var n := |events| - 1;
      UsedExactly(env, events[..n], digest);
      GatesOfPrefix(env, events, n, digest);
      UsedInStep(env, Follow(env, events[..n]), events[n], digest);
      assert PassedGate(env, events, n, digest) <==>
             events[n].Order? && CanHappen(Follow(env, events[..n]), events[n]) && CheckAuth(env.fromHex, events[n].o, events[n].now) == Some(digest);
      if digest in Follow(env, events[..n]).state.used {
        var i: nat :| PassedGate(env, events[..n], i, digest);
        assert PassedGate(env, events, i, digest);
      }
      forall i: nat | i < n && PassedGate(env, events, i, digest)
        ensures digest in Follow(env, events[..n]).state.used
      { assert PassedGate(env, events[..n], i, digest); }
    }
  }

  lemma GatesOfPrefix(env: Env, events: seq<Event>, n: nat, digest: Digest)
    requires n <= |events|
    ensures forall i: nat :: i < n ==> (PassedGate(env, events[..n], i, digest) <==> PassedGate(env, events, i, digest))
  {
    forall i: nat | i < n
      ensures PassedGate(env, events[..n], i, digest) <==> PassedGate(env, events, i, digest)
    { assert events[..n][..i] == events[..i]; }
  }

  lemma UsedInStep(env: Env, w: World, e: Event, digest: Digest)
    ensures digest in Happen(env, w, e).state.used <==>
              digest in w.state.used || (e.Order? && CanHappen(w, e) && CheckAuth(env.fromHex, e.o, e.now) == Some(digest))
  {}

  /** Over any run an authorisation leads to at most one acceptance. */
  lemma OneAcceptancePerAuthorisation(env: Env, events: seq<Event>, i: nat, j: nat)
    requires i < j && IsAcceptance(env, events, i) && IsAcceptance(env, events, j)
    ensures AuthOf(events[i]) != AuthOf(events[j])
  {
    UsedStaysUsed(env, events, i, j);
    RunIsAuthentic(env, events[..j]);
    AcceptedIsProper(env, Follow(env, events[..j]).state, events[j].o, events[j].now);
  }

  ghost predicate Authorised(env: Env, events: seq<Event>, i: nat, auth: AuthBody, key: PublicKey)
    requires IsAcceptance(env, events, i)
  {
    var (o, now) := (events[i].o, events[i].now);
    && WasSigned(events[..i], key, OfAuth(auth))
    && ProperlyAccepted(env, Follow(env, events[..i]).state.registry, Follow(env, events[..i + 1]).state.registry,
                        o, now, Process(env, Follow(env, events[..i]).state, o, now).1, auth, key)
  }

  /** ... and every acceptance is for terms the client's key signed earlier in the run, in time, and
      leaves the job with the node drawn for it, attested, in good standing and declaring the model. */
  lemma AcceptanceIsAuthorised(env: Env, events: seq<Event>, i: nat)
    requires IsAcceptance(env, events, i)
    ensures exists auth, key :: Authorised(env, events, i, auth, key)
  {
    var w := Follow(env, events[..i]);
    assert events[..i + 1][..i] == events[..i];
    RunIsAuthentic(env, events[..i]);
    var (o, now) := (events[i].o, events[i].now);
    AcceptedIsProper(env, w.state, o, now);
    var (s', r) := Process(env, w.state, o, now);
    var auth, key :|
      && ProperlyAccepted(env, w.state.registry, s'.registry, o, now, r, auth, key)
      && o.auth.value.signature == Some(Signature(key, OfAuth(auth)));
    SignedMeansSigned(env, events[..i], Signature(key, OfAuth(auth)));
    assert Authorised(env, events, i, auth, key);
  }
}
