/** The coordinator's registry of nodes and assignments. The functions say what each operation does to
    the registry as a value; class `Registry` does it in place. */
module NodeRegistry {
  import opened Basics
  import opened Protocol
  import opened Lex

  datatype NodeState = Registered | Healthy | Busy | Degraded | Evicted

  datatype View = View(
    nodes: map<string, RegisterMsg>,
    states: map<string, NodeState>,
    jobs: map<string, string>,
    timeout: Option<nat>,
    lastSeen: map<string, nat>)

  const EMPTY := View(map[], map[], map[], None, map[])

  // ---------------------------------------------------------------- the operations

  function Admit(v: View, m: RegisterMsg): View {
    v.(nodes := v.nodes[m.nodeId := m], states := v.states[m.nodeId := Registered])
  }

  predicate MayRegister(v: View, m: RegisterMsg) {
    m.protocol == PROTOCOL_VERSION && m.nodeId !in v.nodes
  }

  /** Also proves possession of the key, and carries the operator's voucher if one is demanded. */
  predicate MayRegisterVerified(v: View, m: RegisterMsg, operator: Option<PublicKey>) {
    && MayRegister(v, m)
    && Verifies(m.pubkey, RegistrationDigest(m), m.signature)
    && (operator.Some? ==> Verifies(operator.value, VoucherDigest(m), m.voucher))
  }

  predicate Usable(v: View, node: string) {
    && node in v.nodes && v.nodes[node].attested.Some?
    && !(node in v.states && (v.states[node] == Evicted || v.states[node] == Degraded))
  }

  function Assign(v: View, job: string, node: string): View {
    if Usable(v, node) then v.(jobs := v.jobs[job := node]) else v
  }

  function WithState(v: View, node: string, state: NodeState): View {
    if node in v.nodes then v.(states := v.states[node := state]) else v
  }

  function BeatAt(v: View, node: string, now: nat): View {
    if node in v.nodes then WithState(v, node, Healthy).(lastSeen := v.lastSeen[node := now]) else v
  }

  function Unassign(v: View, job: string): View {
    v.(jobs := v.jobs - {job})
  }

  predicate IsAssigned(v: View, job: string, node: string) {
    job in v.jobs && v.jobs[job] == node
  }

  function JobsOf(v: View, node: string): set<string> {
    set job | job in v.jobs && v.jobs[job] == node
  }

  function Evict(v: View, node: string): View {
    if node in v.nodes then v.(states := v.states[node := Evicted], jobs := v.jobs - JobsOf(v, node)) else v
  }

  /** A success needs a receipt that verifies under the key registered for the node. */
  predicate MayComplete(v: View, r: JobResult) {
    && IsAssigned(v, r.jobId, r.nodeId)
    && (r.ok ==> r.receipt.Some? && r.nodeId in v.nodes &&
                 ReceiptVerifies(r.receipt.value, r.jobId, r.nodeId, v.nodes[r.nodeId].pubkey))
  }

  // ---------------------------------------------------------------- candidates

  /** The context check compares against the low 32 bits of the declared limit. */
  predicate FitsContext(d: Declared, required: nat) {
    required == 0 ||
    var limit := if d.maxCtx.Some? then d.maxCtx.value else 0;
    limit == 0 || required <= limit % 0x1_0000_0000
  }

  predicate IsCandidate(v: View, model: string, ctx: nat, node: string) {
    && Usable(v, node)
    && v.nodes[node].declared.modelHash == Some(model)
    && FitsContext(v.nodes[node].declared, ctx)
  }

  predicate IsFresh(v: View, node: string, now: nat) {
    v.timeout.Some? && node in v.lastSeen ==>
      (if now >= v.lastSeen[node] then now - v.lastSeen[node] else 0) <= v.timeout.value
  }

  function Candidates(v: View, model: string, ctx: nat, now: nat): set<string> {
    set node | node in v.nodes && IsCandidate(v, model, ctx, node) && IsFresh(v, node, now)
  }

  /** The truncation makes the filter stricter than the comparison it is meant to be: it never lets a
      node through that is too small, and it agrees exactly when the limit fits 32 bits or its low
      bits still cover the requirement. */
  lemma ContextFilterExactly(d: Declared, required: nat, limit: nat)
    requires d.maxCtx == Some(limit) && 0 < required && limit > 0
    ensures FitsContext(d, required) ==> required <= limit
    ensures (FitsContext(d, required) <==> required <= limit) <==>
            limit < required || limit % 0x1_0000_0000 >= required
    ensures limit < 0x1_0000_0000 ==> (FitsContext(d, required) <==> required <= limit)
  {
    LowBits(limit);
  }

  /** Without a requirement, or without a limit, every node fits. */
  lemma UnlimitedFits(d: Declared, required: nat)
    requires required == 0 || d.maxCtx.None? || d.maxCtx == Some(0)
    ensures FitsContext(d, required)
  {}

  /** A node counts as fresh if no timeout is set or it has never been heard of, and otherwise up to and
      including the timeout from the last time it was. */
  lemma FreshExactly(v: View, node: string, now: nat)
    ensures v.timeout.None? || node !in v.lastSeen ==> IsFresh(v, node, now)
    ensures v.timeout.Some? && node in v.lastSeen ==> (IsFresh(v, node, now) <==> now <= v.lastSeen[node] + v.timeout.value)
  {}

  /** For instance a declared limit of 2^32 + 100 counts as 100, and 512 are refused. */
  lemma LargeLimitRefused(rest: string)
    ensures var limit := 0x1_0000_0000 + 100;
            var d := Declared(Some("model"), Some(limit), rest);
            512 <= limit && !FitsContext(d, 512) && FitsContext(d, 100)
  {}

  lemma LowBits(n: nat)
    ensures n % 0x1_0000_0000 <= n
    ensures n < 0x1_0000_0000 ==> n % 0x1_0000_0000 == n
  {}

  // ---------------------------------------------------------------- the pick

  /** The two hashes of the draw: the seed of a job, and a candidate's number under a seed. */
  datatype Hashes = Hashes(seed: (string, string) -> string, pick: (string, string) -> string)

  function Ticket(h: Hashes, seed: string, node: string): (string, string) {
    (h.pick(seed, node), node)
  }

  /** `node` holds the smallest ticket, ties going to the smaller name. */
  ghost predicate IsPick(h: Hashes, seed: string, nodes: set<string>, node: string) {
    node in nodes && forall other :: other in nodes && other != node ==> PairLess(Ticket(h, seed, node), Ticket(h, seed, other))
  }

  lemma PickIsUnique(h: Hashes, seed: string, nodes: set<string>, a: string, b: string)
    requires IsPick(h, seed, nodes, a) && IsPick(h, seed, nodes, b)
    ensures a == b
  {
    PairLessOrder(Ticket(h, seed, a), Ticket(h, seed, b), Ticket(h, seed, a));
  }

  /** Losing a node that was not chosen does not change the choice. */
  lemma LosingAnotherKeepsThePick(h: Hashes, seed: string, nodes: set<string>, fewer: set<string>, node: string)
    requires IsPick(h, seed, nodes, node) && fewer <= nodes && node in fewer
    ensures IsPick(h, seed, fewer, node)
  {}

  /** A new node either takes over or changes nothing. */
  lemma NewNodeOrOldPick(h: Hashes, seed: string, nodes: set<string>, before: string, arrival: string)
    requires IsPick(h, seed, nodes, before)
    ensures IsPick(h, seed, nodes + {arrival}, before) || IsPick(h, seed, nodes + {arrival}, arrival)
  {
    PairLessOrder(Ticket(h, seed, before), Ticket(h, seed, arrival), Ticket(h, seed, before));
    if PairLess(Ticket(h, seed, arrival), Ticket(h, seed, before)) {
      forall other | other in nodes && other != arrival
        ensures PairLess(Ticket(h, seed, arrival), Ticket(h, seed, other))
      { PairLessOrder(Ticket(h, seed, arrival), Ticket(h, seed, before), Ticket(h, seed, other)); }
    }
  }

  // ---------------------------------------------------------------- the object

  class Registry {
    var nodes: map<string, RegisterMsg>
    var states: map<string, NodeState>
    var jobs: map<string, string>
    var timeout: Option<nat>
    var lastSeen: map<string, nat>

    function Contents(): View
      reads this
    {
      View(nodes, states, jobs, timeout, lastSeen)
    }

    constructor ()
      ensures Contents() == EMPTY
    {
      nodes, states, jobs, timeout, lastSeen := map[], map[], map[], None, map[];
    }

    method Register(m: RegisterMsg) returns (ok: bool)
      modifies this
      ensures ok == MayRegister(old(Contents()), m)
      ensures Contents() == if ok then Admit(old(Contents()), m) else old(Contents())
    {
      if m.protocol != PROTOCOL_VERSION || m.nodeId in nodes {
        return false;
      }
      nodes := nodes[m.nodeId := m];
      states := states[m.nodeId := Registered];
      return true;
    }

    method RegisterVerified(m: RegisterMsg, operator: Option<PublicKey>) returns (ok: bool)
      modifies this
      ensures ok == MayRegisterVerified(old(Contents()), m, operator)
      ensures Contents() == if ok then Admit(old(Contents()), m) else old(Contents())
    {
      if m.protocol != PROTOCOL_VERSION || m.nodeId in nodes {
        return false;
      }
      if !Verifies(m.pubkey, RegistrationDigest(m), m.signature) {
        return false;
      }
      if operator.Some? && !Verifies(operator.value, VoucherDigest(m), m.voucher) {
        return false;
      }
      nodes := nodes[m.nodeId := m];
      states := states[m.nodeId := Registered];
      return true;
    }

    method AssignJob(job: string, node: string) returns (ok: bool)
      modifies this
      ensures ok == Usable(old(Contents()), node)
      ensures Contents() == Assign(old(Contents()), job, node)
    {
      if node !in nodes || nodes[node].attested.None? {
        return false;
      }
      if node in states && (states[node] == Evicted || states[node] == Degraded) {
        return false;
      }
      jobs := jobs[job := node];
      return true;
    }

    method Complete(r: JobResult) returns (ok: bool)
      modifies this
      ensures ok == MayComplete(old(Contents()), r)
      ensures Contents() == if ok then Unassign(old(Contents()), r.jobId) else old(Contents())
    {
      if r.jobId !in jobs || jobs[r.jobId] != r.nodeId {
        return false;
      }
      if r.ok {
        if r.receipt.None? || r.nodeId !in nodes {
          return false;
        }
        if !ReceiptVerifies(r.receipt.value, r.jobId, r.nodeId, nodes[r.nodeId].pubkey) {
          return false;
        }
      }
      jobs := jobs - {r.jobId};
      return true;
    }

    /** Takes the node out and returns the jobs it held, each once. */
    method EvictNode(node: string) returns (orphaned: seq<string>)
      modifies this
      ensures Contents() == Evict(old(Contents()), node)
      ensures forall job :: job in orphaned <==> node in old(nodes) && job in JobsOf(old(Contents()), node)
      ensures forall i, j :: 0 <= i < j < |orphaned| ==> orphaned[i] != orphaned[j]
    {
      orphaned := [];
      if node !in nodes {
        return;
      }
      states := states[node := Evicted];
      var left := jobs.Keys;
      while left != {}
        invariant left <= jobs.Keys
        invariant forall job :: job in orphaned <==> job in jobs && job !in left && jobs[job] == node
        invariant forall i, j :: 0 <= i < j < |orphaned| ==> orphaned[i] != orphaned[j]
        decreases left
      {
        var job :| job in left;
        left := left - {job};
        if jobs[job] == node {
          orphaned := orphaned + [job];
        }
      }
      ghost var all := jobs;
      var i := 0;
      while i < |orphaned|
        invariant 0 <= i <= |orphaned|
        invariant jobs == all - (set job | job in orphaned[..i])
        invariant Contents().(jobs := map[]) == WithState(old(Contents()), node, Evicted).(jobs := map[])
      {
        assert orphaned[..i + 1] == orphaned[..i] + [orphaned[i]];
        jobs := jobs - {orphaned[i]};
        i := i + 1;
      }
      assert orphaned[..i] == orphaned;
      assert (set job | job in orphaned) == JobsOf(old(Contents()), node);
    }

    method SetState(node: string, state: NodeState) returns (ok: bool)
      modifies this
      ensures ok == (node in old(nodes))
      ensures Contents() == WithState(old(Contents()), node, state)
    {
      if node !in nodes {
        return false;
      }
      states := states[node := state];
      return true;
    }

    method RecordHeartbeat(node: string, now: nat) returns (ok: bool)
      modifies this
      ensures ok == (node in old(nodes))
      ensures Contents() == BeatAt(old(Contents()), node, now)
    {
      if node !in nodes {
        return false;
      }
      states := states[node := Healthy];
      lastSeen := lastSeen[node := now];
      return true;
    }

    method CompleteJob(job: string) returns (former: Option<string>)
      modifies this
      ensures former == if job in old(jobs) then Some(old(jobs)[job]) else None
      ensures Contents() == Unassign(old(Contents()), job)
    {
      former := if job in jobs then Some(jobs[job]) else None;
      jobs := jobs - {job};
    }

    /** The candidates for a model, sorted; the nodes are visited in any order. */
    method CandidatesFor(model: string, ctx: nat) returns (out: seq<string>)
      requires forall k :: k in nodes ==> nodes[k].nodeId == k
      ensures Ascending(out)
      ensures forall node :: node in out <==> IsCandidate(Contents(), model, ctx, node)
    {
      out := [];
      var left := nodes.Keys;
      while left != {}
        invariant left <= nodes.Keys
        invariant forall node :: node in out <==> node in nodes && node !in left && IsCandidate(Contents(), model, ctx, node)
        invariant forall i, j :: 0 <= i < j < |out| ==> out[i] != out[j]
        decreases left
      {
        var node :| node in left;
        left := left - {node};
        if IsCandidate(Contents(), model, ctx, node) {
          out := out + [nodes[node].nodeId];
        }
      }
      SortAscends(out);
      out := Sort(out);
    }

    /** The draw: the fresh candidate with the smallest ticket, and the seed. */
    method PickCandidate(h: Hashes, model: string, ctx: nat, job: string, now: nat) returns (r: Option<(string, string)>)
      requires forall k :: k in nodes ==> nodes[k].nodeId == k
      ensures r.None? <==> Candidates(Contents(), model, ctx, now) == {}
      ensures r.Some? ==> r.value.1 == h.seed(model, job) &&
                          IsPick(h, r.value.1, Candidates(Contents(), model, ctx, now), r.value.0)
    {
      var all := CandidatesFor(model, ctx);
      var seed := h.seed(model, job);
      var best: Option<(string, string)> := None;
      ghost var seen: set<string> := {};
      for i := 0 to |all|
        invariant seen == set node | node in all[..i] && IsFresh(Contents(), node, now)
        invariant best.None? <==> seen == {}
        invariant best.Some? ==> best.value.0 in all[..i] && best.value.1 == h.pick(seed, best.value.0) && IsPick(h, seed, seen, best.value.0)
      {
        var cand := all[i];
        assert all[..i + 1] == all[..i] + [cand];
        if IsFresh(Contents(), cand, now) {
          var ticket := h.pick(seed, cand);
          if best.Some? { Challenge(h, seed, seen, all, i, best.value.0); }
          seen := seen + {cand};
          if best.None? || Less(ticket, best.value.1) {
            best := Some((cand, ticket));
          }
        }
      }
      assert all[..|all|] == all;
      assert seen == Candidates(Contents(), model, ctx, now);
      r := if best.None? then None else Some((best.value.0, seed));
    }
  }

  /** The next candidate in ascending order takes over exactly when its number is strictly smaller. */
  lemma Challenge(h: Hashes, seed: string, seen: set<string>, all: seq<string>, i: nat, best: string)
    requires Ascending(all) && i < |all| && best in all[..i] && IsPick(h, seed, seen, best)
    ensures if Less(h.pick(seed, all[i]), h.pick(seed, best)) then IsPick(h, seed, seen + {all[i]}, all[i])
            else IsPick(h, seed, seen + {all[i]}, best)
  {
    var cand := all[i];
    var k :| 0 <= k < i && all[k] == best;
    assert Less(best, cand);
    LessTotal(h.pick(seed, cand), h.pick(seed, best));
    PairLessOrder(Ticket(h, seed, cand), Ticket(h, seed, best), Ticket(h, seed, cand));
    if Less(h.pick(seed, cand), h.pick(seed, best)) {
      forall other | other in seen && other != cand
        ensures PairLess(Ticket(h, seed, cand), Ticket(h, seed, other))
      { PairLessOrder(Ticket(h, seed, cand), Ticket(h, seed, best), Ticket(h, seed, other)); }
    }
  }

  // ---------------------------------------------------------------- what every run keeps

  datatype Op =
    | DoRegister(m: RegisterMsg)
    | DoRegisterVerified(m: RegisterMsg, operator: Option<PublicKey>)
    | DoAssign(job: string, node: string)
    | DoComplete(r: JobResult)
    | DoCompleteJob(job: string)
    | DoEvict(node: string)
    | DoDegrade(node: string)
    | DoBeat(node: string)
    | DoBeatAt(node: string, now: nat)
    | DoSetTimeout(timeout: Option<nat>)

  function Perform(v: View, op: Op): View {
    match op
    case DoRegister(m) => if MayRegister(v, m) then Admit(v, m) else v
    case DoRegisterVerified(m, operator) => if MayRegisterVerified(v, m, operator) then Admit(v, m) else v
    case DoAssign(job, node) => Assign(v, job, node)
    case DoComplete(r) => if MayComplete(v, r) then Unassign(v, r.jobId) else v
    case DoCompleteJob(job) => Unassign(v, job)
    case DoEvict(node) => Evict(v, node)
    case DoDegrade(node) => WithState(v, node, Degraded)
    case DoBeat(node) => WithState(v, node, Healthy)
    case DoBeatAt(node, now) => BeatAt(v, node, now)
    case DoSetTimeout(timeout) => v.(timeout := timeout)
  }

  function After(v: View, ops: seq<Op>): View {
    if ops == [] then v else Perform(After(v, ops[..|ops| - 1]), ops[|ops| - 1])
  }

  /** A job is only ever held by a registered, attested node that is not evicted. */
  ghost predicate Consistent(v: View) {
    && v.states.Keys == v.nodes.Keys
    && v.lastSeen.Keys <= v.nodes.Keys
    && (forall k :: k in v.nodes ==> v.nodes[k].nodeId == k && v.nodes[k].protocol == PROTOCOL_VERSION)
    && (forall job :: job in v.jobs ==>
          var node := v.jobs[job];
          node in v.nodes && v.nodes[node].attested.Some? && v.states[node] != Evicted)
  }

  lemma AdmitKeepsConsistent(v: View, m: RegisterMsg)
    requires Consistent(v) && MayRegister(v, m)
    ensures Consistent(Admit(v, m))
  {}

  lemma EvictKeepsConsistent(v: View, node: string)
    requires Consistent(v)
    ensures Consistent(Evict(v, node))
  {}

  lemma WithStateKeepsConsistent(v: View, node: string, state: NodeState)
    requires Consistent(v) && state != Evicted
    ensures Consistent(WithState(v, node, state))
  {}

  lemma PerformKeepsConsistent(v: View, op: Op)
    requires Consistent(v)
    ensures Consistent(Perform(v, op))
    ensures forall k :: k in v.nodes ==> k in Perform(v, op).nodes && Perform(v, op).nodes[k] == v.nodes[k]
  {
    match op
    case DoRegister(m) => if MayRegister(v, m) { AdmitKeepsConsistent(v, m); }
    case DoRegisterVerified(m, operator) => if MayRegisterVerified(v, m, operator) { AdmitKeepsConsistent(v, m); }
    case DoAssign(_, _) =>
    case DoComplete(_) =>
    case DoCompleteJob(_) =>
    case DoEvict(node) => EvictKeepsConsistent(v, node);
    case DoDegrade(node) => WithStateKeepsConsistent(v, node, Degraded);
    case DoBeat(node) => WithStateKeepsConsistent(v, node, Healthy);
    case DoBeatAt(node, _) => WithStateKeepsConsistent(v, node, Healthy);
    case DoSetTimeout(_) =>
  }

  /** Over every run of the registry's operations: the registry stays consistent, and what a node
      registered, its key included, never changes. */
  lemma {:induction false} RunKeepsConsistent(v: View, ops: seq<Op>)
    requires Consistent(v)
    ensures Consistent(After(v, ops))
    ensures forall k :: k in v.nodes ==> k in After(v, ops).nodes && After(v, ops).nodes[k] == v.nodes[k]
  {
    if ops != [] {
      RunKeepsConsistent(v, ops[..|ops| - 1]);
      PerformKeepsConsistent(After(v, ops[..|ops| - 1]), ops[|ops| - 1]);
    }
  }

  /** What a step makes of a node's state: it follows the one operation that names the node. */
  lemma StateStepExactly(v: View, op: Op, node: string)
    requires Consistent(v) && node in v.nodes
    ensures node in Perform(v, op).states
    ensures Perform(v, op).states[node] == (if op == DoEvict(node) then Evicted else if op == DoDegrade(node) then Degraded
                                            else if HearsOf(op, node) then Healthy else v.states[node])
  {
    match op
    case DoRegister(m) => AdmitKeepsState(v, m, node);
    case DoRegisterVerified(m, _) => AdmitKeepsState(v, m, node);
    case DoEvict(n) => NamedStep(v, op, n, node);
    case DoDegrade(n) => NamedStep(v, op, n, node);
    case DoBeat(n) => NamedStep(v, op, n, node);
    case DoBeatAt(n, _) => NamedStep(v, op, n, node);
    case _ =>
  }

  lemma NamedStep(v: View, op: Op, n: string, node: string)
    requires node in v.nodes && node in v.states
    requires (op.DoEvict? || op.DoDegrade? || op.DoBeat? || op.DoBeatAt?) && op.node == n
    ensures node in Perform(v, op).states
    ensures Perform(v, op).states[node] == if n != node then v.states[node] else if op.DoEvict? then Evicted
                                           else if op.DoDegrade? then Degraded else Healthy
  {}

  lemma AdmitKeepsState(v: View, m: RegisterMsg, node: string)
    requires node in v.states && node in v.nodes
    ensures m.nodeId !in v.nodes ==> node in Admit(v, m).states && Admit(v, m).states[node] == v.states[node]
  {}

  /** A new node comes with a registration of its own, of the right version, and begins as registered. */
  lemma NewNodeExactly(v: View, op: Op, node: string)
    requires node !in v.nodes && node in Perform(v, op).nodes
    ensures op.DoRegister? || op.DoRegisterVerified?
    ensures var (m, w) := (op.m, Perform(v, op));
            && w.nodes == v.nodes[node := m] && m.nodeId == node && m.protocol == "simon/v1"
            && w.states == v.states[node := Registered] && w.jobs == v.jobs
  {
    match op
    case DoRegister(_) =>
    case DoRegisterVerified(_, _) =>
    case DoAssign(_, _) =>
    case DoComplete(_) =>
    case DoCompleteJob(_) =>
    case DoEvict(_) =>
    case DoDegrade(_) =>
    case DoBeat(_) =>
    case DoBeatAt(_, _) =>
    case DoSetTimeout(_) =>
  }

  /** ... and the time it was last heard of follows the timed heartbeats alone. */
  lemma HeardStepExactly(v: View, op: Op, node: string)
    requires Consistent(v)
    ensures var w := Perform(v, op);
            if op.DoBeatAt? && op.node == node && node in v.nodes then node in w.lastSeen && w.lastSeen[node] == op.now
            else (node in w.lastSeen <==> node in v.lastSeen) && (node in v.lastSeen ==> w.lastSeen[node] == v.lastSeen[node])
  {}

  /** The step ends this assignment. */
  predicate Releases(v: View, op: Op, job: string, node: string) {
    match op
    case DoCompleteJob(j) => j == job
    case DoComplete(r) => r.jobId == job && MayComplete(v, r)
    case DoEvict(n) => n == node && node in v.nodes
    case DoAssign(j, n) => j == job && n != node && Usable(v, n)
    case _ => false
  }

  /** What a step makes of an assignment: it holds afterwards exactly if it was just made, to a usable
      node, or held before and was not released. */
  lemma JobStepExactly(v: View, op: Op, job: string, node: string)
    requires Consistent(v)
    ensures IsAssigned(Perform(v, op), job, node) <==>
              (op == DoAssign(job, node) && Usable(v, node)) || (IsAssigned(v, job, node) && !Releases(v, op, job, node))
  {
    match op
    case DoRegister(_) =>
    case DoRegisterVerified(_, _) =>
    case DoAssign(j, n) => AssignmentOfJob(v, j, n, job, node);
    case DoComplete(_) =>
    case DoCompleteJob(_) =>
    case DoEvict(n) => EvictionOfJob(v, n, job, node);
    case DoDegrade(_) =>
    case DoBeat(_) =>
    case DoBeatAt(_, _) =>
    case DoSetTimeout(_) =>
  }

  lemma AssignmentOfJob(v: View, j: string, n: string, job: string, node: string)
    ensures IsAssigned(Assign(v, j, n), job, node) <==>
              if j == job && Usable(v, n) then n == node else IsAssigned(v, job, node)
  {}

  lemma EvictionOfJob(v: View, n: string, job: string, node: string)
    ensures IsAssigned(Evict(v, n), job, node) <==> IsAssigned(v, job, node) && !(n == node && n in v.nodes)
  {
    assert job in v.jobs ==> (job in JobsOf(v, n) <==> v.jobs[job] == n);
  }

  /** A node is usable exactly if it was registered with an attestation and is registered, healthy or busy. */
  lemma UsableMeans(v: View, node: string)
    requires Consistent(v)
    ensures Usable(v, node) <==> node in v.nodes && v.nodes[node].attested.Some? && v.states[node] in {Registered, Healthy, Busy}
  {}

  /** A result ends an assignment through the registry exactly if it names the node that holds the job
      and, where it claims success, comes with a receipt the node's registered key signed for the two. */
  lemma CompletesExactly(v: View, r: JobResult)
    requires Consistent(v)
    ensures MayComplete(v, r) <==>
              && IsAssigned(v, r.jobId, r.nodeId)
              && (r.ok ==> exists model, output, rest ::
                    r.receipt == Some(SignedReceipt(v.nodes[r.nodeId].pubkey,
                                                    ReceiptBody(r.jobId, r.nodeId, model, output, v.nodes[r.nodeId].pubkey, rest))))
  {
    if IsAssigned(v, r.jobId, r.nodeId) && r.receipt.Some? {
      var key, receipt := v.nodes[r.nodeId].pubkey, r.receipt.value;
      ReceiptExactly(receipt, r.jobId, r.nodeId, key);
      if ReceiptVerifies(receipt, r.jobId, r.nodeId, key) {
        var (m, output, rest) := (receipt.body.modelHash, receipt.body.outputDigest, receipt.body.rest);
        assert receipt == SignedReceipt(key, ReceiptBody(r.jobId, r.nodeId, m, output, key, rest));
      }
    }
  }

  function SignedReceipt(key: PublicKey, body: ReceiptBody): Receipt {
    Receipt(body, Some(Signature(key, OfReceipt(body))))
  }

  /** Eviction takes away exactly the node's jobs. */
  lemma EvictionTakesExactly(v: View, node: string)
    requires Consistent(v) && node in v.nodes
    ensures JobsOf(Evict(v, node), node) == {} && Evict(v, node).states[node] == Evicted
    ensures forall job :: job in v.jobs && v.jobs[job] != node ==>
              job in Evict(v, node).jobs && Evict(v, node).jobs[job] == v.jobs[job]
  {}

  /** The operations that report a node alive. */
  predicate HearsOf(op: Op, node: string) {
    op == DoBeat(node) || (op.DoBeatAt? && op.node == node)
  }

  /** Out of the draw and without jobs. */
  ghost predicate IsOut(v: View, node: string) {
    && node in v.nodes && node in v.states && (v.states[node] == Evicted || v.states[node] == Degraded)
    && JobsOf(v, node) == {}
  }

  lemma StaysOut(v: View, op: Op, node: string)
    requires IsOut(v, node) && !HearsOf(op, node)
    ensures IsOut(Perform(v, op), node)
  {
    var w := Perform(v, op);
    forall job | job in w.jobs
      ensures w.jobs[job] != node
    {
      if job in v.jobs { assert v.jobs[job] == node ==> job in JobsOf(v, node); }
    }
  }

  /** After an eviction, and over every run of operations that does not hear of the node again, it holds
      no job and is drawn for none. */
  lemma EvictedHoldsNothing(before: seq<Op>, node: string, later: seq<Op>)
    requires node in After(EMPTY, before).nodes
    requires forall i :: 0 <= i < |later| ==> !HearsOf(later[i], node)
    ensures var v := After(After(EMPTY, before + [DoEvict(node)]), later);
            && IsOut(v, node)
            && (forall job :: Assign(v, job, node) == v)
            && (forall model, ctx: nat, now: nat :: node !in Candidates(v, model, ctx, now))
  {
    EvictedStaysOut(before, node, later);
  }

  lemma {:induction false} EvictedStaysOut(before: seq<Op>, node: string, later: seq<Op>)
    requires node in After(EMPTY, before).nodes
    requires forall i :: 0 <= i < |later| ==> !HearsOf(later[i], node)
    ensures IsOut(After(After(EMPTY, before + [DoEvict(node)]), later), node)
  {
    if later == [] {
      RunKeepsConsistent(EMPTY, before);
      assert (before + [DoEvict(node)])[..|before|] == before;
      EvictionTakesExactly(After(EMPTY, before), node);
    } else {
      var n := |later| - 1;
      EvictedStaysOut(before, node, later[..n]);
      StaysOut(After(After(EMPTY, before + [DoEvict(node)]), later[..n]), later[n], node);
    }
  }

  /** A heartbeat brings back even an evicted node: it is drawn from again, with the jobs it lost still
      gone, for exactly as long as the timeout from that heartbeat. */
  lemma HeartbeatRevives(v: View, node: string, beat: nat, model: string, ctx: nat, now: nat)
    requires Consistent(v) && node in v.nodes
    ensures var w := BeatAt(Evict(v, node), node, beat);
            && JobsOf(w, node) == {}
            && (node in Candidates(w, model, ctx, now) <==>
                  && v.nodes[node].attested.Some?
                  && v.nodes[node].declared.modelHash == Some(model) && FitsContext(v.nodes[node].declared, ctx)
                  && (v.timeout.None? || now <= beat + v.timeout.value))
  {
    var w := BeatAt(Evict(v, node), node, beat);
    assert w.nodes == v.nodes && w.states[node] == Healthy && w.lastSeen[node] == beat;
  }

  // ---------------------------------------------------------------- the pick as a function of the registry

  /** Someone always has the smallest ticket. */
  lemma {:induction false} PickExists(h: Hashes, seed: string, nodes: set<string>)
    requires nodes != {}
    ensures exists node :: IsPick(h, seed, nodes, node)
    decreases |nodes|
  {
    var x :| x in nodes;
    if nodes == {x} {
      assert IsPick(h, seed, nodes, x);
    } else {
      assert |nodes - {x}| < |nodes|;
      PickExists(h, seed, nodes - {x});
      var y :| IsPick(h, seed, nodes - {x}, y);
      NewNodeOrOldPick(h, seed, nodes - {x}, y, x);
      assert nodes - {x} + {x} == nodes;
    }
  }

  ghost function Pick(h: Hashes, v: View, model: string, ctx: nat, job: string, now: nat): Option<string> {
    var nodes, seed := Candidates(v, model, ctx, now), h.seed(model, job);
    if nodes == {} then None else
      PickExists(h, seed, nodes);
      var node :| IsPick(h, seed, nodes, node);
      Some(node)
  }

  lemma PickIs(h: Hashes, v: View, model: string, ctx: nat, job: string, now: nat, node: string)
    requires IsPick(h, h.seed(model, job), Candidates(v, model, ctx, now), node)
    ensures Pick(h, v, model, ctx, job, now) == Some(node)
  {
    var nodes, seed := Candidates(v, model, ctx, now), h.seed(model, job);
    PickExists(h, seed, nodes);
    PickIsUnique(h, seed, nodes, node, Pick(h, v, model, ctx, job, now).value);
  }

  /** Rendezvous: degrading or evicting a node that was not drawn leaves every draw as it was. */
  lemma LosingANodeKeepsTheDraw(h: Hashes, v: View, lost: string, state: NodeState, model: string, ctx: nat, job: string, now: nat)
    requires state == Degraded || state == Evicted
    requires Pick(h, v, model, ctx, job, now) != Some(lost)
    ensures var v' := if state == Evicted then Evict(v, lost) else WithState(v, lost, state);
            Pick(h, v', model, ctx, job, now) == Pick(h, v, model, ctx, job, now)
  {
    var v' := if state == Evicted then Evict(v, lost) else WithState(v, lost, state);
    var nodes, nodes' := Candidates(v, model, ctx, now), Candidates(v', model, ctx, now);
    assert nodes' == nodes - {lost};
    if nodes != {} {
      PickExists(h, h.seed(model, job), nodes);
      var node := Pick(h, v, model, ctx, job, now).value;
      LosingAnotherKeepsThePick(h, h.seed(model, job), nodes, nodes', node);
      PickIs(h, v', model, ctx, job, now, node);
    }
  }

  /** ... and a registration either wins the draw or leaves it as it was. */
  lemma NewcomerWinsOrNothingChanges(h: Hashes, v: View, m: RegisterMsg, model: string, ctx: nat, job: string, now: nat)
    requires Consistent(v) && MayRegister(v, m)
    ensures var d := Pick(h, Admit(v, m), model, ctx, job, now);
            d == Pick(h, v, model, ctx, job, now) || d == Some(m.nodeId)
  {
    var v', seed := Admit(v, m), h.seed(model, job);
    var nodes, nodes' := Candidates(v, model, ctx, now), Candidates(v', model, ctx, now);
    assert nodes' == nodes || nodes' == nodes + {m.nodeId};
    if nodes' == nodes {
    } else if nodes == {} {
      PickExists(h, seed, nodes');
    } else {
      PickExists(h, seed, nodes);
      var node := Pick(h, v, model, ctx, job, now).value;
      NewNodeOrOldPick(h, seed, nodes, node, m.nodeId);
      if IsPick(h, seed, nodes', node) { PickIs(h, v', model, ctx, job, now, node); }
      else { PickIs(h, v', model, ctx, job, now, m.nodeId); }
    }
  }
}
