/** The signed messages, with ideal cryptography: a digest is the content it is taken of, so it is
    injective, and a signature names its signer and the digest it signs. */
module Protocol {
  import opened Basics

  datatype PublicKey = PublicKey(bytes: string)

  /** What a node says it offers. `rest` is whatever else its declaration holds. */
  datatype Declared = Declared(modelHash: Option<string>, maxCtx: Option<nat>, rest: string)

  /** The signed part of a receipt: everything but the signature. */
  datatype ReceiptBody = ReceiptBody(jobId: string, nodeId: string, modelHash: string, outputDigest: string,
                                     signer: PublicKey, rest: string)

  /** The signed part of a client's authorisation. */
  datatype AuthBody = AuthBody(version: nat, payloadDigest: string, modelHash: string, fee: nat, timeout: nat,
                               nonce: string, validUntil: nat, userPubkey: string)

  /** What a user asks the client for. */
  datatype UserRequest = UserRequest(session: string, content: string, model: string, fee: nat, timeout: nat, userPubkey: string)

  /** Digests, one constructor per kind of content. */
  datatype Digest =
    | OfReceipt(body: ReceiptBody)
    | OfResult(job: string, node: string, ok: bool, error: Option<string>, receipt: Option<Digest>)
    | OfRegistration(node: string, protocol: string, declared: Declared, region: string, key: PublicKey)
    | OfVoucher(node: string, protocol: string, key: PublicKey)
    | OfAuth(auth: AuthBody)
    | OfRequest(request: UserRequest)
    | OfAcceptance(orderId: string, jobId: string, coordinator: string, vrfSeed: string, vrfBlock: nat, estimatedMs: nat)

  datatype Signature = Signature(signer: PublicKey, digest: Digest)

  /** A signature is valid for a key and a digest if it is that key's signature of that digest. */
  predicate Verifies(key: PublicKey, digest: Digest, signature: Option<Signature>) {
    signature == Some(Signature(key, digest))
  }

  // ---------------------------------------------------------------- receipts

  datatype Receipt = Receipt(body: ReceiptBody, signature: Option<Signature>)

  /** The three gates of a receipt: it is signed by the key it names, that is the registered key, and
      it is about this job and this node. */
  predicate ReceiptVerifies(r: Receipt, job: string, node: string, registered: PublicKey) {
    && Verifies(r.body.signer, OfReceipt(r.body), r.signature)
    && r.body.signer == registered
    && r.body.jobId == job
    && r.body.nodeId == node
  }

  /** A receipt passes exactly if it is about this job and node, names the registered key, and that key
      signed all of its content. */
  lemma ReceiptExactly(r: Receipt, job: string, node: string, registered: PublicKey)
    ensures ReceiptVerifies(r, job, node, registered) <==>
              r == Receipt(ReceiptBody(job, node, r.body.modelHash, r.body.outputDigest, registered, r.body.rest),
                           Some(Signature(registered, OfReceipt(r.body))))
  {
    if ReceiptVerifies(r, job, node, registered) {
      assert r.body == ReceiptBody(job, node, r.body.modelHash, r.body.outputDigest, registered, r.body.rest);
    }
  }

  // ---------------------------------------------------------------- acceptances

  datatype OrderAccepted = OrderAccepted(orderId: string, jobId: string, coordinator: string, vrfSeed: string,
                                         vrfBlock: nat, estimatedMs: nat, signature: Option<Signature>)

  function AcceptanceDigest(a: OrderAccepted): Digest {
    OfAcceptance(a.orderId, a.jobId, a.coordinator, a.vrfSeed, a.vrfBlock, a.estimatedMs)
  }

  /** It covers everything but the signature. */
  lemma AcceptanceCovers(a: OrderAccepted, b: OrderAccepted)
    ensures AcceptanceDigest(a) == AcceptanceDigest(b) <==> a.(signature := None) == b.(signature := None)
  {
    if AcceptanceDigest(a) == AcceptanceDigest(b) {
      assert a.(signature := None) == OrderAccepted(a.orderId, a.jobId, a.coordinator, a.vrfSeed, a.vrfBlock, a.estimatedMs, None);
    }
  }

  /** The acceptance carries a valid signature of the coordinator it names. */
  predicate AcceptanceSigned(fromHex: string -> Option<PublicKey>, a: OrderAccepted) {
    var key := fromHex(a.coordinator);
    key.Some? && Verifies(key.value, AcceptanceDigest(a), a.signature)
  }

  // ---------------------------------------------------------------- results

  datatype JobResult = JobResult(jobId: string, nodeId: string, ok: bool, output: Option<string>,
                                 receipt: Option<Receipt>, error: Option<string>, signature: Option<Signature>)

  /** The digest covers the receipt's digest, which leaves out the receipt's own signature; the
      output is covered only through the receipt. */
  function ResultDigest(r: JobResult): Digest {
    OfResult(r.jobId, r.nodeId, r.ok, r.error,
             match r.receipt case None => None case Some(receipt) => Some(OfReceipt(receipt.body)))
  }

  /** What a result's signature does not cover: the output, the receipt's signature, and itself. */
  function Uncovered(r: JobResult): JobResult {
    var receipt := match r.receipt case None => None case Some(x) => Some(Receipt(x.body, None));
    JobResult(r.jobId, r.nodeId, r.ok, None, receipt, r.error, None)
  }

  /** ... and everything else it does. */
  lemma ResultCovers(a: JobResult, b: JobResult)
    ensures ResultDigest(a) == ResultDigest(b) <==> Uncovered(a) == Uncovered(b)
  {
    if Uncovered(a) == Uncovered(b) && a.receipt.Some? {
      assert Uncovered(a).receipt == Some(Receipt(a.receipt.value.body, None));
      assert Uncovered(b).receipt == Some(Receipt(b.receipt.value.body, None));
    }
  }

  // ---------------------------------------------------------------- registrations

  const PROTOCOL_VERSION := "simon/v1"

  datatype RegisterMsg = RegisterMsg(nodeId: string, protocol: string, declared: Declared, attested: Option<Declared>,
                                     region: string, pubkey: PublicKey,
                                     signature: Option<Signature>, voucher: Option<Signature>)

  /** The digest of a registration leaves out what was attested. */
  function RegistrationDigest(m: RegisterMsg): Digest {
    OfRegistration(m.nodeId, m.protocol, m.declared, m.region, m.pubkey)
  }

  /** It covers the rest but for the two signatures. */
  lemma RegistrationCovers(a: RegisterMsg, b: RegisterMsg)
    ensures RegistrationDigest(a) == RegistrationDigest(b) <==>
              a.(attested := None, signature := None, voucher := None) == b.(attested := None, signature := None, voucher := None)
  {
    assert a.(attested := None, signature := None, voucher := None) ==
           RegisterMsg(a.nodeId, a.protocol, a.declared, None, a.region, a.pubkey, None, None);
  }

  function VoucherDigest(m: RegisterMsg): Digest {
    OfVoucher(m.nodeId, m.protocol, m.pubkey)
  }

  // ---------------------------------------------------------------- orders

  const FORMAT_V := 1
  const CLOCK_TOLERANCE := 60
  const U64 := 0x1_0000_0000_0000_0000

  datatype Auth = Auth(body: AuthBody, signature: Option<Signature>)

  datatype JobOrder = JobOrder(orderId: string, modelHash: string, payloadDigest: string, fee: nat, timeout: nat,
                               clientPubkey: string, nonce: string, auth: Option<Auth>)

  /** The authorisation is about the fields the order carries in the open. */
  predicate AgreesWith(a: AuthBody, o: JobOrder) {
    && a.payloadDigest == o.payloadDigest
    && a.modelHash == o.modelHash
    && a.fee == o.fee
    && a.timeout == o.timeout
    && a.userPubkey == o.clientPubkey
    && a.nonce == o.nonce
  }

  /** The deadline is a 64-bit sum, which wraps around. */
  predicate InTime(a: AuthBody, now: nat) {
    now <= (a.validUntil + CLOCK_TOLERANCE) % U64
  }

  /** The coordinator's gate. `fromHex` decodes a key; the result is the authorisation's digest. */
  function CheckAuth(fromHex: string -> Option<PublicKey>, o: JobOrder, now: nat): Option<Digest> {
    match o.auth
    case None => None
    case Some(a) =>
      if a.body.version != FORMAT_V || !AgreesWith(a.body, o) then None else
        match fromHex(a.body.userPubkey)
        case None => None
        case Some(key) =>
          if Verifies(key, OfAuth(a.body), a.signature) && InTime(a.body, now) then Some(OfAuth(a.body)) else None
  }

  /** What passing the gate means: the client's key signed exactly the terms of this order, and the
      deadline plus the tolerance has not passed. */
  lemma GateMeaning(fromHex: string -> Option<PublicKey>, o: JobOrder, now: nat)
    requires CheckAuth(fromHex, o, now).Some?
    ensures exists a: AuthBody, key ::
              && CheckAuth(fromHex, o, now) == Some(OfAuth(a)) && a.version == FORMAT_V
              && AgreesWith(a, o) && fromHex(o.clientPubkey) == Some(key)
              && o.auth.value.signature == Some(Signature(key, OfAuth(a)))
              && now <= a.validUntil + CLOCK_TOLERANCE
  {
    var a := o.auth.value.body;
    assert fromHex(o.clientPubkey) == fromHex(a.userPubkey);
    WrapShrinks(a.validUntil + CLOCK_TOLERANCE);
    assert CheckAuth(fromHex, o, now) == Some(OfAuth(a));
  }

  /** The gate passes exactly an order with an authorisation of version 1 that repeats its terms, signed by
      the key the order names, and in time by the wrapped sum; and it passes on that authorisation. */
  lemma GateExactly(fromHex: string -> Option<PublicKey>, o: JobOrder, now: nat)
    ensures CheckAuth(fromHex, o, now).Some? <==>
              exists until: nat, key :: Signs(fromHex, o, until, key) && now <= (until + 60) % 0x1_0000_0000_0000_0000
    ensures CheckAuth(fromHex, o, now).Some? ==> CheckAuth(fromHex, o, now) == Some(OfAuth(o.auth.value.body))
  {
    if CheckAuth(fromHex, o, now).Some? {
      var a := o.auth.value.body;
      assert a == Terms(o, a.validUntil);
      assert Signs(fromHex, o, a.validUntil, fromHex(a.userPubkey).value);
    }
  }

  /** An authorisation of just what the order says. */
  function Terms(o: JobOrder, until: nat): AuthBody {
    AuthBody(1, o.payloadDigest, o.modelHash, o.fee, o.timeout, o.nonce, until, o.clientPubkey)
  }

  ghost predicate Signs(fromHex: string -> Option<PublicKey>, o: JobOrder, until: nat, key: PublicKey) {
    && fromHex(o.clientPubkey) == Some(key)
    && o.auth == Some(Auth(Terms(o, until), Some(Signature(key, OfAuth(Terms(o, until))))))
  }

  /** On 64-bit clocks and deadlines the check is the comparison it stands for exactly when the sum
      does not wrap around, or the clock is still below what is left of it. So a deadline within a
      minute of the largest number, meant as "never", has expired at any present time. */
  lemma DeadlineExactly(a: AuthBody, now: nat)
    requires a.validUntil < U64 && now < U64
    ensures var sum := a.validUntil + CLOCK_TOLERANCE;
            (InTime(a, now) <==> now <= sum) <==> (sum < U64 || now <= sum - U64)
    ensures a.validUntil == U64 - 1 ==> (InTime(a, now) <==> now < 60)
  {
    WrapOnce(a.validUntil + CLOCK_TOLERANCE);
  }

  lemma WrapOnce(n: nat)
    requires n < 2 * U64
    ensures n % U64 == if n < U64 then n else n - U64
  {}

  lemma WrapShrinks(n: nat)
    ensures n % U64 <= n
  {}
}
