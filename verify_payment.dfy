/**
 * The decision taken by the `/verify-payment` handler of server.js: given the
 * three fields of a checkout callback and the server's key secret, either the
 * request lacks a field, or the claimed signature is the HMAC-SHA256 hex digest
 * of "order_id|payment_id", or it is not.
 *
 * The keyed hash is not modelled: every member takes it as a parameter `hmac`,
 * an arbitrary deterministic function from (key, message) to its hex digest.
 * What is proved holds for every such function; the few facts that need more of
 * SHA-256 (its digest length and alphabet, freedom from collisions) are stated
 * as explicit hypotheses.
 */
module PaymentVerification {
  import opened Wrappers

  /** HMAC-SHA256 rendered as lowercase hex: (key, message) -> digest. */
  type Mac = (string, string) -> string

  /** The three fields destructured from the request body. */
  datatype VerifyRequest = VerifyRequest(
    orderId: Option<string>,
    paymentId: Option<string>,
    signature: Option<string>)

  /** What the handler answers, one case per `return` of the try block. */
  datatype Outcome = MissingFields | Verified | InvalidSignature {

    function Status(): int
    {
      match this
      case MissingFields => 400
      case Verified => 200
      case InvalidSignature => 400
    }

    /** The `success` flag of the JSON body. */
    function Success(): bool
    {
      this == Verified
    }

    /** The `message` of the JSON body. */
    function Message(): string
    {
      match this
      case MissingFields => "Missing fields"
      case Verified => "Payment verified"
      case InvalidSignature => "Invalid signature"
    }
  }

  /** The HTTP response: status code and the JSON body's two fields. */
  datatype Response = Response(status: int, success: bool, message: string)

  /** Answers one outcome the way the handler does. */
  function Respond(o: Outcome): (r: Response)
    ensures r.status == 200 <==> o == Verified
    ensures r.success <==> r.status == 200
    ensures o != Verified ==> r.status == 400
  {
    Response(o.Status(), o.Success(), o.Message())
  }

  /** JavaScript truthiness of a field that is absent or a string. */
  predicate Truthy(field: Option<string>)
  {
    match field
    case None => false
    case Some(s) => s != ""
  }

  /** The message that is signed: order id, a bar, payment id. */
  function SignedMessage(orderId: string, paymentId: string): string
  {
    orderId + "|" + paymentId
  }

  /** The signature the server expects for a pair of ids. */
  function ExpectedSignature(hmac: Mac, secret: string, orderId: string, paymentId: string): string
  {
    hmac(secret, SignedMessage(orderId, paymentId))
  }

  /** All three fields are present and non-empty. */
  predicate Complete(req: VerifyRequest)
  {
    Truthy(req.orderId) && Truthy(req.paymentId) && Truthy(req.signature)
  }

  /**
   * The handler's decision. A request is verified exactly when it is complete
   * and its signature is, character for character, the expected one; an
   * incomplete request is refused as such whatever the secret and the hash.
   */
  function Verify(hmac: Mac, secret: string, req: VerifyRequest): (o: Outcome)
    ensures o == MissingFields <==> !Complete(req)
    ensures o == Verified <==>
              Complete(req) &&
              req.signature.value == ExpectedSignature(hmac, secret, req.orderId.value, req.paymentId.value)
    ensures o == InvalidSignature <==>
              Complete(req) &&
              req.signature.value != ExpectedSignature(hmac, secret, req.orderId.value, req.paymentId.value)
  {
    if !Truthy(req.orderId) || !Truthy(req.paymentId) || !Truthy(req.signature) then
      MissingFields
    else
      var body := SignedMessage(req.orderId.value, req.paymentId.value);
      var expected := hmac(secret, body);
      if expected == req.signature.value then Verified else InvalidSignature
  }

  /** The full response the handler sends for a request. */
  function HandleVerifyPayment(hmac: Mac, secret: string, req: VerifyRequest): (r: Response)
    ensures r.status == 200 <==>
              Complete(req) &&
              req.signature.value == ExpectedSignature(hmac, secret, req.orderId.value, req.paymentId.value)
    ensures !Complete(req) ==> r == Response(400, false, "Missing fields")
    ensures r.status in {200, 400}
  {
    Respond(Verify(hmac, secret, req))
  }

  // ---------------------------------------------------------------------------
  // The signed message

  /** The message is the order id, one bar, then the payment id, nothing else. */
  lemma SignedMessageLayout(orderId: string, paymentId: string)
    ensures |SignedMessage(orderId, paymentId)| == |orderId| + 1 + |paymentId|
    ensures SignedMessage(orderId, paymentId)[..|orderId|] == orderId
    ensures SignedMessage(orderId, paymentId)[|orderId|] == '|'
    ensures SignedMessage(orderId, paymentId)[|orderId| + 1..] == paymentId
  {
  }

  /**
   * When order ids carry no bar, the message determines both ids: the first
   * bar of the message ends the order id.
   */
  lemma {:induction false} MessageDeterminesIds(o1: string, p1: string, o2: string, p2: string)
    requires '|' !in o1 && '|' !in o2
    requires SignedMessage(o1, p1) == SignedMessage(o2, p2)
    ensures o1 == o2 && p1 == p2
  {
    SignedMessageLayout(o1, p1);
    SignedMessageLayout(o2, p2);
  }

  /** With a bar inside an id, two different pairs share one message. */
  lemma SeparatorAmbiguity(a: string, b: string, c: string)
    ensures SignedMessage(a + "|" + b, c) == SignedMessage(a, b + "|" + c)
  {
  }

  /** The concrete pair ("a|b", "c") and ("a", "b|c"). */
  lemma SeparatorAmbiguityExample()
    ensures SignedMessage("a|b", "c") == SignedMessage("a", "b|c")
    ensures ("a|b", "c") != ("a", "b|c")
  {
  }

  /** Swapping two different ids changes the message when neither holds a bar. */
  lemma SwapChangesMessage(a: string, b: string)
    requires '|' !in a && '|' !in b
    requires a != b
    ensures SignedMessage(a, b) != SignedMessage(b, a)
  {
    if SignedMessage(a, b) == SignedMessage(b, a) {
      MessageDeterminesIds(a, b, b, a);
    }
  }

  /** Without that restriction the swap can keep the message: ("x", "x|x"). */
  lemma SwapMayKeepMessage()
    ensures "x" != "x|x"
    ensures SignedMessage("x", "x|x") == SignedMessage("x|x", "x")
  {
  }

  // ---------------------------------------------------------------------------
  // The decision

  /** A missing or empty field is reported as such, whatever the secret, the hash and the other fields. */
  lemma MissingFieldWins(hmac: Mac, secret: string, req: VerifyRequest)
    requires !Truthy(req.orderId) || !Truthy(req.paymentId) || !Truthy(req.signature)
    ensures Verify(hmac, secret, req) == MissingFields
    ensures HandleVerifyPayment(hmac, secret, req) == Response(400, false, "Missing fields")
  {
  }

  /**
   * The three answers exclude each other: status 200 only on the verified path,
   * "Missing fields" only for an incomplete request, "Invalid signature" only
   * for a complete one whose signature differs.
   */
  lemma OutcomesExclusive(hmac: Mac, secret: string, req: VerifyRequest)
    ensures var r := HandleVerifyPayment(hmac, secret, req);
            && (r.status == 200 <==> r.message == "Payment verified")
            && (r.message == "Missing fields" <==> !Complete(req))
            && (r.message == "Invalid signature" <==>
                  Complete(req) &&
                  req.signature.value != ExpectedSignature(hmac, secret, req.orderId.value, req.paymentId.value))
  {
  }

  /** Whoever sends the expected digest of two non-empty ids is verified, given a non-empty digest. */
  lemma ExpectedSignatureAccepted(hmac: Mac, secret: string, orderId: string, paymentId: string)
    requires orderId != "" && paymentId != ""
    requires ExpectedSignature(hmac, secret, orderId, paymentId) != ""
    ensures Verify(hmac, secret,
                   VerifyRequest(Some(orderId), Some(paymentId),
                                 Some(ExpectedSignature(hmac, secret, orderId, paymentId)))) == Verified
  {
  }

  /** Any other non-empty signature for complete ids is refused as invalid. */
  lemma OtherSignatureRejected(hmac: Mac, secret: string, orderId: string, paymentId: string, sig: string)
    requires orderId != "" && paymentId != "" && sig != ""
    requires sig != ExpectedSignature(hmac, secret, orderId, paymentId)
    ensures Verify(hmac, secret, VerifyRequest(Some(orderId), Some(paymentId), Some(sig))) == InvalidSignature
    ensures HandleVerifyPayment(hmac, secret, VerifyRequest(Some(orderId), Some(paymentId), Some(sig)))
              == Response(400, false, "Invalid signature")
  {
  }

  // ---------------------------------------------------------------------------
  // What follows from properties of SHA-256 that the model does not compute

  const HexDigits: string := "0123456789abcdef"
  const DigestHexLength: nat := 64

  /** `digest("hex")` of SHA-256: 64 lowercase hexadecimal characters. */
  ghost predicate LowerHexDigests(hmac: Mac)
  {
    && (forall key, msg :: |hmac(key, msg)| == DigestHexLength)
    && (forall key, msg, i :: 0 <= i < |hmac(key, msg)| ==> hmac(key, msg)[i] in HexDigits)
  }

  /**
   * Two particular messages do not collide under the key: equal digests mean
   * equal messages. This idealises collision resistance for the two messages
   * at hand; no digest of bounded length has it for all messages.
   */
  predicate NoCollision(hmac: Mac, secret: string, m1: string, m2: string)
  {
    hmac(secret, m1) == hmac(secret, m2) ==> m1 == m2
  }

  /** With real hex digests, the expected digest of any two non-empty ids is accepted. */
  lemma GenuineSignatureAccepted(hmac: Mac, secret: string, orderId: string, paymentId: string)
    requires LowerHexDigests(hmac)
    requires orderId != "" && paymentId != ""
    ensures Verify(hmac, secret,
                   VerifyRequest(Some(orderId), Some(paymentId),
                                 Some(ExpectedSignature(hmac, secret, orderId, paymentId)))) == Verified
  {
  }

  /** The comparison is case-sensitive: a signature with a character outside lowercase hex never verifies. */
  lemma {:induction false} NonHexSignatureRejected(hmac: Mac, secret: string, req: VerifyRequest, i: nat)
    requires LowerHexDigests(hmac)
    requires req.signature.Some? && i < |req.signature.value|
    requires req.signature.value[i] !in HexDigits
    ensures Verify(hmac, secret, req) != Verified
  {
  }

  /**
   * A signature binds the pair of ids it was made for: when the two signed
   * messages do not collide and the order ids are bar-free, one signature
   * verified for two requests means the requests carry the same ids.
   */
  lemma {:induction false} SignatureBindsIds(hmac: Mac, secret: string, r1: VerifyRequest, r2: VerifyRequest)
    requires Verify(hmac, secret, r1) == Verified && Verify(hmac, secret, r2) == Verified
    requires NoCollision(hmac, secret,
                         SignedMessage(r1.orderId.value, r1.paymentId.value),
                         SignedMessage(r2.orderId.value, r2.paymentId.value))
    requires r1.signature == r2.signature
    requires r1.orderId.Some? && '|' !in r1.orderId.value
    requires r2.orderId.Some? && '|' !in r2.orderId.value
    ensures r1.orderId == r2.orderId && r1.paymentId == r2.paymentId
  {
    MessageDeterminesIds(r1.orderId.value, r1.paymentId.value, r2.orderId.value, r2.paymentId.value);
  }

  /** Swapping two different bar-free ids changes the expected signature, when the two messages do not collide. */
  lemma SwapChangesSignature(hmac: Mac, secret: string, a: string, b: string)
    requires NoCollision(hmac, secret, SignedMessage(a, b), SignedMessage(b, a))
    requires '|' !in a && '|' !in b
    requires a != b
    ensures ExpectedSignature(hmac, secret, a, b) != ExpectedSignature(hmac, secret, b, a)
  {
    SwapChangesMessage(a, b);
  }
}
