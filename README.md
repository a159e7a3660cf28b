# Payment callback verification and order options, in Dafny

This project models the two pieces of decision logic in `server.js`, a small
Express service in front of the Razorpay payment API:

- **`/verify-payment`**: the checkout callback carries `razorpay_order_id`,
  `razorpay_payment_id` and `razorpay_signature`. If any of them is absent or
  empty, the answer is 400 "Missing fields". Otherwise the server computes the
  lowercase hex HMAC-SHA256 of `order_id + "|" + payment_id`, keyed by its key
  secret. It answers 200 "Payment verified" when the claimed signature equals
  that digest exactly, and 400 "Invalid signature" when it does not
  (module `PaymentVerification`, file `verify_payment.dfy`).
- **`/create-order`**: the order sent to Razorpay has amount `rupees * 100`
  paise when an amount is given. It has the default `DEFAULT_AMOUNT` of 1000
  paise when no amount is given or the amount is falsy. The currency is always
  "INR" and `payment_capture` is always 1 (module `OrderCreation`, file
  `create_order.dfy`).

Both handlers are straight-line code over their inputs, so the model is made of
datatypes, functions and lemmas. Request fields are `Option<string>` (module
`Wrappers`). JavaScript truthiness of a field is `Truthy`: `None` and `""` are
falsy.

HMAC-SHA256 is not computed. Every member takes it as a parameter
`hmac: (string, string) -> string`, an arbitrary deterministic function from
(key, message) to hex digest, so every result holds for any such function. Two
hypotheses are used, only as lemma preconditions:
- `LowerHexDigests`: a digest is 64 lowercase hex characters. This is a fact
  about `digest("hex")` of SHA-256.
- `NoCollision`: two particular messages do not collide under the key. This is
  an idealisation of collision resistance for the two messages at hand, not a
  property of the digest (no digest of bounded length has it for all messages).

The message format `order_id|payment_id` is ambiguous when an order id contains
a bar: `("a|b", "c")` and `("a", "b|c")` sign the same message
(`SeparatorAmbiguity`). When order ids contain no bar, the message determines
both ids (`MessageDeterminesIds`). Then, when the two signed messages do not
collide, a signature binds the pair of ids it was made for (`SignatureBindsIds`).

Swapping two different ids does not always change the message: `("x","x|x")`
and `("x|x","x")` both give `x|x|x` (`SwapMayKeepMessage`). The swap property
is proved for bar-free ids (`SwapChangesMessage`, `SwapChangesSignature`).

The handler reads `process.env.RAZORPAY_KEY_SECRET` on every request. If it is
undefined, `createHmac` throws and the handler answers 500. The model takes the
secret as a string and leaves that path out (see below).

## Model

| member | source | states |
|---|---|---|
| `PaymentVerification.Verify` | server.js:63-81 | The outcome is MissingFields exactly when some field is absent or empty. It is Verified exactly when all fields are present and the signature equals the HMAC of `order_id|payment_id` under the secret. It is InvalidSignature exactly when all are present and the signature differs. |
| `PaymentVerification.Respond` | server.js:65-81 | Status 200 exactly for Verified, 400 otherwise; the `success` flag is true exactly when the status is 200. |
| `PaymentVerification.HandleVerifyPayment` | server.js:60-81 | The response is 200 exactly when a complete request carries the expected signature. An incomplete request gets `400, success false, "Missing fields"`. The status is always 200 or 400. |
| `PaymentVerification.SignedMessageLayout` | server.js:70 | The signed message is the order id, one `|`, then the payment id, with no other characters. |
| `PaymentVerification.MessageDeterminesIds` | server.js:70 | When neither order id contains `|`, equal messages mean equal order ids and equal payment ids. |
| `PaymentVerification.SeparatorAmbiguity` | server.js:70 | A `|` inside an id lets two different pairs share one message: `(a|b, c)` and `(a, b|c)`. |
| `PaymentVerification.SeparatorAmbiguityExample` | server.js:70 | The concrete pairs `("a|b","c")` and `("a","b|c")` differ but sign the same message. |
| `PaymentVerification.SwapChangesMessage` | server.js:70 | For different bar-free ids, swapping them changes the message. |
| `PaymentVerification.SwapMayKeepMessage` | server.js:70 | For ids containing `|`, swapping can keep the message: `("x","x|x")`. |
| `PaymentVerification.MissingFieldWins` | server.js:65-67 | An absent or empty field gives `400 "Missing fields"`, whatever the secret, the hash and the other fields. |
| `PaymentVerification.OutcomesExclusive` | server.js:65-81 | Status 200 comes with "Payment verified" only. "Missing fields" comes exactly with an incomplete request. "Invalid signature" comes exactly with a complete request whose signature differs. |
| `PaymentVerification.ExpectedSignatureAccepted` | server.js:70-78 | Non-empty ids with their expected (non-empty) digest as signature are verified. |
| `PaymentVerification.OtherSignatureRejected` | server.js:76-81 | Non-empty ids with any other non-empty signature get `400 "Invalid signature"`. |
| `PaymentVerification.GenuineSignatureAccepted` | server.js:71-78 | With 64-character hex digests, the expected digest of any non-empty ids is always accepted. |
| `PaymentVerification.NonHexSignatureRejected` | server.js:71-76 | With lowercase hex digests, a signature with any character outside `0-9a-f` (an upper-case digest, for one) is never verified. |
| `PaymentVerification.SignatureBindsIds` | server.js:70-78 | When the two signed messages do not collide and the order ids are bar-free, one signature verified for two requests means both carry the same order and payment ids. |
| `PaymentVerification.SwapChangesSignature` | server.js:70-74 | When the two messages do not collide, swapping two different bar-free ids changes the expected signature. |
| `OrderCreation.AmountPaise` | server.js:20-31 | A missing amount (or body) or an amount of 0 gives the default 1000 paise. Any other integer amount gives the exact product `rupees * 100`, which is non-zero. The amount is positive exactly when no negative amount was requested. |
| `OrderCreation.CreateOrderOptions` | server.js:33-38 | The options always carry currency "INR" and `payment_capture` 1. The amount is `AmountPaise` of the request, `rupees * 100` for a positive rupee amount, and always a whole number of rupees. |
| `OrderCreation.AmountRoundTrip` | server.js:29-30 | For a non-zero rupee amount, dividing the paise amount by 100 gives back the rupees. |
| `OrderCreation.FalsyAmountsDefault` | server.js:20-31 | No amount and amount 0 both give `DEFAULT_AMOUNT`, which is 1000. |

## Left out

- HMAC-SHA256 and hex encoding (`crypto.createHmac`, server.js:71-74): a foreign library. It is a parameter. Its digest length and alphabet are a hypothesis, and the absence of a collision between two given messages is an idealising assumption; neither is proved.
- That changing the secret turns an accepted signature into a rejected one: this is a cryptographic property of HMAC that no model of the hash here can establish.
- Razorpay client construction and `razorpay.orders.create` (server.js:14-17, 40-49): network calls to an external API. The model stops at the options object.
- The receipt `receipt_${Date.now()}` (server.js:36): it depends on the wall clock, so `OrderOptions` has no receipt field.
- `Number(...)` on string or fractional amounts, and NaN (server.js:30): floating point and JavaScript coercion. Amounts are integers only. For example, the string "0" is truthy and would give 0 paise; the model does not capture this.
- AmountPaise: the model's exact `rupees * 100` matches the source only for |rupees| <= 2^53/100 (about 9*10^13). JavaScript numbers are doubles, so beyond that the source's product at server.js:30 is rounded (for 360287970189641 rupees it gives 36028797018964096, not 36028797018964100), and above about 1.8*10^306 rupees it is Infinity.
- SignatureBindsIds: fields are modelled as sequences of Unicode scalar values. Lone surrogates (which JSON escapes such as `"\ud800"` can produce) and the UTF-8 encoding of the message by `.update(body.toString())` at server.js:73 are not modelled. That encoding turns each lone surrogate into U+FFFD, so order ids `"o\ud800"` and `"o\udc00"` get the same expected signature; the binding lemma covers only well-formed ids.
- Request fields of other JSON types (numbers, booleans, objects) in `/verify-payment`: the model takes each field as absent or a string.
- The `catch` branches that answer 500 (server.js:50-53, 82-85): they fire only when a foreign call throws, such as an undefined body or an undefined secret.
- Environment and dotenv configuration, Express routing, CORS, the health-check route, `app.listen` and logging (server.js:2-11, 88-92): I/O and configuration.
- Idempotence of verification: it holds by construction, since every member is a mathematical function of its inputs.
