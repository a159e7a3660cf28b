/**
 * The order options built by the `/create-order` handler of server.js before
 * they are sent to the payment provider: the amount in paise, taken from the
 * requested rupee amount or defaulted, and the fixed currency and capture flag.
 */
module OrderCreation {
  import opened Wrappers

  /** The subscription's default price, ten rupees in paise. */
  const DEFAULT_AMOUNT: int := 10 * 100

  const PaisePerRupee: int := 100

  /** The options sent to the provider, without the clock-derived receipt. */
  datatype OrderOptions = OrderOptions(amount: int, currency: string, paymentCapture: int)

  /**
   * JavaScript truthiness of `req.body && req.body.amount` for an integer
   * amount: `None` stands for a missing body or a missing amount.
   */
  predicate AmountGiven(requested: Option<int>)
  {
    requested.Some? && requested.value != 0
  }

  /** The amount in paise: the requested rupees times 100, or the default. */
  function AmountPaise(requested: Option<int>): (paise: int)
    ensures !AmountGiven(requested) ==> paise == 1000
    ensures AmountGiven(requested) ==> paise == requested.value * 100 && paise != 0
    ensures paise > 0 <==> requested.None? || requested.value >= 0
  {
    if AmountGiven(requested) then requested.value * PaisePerRupee else DEFAULT_AMOUNT
  }

  /** The options object of the handler. */
  function CreateOrderOptions(requested: Option<int>): (opts: OrderOptions)
    ensures opts.currency == "INR" && opts.paymentCapture == 1
    ensures opts.amount == AmountPaise(requested)
    ensures requested.Some? && requested.value > 0 ==> opts.amount == requested.value * 100
    ensures opts.amount % 100 == 0
  {
    OrderOptions(AmountPaise(requested), "INR", 1)
  }

  /** Whole rupee amounts round-trip: the paise amount gives back the rupees requested. */
  lemma AmountRoundTrip(rupees: int)
    requires rupees != 0
    ensures AmountPaise(Some(rupees)) / PaisePerRupee == rupees
  {
  }

  /** An absent amount, an absent body and an explicit zero all give the default. */
  lemma FalsyAmountsDefault()
    ensures AmountPaise(None) == DEFAULT_AMOUNT == 1000
    ensures AmountPaise(Some(0)) == DEFAULT_AMOUNT
  {
  }
}
