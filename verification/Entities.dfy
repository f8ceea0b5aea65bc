/** The domain records exchanged between the comparator and the providers. */
module Entities {

  /** A conversion request: convert `value` units of `from` into `to`.
      A null `From` or `To` is modelled as "", which every provider treats
      the same way (`request.From ?? ""`). */
  datatype Exchange = Exchange(from: string, to: string, value: real)

  /** One provider's quote: `rate` is the converted amount (value x exchange
      rate, rounded) and `elapsedTime` the provider call's latency in ms. */
  datatype Offer = Offer(api: string, rate: real, elapsedTime: int)

  /** The comparison answer: the best offer and every offer collected. */
  datatype CompareResult = CompareResult(bestOffer: Offer, allOffers: seq<Offer>)
}

/** An HTTP exchange as the providers observe it, with the transport and the
    JSON/XML readers abstracted away. */
module Http {
  import opened Wrappers

  /** `TransportFailure`: `GetAsync` threw (network error, cancellation).
      `Reply`: a response arrived; `content` is the deserialised body, `None`
      when it was JSON `null` or could not be read or deserialised. */
  datatype Reply<T> = TransportFailure | Reply(isSuccessStatusCode: bool, content: Option<T>)
}
