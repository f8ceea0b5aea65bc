/**
 * `FreeCurrencyApiService.TryGetQuoteAsync`: normalise the two codes, answer a
 * same-currency request without asking upstream, otherwise look the target up
 * in the `data` table of `/v1/latest` and convert the amount.
 *
 * The HTTP exchange is a parameter (`Http.Reply`); the elapsed time is the
 * opaque `elapsed`.
 */
module FreeCurrency {
  import opened Wrappers
  import opened Entities
  import opened Http
  import Text
  import Decimal

  const ApiName: string := "Api #1 ---> Freecurrency Api"

  /** The deserialised body: `data` maps currency codes to their rate against
      `base_currency`; `None` when it is null. */
  datatype ExchangeRateResponse = ExchangeRateResponse(data: Option<map<string, real>>)

  /** The code pair after `(code ?? "").Trim().ToUpperInvariant()`, or `None`
      when either code is blank. */
  function Codes(request: Exchange): (codes: Option<(string, string)>)
    ensures codes.Some? ==> codes.value.0 != "" && codes.value.1 != ""
  {
    var from := Text.NormalizeCode(request.from);
    var to := Text.NormalizeCode(request.to);
    if Text.IsNullOrWhiteSpace(from) || Text.IsNullOrWhiteSpace(to) then None
    else Some((from, to))
  }

  /** The part after the request: a failed call, a non-success status, a null
      or empty `data`, or a missing `to` key yields no offer; otherwise the
      amount converted at `data[to]` (exact-key lookup). */
  function FromReply(to: string, value: real, reply: Reply<ExchangeRateResponse>, elapsed: int)
    : (r: Option<Offer>)
    ensures r.Some? <==> reply.Reply? && reply.isSuccessStatusCode && reply.content.Some?
                         && reply.content.value.data.Some?
                         && to in reply.content.value.data.value
    ensures r.Some? ==> r.value.api == ApiName && r.value.elapsedTime == elapsed
  {
    if reply.TransportFailure? || !reply.isSuccessStatusCode then None
    else if reply.content.None? || reply.content.value.data.None? then None
    else
      var data := reply.content.value.data.value;
      if |data| == 0 then None
      else if to !in data then None
      else Some(Offer(ApiName, Decimal.Convert(value, data[to]), elapsed))
  }

  /** `TryGetQuoteAsync` as written: a same-currency request is answered with
      `Rate = 1` whatever the amount. */
  function TryGetQuoteAsWritten(request: Exchange, reply: Reply<ExchangeRateResponse>, elapsed: int)
    : (r: Option<Offer>)
    ensures Codes(request).None? ==> r.None?
    ensures Codes(request).Some? && Codes(request).value.0 == Codes(request).value.1
            ==> r == Some(Offer(ApiName, 1.0, elapsed))
  {
    match Codes(request)
    case None => None
    case Some((from, to)) =>
      if from == to then Some(Offer(ApiName, 1.0, elapsed))
      else FromReply(to, request.value, reply, elapsed)
  }

  /** `TryGetQuoteAsync` with the same-currency answer converting the amount at
      parity, like every other offer (`Rate` = amount x exchange rate). */
  function TryGetQuote(request: Exchange, reply: Reply<ExchangeRateResponse>, elapsed: int)
    : (r: Option<Offer>)
    ensures Codes(request).None? ==> r.None?
    ensures r.Some? ==> r.value.api == ApiName && r.value.elapsedTime == elapsed
  {
    match Codes(request)
    case None => None
    case Some((from, to)) =>
      if from == to then Some(Offer(ApiName, Decimal.Convert(request.value, 1.0), elapsed))
      else FromReply(to, request.value, reply, elapsed)
  }

  /** A reply carrying `data` with the single entry `code -> rate`. */
  function QuotedReply(code: string, rate: real): Reply<ExchangeRateResponse> {
    Reply(true, Some(ExchangeRateResponse(Some(map[code := rate]))))
  }

  /** The codes are rejected exactly when one of them is blank; accepted
      codes are upper case. */
  lemma CodesFacts(request: Exchange)
    ensures Codes(request).None? <==> Text.IsNullOrWhiteSpace(request.from) || Text.IsNullOrWhiteSpace(request.to)
    ensures Codes(request).Some? ==> Text.IsUpper(Codes(request).value.0) && Text.IsUpper(Codes(request).value.1)
  {
    Text.NormalizeCodeFacts(request.from);
    Text.NormalizeCodeFacts(request.to);
  }

  /** A blank code yields no offer, whatever the upstream would say. */
  lemma BlankCodeIsAbsent(request: Exchange, reply: Reply<ExchangeRateResponse>, elapsed: int)
    requires Text.IsNullOrWhiteSpace(request.from) || Text.IsNullOrWhiteSpace(request.to)
    ensures TryGetQuote(request, reply, elapsed).None?
    ensures TryGetQuoteAsWritten(request, reply, elapsed).None?
  {
    CodesFacts(request);
  }

  /** A same-currency request makes no upstream request: the reply plays no
      part in the answer. */
  lemma {:induction false} SameCurrencyIgnoresReply(request: Exchange,
      reply1: Reply<ExchangeRateResponse>, reply2: Reply<ExchangeRateResponse>, elapsed: int)
    requires Codes(request).Some? && Codes(request).value.0 == Codes(request).value.1
    ensures TryGetQuote(request, reply1, elapsed) == TryGetQuote(request, reply2, elapsed)
    ensures TryGetQuote(request, reply1, elapsed).Some?
    ensures TryGetQuoteAsWritten(request, reply1, elapsed) == TryGetQuoteAsWritten(request, reply2, elapsed)
  {
  }

  /** Any other request depends on the reply: a transport failure gives
      nothing, a reply quoting `to` gives an offer. */
  lemma {:induction false} OtherPairsAskUpstream(request: Exchange, rate: real, elapsed: int)
    requires Codes(request).Some? && Codes(request).value.0 != Codes(request).value.1
    ensures TryGetQuote(request, TransportFailure, elapsed).None?
    ensures TryGetQuote(request, QuotedReply(Codes(request).value.1, rate), elapsed)
            == Some(Offer(ApiName, Decimal.Convert(request.value, rate), elapsed))
  {
    var to := Codes(request).value.1;
    var data := map[to := rate];
    assert to in data && data[to] == rate;
    var r := TryGetQuote(request, QuotedReply(to, rate), elapsed);
    assert r == FromReply(to, request.value, QuotedReply(to, rate), elapsed);
    assert r.Some? && r.value.rate == Decimal.Convert(request.value, rate);
  }

  /** An offer is the amount converted at the upstream rate for `to`, within
      half a unit of the fifth decimal place; a missing key, an empty table or
      a failed call give nothing. */
  lemma {:induction false} QuoteConvertsAtUpstreamRate(request: Exchange, reply: Reply<ExchangeRateResponse>, elapsed: int)
    requires Codes(request).Some? && Codes(request).value.0 != Codes(request).value.1
    ensures var to := Codes(request).value.1;
            var r := TryGetQuote(request, reply, elapsed);
            && (r.Some? <==> reply.Reply? && reply.isSuccessStatusCode && reply.content.Some?
                             && reply.content.value.data.Some?
                             && to in reply.content.value.data.value)
            && (r.Some? ==> r.value.rate == Decimal.Convert(request.value, reply.content.value.data.value[to]))
  {
  }

  /** The correction touches the same-currency answer only: for every other
      pair the as-written method answers exactly as the corrected one. */
  lemma {:induction false} AsWrittenAgreesOnOtherPairs(request: Exchange, reply: Reply<ExchangeRateResponse>, elapsed: int)
    requires Codes(request).None? || Codes(request).value.0 != Codes(request).value.1
    ensures TryGetQuoteAsWritten(request, reply, elapsed) == TryGetQuote(request, reply, elapsed)
  {
  }

  /** As written, the same-currency answer disagrees with the amount the
      upstream would give at parity whenever the amount does not round to 1. */
  lemma {:induction false} SameCurrencyAsWrittenIgnoresAmount(request: Exchange,
      reply: Reply<ExchangeRateResponse>, elapsed: int)
    requires Codes(request).Some? && Codes(request).value.0 == Codes(request).value.1
    requires Decimal.Round5(request.value) != 1.0
    ensures var to := Codes(request).value.1;
            TryGetQuoteAsWritten(request, reply, elapsed)
            != FromReply(to, request.value, QuotedReply(to, 1.0), elapsed)
  {
    var to := Codes(request).value.1;
    var data := map[to := 1.0];
    assert to in data && data[to] == 1.0;
    var r := FromReply(to, request.value, QuotedReply(to, 1.0), elapsed);
    assert r.Some? && r.value.rate == Decimal.Convert(request.value, 1.0);
    Decimal.ConvertAtParity(request.value);
  }

  /** The input that shows it: 100 USD to USD is a same-currency request,
      offered at 1 rather than 100. */
  lemma SameCurrencyExample()
    ensures Codes(Exchange("USD", "USD", 100.0)) == Some(("USD", "USD"))
    ensures TryGetQuoteAsWritten(Exchange("USD", "USD", 100.0), TransportFailure, 0) == Some(Offer(ApiName, 1.0, 0))
    ensures TryGetQuote(Exchange("USD", "USD", 100.0), TransportFailure, 0) == Some(Offer(ApiName, 100.0, 0))
  {
    Text.NormalizeLetters("USD");
    assert !Text.IsNullOrWhiteSpace("USD") by { assert !Text.IsWhiteSpace("USD"[0]); }
    assert 100.0 * 1.0 == 100.0;
    Decimal.Round5OnGrid(100.0);
  }

  /** Corrected: the same-currency answer is exactly what the provider would
      return if upstream quoted the currency at parity, for every amount. */
  lemma {:induction false} SameCurrencyConvertsAtParity(request: Exchange, reply: Reply<ExchangeRateResponse>, elapsed: int)
    requires Codes(request).Some? && Codes(request).value.0 == Codes(request).value.1
    ensures var to := Codes(request).value.1;
            TryGetQuote(request, reply, elapsed)
            == FromReply(to, request.value, QuotedReply(to, 1.0), elapsed)
  {
    var to := Codes(request).value.1;
    var data := map[to := 1.0];
    assert to in data && data[to] == 1.0;
    var r := FromReply(to, request.value, QuotedReply(to, 1.0), elapsed);
    assert r.Some? && r.value.rate == Decimal.Convert(request.value, 1.0);
    Decimal.ConvertAtParity(request.value);
    assert r.value == Offer(ApiName, Decimal.Convert(request.value, 1.0), elapsed);
  }
}
