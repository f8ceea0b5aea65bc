/**
 * `RateComparisonService.CompareAsync`: send one request to every registered
 * provider, drain their tasks in completion order, fail fast on a fault,
 * fail on an empty harvest, otherwise answer with the highest-rate offer and
 * every offer collected.
 *
 * The scheduler is not modelled: `Task.WhenAny` may hand back any pending
 * task, so the drain loop picks an arbitrary pending task and reports the
 * order it picked as `order`. Cancellation and the 10-second deadline only
 * reach the providers, whose outcome is arbitrary here (they may answer
 * `Absent` or fault).
 */
module RateComparison {
  import opened Wrappers
  import opened Entities
  import Text

  /** How a provider's task completes: with an offer, with null, or faulted
      (an exception, including a cancelled task). */
  datatype Outcome = Quoted(offer: Offer) | Absent | Faulted(message: string)

  /** A registered `IExchangeRateProvider`: `tryGetQuote` is the outcome its
      `TryGetQuoteAsync` task completes with for a given request. */
  datatype Provider = Provider(name: string, tryGetQuote: Exchange -> Outcome)

  /** One invocation of a provider: its registration index and the request. */
  datatype Call = Call(provider: nat, request: Exchange)

  /** `CompareAsync`'s result: a `CompareResult`, or the exception it throws. */
  datatype CompareOutcome =
    | Ok(result: CompareResult)
    | InvalidInput(paramName: string)   // ArgumentNullException
    | InternalError(message: string)    // InternalErrorException
    | GatewayTimeout(message: string)   // GatewayTimeoutException

  const InternalErrorPrefix: string := "Error Interno en el servidor en el Servicio: "
  const NoOffersMessage: string := "No hubo ofertas encontradas durante el tiempo de espera estimado"

  // ---------------------------------------------------------------------
  // Best offer: `offers.OrderByDescending(o => o.Rate).First()`

  /** `k` is the first position holding the highest rate. */
  predicate IsFirstBest(offers: seq<Offer>, k: nat) {
    && k < |offers|
    && (forall j :: 0 <= j < |offers| ==> offers[j].rate <= offers[k].rate)
    && (forall j :: 0 <= j < k ==> offers[j].rate < offers[k].rate)
  }

  /** The earliest offer among those with the highest rate. */
  function FirstBestIndex(offers: seq<Offer>): (k: nat)
    requires |offers| > 0
    ensures IsFirstBest(offers, k)
  {
    if |offers| == 1 then 0
    else
      var k := 1 + FirstBestIndex(offers[1..]);
      if offers[0].rate >= offers[k].rate then 0 else k
  }

  /** Inserts `x` in front of the first offer whose rate does not exceed its
      own, so that equal rates keep their relative order. */
  function InsertByRate(x: Offer, sorted: seq<Offer>): seq<Offer> {
    if |sorted| == 0 || x.rate >= sorted[0].rate then [x] + sorted
    else [sorted[0]] + InsertByRate(x, sorted[1..])
  }

  /** LINQ's `OrderByDescending(o => o.Rate)`: a stable sort by falling rate. */
  function OrderByRateDescending(offers: seq<Offer>): seq<Offer> {
    if |offers| == 0 then [] else InsertByRate(offers[0], OrderByRateDescending(offers[1..]))
  }

  predicate SortedByRateDescending(s: seq<Offer>) {
    forall i, j :: 0 <= i < j < |s| ==> s[i].rate >= s[j].rate
  }

  /** Inserting adds exactly `x`. */
  lemma {:induction false} InsertByRatePermutes(x: Offer, sorted: seq<Offer>)
    ensures multiset(InsertByRate(x, sorted)) == multiset(sorted) + multiset{x}
  {
    if |sorted| > 0 && x.rate < sorted[0].rate {
      InsertByRatePermutes(x, sorted[1..]);
      assert sorted == [sorted[0]] + sorted[1..];
    }
  }

  /** Every rate in the result is one of the input rates or `x`'s. */
  lemma {:induction false} InsertByRateBound(x: Offer, sorted: seq<Offer>, bound: real)
    requires x.rate <= bound
    requires forall k :: 0 <= k < |sorted| ==> sorted[k].rate <= bound
    ensures forall k :: 0 <= k < |InsertByRate(x, sorted)| ==> InsertByRate(x, sorted)[k].rate <= bound
  {
    if |sorted| > 0 && x.rate < sorted[0].rate {
      InsertByRateBound(x, sorted[1..], bound);
    }
  }

  /** Inserting into a sorted sequence keeps it sorted; the new head is `x`
      exactly when no rate ahead of it is higher. */
  lemma {:induction false} InsertByRateSorted(x: Offer, sorted: seq<Offer>)
    requires SortedByRateDescending(sorted)
    ensures SortedByRateDescending(InsertByRate(x, sorted))
    ensures InsertByRate(x, sorted)[0]
            == if |sorted| == 0 || x.rate >= sorted[0].rate then x else sorted[0]
  {
    if |sorted| > 0 && x.rate < sorted[0].rate {
      var t := sorted[1..];
      InsertByRateSorted(x, t);
      InsertByRateBound(x, t, sorted[0].rate);
      var ins := InsertByRate(x, t);
      var whole := InsertByRate(x, sorted);
      assert whole == [sorted[0]] + ins;
      forall i, j | 0 <= i < j < |whole| ensures whole[i].rate >= whole[j].rate {
        assert whole[j] == ins[j - 1];
        if i > 0 { assert whole[i] == ins[i - 1]; }
      }
    }
  }

  /** `OrderByRateDescending` sorts by falling rate. */
  lemma {:induction false} OrderByRateDescendingSorted(offers: seq<Offer>)
    ensures SortedByRateDescending(OrderByRateDescending(offers))
  {
    if |offers| > 0 {
      OrderByRateDescendingSorted(offers[1..]);
      InsertByRateSorted(offers[0], OrderByRateDescending(offers[1..]));
    }
  }

  /** `OrderByRateDescending` is a permutation. */
  lemma {:induction false} OrderByRateDescendingPermutes(offers: seq<Offer>)
    ensures multiset(OrderByRateDescending(offers)) == multiset(offers)
  {
    if |offers| > 0 {
      OrderByRateDescendingPermutes(offers[1..]);
      InsertByRatePermutes(offers[0], OrderByRateDescending(offers[1..]));
      assert offers == [offers[0]] + offers[1..];
    }
  }

  /** The head of the stable descending sort is the earliest offer with the
      highest rate: ties go to the offer collected first. */
  lemma {:induction false} SortedHeadIsFirstBest(offers: seq<Offer>)
    requires |offers| > 0
    ensures |OrderByRateDescending(offers)| == |offers|
    ensures OrderByRateDescending(offers)[0] == offers[FirstBestIndex(offers)]
  {
    OrderByRateDescendingPermutes(offers);
    assert |multiset(OrderByRateDescending(offers))| == |multiset(offers)|;
    var rest := OrderByRateDescending(offers[1..]);
    OrderByRateDescendingSorted(offers[1..]);
    InsertByRateSorted(offers[0], rest);
    if |offers| > 1 {
      SortedHeadIsFirstBest(offers[1..]);
    }
  }

  /** The offer `CompareAsync` reports as best. */
  function BestOffer(offers: seq<Offer>): (best: Offer)
    requires |offers| > 0
    ensures best in offers
    ensures forall o :: o in offers ==> o.rate <= best.rate
    ensures best == offers[FirstBestIndex(offers)]
  {
    SortedHeadIsFirstBest(offers);
    OrderByRateDescending(offers)[0]
  }

  // ---------------------------------------------------------------------
  // The drain loop as a fold over the tasks in completion order

  /** The offers among `completed`, in order: the null results dropped. */
  function Offers(completed: seq<Outcome>): (r: seq<Offer>)
    ensures |r| <= |completed|
    ensures forall o :: o in r <==> Quoted(o) in completed
  {
    if |completed| == 0 then []
    else (if completed[0].Quoted? then [completed[0].offer] else []) + Offers(completed[1..])
  }

  predicate HasFault(completed: seq<Outcome>) {
    exists i :: 0 <= i < |completed| && completed[i].Faulted?
  }

  /** Position of the first faulted task. */
  function FirstFault(completed: seq<Outcome>): (i: nat)
    requires HasFault(completed)
    ensures i < |completed| && completed[i].Faulted?
    ensures forall j :: 0 <= j < i ==> !completed[j].Faulted?
  {
    if completed[0].Faulted? then 0
    else
      assert HasFault(completed[1..]) by {
        var i :| 0 <= i < |completed| && completed[i].Faulted?;
        assert completed[1..][i - 1] == completed[i];
      }
      1 + FirstFault(completed[1..])
  }

  /** What follows the drain loop: no offer means a gateway timeout,
      otherwise the best offer and all of them. */
  function Conclude(offers: seq<Offer>): CompareOutcome {
    if |offers| == 0 then GatewayTimeout(NoOffersMessage)
    else Ok(CompareResult(BestOffer(offers), offers))
  }

  /** The drain loop, one completed task at a time: an offer is appended, a
      null result dropped, a fault ends everything with an internal error. */
  function Drain(completed: seq<Outcome>, offers: seq<Offer>): CompareOutcome {
    if |completed| == 0 then Conclude(offers)
    else match completed[0]
      case Quoted(o) => Drain(completed[1..], offers + [o])
      case Absent => Drain(completed[1..], offers)
      case Faulted(m) => InternalError(InternalErrorPrefix + m)
  }

  /** Draining a fault-free prefix only extends the collected offers. */
  lemma {:induction false} DrainPrefix(p: seq<Outcome>, t: seq<Outcome>, acc: seq<Offer>)
    requires !HasFault(p)
    ensures Drain(p + t, acc) == Drain(t, acc + Offers(p))
  {
    if |p| > 0 {
      assert (p + t)[1..] == p[1..] + t;
      assert !HasFault(p[1..]) by {
        forall i | 0 <= i < |p[1..]| ensures !p[1..][i].Faulted? {
          assert p[1..][i] == p[i + 1];
        }
      }
      var head := if p[0].Quoted? then [p[0].offer] else [];
      DrainPrefix(p[1..], t, acc + head);
      assert !p[0].Faulted? && (p + t)[0] == p[0];
      assert |p + t| > 0;
      match p[0] {
        case Quoted(o) => assert Drain(p + t, acc) == Drain(p[1..] + t, acc + [o]);
        case Absent =>
          assert acc + head == acc;
          assert Drain(p + t, acc) == Drain(p[1..] + t, acc);
      }
      assert Offers(p) == head + Offers(p[1..]);
      assert acc + head + Offers(p[1..]) == acc + Offers(p);
    } else {
      assert p + t == t;
      assert acc + Offers(p) == acc;
    }
  }

  /** The fold in one sentence: the first fault decides the outcome if there
      is one; otherwise the outcome depends only on the offers, in order. */
  lemma {:induction false} DrainSummary(completed: seq<Outcome>)
    ensures Drain(completed, [])
            == if HasFault(completed)
               then InternalError(InternalErrorPrefix + completed[FirstFault(completed)].message)
               else Conclude(Offers(completed))
  {
    if HasFault(completed) {
      var i := FirstFault(completed);
      var p := completed[..i];
      assert !HasFault(p) by {
        forall j | 0 <= j < |p| ensures !p[j].Faulted? {
          assert p[j] == completed[j];
        }
      }
      assert completed == p + completed[i..];
      DrainPrefix(p, completed[i..], []);
    } else {
      DrainPrefix(completed, [], []);
      assert completed + [] == completed;
      assert [] + Offers(completed) == Offers(completed);
    }
  }

  /** A single fault, wherever it completes, fails the whole comparison with
      an "Error Interno" message carrying the first fault's text; offers
      already collected are not returned. */
  lemma FaultFailsComparison(completed: seq<Outcome>)
    requires HasFault(completed)
    ensures Drain(completed, []).InternalError?
    ensures Drain(completed, []).message
            == InternalErrorPrefix + completed[FirstFault(completed)].message
    ensures Text.Contains(Drain(completed, []).message, "Error Interno")
  {
    DrainSummary(completed);
    var m := Drain(completed, []).message;
    assert m[..|InternalErrorPrefix|] == InternalErrorPrefix;
    assert InternalErrorPrefix[..13] == "Error Interno";
    assert m[..13] == InternalErrorPrefix[..13];
  }

  /** With no fault and no offer the comparison is a gateway timeout. */
  lemma NoOfferIsGatewayTimeout(completed: seq<Outcome>)
    requires !HasFault(completed)
    requires forall i :: 0 <= i < |completed| ==> completed[i] == Absent
    ensures Drain(completed, []) == GatewayTimeout(NoOffersMessage)
  {
    DrainSummary(completed);
    assert forall o :: Quoted(o) !in completed;
    assert forall o :: o !in Offers(completed);
  }

  /** With no fault and some offer the comparison succeeds: `allOffers` is
      exactly the non-null results in completion order, and `bestOffer` is
      one of them, has the highest rate, and is the earliest such offer. */
  lemma SuccessCollectsOffers(completed: seq<Outcome>)
    requires !HasFault(completed)
    requires exists i :: 0 <= i < |completed| && completed[i].Quoted?
    ensures Drain(completed, []).Ok?
    ensures Drain(completed, []).result.allOffers == Offers(completed)
    ensures |Drain(completed, []).result.allOffers| <= |completed|
    ensures var r := Drain(completed, []).result;
            && r.bestOffer in r.allOffers
            && (forall o :: o in r.allOffers ==> o.rate <= r.bestOffer.rate)
            && IsFirstBest(r.allOffers, FirstBestIndex(r.allOffers))
            && r.bestOffer == r.allOffers[FirstBestIndex(r.allOffers)]
  {
    DrainSummary(completed);
    var i :| 0 <= i < |completed| && completed[i].Quoted?;
    assert completed[i].offer in Offers(completed);
  }

  // ---------------------------------------------------------------------
  // Completion orders

  /** The tasks' outcomes listed in the order `order` names them. */
  function Arrange(outcomes: seq<Outcome>, order: seq<nat>): (r: seq<Outcome>)
    requires forall k :: 0 <= k < |order| ==> order[k] < |outcomes|
    ensures |r| == |order|
    ensures forall k :: 0 <= k < |order| ==> r[k] == outcomes[order[k]]
  {
    seq(|order|, k requires 0 <= k < |order| => outcomes[order[k]])
  }

  /** `order` lists distinct task ids below `n`: a prefix of a completion order. */
  predicate IsPartialOrder(order: seq<nat>, n: nat) {
    && (forall k :: 0 <= k < |order| ==> order[k] < n)
    && Text.NoDuplicates(order)
  }

  /** Every task id below `n` occurs in `order`. */
  predicate Covers(order: seq<nat>, n: nat) {
    forall i :: 0 <= i < n ==> i in order
  }

  /** Listing every task exactly once keeps every outcome, with its
      multiplicity. */
  lemma {:induction false} ArrangePermutes(outcomes: seq<Outcome>, order: seq<nat>)
    requires IsPartialOrder(order, |outcomes|) && Covers(order, |outcomes|)
    ensures multiset(Arrange(outcomes, order)) == multiset(outcomes)
  {
    var n := |outcomes|;
    if n > 0 {
      assert n - 1 in order;
      var k :| 0 <= k < |order| && order[k] == n - 1;
      var order' := order[..k] + order[k + 1..];
      var outcomes' := outcomes[..n - 1];
      DropLastTask(order, n, k);
      ArrangePermutes(outcomes', order');
      ArrangeSplit(outcomes, order, k);
      ArrangeShrink(outcomes, order');
      assert outcomes == outcomes' + [outcomes[n - 1]];
    }
  }

  /** Taking the last task id out of a full completion order leaves a full
      completion order of the other tasks. */
  lemma DropLastTask(order: seq<nat>, n: nat, k: nat)
    requires n > 0 && IsPartialOrder(order, n) && Covers(order, n)
    requires k < |order| && order[k] == n - 1
    ensures IsPartialOrder(order[..k] + order[k + 1..], n - 1)
    ensures Covers(order[..k] + order[k + 1..], n - 1)
  {
    var order' := order[..k] + order[k + 1..];
    assert |order'| == |order| - 1;
    assert forall j :: 0 <= j < k ==> order'[j] == order[j];
    assert forall j :: k <= j < |order'| ==> order'[j] == order[j + 1];
    forall i | 0 <= i < n - 1 ensures i in order' {
      assert i in order;
      var j :| 0 <= j < |order| && order[j] == i;
      if j < k { assert order'[j] == i; } else { assert order'[j - 1] == i; }
    }
  }

  /** Arranging along `order` splits around position `k`. */
  lemma ArrangeSplit(outcomes: seq<Outcome>, order: seq<nat>, k: nat)
    requires forall j :: 0 <= j < |order| ==> order[j] < |outcomes|
    requires k < |order|
    ensures multiset(Arrange(outcomes, order))
            == multiset(Arrange(outcomes, order[..k] + order[k + 1..])) + multiset{outcomes[order[k]]}
  {
    var a := Arrange(outcomes, order);
    var b := Arrange(outcomes, order[..k] + order[k + 1..]);
    assert a == b[..k] + [outcomes[order[k]]] + b[k..];
    assert b == b[..k] + b[k..];
  }

  /** Tasks below `n - 1` see the same outcomes in `outcomes[..n - 1]`. */
  lemma ArrangeShrink(outcomes: seq<Outcome>, order: seq<nat>)
    requires |outcomes| > 0
    requires forall j :: 0 <= j < |order| ==> order[j] < |outcomes| - 1
    ensures Arrange(outcomes, order) == Arrange(outcomes[..|outcomes| - 1], order)
  {
  }

  // ---------------------------------------------------------------------
  // The service

  class RateComparisonService {
    /** `_exchangeRateProviders`: fixed at construction, read-only afterwards. */
    const providers: seq<Provider>

    constructor(providers: seq<Provider>)
      ensures this.providers == providers
    {
      this.providers := providers;
    }

    /** The outcome every registered provider's task completes with. */
    function Outcomes(request: Exchange): seq<Outcome> {
      seq(|providers|, i requires 0 <= i < |providers| => providers[i].tryGetQuote(request))
    }

    /** Starts one task per registered provider, in registration order, each
        calling the provider with the same request; the pending tasks are keyed
        by registration index. */
    method Dispatch(req: Exchange) returns (calls: seq<Call>, pending: map<nat, Outcome>)
      ensures |calls| == |providers| && forall j :: 0 <= j < |providers| ==> calls[j] == Call(j, req)
      ensures PendingTasks(pending, [], Outcomes(req))
      ensures |pending| == |providers|
    {
      calls, pending := [], map[];
      var i := 0;
      while i < |providers|
        invariant 0 <= i <= |providers|
        invariant |calls| == i && forall j :: 0 <= j < i ==> calls[j] == Call(j, req)
        invariant forall j: nat :: j in pending <==> j < i
        invariant |pending| == i
        invariant forall j :: j in pending ==> pending[j] == Outcomes(req)[j]
      {
        var t := providers[i].tryGetQuote(req);
        calls := calls + [Call(i, req)];
        assert i !in pending;
        pending := pending[i := t];
        i := i + 1;
      }
    }

    /** `CompareAsync(request, ct)`. Returns the outcome, the provider calls
        made (in dispatch order) and the order in which the drain loop took
        the tasks. */
    method CompareAsync(request: Option<Exchange>)
      returns (r: CompareOutcome, calls: seq<Call>, order: seq<nat>)
      // a null request is rejected before any provider is called
      ensures request.None? ==> r == InvalidInput("request") && calls == [] && order == []
      // every provider is called exactly once, with the same request
      ensures request.Some? ==>
                |calls| == |providers|
                && forall i :: 0 <= i < |providers| ==> calls[i] == Call(i, request.value)
      // the tasks are drained one at a time, each at most once
      ensures request.Some? ==> IsPartialOrder(order, |providers|)
      // the result is the drain fold over the tasks in the order they were taken
      ensures request.Some? ==> r == Drain(Arrange(Outcomes(request.value), order), [])
      // a fault anywhere fails the comparison; otherwise every task was drained
      ensures request.Some? ==> (r.InternalError? <==> HasFault(Outcomes(request.value)))
      ensures request.Some? && !r.InternalError? ==>
                |order| == |providers|
                && multiset(Arrange(Outcomes(request.value), order))
                   == multiset(Outcomes(request.value))
    {
      calls, order := [], [];
      if request.None? {
        r := InvalidInput("request");
        return;
      }
      var req := request.value;
      var pending;
      calls, pending := Dispatch(req);
      r, order := DrainTasks(pending, Outcomes(req));
    }
  }

  /** The drain loop of `CompareAsync`: repeatedly takes whichever pending task
      has completed, removes it, and acts on its outcome — an offer is
      collected, a null result skipped, a fault ends the comparison with an
      internal error. Afterwards no offer means a gateway timeout, otherwise
      the highest-rated offer wins. */
  method DrainTasks(pending: map<nat, Outcome>, ghost outcomes: seq<Outcome>)
    returns (r: CompareOutcome, order: seq<nat>)
    requires PendingTasks(pending, [], outcomes) && |pending| == |outcomes|
    // the tasks are taken one at a time, each at most once
    ensures IsPartialOrder(order, |outcomes|)
    // the result is the drain fold over the tasks in the order they were taken
    ensures r == Drain(Arrange(outcomes, order), [])
    // a fault anywhere fails the comparison; otherwise every task was taken
    ensures r.InternalError? <==> HasFault(outcomes)
    ensures !r.InternalError? ==>
              |order| == |outcomes| && multiset(Arrange(outcomes, order)) == multiset(outcomes)
  {
    var pending := pending;
    order := [];
    var offers: seq<Offer> := [];
    while |pending| > 0
      invariant IsPartialOrder(order, |outcomes|)
      invariant PendingTasks(pending, order, outcomes)
      invariant |order| + |pending| == |outcomes|
      invariant !HasFault(Arrange(outcomes, order))
      invariant offers == Offers(Arrange(outcomes, order))
      decreases |pending|
    {
      var completed :| completed in pending;
      var outcome := pending[completed];
      TakePending(pending, order, outcomes, completed);
      pending := pending - {completed};
      ghost var before := Arrange(outcomes, order);
      DrainStep(outcomes, order, completed);
      order := order + [completed];
      match outcome {
        case Quoted(o) =>
          offers := offers + [o];
        case Absent =>
        case Faulted(m) =>
          r := InternalError(InternalErrorPrefix + m);
          assert Arrange(outcomes, order)[..|order| - 1] == before;
          FaultAtEnd(Arrange(outcomes, order));
          assert outcomes[completed].Faulted?;
          return;
      }
    }

    if |offers| == 0 {
      r := GatewayTimeout(NoOffersMessage);
    } else {
      // offers.OrderByDescending(o => o.Rate).First()
      var best := OrderByRateDescending(offers)[0];
      r := Ok(CompareResult(best, offers));
    }
    AllTaken(pending, order, outcomes);
  }

  /** Once nothing is pending and no fault was met, the fold is decided by the
      offers alone, no task faulted, and every task was taken exactly once. */
  lemma AllTaken(pending: map<nat, Outcome>, order: seq<nat>, outcomes: seq<Outcome>)
    requires PendingTasks(pending, order, outcomes) && |pending| == 0
    requires IsPartialOrder(order, |outcomes|)
    requires !HasFault(Arrange(outcomes, order))
    ensures Drain(Arrange(outcomes, order), []) == Conclude(Offers(Arrange(outcomes, order)))
    ensures !HasFault(outcomes)
    ensures |order| == |outcomes| && multiset(Arrange(outcomes, order)) == multiset(outcomes)
  {
    NothingPending(pending, order, outcomes);
    AllDrained(outcomes, order);
    DrainSummary(Arrange(outcomes, order));
  }

  /** The tasks still pending are exactly those not yet taken, each with the
      outcome its provider completes with. */
  ghost predicate PendingTasks(pending: map<nat, Outcome>, order: seq<nat>, outcomes: seq<Outcome>) {
    && (forall j: nat :: j in pending <==> j < |outcomes| && j !in order)
    && (forall j :: j in pending ==> pending[j] == outcomes[j])
  }

  /** Removing a pending task and appending it to the order keeps the two
      in step. */
  lemma TakePending(pending: map<nat, Outcome>, order: seq<nat>, outcomes: seq<Outcome>, c: nat)
    requires PendingTasks(pending, order, outcomes) && c in pending
    ensures c < |outcomes| && c !in order && pending[c] == outcomes[c]
    ensures PendingTasks(pending - {c}, order + [c], outcomes)
    ensures |pending - {c}| == |pending| - 1
  {
    assert (pending - {c}).Keys == pending.Keys - {c};
  }

  /** When nothing is pending every task has been taken. */
  lemma NothingPending(pending: map<nat, Outcome>, order: seq<nat>, outcomes: seq<Outcome>)
    requires PendingTasks(pending, order, outcomes) && |pending| == 0
    ensures Covers(order, |outcomes|)
  {
    assert pending == map[];
  }

  /** Taking one more pending task extends the arrangement by its outcome. */
  lemma DrainStep(outcomes: seq<Outcome>, order: seq<nat>, c: nat)
    requires IsPartialOrder(order, |outcomes|) && c < |outcomes| && c !in order
    ensures IsPartialOrder(order + [c], |outcomes|)
    ensures Arrange(outcomes, order + [c]) == Arrange(outcomes, order) + [outcomes[c]]
    ensures !HasFault(Arrange(outcomes, order)) && !outcomes[c].Faulted?
            ==> !HasFault(Arrange(outcomes, order + [c]))
    ensures Offers(Arrange(outcomes, order + [c]))
            == Offers(Arrange(outcomes, order))
               + (if outcomes[c].Quoted? then [outcomes[c].offer] else [])
  {
    var before := Arrange(outcomes, order);
    assert Arrange(outcomes, order + [c]) == before + [outcomes[c]];
    OffersSnoc(before, outcomes[c]);
    if !HasFault(before) && !outcomes[c].Faulted? {
      forall k | 0 <= k < |order| + 1 ensures !Arrange(outcomes, order + [c])[k].Faulted? {
        if k < |order| { assert Arrange(outcomes, order + [c])[k] == before[k]; }
      }
    }
  }

  /** A fault taken after a fault-free prefix decides the fold. */
  lemma FaultAtEnd(done: seq<Outcome>)
    requires |done| > 0 && done[|done| - 1].Faulted?
    requires !HasFault(done[..|done| - 1])
    ensures Drain(done, []) == InternalError(InternalErrorPrefix + done[|done| - 1].message)
  {
    var p := done[..|done| - 1];
    assert done == p + [done[|done| - 1]];
    DrainPrefix(p, [done[|done| - 1]], []);
  }

  /** Once every task has been taken without a fault, none of them faulted and
      the arrangement is a permutation of the outcomes. */
  lemma AllDrained(outcomes: seq<Outcome>, order: seq<nat>)
    requires IsPartialOrder(order, |outcomes|) && Covers(order, |outcomes|)
    requires !HasFault(Arrange(outcomes, order))
    ensures !HasFault(outcomes)
    ensures multiset(Arrange(outcomes, order)) == multiset(outcomes)
    ensures |order| == |outcomes|
  {
    var done := Arrange(outcomes, order);
    forall j | 0 <= j < |outcomes| ensures !outcomes[j].Faulted? {
      assert j in order;
      var k :| 0 <= k < |order| && order[k] == j;
      assert done[k] == outcomes[j];
    }
    ArrangePermutes(outcomes, order);
    assert |multiset(done)| == |multiset(outcomes)|;
  }

  lemma OffersSnoc(p: seq<Outcome>, x: Outcome)
    ensures Offers(p + [x]) == Offers(p) + (if x.Quoted? then [x.offer] else [])
  {
    if |p| > 0 {
      assert (p + [x])[1..] == p[1..] + [x];
      OffersSnoc(p[1..], x);
    } else {
      assert p + [x] == [x];
    }
  }
}
