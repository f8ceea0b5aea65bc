# ExchangeRateComparer — a Dafny model of the comparator and its three providers

ExchangeRateComparer answers "how much `to` do I get for `value` units of
`from`?" by asking three exchange-rate APIs at once and returning the best
offer. This project models the core of that service and proves properties of
the model:

- `RateComparisonService.CompareAsync` (module `RateComparison`): starts one
  task per registered provider, drains the tasks in completion order, fails
  with an internal error on the first faulted task, fails with a gateway
  timeout when no provider offered anything, and otherwise returns the offer
  with the highest `Rate` (ties go to the offer collected first) together with
  every offer collected. It is a class whose `Dispatch` and drain loops are
  imperative methods, proved against the fold `Drain` over the outcomes in the
  order the tasks were taken. The scheduler is a free choice (`:|`), so the
  proofs hold for every completion order.
- `FreeCurrencyApiService.TryGetQuoteAsync` (module `FreeCurrency`):
  normalises the codes, answers a same-currency request at once, and otherwise
  looks the target up in the `data` table.
- `DataFixerApiService.TryGetQuoteAsync` (module `DataFixer`): splits the
  comma-separated target list, builds the `symbols` parameter, and picks the
  direct, inverse or cross rate from Fixer's EUR-based table.
- `CurrencyFreakApiService.TryGetQuoteAsync` (module `CurrencyFreak`): builds
  a rate table from an XML or a JSON body, gives the base currency the rate 1
  when the feed omits it, and converts at `rTo / rFrom`. The XML and JSON
  loops are imperative methods (`ReadXml`, `ReadRates`, `ReadJsonRates`),
  proved equal to recursive reference functions.

Shared pieces:

- `Decimal`: C# `decimal` as exact `real`s; `Math.Round(x, 5, AwayFromZero)`;
  `decimal.TryParse` with `NumberStyles.Float`.
- `Text`: `Trim`, `ToUpperInvariant`, `Split`/`Join`, `Distinct` and ordinal
  ignore-case equality.
- `Entities`: `Exchange`, `Offer` and `CompareResult`.
- `Http`: `Reply<T>`, which stands for the HTTP exchange.

Every provider call is a parameter of the model: the reply (or transport
failure) and the elapsed milliseconds are inputs. Every `return null` and
every caught exception is `None`.

## Model

| member | source | states |
|---|---|---|
| RateComparison.RateComparisonService.Dispatch | ExchangeRateComparer.Application/Services/RateComparisonService.cs:36-44 | one task per registered provider, in registration order, each called with the same request; the pending set holds exactly one entry per provider, keyed by registration index |
| RateComparison.RateComparisonService.CompareAsync | ExchangeRateComparer.Application/Services/RateComparisonService.cs:24-95 | a null request is rejected before any provider is called; every provider is called once with the request; the result is the drain fold over the tasks in the order taken; a fault anywhere fails the comparison, otherwise every task is taken exactly once |
| RateComparison.DrainTasks | ExchangeRateComparer.Application/Services/RateComparisonService.cs:46-94 | the drain loop takes each pending task at most once; its result equals the fold `Drain`; it is an internal error iff some task faulted; without one the taken tasks are a permutation of all tasks |
| RateComparison.DrainSummary | ExchangeRateComparer.Application/Services/RateComparisonService.cs:48-84 | the first faulted task decides the outcome if there is one; otherwise the outcome depends only on the offers, in completion order |
| RateComparison.DrainPrefix | ExchangeRateComparer.Application/Services/RateComparisonService.cs:55-68 | draining tasks without a fault only appends their non-null offers |
| RateComparison.FaultFailsComparison | ExchangeRateComparer.Application/Services/RateComparisonService.cs:70-74 | one fault fails the comparison with "Error Interno…" plus the first fault's message; offers already collected are dropped |
| RateComparison.NoOfferIsGatewayTimeout | ExchangeRateComparer.Application/Services/RateComparisonService.cs:78-82 | no fault and no offer gives the gateway-timeout error |
| RateComparison.SuccessCollectsOffers | ExchangeRateComparer.Application/Services/RateComparisonService.cs:86-94 | no fault and some offer gives a result whose `allOffers` are the non-null results in completion order, and whose `bestOffer` is among them, has the highest rate and is the earliest such offer |
| RateComparison.Offers | ExchangeRateComparer.Application/Services/RateComparisonService.cs:57-60 | an offer is collected iff some task completed with it |
| RateComparison.FirstFault | ExchangeRateComparer.Application/Services/RateComparisonService.cs:70-73 | the position of the first faulted task: it faulted, and no task before it did |
| RateComparison.BestOffer | ExchangeRateComparer.Application/Services/RateComparisonService.cs:86-88 | `OrderByDescending(o => o.Rate).First()` is an offer of the list, no offer has a higher rate, and it is the first offer with the highest rate |
| RateComparison.FirstBestIndex | ExchangeRateComparer.Application/Services/RateComparisonService.cs:86-88 | the first position holding the highest rate |
| RateComparison.OrderByRateDescendingSorted | ExchangeRateComparer.Application/Services/RateComparisonService.cs:86-87 | the stable sort orders by falling rate |
| RateComparison.OrderByRateDescendingPermutes | ExchangeRateComparer.Application/Services/RateComparisonService.cs:86-87 | the sort is a permutation of the offers |
| RateComparison.InsertByRateSorted | ExchangeRateComparer.Application/Services/RateComparisonService.cs:86-87 | one insertion step keeps the sequence sorted, and its head is the inserted offer iff no rate ahead is higher |
| RateComparison.InsertByRatePermutes | ExchangeRateComparer.Application/Services/RateComparisonService.cs:86-87 | one insertion step adds exactly the inserted offer |
| RateComparison.SortedHeadIsFirstBest | ExchangeRateComparer.Application/Services/RateComparisonService.cs:86-88 | the head of the sorted offers is the earliest offer with the highest rate |
| RateComparison.Arrange | ExchangeRateComparer.Application/Services/RateComparisonService.cs:48-53 | the outcomes listed in the order the drain loop took the tasks |
| RateComparison.ArrangePermutes | ExchangeRateComparer.Application/Services/RateComparisonService.cs:48-53 | taking every task exactly once keeps every outcome, with its multiplicity |
| RateComparison.TakePending | ExchangeRateComparer.Application/Services/RateComparisonService.cs:50-53 | removing the completed task from the pending set and recording it as taken keeps "pending = not yet taken" |
| RateComparison.DrainStep | ExchangeRateComparer.Application/Services/RateComparisonService.cs:55-68 | taking one more task appends its outcome, and appends its offer when it has one |
| RateComparison.AllTaken | ExchangeRateComparer.Application/Services/RateComparisonService.cs:48-53 | once nothing is pending and no fault was met, every task was taken exactly once and none faulted |
| FreeCurrency.Codes | ExchangeRateComparer.Application/Providers/FreeCurrencyApiService.cs:31-34 | accepted codes are non-empty |
| FreeCurrency.CodesFacts | ExchangeRateComparer.Application/Providers/FreeCurrencyApiService.cs:31-34 | the codes are rejected iff one raw code is null or blank; accepted codes are upper case |
| FreeCurrency.BlankCodeIsAbsent | ExchangeRateComparer.Application/Providers/FreeCurrencyApiService.cs:33-34 | a blank code gives no offer, whatever the reply |
| FreeCurrency.FromReply | ExchangeRateComparer.Application/Providers/FreeCurrencyApiService.cs:56-74 | an offer exists iff the call succeeds with a non-null `data` holding the target; it carries the provider's name and the elapsed time |
| FreeCurrency.SameCurrencyIgnoresReply | ExchangeRateComparer.Application/Providers/FreeCurrencyApiService.cs:36-44 | a same-currency request is answered without the upstream reply playing any part |
| FreeCurrency.OtherPairsAskUpstream | ExchangeRateComparer.Application/Providers/FreeCurrencyApiService.cs:46-74 | any other pair depends on the reply: a failed call gives nothing, a reply quoting the target gives that conversion |
| FreeCurrency.QuoteConvertsAtUpstreamRate | ExchangeRateComparer.Application/Providers/FreeCurrencyApiService.cs:56-74 | for other pairs an offer exists iff the reply holds the target, and it is the amount at `data[to]`, rounded |
| FreeCurrency.TryGetQuoteAsWritten | ExchangeRateComparer.Application/Providers/FreeCurrencyApiService.cs:36-44 | as written, a same-currency request gets `Rate = 1` |
| FreeCurrency.SameCurrencyAsWrittenIgnoresAmount | ExchangeRateComparer.Application/Providers/FreeCurrencyApiService.cs:36-44 | as written, that answer differs from the amount at parity whenever the amount does not round to 1 |
| FreeCurrency.SameCurrencyExample | ExchangeRateComparer.Application/Providers/FreeCurrencyApiService.cs:36-44 | 100 USD to USD: 1 as written, 100 corrected |
| FreeCurrency.TryGetQuote | ExchangeRateComparer.Application/Providers/FreeCurrencyApiService.cs:31-79 | the corrected method (a same-currency request converts the amount at parity instead of answering 1): blank codes give nothing; every offer carries the provider's name and the elapsed time |
| FreeCurrency.AsWrittenAgreesOnOtherPairs | ExchangeRateComparer.Application/Providers/FreeCurrencyApiService.cs:31-79 | the correction changes the same-currency answer only: for blank codes and for two different codes the as-written and the corrected method give the same result, so `QuoteConvertsAtUpstreamRate` holds for both |
| FreeCurrency.SameCurrencyConvertsAtParity | ExchangeRateComparer.Application/Providers/FreeCurrencyApiService.cs:36-44 | corrected, the same-currency answer is what the provider gives when upstream quotes the currency at 1, for every amount |
| DataFixer.TargetsFacts | ExchangeRateComparer.Application/Providers/DataFixerApiService.cs:38-39 | the targets are distinct, non-empty and comma-free; a code is a target iff it is some non-blank piece of the list, trimmed and upper-cased |
| DataFixer.FirstTarget | ExchangeRateComparer.Application/Providers/DataFixerApiService.cs:38-39 | the first target, the only one quoted (line 56), is the first piece of the comma-separated list that is not blank, trimmed and upper-cased |
| Text.RemoveEmptyFirst | ExchangeRateComparer.Application/Providers/DataFixerApiService.cs:38 | `RemoveEmptyEntries` keeps the order: the first piece kept is the first non-empty one |
| DataFixer.SingleTarget | ExchangeRateComparer.Application/Providers/DataFixerApiService.cs:38-39 | a single code without a comma is its own only target |
| DataFixer.SymbolsRoundTrip | ExchangeRateComparer.Application/Providers/DataFixerApiService.cs:42 | splitting the `symbols` parameter at commas gives back the source code followed by the targets |
| DataFixer.SelectRateIsCrossRate | ExchangeRateComparer.Application/Providers/DataFixerApiService.cs:56-65 | the three branches (direct, inverse, cross rate) all equal the one cross-rate formula on the EUR-based table, whenever the table does not contradict EUR = 1 and, for an EUR-to-EUR request, the table holds EUR (without it the code selects 0, see `EurToEurNeedsEur`) |
| DataFixer.EurToEurNeedsEur | ExchangeRateComparer.Application/Providers/DataFixerApiService.cs:61-65 | an EUR-to-EUR request on a table without EUR selects 0, although the reference rate is 1 |
| DataFixer.TryGetQuote | ExchangeRateComparer.Application/Providers/DataFixerApiService.cs:28-82 | every offer carries the provider's name and the elapsed time |
| DataFixer.InvalidCodesAreAbsent | ExchangeRateComparer.Application/Providers/DataFixerApiService.cs:34-36 | a source code not three characters long, or a blank target list, gives no offer |
| DataFixer.FailedReplyIsAbsent | ExchangeRateComparer.Application/Providers/DataFixerApiService.cs:49-54 | a failed call, a non-success status, an unsuccessful payload or an empty table gives no offer |
| DataFixer.QuoteUsesFirstTarget | ExchangeRateComparer.Application/Providers/DataFixerApiService.cs:36-75 | an offer exists iff every guard passes and the rate selected for the first target is positive; it is the amount at that rate, rounded |
| DataFixer.QuoteIsCrossRate | ExchangeRateComparer.Application/Providers/DataFixerApiService.cs:56-74 | every offer is the amount at the reference cross rate of the first target against the source |
| CurrencyFreak.ReadContent | ExchangeRateComparer.Application/Providers/CurrencyFreakApiService.cs:73 | `ReadElementContentAsString` leaves the reader past an end tag, strictly after the element |
| CurrencyFreak.ReadXml | ExchangeRateComparer.Application/Providers/CurrencyFreakApiService.cs:55-79 | the (corrected) outer XML loop builds the table of the reference scan |
| CurrencyFreak.ReadRates | ExchangeRateComparer.Application/Providers/CurrencyFreakApiService.cs:66-77 | the (corrected) inner loop over `<rates>` stores each child in turn and stops past `</rates>`, as the reference scan does |
| CurrencyFreak.XmlRatesSnoc | ExchangeRateComparer.Application/Providers/CurrencyFreakApiService.cs:72-75 | storing one more child is one more step of the table fold |
| CurrencyFreak.XmlEntryFacts | ExchangeRateComparer.Application/Providers/CurrencyFreakApiService.cs:72-75 | a child of `<rates>` contributes an entry iff its trimmed, upper-cased name is non-empty and its trimmed text parses; the entry is that name with the parsed value |
| CurrencyFreak.XmlRatesAreEntries | ExchangeRateComparer.Application/Providers/CurrencyFreakApiService.cs:68-77 | the rates the inner loop stores are its children's entries stored in turn, a later one overwriting an earlier one |
| CurrencyFreak.XmlRatesHas | ExchangeRateComparer.Application/Providers/CurrencyFreakApiService.cs:68-77 | a code is in the XML table iff some child of `<rates>` has that code as its trimmed, upper-cased, non-empty name and trimmed text that parses |
| CurrencyFreak.XmlRatesLookup | ExchangeRateComparer.Application/Providers/CurrencyFreakApiService.cs:68-77 | its rate is the parsed text of the last such child |
| CurrencyFreak.InnerReadsChild | ExchangeRateComparer.Application/Providers/CurrencyFreakApiService.cs:70-75 | `<name>text</name>` inside `<rates>` is read as the pair (name, text) |
| CurrencyFreak.OuterReadsBase | ExchangeRateComparer.Application/Providers/CurrencyFreakApiService.cs:60-64 | `<base>text</base>` sets the base to that text |
| CurrencyFreak.OuterEntersRates | ExchangeRateComparer.Application/Providers/CurrencyFreakApiService.cs:66-68 | `<rates>` starts the inner loop at the next node |
| CurrencyFreak.InnerOverEntries | ExchangeRateComparer.Application/Providers/CurrencyFreakApiService.cs:68-77 | the corrected inner loop reads every remaining child of a rendered feed, in order |
| CurrencyFreak.ReadsEveryEntry | ExchangeRateComparer.Application/Providers/CurrencyFreakApiService.cs:56-79 | the corrected loops read back a rendered feed's base and every rate entry, in order |
| CurrencyFreak.XmlRoundTrip | ExchangeRateComparer.Application/Providers/CurrencyFreakApiService.cs:56-79 | hence the table of a rendered feed is its normalised base code and every entry stored in turn |
| CurrencyFreak.AsWrittenSkipsRates | ExchangeRateComparer.Application/Providers/CurrencyFreakApiService.cs:56-79 | as written, the `Read` after the base's content skips `<rates>` itself, so a one-entry feed gives an empty table |
| CurrencyFreak.XmlQuoteAsWritten | ExchangeRateComparer.Application/Providers/CurrencyFreakApiService.cs:56-79 | as written, 100 USD to EUR on a feed quoting EUR at 0.9 against USD gives no offer |
| CurrencyFreak.XmlQuoteCorrected | ExchangeRateComparer.Application/Providers/CurrencyFreakApiService.cs:56-127 | corrected, the same request gives 90 |
| CurrencyFreak.LastProperty | ExchangeRateComparer.Application/Providers/CurrencyFreakApiService.cs:87-90 | `TryGetProperty` fails iff no member has the name; otherwise it gives the value of the last member with it |
| CurrencyFreak.ReadJsonRates | ExchangeRateComparer.Application/Providers/CurrencyFreakApiService.cs:92-107 | the `foreach` over the `rates` members builds the table of the reference fold |
| CurrencyFreak.JsonRatesHas | ExchangeRateComparer.Application/Providers/CurrencyFreakApiService.cs:92-107 | a code is in the JSON table iff some member with that upper-cased name has a non-zero amount or is the base code |
| CurrencyFreak.JsonRatesLookup | ExchangeRateComparer.Application/Providers/CurrencyFreakApiService.cs:92-107 | its rate is the amount of the last such member |
| CurrencyFreak.JsonZeroOnlyBase | ExchangeRateComparer.Application/Providers/CurrencyFreakApiService.cs:106-107 | a zero rate is only ever stored for the base code |
| CurrencyFreak.PatchBaseFacts | ExchangeRateComparer.Application/Providers/CurrencyFreakApiService.cs:113-114 | the base default keeps every entry, adds the non-blank base code when missing, and adds nothing else, with rate 1 |
| CurrencyFreak.QuoteFromBase | ExchangeRateComparer.Application/Providers/CurrencyFreakApiService.cs:113-124 | quoting from a base the feed omits converts at the target's own rate |
| CurrencyFreak.Convert | ExchangeRateComparer.Application/Providers/CurrencyFreakApiService.cs:116-127 | a conversion exists iff both codes are in the table and the source rate is non-zero (a zero divisor throws) |
| CurrencyFreak.Respond | ExchangeRateComparer.Application/Providers/CurrencyFreakApiService.cs:31-132 | every offer carries the provider's name and the elapsed time |
| CurrencyFreak.TryGetQuoteAsync | ExchangeRateComparer.Application/Providers/CurrencyFreakApiService.cs:31-132 | the method, with the corrected XML loops, computes the reference quote |
| CurrencyFreak.ReadBody | ExchangeRateComparer.Application/Providers/CurrencyFreakApiService.cs:47-110 | the body is read on the path its media type selects |
| CurrencyFreak.BlankCodeIsAbsent | ExchangeRateComparer.Application/Providers/CurrencyFreakApiService.cs:35-37 | a blank code gives no offer |
| CurrencyFreak.FailedReplyIsAbsent | ExchangeRateComparer.Application/Providers/CurrencyFreakApiService.cs:43-44 | a failed call, a non-success status or an unreadable body gives no offer |
| CurrencyFreak.OfferIsCrossRate | ExchangeRateComparer.Application/Providers/CurrencyFreakApiService.cs:35-124 | an offer exists iff both codes are non-blank, the body is read, and both codes are in the patched table with a non-zero source rate |
| CurrencyFreak.OfferConvertsAtCrossRate | ExchangeRateComparer.Application/Providers/CurrencyFreakApiService.cs:116-127 | the offer is the amount at `rTo / rFrom`, rounded |
| CurrencyFreak.XmlTableIsUpper | ExchangeRateComparer.Application/Providers/CurrencyFreakApiService.cs:62-75 | every code the XML loops store, and the base code, is upper case |
| CurrencyFreak.JsonTableIsUpper | ExchangeRateComparer.Application/Providers/CurrencyFreakApiService.cs:87-107 | every code the JSON loop stores, and the base code, is upper case |
| CurrencyFreak.TableIsUpper | ExchangeRateComparer.Application/Providers/CurrencyFreakApiService.cs:49-109 | whatever the body, the table's codes are upper case |
| CurrencyFreak.IgnoreCaseLookupIsExact | ExchangeRateComparer.Application/Providers/CurrencyFreakApiService.cs:116-117 | in the `OrdinalIgnoreCase` dictionary the lookup of a normalised code finds exactly the entry with that very key |
| Decimal.Round5 | ExchangeRateComparer.Application/Providers/FreeCurrencyApiService.cs:72 | `decimal.Round(x, 5, AwayFromZero)` has at most 5 decimals and lies within half a unit of the fifth place, a half going away from zero |
| Decimal.Round5Unique | ExchangeRateComparer.Application/Providers/FreeCurrencyApiService.cs:72 | those bounds determine the rounded value |
| Decimal.Round5OnGrid | ExchangeRateComparer.Application/Providers/FreeCurrencyApiService.cs:72 | a value with at most 5 decimals is unchanged, so rounding is idempotent |
| Decimal.Round5Negate | ExchangeRateComparer.Application/Providers/FreeCurrencyApiService.cs:72 | rounding away from zero is symmetric |
| Decimal.Round5Example | ExchangeRateComparer.Application/Providers/FreeCurrencyApiService.cs:72 | 123.456789 rounds to 123.45679 |
| Decimal.ConvertBounds | ExchangeRateComparer.Application/Providers/FreeCurrencyApiService.cs:67-72 | an offer's `Rate` has at most 5 decimals and is within half a unit of the exact product |
| Decimal.ParseDecimalAccepts | ExchangeRateComparer.Application/Providers/CurrencyFreakApiService.cs:74 | `TryParse` succeeds iff the text, with its surrounding white space and one leading sign removed, is digits, or digits around one '.', with at least one digit |
| Decimal.ParseDecimalReadsFraction | ExchangeRateComparer.Application/Providers/CurrencyFreakApiService.cs:74 | for all digit strings `w` and `f` (not both empty), `[-]w.f` parses to the signed value of `w` plus `f` over 10^|f| |
| Decimal.ParseDecimalReadsWhole | ExchangeRateComparer.Application/Providers/CurrencyFreakApiService.cs:74 | for every non-empty digit string `w`, `[-]w` parses to the signed value of `w` |
| Decimal.ParseDecimalFraction | ExchangeRateComparer.Application/Providers/CurrencyFreakApiService.cs:74 | `TryParse` reads "0.9" as 0.9 |
| Decimal.ParseDecimalSigned | ExchangeRateComparer.Application/Providers/CurrencyFreakApiService.cs:74 | `TryParse` reads "-12" as -12 |
| Decimal.ParseDecimalRejects | ExchangeRateComparer.Application/Providers/CurrencyFreakApiService.cs:74 | `TryParse` rejects ".", "" and "x1" |
| Text.NormalizeCodeFacts | ExchangeRateComparer.Application/Providers/CurrencyFreakApiService.cs:35-37 | `(code ?? "").Trim().ToUpperInvariant()` is upper case, and it is empty iff the raw code was blank |
| Text.UpperCaseFacts | ExchangeRateComparer.Application/Providers/DataFixerApiService.cs:39 | upper-casing gives an upper-case string, is idempotent and keeps blankness |
| Text.TrimFacts | ExchangeRateComparer.Application/Providers/FreeCurrencyApiService.cs:31 | `Trim` removes exactly the leading and trailing white space |
| Text.SplitJoin | ExchangeRateComparer.Application/Providers/DataFixerApiService.cs:42 | joining comma-free pieces and splitting again gives them back |
| Text.JoinSplit | ExchangeRateComparer.Application/Providers/DataFixerApiService.cs:38 | splitting and joining again gives back the string |
| Text.Distinct | ExchangeRateComparer.Application/Providers/DataFixerApiService.cs:39 | `Distinct()` keeps exactly the elements of its input, without duplicates, and the first element first |

## Left out

- HTTP: building the URLs and query strings, the API keys and base URLs from the options, and the constructors' argument checks. The reply is an input of each provider.
- Cancellation, the 10-second timeout and the scheduler. The comparator's drain loop takes any pending task, so every completion order is covered. A provider's outcome (offer, null or fault) is arbitrary.
- Logging, which has no effect on the result.
- `ElapsedTime`: `Environment.TickCount64` is an opaque input, and its `(int)` cast is not modelled.
- JSON and XML parsing below the token level. The XML body is the node sequence `XmlReader` reports, and the JSON body is the parsed document; a reader that throws is a `None` body. Self-closing elements, DTDs and attributes are not modelled.
- `Text.ToUpperInvariant` and `Text.ToLowerInvariant` map ASCII letters only, without culture-specific behaviour.
- Strings are sequences of Unicode scalar values, whereas C# strings are sequences of UTF-16 code units. A character outside the Basic Multilingual Plane has length 1 here and 2 in C#, so `DataFixer.TryGetQuote`'s `from.Length != 3` test differs from the source on such text. Such a code is never a valid currency code, but the model may return an offer where the source returns null, or the reverse.
- `Decimal.ParseDecimal` does not accept exponent notation, thousands separators or currency symbols.
- `decimal` is exact `real`: its 28-digit precision, its overflow (which throws and is caught as `null`) and the rounding of division results are not modelled.
- `FixerLatest.Base` is deserialised but never read, so it is not in the model.
- The XML rate path stores a parsed rate of 0 without complaint, and a zero source rate then makes the division throw. The model covers this through `CurrencyFreak.Convert`'s zero-divisor case.
- The XML loops are modelled with a corrected reading: `ReadXml`, `ReadRates`, `TryGetQuoteAsync`. The as-written reading is the function `CurrencyFreak.TryGetQuoteAsWritten` (see Findings).
- FreeCurrency.TryGetQuote: the corrected method. As written, a same-currency request is answered with `Rate = 1` whatever the amount; that reading is `FreeCurrency.TryGetQuoteAsWritten` (see Findings).
- RateComparison.RateComparisonService.Dispatch: pending tasks are keyed by registration index, while the source keys its dictionary by the `Task` object itself (RateComparisonService.cs:36 and :43). Three source paths are therefore not modelled, and `Dispatch` and `CompareAsync` do not promise what happens on them:
  - Two providers that return the same task make `providers.Add` throw `ArgumentException`. This happens when two async providers both return null before their first `await`, since .NET then hands out one cached completed task, for example all three providers on a blank `From` code or on an already-cancelled token. The model answers with a gateway timeout instead.
  - A provider whose `TryGetQuoteAsync` throws before returning a task lets that exception escape `CompareAsync`, and the providers after it are never called. The model treats it as a faulted task and answers with an internal error.
  - A provider that returns a null task makes `providers.Add` throw `ArgumentNullException`.
- `RateComparison.RateComparisonService.Dispatch`, `RateComparison.DrainTasks`, `CurrencyFreak.ReadRates` and `CurrencyFreak.ReadBody` are parts of one source method each, split out as methods of their own.

## Findings

| source | as written | input that shows it | evidently intended | confidence | as-written member | corrected member |
|---|---|---|---|---|---|---|
| ExchangeRateComparer.Application/Providers/FreeCurrencyApiService.cs:36-44 | a same-currency request is answered with `Rate = 1` | 100 USD to USD: offer with `Rate` 1 | `Rate` is the converted amount on every other path (and for the other providers), so 100 | not executed | FreeCurrency.SameCurrencyAsWrittenIgnoresAmount | FreeCurrency.SameCurrencyConvertsAtParity |
| ExchangeRateComparer.Application/Providers/CurrencyFreakApiService.cs:56-79 | after `ReadElementContentAsStringAsync` the reader is already on the node after the end tag, and the loop's `ReadAsync` skips that node: `<rates>` right after `</base>` is never entered, and inside `<rates>` every other child is lost | `<response><base>USD</base><rates><EUR>0.9</EUR></rates></response>`, 100 USD to EUR: no offer | every child of `<rates>` stored; 90 EUR offered | not executed | CurrencyFreak.XmlQuoteAsWritten | CurrencyFreak.XmlQuoteCorrected |
