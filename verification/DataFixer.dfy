/**
 * `DataFixerApiService.TryGetQuoteAsync`: normalise the codes, split the
 * target list, ask `/latest` for the source and the targets, then pick the
 * rate from the EUR-based table (direct, inverse or cross rate) and convert
 * the amount.
 *
 * The HTTP exchange is a parameter (`Http.Reply`); the elapsed time is the
 * opaque `elapsed`.
 */
module DataFixer {
  import opened Wrappers
  import opened Entities
  import opened Http
  import Text
  import Decimal

  const ApiName: string := "Api #3 -> Data Fixer Api"

  /** The base currency of Fixer's rate tables. */
  const Eur: string := "EUR"

  /** The deserialised `FixerLatest` body: the `success` flag and the `rates`
      table (`None` when null). Its `base` property is never read. */
  datatype FixerLatest = FixerLatest(success: bool, rates: Option<map<string, real>>)

  // ---------------------------------------------------------------------
  // Targets and symbols

  /** `toRaw.Split(',', RemoveEmptyEntries | TrimEntries)`, upper-cased and
      de-duplicated in order of first appearance. */
  function Targets(toRaw: string): seq<string> {
    Text.Distinct(Text.UpperAll(Text.RemoveEmpty(Text.TrimAll(Text.Split(toRaw, ',')))))
  }

  /** `p` is a piece of the comma-separated list that survives trimming. */
  predicate IsPiece(toRaw: string, p: string) {
    p in Text.Split(toRaw, ',') && Text.Trim(p) != ""
  }

  /** The targets are distinct, non-empty and free of commas; each is an
      upper-cased, trimmed non-blank piece of the list, and every such piece
      is among them. */
  lemma {:induction false} TargetsFacts(toRaw: string)
    ensures Text.NoDuplicates(Targets(toRaw))
    ensures forall t :: t in Targets(toRaw) ==> t != "" && ',' !in t
    ensures forall t :: t in Targets(toRaw) <==>
              exists p :: IsPiece(toRaw, p) && t == Text.ToUpperInvariant(Text.Trim(p))
  {
    forall t | t in Targets(toRaw)
      ensures t != "" && ',' !in t
      ensures exists p :: IsPiece(toRaw, p) && t == Text.ToUpperInvariant(Text.Trim(p))
    {
      TargetIsPiece(toRaw, t);
    }
    forall t | exists p :: IsPiece(toRaw, p) && t == Text.ToUpperInvariant(Text.Trim(p))
      ensures t in Targets(toRaw)
    {
      var p :| IsPiece(toRaw, p) && t == Text.ToUpperInvariant(Text.Trim(p));
      PieceIsTarget(toRaw, p);
    }
  }

  /** The first target, the only one quoted, is the first piece of the list
      that is not blank, trimmed and upper-cased. */
  lemma {:induction false} FirstTarget(toRaw: string, k: nat)
    requires k < |Text.Split(toRaw, ',')| && Text.Trim(Text.Split(toRaw, ',')[k]) != ""
    requires forall j :: 0 <= j < k ==> Text.Trim(Text.Split(toRaw, ',')[j]) == ""
    ensures |Targets(toRaw)| > 0
    ensures Targets(toRaw)[0] == Text.ToUpperInvariant(Text.Trim(Text.Split(toRaw, ',')[k]))
  {
    var trimmed := Text.TrimAll(Text.Split(toRaw, ','));
    Text.RemoveEmptyFirst(trimmed, k);
  }

  lemma TargetIsPiece(toRaw: string, t: string)
    requires t in Targets(toRaw)
    ensures t != "" && ',' !in t
    ensures exists p :: IsPiece(toRaw, p) && t == Text.ToUpperInvariant(Text.Trim(p))
  {
    var pieces := Text.Split(toRaw, ',');
    var trimmed := Text.TrimAll(pieces);
    var kept := Text.RemoveEmpty(trimmed);
    var upper := Text.UpperAll(kept);
    assert t in upper;
    var k :| 0 <= k < |upper| && upper[k] == t;
    var q := kept[k];
    assert q in trimmed && q != "";
    var j :| 0 <= j < |trimmed| && trimmed[j] == q;
    var p := pieces[j];
    assert IsPiece(toRaw, p) && Text.Trim(p) == q;
    NoCommaAfterTrim(p);
    UpperKeepsComma(q);
    assert |t| == |q|;
  }

  lemma PieceIsTarget(toRaw: string, p: string)
    requires IsPiece(toRaw, p)
    ensures Text.ToUpperInvariant(Text.Trim(p)) in Targets(toRaw)
  {
    var pieces := Text.Split(toRaw, ',');
    var trimmed := Text.TrimAll(pieces);
    var kept := Text.RemoveEmpty(trimmed);
    var upper := Text.UpperAll(kept);
    var j :| 0 <= j < |pieces| && pieces[j] == p;
    assert trimmed[j] == Text.Trim(p);
    assert Text.Trim(p) in kept;
    var k :| 0 <= k < |kept| && kept[k] == Text.Trim(p);
    assert upper[k] == Text.ToUpperInvariant(Text.Trim(p));
    assert upper[k] in upper;
  }

  lemma NoCommaAfterTrim(p: string)
    requires ',' !in p
    ensures ',' !in Text.Trim(p)
  {
    Text.TrimFacts(p);
    var r := Text.Trim(p);
    var lead := Text.LeadingWhiteSpace(p);
    forall i | 0 <= i < |r| ensures r[i] != ',' {
      assert r[i] == p[lead + i];
    }
  }

  lemma UpperKeepsComma(q: string)
    requires ',' !in q
    ensures ',' !in Text.ToUpperInvariant(q)
  {
    var u := Text.ToUpperInvariant(q);
    forall i | 0 <= i < |u| ensures u[i] != ',' {
      assert u[i] == Text.UpperChar(q[i]);
    }
  }

  /** A single code, with no comma, is its own only target. */
  lemma {:induction false} SingleTarget(to: string)
    requires ',' !in to && !Text.IsNullOrWhiteSpace(to)
    ensures Targets(Text.NormalizeCode(to)) == [Text.NormalizeCode(to)]
  {
    var code := Text.NormalizeCode(to);
    Text.NormalizeCodeFacts(to);
    Text.NormalizedCodeIsTrimmed(to);
    NoCommaAfterTrim(to);
    UpperKeepsComma(Text.Trim(to));
    Text.SplitNoSep(code, ',');
    Text.NormalizeUnpadded(code);
    Text.UpperCaseFacts(code);
    assert Text.Trim(code) == code;
    assert Text.TrimAll([code]) == [code];
    assert Text.RemoveEmpty([code]) == [code] by {
      assert Text.RemoveEmpty([code][1..]) == [];
    }
    assert Text.UpperAll([code]) == [code];
    assert Text.Distinct([code]) == [code] by {
      assert [code][..0] == [];
    }
  }

  /** The `symbols` query parameter: the source code followed by the
      targets, comma-separated. */
  function Symbols(from: string, targets: seq<string>): string {
    Text.Join([from] + targets, ',')
  }

  /** Fixer can split the `symbols` parameter back into exactly the source
      code and the targets. */
  lemma SymbolsRoundTrip(from: string, toRaw: string)
    requires ',' !in from
    ensures Text.Split(Symbols(from, Targets(toRaw)), ',') == [from] + Targets(toRaw)
  {
    TargetsFacts(toRaw);
    Text.SplitJoin([from] + Targets(toRaw), ',');
  }

  // ---------------------------------------------------------------------
  // Rate selection

  /** The nested conditional of `TryGetQuoteAsync`: the direct rate when the
      source is EUR, the inverse when the target is EUR, the cross rate
      otherwise; 0 when the needed entries are missing or the divisor is 0. */
  function SelectRate(from: string, to: string, rates: map<string, real>): real {
    if from == Eur && to in rates then rates[to]
    else if to == Eur && from in rates && rates[from] != 0.0 then 1.0 / rates[from]
    else if from in rates && to in rates && rates[from] != 0.0 then rates[to] / rates[from]
    else 0.0
  }

  /** The table with EUR's own rate made explicit: every Fixer rate is
      "units of the currency per EUR". */
  function EurBased(rates: map<string, real>): map<string, real> {
    rates[Eur := 1.0]
  }

  /** The reference answer: the rate of `to` per unit of `from` read off the
      EUR-based table, when both are known and the source rate is non-zero. */
  function ReferenceRate(from: string, to: string, rates: map<string, real>): Option<real> {
    var table := EurBased(rates);
    if from in table && to in table && table[from] != 0.0 then Some(table[to] / table[from])
    else None
  }

  /** The three branches of `SelectRate` agree with the single cross-rate
      formula on the EUR-based table, provided the table does not contradict
      EUR = 1, except that an EUR-to-EUR request needs EUR in the table. */
  lemma {:induction false} SelectRateIsCrossRate(from: string, to: string, rates: map<string, real>)
    requires Eur in rates ==> rates[Eur] == 1.0
    requires from == Eur && to == Eur ==> Eur in rates
    ensures SelectRate(from, to, rates)
            == match ReferenceRate(from, to, rates) case Some(x) => x case None => 0.0
  {
    var table := EurBased(rates);
    assert forall c :: c in rates ==> c in table && table[c] == rates[c];
    assert Eur in table && table[Eur] == 1.0;
    if from == Eur && to in rates {
      assert rates[to] / 1.0 == rates[to];
    } else if to == Eur && from in rates && rates[from] != 0.0 {
      assert from != Eur;
    } else if from in rates && to in rates && rates[from] != 0.0 {
      assert from != Eur;
    } else {
      assert from != Eur || to !in table;
      assert from !in table || to !in table || table[from] == 0.0;
    }
  }

  /** An EUR-to-EUR request on a table without EUR gets no rate, although EUR
      is worth 1 EUR. */
  lemma EurToEurNeedsEur(rates: map<string, real>)
    requires Eur !in rates
    ensures SelectRate(Eur, Eur, rates) == 0.0
    ensures ReferenceRate(Eur, Eur, rates) == Some(1.0)
  {
    assert Eur in EurBased(rates) && EurBased(rates)[Eur] == 1.0;
  }

  // ---------------------------------------------------------------------
  // The quote

  /** `TryGetQuoteAsync`: `None` stands for every `return null`, including the
      caught exceptions. */
  function TryGetQuote(request: Exchange, reply: Reply<FixerLatest>, elapsed: int)
    : (r: Option<Offer>)
    ensures r.Some? ==> r.value.api == ApiName && r.value.elapsedTime == elapsed
  {
    var from := Text.NormalizeCode(request.from);
    var toRaw := Text.NormalizeCode(request.to);
    if |from| != 3 || Text.IsNullOrWhiteSpace(toRaw) then None
    else
      var targets := Targets(toRaw);
      if |targets| == 0 then None
      else if reply.TransportFailure? || !reply.isSuccessStatusCode then None
      else
        var rates := if reply.content.Some? && reply.content.value.success
                     then reply.content.value.rates else None;
        if rates.None? || |rates.value| == 0 then None
        else
          var rate := SelectRate(from, targets[0], rates.value);
          if rate <= 0.0 then None
          else Some(Offer(ApiName, Decimal.Convert(request.value, rate), elapsed))
  }

  /** A source code that is not three characters long, or a blank target,
      yields no offer whatever the upstream would say. */
  lemma InvalidCodesAreAbsent(request: Exchange, reply: Reply<FixerLatest>, elapsed: int)
    requires |Text.NormalizeCode(request.from)| != 3 || Text.IsNullOrWhiteSpace(request.to)
    ensures TryGetQuote(request, reply, elapsed).None?
  {
    Text.NormalizeCodeFacts(request.to);
  }

  /** A failed call, a non-success status, an unsuccessful payload or an
      empty table yields no offer. */
  lemma FailedReplyIsAbsent(request: Exchange, reply: Reply<FixerLatest>, elapsed: int)
    requires || reply.TransportFailure?
             || !reply.isSuccessStatusCode
             || reply.content.None?
             || !reply.content.value.success
             || reply.content.value.rates.None?
             || |reply.content.value.rates.value| == 0
    ensures TryGetQuote(request, reply, elapsed).None?
  {
  }

  /** An offer exists exactly when the source code has three characters,
      the target list is non-blank and has a first target, the call succeeds
      with a successful, non-empty table, and the rate selected for the first
      target is positive; it converts the amount at that rate. */
  lemma {:induction false} QuoteUsesFirstTarget(request: Exchange, reply: Reply<FixerLatest>, elapsed: int)
    ensures var r := TryGetQuote(request, reply, elapsed);
            var from := Text.NormalizeCode(request.from);
            var toRaw := Text.NormalizeCode(request.to);
            var targets := Targets(toRaw);
            r.Some? <==>
              && |from| == 3 && !Text.IsNullOrWhiteSpace(toRaw) && |targets| > 0
              && reply.Reply? && reply.isSuccessStatusCode && reply.content.Some?
              && reply.content.value.success && reply.content.value.rates.Some?
              && |reply.content.value.rates.value| > 0
              && SelectRate(from, targets[0], reply.content.value.rates.value) > 0.0
    ensures var r := TryGetQuote(request, reply, elapsed);
            r.Some? ==>
              var from := Text.NormalizeCode(request.from);
              var targets := Targets(Text.NormalizeCode(request.to));
              |targets| > 0 && reply.Reply? && reply.content.Some? && reply.content.value.rates.Some?
              && r.value.rate == Decimal.Convert(request.value, SelectRate(from, targets[0], reply.content.value.rates.value))
  {
  }

  /** Combined with `SelectRateIsCrossRate`: every offer is the amount
      converted at the cross rate of the first target against the source on
      the EUR-based table. */
  lemma {:induction false} QuoteIsCrossRate(request: Exchange, reply: Reply<FixerLatest>, elapsed: int)
    requires reply.Reply? && reply.content.Some? && reply.content.value.rates.Some?
    requires var rates := reply.content.value.rates.value;
             Eur in rates ==> rates[Eur] == 1.0
    ensures var r := TryGetQuote(request, reply, elapsed);
            r.Some? ==>
              var from := Text.NormalizeCode(request.from);
              var to := Targets(Text.NormalizeCode(request.to))[0];
              var reference := ReferenceRate(from, to, reply.content.value.rates.value);
              reference.Some? && reference.value > 0.0
              && r.value.rate == Decimal.Convert(request.value, reference.value)
  {
    var r := TryGetQuote(request, reply, elapsed);
    if r.Some? {
      QuoteUsesFirstTarget(request, reply, elapsed);
      var from := Text.NormalizeCode(request.from);
      var to := Targets(Text.NormalizeCode(request.to))[0];
      var rates := reply.content.value.rates.value;
      if from == Eur && to == Eur && Eur !in rates {
        EurToEurNeedsEur(rates);
        assert false;
      }
      SelectRateIsCrossRate(from, to, rates);
    }
  }
}
