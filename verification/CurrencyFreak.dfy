/**
 * `CurrencyFreakApiService.TryGetQuoteAsync`: normalise the codes, fetch
 * `/v2.0/rates/latest`, build a rate table from the XML or JSON body, give
 * the base currency the rate 1 when the feed leaves it out, and convert the
 * amount at the cross rate `rTo / rFrom`.
 *
 * The HTTP exchange is a parameter (`Http.Reply`); the XML body is the
 * sequence of nodes `XmlReader` (with `IgnoreWhitespace`) reports, and the
 * JSON body the document `JsonDocument` builds. The elapsed time is the
 * opaque `elapsed`. Every exception the method catches is `None`.
 */
module CurrencyFreak {
  import opened Wrappers
  import opened Entities
  import opened Http
  import Text
  import Decimal

  const ApiName: string := "Api #2 ---> CurrencyFreak Api"

  // ---------------------------------------------------------------------
  // Documents

  /** A node as `XmlReader` reports it: `Other` stands for the declaration,
      comments and processing instructions; CDATA is `TextNode`. */
  datatype XmlNode = Element(name: string) | EndElement(name: string) | TextNode(value: string) | Other

  /** A JSON value as `JsonDocument` exposes it. `JNumber` carries what
      `TryGetDecimal` gives (`None` when the number does not fit a decimal). */
  datatype JsonValue =
    | JObject(members: seq<JsonMember>)
    | JString(text: string)
    | JNumber(asDecimal: Option<real>)
    | JNull
    | JOther
  datatype JsonMember = JsonMember(name: string, value: JsonValue)

  /** The response body: its media type (`None` when the header is absent),
      the nodes read from it as XML and the document parsed from it as JSON,
      each `None` when the reader throws on this body. */
  datatype FreakBody = FreakBody(mediaType: Option<string>, xml: Option<seq<XmlNode>>, json: Option<JsonValue>)

  /** The two locals the method builds: `baseCode` and `rates`. */
  datatype Table = Table(baseCode: Option<string>, rates: map<string, real>)

  const Empty: Table := Table(None, map[])

  /** `contentType is not null && contentType.Contains("xml")`, with the media
      type lower-cased first. */
  predicate IsXml(mediaType: Option<string>) {
    mediaType.Some? && Text.Contains(Text.ToLowerInvariant(mediaType.value), "xml")
  }

  // ---------------------------------------------------------------------
  // XML

  /** `ReadElementContentAsString` on an element whose content starts at
      `start`: the text up to the end tag, comments skipped, and the index
      just past the end tag (where the reader is left). `None` when it throws:
      a child element, or the document ends first. */
  function ReadContent(nodes: seq<XmlNode>, start: nat): (r: Option<(string, nat)>)
    ensures r.Some? ==> start < r.value.1 <= |nodes| && nodes[r.value.1 - 1].EndElement?
    decreases |nodes| - start
  {
    if start >= |nodes| then None
    else match nodes[start]
      case Element(_) => None
      case EndElement(_) => Some(("", start + 1))
      case Other => ReadContent(nodes, start + 1)
      case TextNode(t) =>
        match ReadContent(nodes, start + 1)
        case None => None
        case Some((rest, next)) => Some((t + rest, next))
  }

  /** Where the scan goes on after a `ReadElementContentAsString` that left
      the reader on `nodes[next]`: as written the loop's next `Read` moves
      past that node first (`skip`); the corrected scan looks at it. */
  function Resume(nodes: seq<XmlNode>, next: nat, skip: bool): (c: nat)
    requires next <= |nodes|
    ensures next <= c <= |nodes|
  {
    if skip && next < |nodes| then next + 1 else next
  }

  /** What the XML loops read, in document order: the content of the last
      `<base>` element, and the name and content of every child of `<rates>`. */
  datatype Scanned = Scanned(base: Option<string>, children: seq<(string, string)>)

  /** One child of `<rates>`: stored under its trimmed, upper-cased name when
      that is non-empty and its trimmed text parses as a decimal. */
  function StoreXmlRate(rates: map<string, real>, name: string, text: string): map<string, real> {
    var code := Text.NormalizeCode(name);
    match Decimal.ParseDecimal(Text.Trim(text))
    case Some(v) => if code != "" then rates[code := v] else rates
    case None => rates
  }

  /** The `rates` dictionary after storing each child in turn. */
  function XmlRates(children: seq<(string, string)>): map<string, real> {
    if children == [] then map[]
    else
      var e := children[|children| - 1];
      StoreXmlRate(XmlRates(children[..|children| - 1]), e.0, e.1)
  }

  /** What one child of `<rates>` contributes to the table: its trimmed,
      upper-cased name with its parsed value, or nothing. */
  function XmlEntry(child: (string, string)): Option<(string, real)> {
    var code := Text.NormalizeCode(child.0);
    match Decimal.ParseDecimal(Text.Trim(child.1))
    case Some(v) => if code != "" then Some((code, v)) else None
    case None => None
  }

  /** A child contributes an entry exactly when its trimmed, upper-cased name
      is not empty and its trimmed text parses; the entry is that name with
      the parsed value. */
  lemma XmlEntryFacts(child: (string, string))
    ensures XmlEntry(child).Some? <==>
            Text.NormalizeCode(child.0) != "" && Decimal.ParseDecimal(Text.Trim(child.1)).Some?
    ensures XmlEntry(child).Some? ==>
            XmlEntry(child).value == (Text.NormalizeCode(child.0), Decimal.ParseDecimal(Text.Trim(child.1)).value)
  {
  }

  /** A child stores `code` when it contributes an entry under that name. */
  predicate StoresXml(child: (string, string), code: string) {
    EntryFor(XmlEntry(child), code)
  }

  /** The entries of the children, in document order. */
  function XmlEntries(children: seq<(string, string)>): (es: seq<Option<(string, real)>>)
    ensures |es| == |children|
  {
    seq(|children|, i requires 0 <= i < |children| => XmlEntry(children[i]))
  }

  /** Each entry, stored in turn, a later one overwriting an earlier one. */
  function StoreEntries(es: seq<Option<(string, real)>>): map<string, real> {
    if es == [] then map[]
    else
      var e := es[|es| - 1];
      var m := StoreEntries(es[..|es| - 1]);
      if e.Some? then m[e.value.0 := e.value.1] else m
  }

  lemma StoreXmlRateIsEntry(rates: map<string, real>, child: (string, string))
    ensures StoreXmlRate(rates, child.0, child.1)
            == (if XmlEntry(child).Some? then rates[XmlEntry(child).value.0 := XmlEntry(child).value.1] else rates)
  {
  }

  /** The rates the loop stores are its children's entries stored in turn. */
  lemma {:induction false} XmlRatesAreEntries(children: seq<(string, string)>)
    ensures XmlRates(children) == StoreEntries(XmlEntries(children))
  {
    if children != [] {
      var n := |children| - 1;
      XmlRatesAreEntries(children[..n]);
      StoreXmlRateIsEntry(XmlRates(children[..n]), children[n]);
      var es := XmlEntries(children);
      var prefix := XmlEntries(children[..n]);
      assert es[..n] == prefix by {
        forall k | 0 <= k < n ensures es[k] == prefix[k] {
          assert children[..n][k] == children[k];
        }
      }
    }
  }

  /** `e` is an entry for `code`. */
  predicate EntryFor(e: Option<(string, real)>, code: string) {
    e.Some? && e.value.0 == code
  }

  lemma {:induction false} StoreEntriesHas(es: seq<Option<(string, real)>>, code: string)
    ensures code in StoreEntries(es) <==> exists i :: 0 <= i < |es| && EntryFor(es[i], code)
  {
    if es != [] {
      var n := |es| - 1;
      var prefix := es[..n];
      StoreEntriesHas(prefix, code);
      assert forall i :: 0 <= i < n ==> prefix[i] == es[i];
      if !EntryFor(es[n], code) && code in StoreEntries(es) {
        var i :| 0 <= i < n && EntryFor(prefix[i], code);
        assert EntryFor(es[i], code);
      }
    }
  }

  lemma {:induction false} StoreEntriesLookup(es: seq<Option<(string, real)>>, code: string)
    requires code in StoreEntries(es)
    ensures exists i :: && 0 <= i < |es| && EntryFor(es[i], code)
                        && StoreEntries(es)[code] == es[i].value.1
                        && forall j :: i < j < |es| ==> !EntryFor(es[j], code)
  {
    var n := |es| - 1;
    var prefix := es[..n];
    if !EntryFor(es[n], code) {
      StoreEntriesLookup(prefix, code);
      var i :| && 0 <= i < n && EntryFor(prefix[i], code)
               && StoreEntries(prefix)[code] == prefix[i].value.1
               && forall j :: i < j < n ==> !EntryFor(prefix[j], code);
      assert forall j :: 0 <= j < n ==> prefix[j] == es[j];
      assert EntryFor(es[i], code);
    }
  }

  /** A code is in the XML table exactly when some child stores it. */
  lemma {:induction false} XmlRatesHas(children: seq<(string, string)>, code: string)
    ensures code in XmlRates(children) <==>
            exists i :: 0 <= i < |children| && StoresXml(children[i], code)
  {
    XmlRatesAreEntries(children);
    XmlEntriesHas(children, code);
  }

  lemma {:induction false} XmlEntriesHas(children: seq<(string, string)>, code: string)
    ensures code in StoreEntries(XmlEntries(children)) <==>
            exists i :: 0 <= i < |children| && StoresXml(children[i], code)
  {
    var es := XmlEntries(children);
    StoreEntriesHas(es, code);
    if code in StoreEntries(es) {
      var i :| 0 <= i < |es| && EntryFor(es[i], code);
      assert es[i] == XmlEntry(children[i]);
      assert StoresXml(children[i], code);
    } else {
      forall i | 0 <= i < |children| ensures !StoresXml(children[i], code) {
        assert es[i] == XmlEntry(children[i]);
      }
    }
  }

  lemma {:induction false} XmlEntriesLookup(children: seq<(string, string)>, code: string)
    requires code in StoreEntries(XmlEntries(children))
    ensures exists i :: && 0 <= i < |children| && StoresXml(children[i], code)
                        && StoreEntries(XmlEntries(children))[code] == XmlEntry(children[i]).value.1
                        && forall j :: i < j < |children| ==> !StoresXml(children[j], code)
  {
    var es := XmlEntries(children);
    StoreEntriesLookup(es, code);
    var i :| && 0 <= i < |es| && EntryFor(es[i], code)
             && StoreEntries(es)[code] == es[i].value.1
             && forall j :: i < j < |es| ==> !EntryFor(es[j], code);
    assert es[i] == XmlEntry(children[i]);
    assert StoresXml(children[i], code);
    assert StoreEntries(es)[code] == XmlEntry(children[i]).value.1;
    forall j | i < j < |children| ensures !StoresXml(children[j], code) {
      assert es[j] == XmlEntry(children[j]);
    }
  }

  /** The stored rate is the value of the last child that stores the code:
      a later duplicate overwrites an earlier one. */
  lemma {:induction false} XmlRatesLookup(children: seq<(string, string)>, code: string)
    requires code in XmlRates(children)
    ensures exists i :: && 0 <= i < |children| && StoresXml(children[i], code)
                        && XmlRates(children)[code] == XmlEntry(children[i]).value.1
                        && forall j :: i < j < |children| ==> !StoresXml(children[j], code)
  {
    XmlRatesAreEntries(children);
    XmlEntriesLookup(children, code);
  }

  /** The two locals after the loops: `baseCode` is the last base content,
      trimmed and upper-cased, and `rates` holds every child stored in turn. */
  function XmlTable(s: Scanned): Table {
    Table(match s.base case None => None case Some(b) => Some(Text.NormalizeCode(b)),
          XmlRates(s.children))
  }

  /** The outer `while (xr.Read())` loop with `nodes[c]` the next node read. */
  function Outer(nodes: seq<XmlNode>, c: nat, s: Scanned, skip: bool): Option<Scanned>
    requires c <= |nodes|
    decreases |nodes| - c
  {
    if c == |nodes| then Some(s)
    else match nodes[c]
      case Element(name) =>
        if Text.EqualsIgnoreCase(name, "base") then
          match ReadContent(nodes, c + 1)
          case None => None
          case Some((text, next)) => Outer(nodes, Resume(nodes, next, skip), s.(base := Some(text)), skip)
        else if Text.EqualsIgnoreCase(name, "rates") then Inner(nodes, c + 1, s, skip)
        else Outer(nodes, c + 1, s, skip)
      case _ => Outer(nodes, c + 1, s, skip)
  }

  /** The inner loop over the children of `<rates>`, up to `</rates>`. */
  function Inner(nodes: seq<XmlNode>, c: nat, s: Scanned, skip: bool): Option<Scanned>
    requires c <= |nodes|
    decreases |nodes| - c
  {
    if c == |nodes| then Some(s)
    else match nodes[c]
      case EndElement(name) =>
        if Text.EqualsIgnoreCase(name, "rates") then Outer(nodes, c + 1, s, skip)
        else Inner(nodes, c + 1, s, skip)
      case Element(name) =>
        (match ReadContent(nodes, c + 1)
         case None => None
         case Some((text, next)) =>
           Inner(nodes, Resume(nodes, next, skip), s.(children := s.children + [(name, text)]), skip))
      case _ => Inner(nodes, c + 1, s, skip)
  }

  const Nothing: Scanned := Scanned(None, [])

  /** The table the XML loops build: `skip` is the code as written, `!skip`
      the corrected reading. */
  function ScanXml(nodes: seq<XmlNode>, skip: bool): Option<Table> {
    match Outer(nodes, 0, Nothing, skip)
    case None => None
    case Some(s) => Some(XmlTable(s))
  }

  /** Storing one more child is one more step of the fold. */
  lemma XmlRatesSnoc(children: seq<(string, string)>, name: string, text: string)
    ensures XmlRates(children + [(name, text)]) == StoreXmlRate(XmlRates(children), name, text)
  {
    assert (children + [(name, text)])[..|children|] == children;
  }

  /** The corrected XML loops, reading the node the reader is left on after
      each element's content. */
  method ReadXml(nodes: seq<XmlNode>) returns (r: Option<Table>)
    ensures r == ScanXml(nodes, false)
  {
    var table := Empty;
    ghost var s := Nothing;
    var c := 0;
    while c < |nodes|
      invariant c <= |nodes|
      invariant Outer(nodes, c, s, false) == Outer(nodes, 0, Nothing, false)
      invariant table == XmlTable(s)
      decreases |nodes| - c
    {
      var node := nodes[c];
      if node.Element? && Text.EqualsIgnoreCase(node.name, "base") {
        var content := ReadContent(nodes, c + 1);
        if content.None? {
          return None;
        }
        table := table.(baseCode := Some(Text.NormalizeCode(content.value.0)));
        s := s.(base := Some(content.value.0));
        c := content.value.1;
      } else if node.Element? && Text.EqualsIgnoreCase(node.name, "rates") {
        var read;
        read, c, s := ReadRates(nodes, c + 1, table, s);
        if read.None? {
          return None;
        }
        table := read.value;
      } else {
        c := c + 1;
      }
    }
    r := Some(table);
  }

  /** The corrected inner loop over the children of `<rates>`, from
      `nodes[start]`; it stops past `</rates>` or at the end. */
  method ReadRates(nodes: seq<XmlNode>, start: nat, t: Table, ghost s: Scanned)
    returns (r: Option<Table>, c: nat, ghost s': Scanned)
    requires start <= |nodes| && t == XmlTable(s)
    ensures r.None? ==> Inner(nodes, start, s, false).None?
    ensures r.Some? ==> && start <= c <= |nodes| && r.value == XmlTable(s')
                        && Outer(nodes, c, s', false) == Inner(nodes, start, s, false)
  {
    var rates := t.rates;
    s' := s;
    c := start;
    while c < |nodes| && !(nodes[c].EndElement? && Text.EqualsIgnoreCase(nodes[c].name, "rates"))
      invariant start <= c <= |nodes|
      invariant Inner(nodes, c, s', false) == Inner(nodes, start, s, false)
      invariant s'.base == s.base && rates == XmlRates(s'.children)
      decreases |nodes| - c
    {
      if nodes[c].Element? {
        var code := Text.NormalizeCode(nodes[c].name);
        var content := ReadContent(nodes, c + 1);
        if content.None? {
          return None, c, s';
        }
        var value := Decimal.ParseDecimal(Text.Trim(content.value.0));
        if code != "" && value.Some? {
          rates := rates[code := value.value];
        }
        XmlRatesSnoc(s'.children, nodes[c].name, content.value.0);
        s' := s'.(children := s'.children + [(nodes[c].name, content.value.0)]);
        c := content.value.1;
      } else {
        c := c + 1;
      }
    }
    if c < |nodes| {
      c := c + 1;
    }
    r := Some(t.(rates := rates));
  }

  // ---------------------------------------------------------------------
  // JSON

  /** `JsonElement.TryGetProperty` on an object: the value of the LAST member
      with that exact name. */
  function LastProperty(members: seq<JsonMember>, name: string): (r: Option<JsonValue>)
    ensures r.None? <==> forall i :: 0 <= i < |members| ==> members[i].name != name
    ensures r.Some? ==> exists i :: 0 <= i < |members| && members[i].name == name
                         && members[i].value == r.value
                         && forall j :: i < j < |members| ==> members[j].name != name
  {
    if |members| == 0 then None
    else if members[|members| - 1].name == name then Some(members[|members| - 1].value)
    else
      LastProperty(members[..|members| - 1], name)
  }

  /** `baseCode` on the JSON path: no `base` member or `null` gives none, a
      string gives its normalised text; `None` when reading it throws (the
      root is not an object, or `base` is neither a string nor null). */
  function JsonBase(root: JsonValue): Option<Option<string>> {
    if !root.JObject? then None
    else match LastProperty(root.members, "base")
      case None => Some(None)
      case Some(JNull) => Some(None)
      case Some(JString(s)) => Some(Some(Text.NormalizeCode(s)))
      case Some(_) => None
  }

  /** The amount of one `rates` member: a string that parses, or a number
      that fits a decimal; 0 otherwise. */
  function JsonAmount(v: JsonValue): real {
    match v
    case JString(s) => Decimal.ParseDecimal(s).GetOr(0.0)
    case JNumber(d) => d.GetOr(0.0)
    case _ => 0.0
  }

  /** A member is stored when its amount is non-zero or its upper-cased name
      is the base code. */
  predicate Qualifies(m: JsonMember, baseCode: Option<string>) {
    JsonAmount(m.value) != 0.0 || baseCode == Some(Text.ToUpperInvariant(m.name))
  }

  /** The table the `foreach` over the `rates` members builds. */
  function JsonRates(members: seq<JsonMember>, baseCode: Option<string>): map<string, real> {
    if |members| == 0 then map[]
    else
      var prior := JsonRates(members[..|members| - 1], baseCode);
      var m := members[|members| - 1];
      if Qualifies(m, baseCode) then prior[Text.ToUpperInvariant(m.name) := JsonAmount(m.value)]
      else prior
  }

  /** The `foreach` loop itself. */
  method ReadJsonRates(members: seq<JsonMember>, baseCode: Option<string>)
    returns (rates: map<string, real>)
    ensures rates == JsonRates(members, baseCode)
  {
    rates := map[];
    for i := 0 to |members|
      invariant rates == JsonRates(members[..i], baseCode)
    {
      var code := Text.ToUpperInvariant(members[i].name);
      var value := 0.0;
      match members[i].value {
        case JString(s) =>
          var d := Decimal.ParseDecimal(s);
          if d.Some? {
            value := d.value;
          }
        case JNumber(d) =>
          if d.Some? {
            value := d.value;
          }
        case _ =>
      }
      if value != 0.0 || baseCode == Some(code) {
        rates := rates[code := value];
      }
      assert members[..i + 1][..i] == members[..i];
    }
    assert members[..|members|] == members;
  }

  /** A member stores `code` when it qualifies under that upper-cased name. */
  predicate Stores(m: JsonMember, baseCode: Option<string>, code: string) {
    Qualifies(m, baseCode) && Text.ToUpperInvariant(m.name) == code
  }

  /** A code is in the JSON table exactly when some member stores it. */
  lemma {:induction false} JsonRatesHas(members: seq<JsonMember>, baseCode: Option<string>, code: string)
    ensures code in JsonRates(members, baseCode) <==>
            exists i :: 0 <= i < |members| && Stores(members[i], baseCode, code)
  {
    if |members| > 0 {
      var n := |members| - 1;
      var prefix := members[..n];
      JsonRatesHas(prefix, baseCode, code);
      assert forall i :: 0 <= i < n ==> prefix[i] == members[i];
      if !Stores(members[n], baseCode, code) && code in JsonRates(members, baseCode) {
        var i :| 0 <= i < n && Stores(prefix[i], baseCode, code);
        assert Stores(members[i], baseCode, code);
      }
    }
  }

  /** The stored rate is the amount of the last member that stores the
      code. */
  lemma {:induction false} JsonRatesLookup(members: seq<JsonMember>, baseCode: Option<string>, code: string)
    requires code in JsonRates(members, baseCode)
    ensures exists i :: && 0 <= i < |members| && Stores(members[i], baseCode, code)
                        && JsonRates(members, baseCode)[code] == JsonAmount(members[i].value)
                        && forall j :: i < j < |members| ==> !Stores(members[j], baseCode, code)
  {
    var n := |members| - 1;
    var prefix := members[..n];
    if Stores(members[n], baseCode, code) {
      assert JsonRates(members, baseCode)[code] == JsonAmount(members[n].value);
    } else {
      assert code in JsonRates(prefix, baseCode)
             && JsonRates(members, baseCode)[code] == JsonRates(prefix, baseCode)[code];
      JsonRatesLookup(prefix, baseCode, code);
      var i :| && 0 <= i < n && Stores(prefix[i], baseCode, code)
               && JsonRates(prefix, baseCode)[code] == JsonAmount(prefix[i].value)
               && forall j :: i < j < n ==> !Stores(prefix[j], baseCode, code);
      assert forall j :: 0 <= j < n ==> prefix[j] == members[j];
      assert Stores(members[i], baseCode, code);
    }
  }

  /** On the JSON path a zero rate is only ever stored for the base code. */
  lemma JsonZeroOnlyBase(members: seq<JsonMember>, baseCode: Option<string>, code: string)
    requires code in JsonRates(members, baseCode) && JsonRates(members, baseCode)[code] == 0.0
    ensures baseCode == Some(code)
  {
    JsonRatesLookup(members, baseCode, code);
    var i :| 0 <= i < |members| && Stores(members[i], baseCode, code)
             && JsonRates(members, baseCode)[code] == JsonAmount(members[i].value);
  }

  /** The JSON table: `None` when reading the document throws. */
  function JsonTable(root: JsonValue): Option<Table> {
    match JsonBase(root)
    case None => None
    case Some(baseCode) =>
      var ratesProp := LastProperty(root.members, "rates");
      if ratesProp.Some? && ratesProp.value.JObject? then
        Some(Table(baseCode, JsonRates(ratesProp.value.members, baseCode)))
      else Some(Table(baseCode, map[]))
  }

  // ---------------------------------------------------------------------
  // The quote

  /** The table built from the body on the path its media type selects. */
  function ReadTable(body: FreakBody, skip: bool): Option<Table> {
    if IsXml(body.mediaType) then
      if body.xml.None? then None else ScanXml(body.xml.value, skip)
    else if body.json.None? then None
    else JsonTable(body.json.value)
  }

  /** The base default: a non-blank base code missing from the table gets the
      rate 1. */
  function PatchBase(t: Table): map<string, real> {
    if t.baseCode.Some? && !Text.IsNullOrWhiteSpace(t.baseCode.value) && t.baseCode.value !in t.rates
    then t.rates[t.baseCode.value := 1.0]
    else t.rates
  }

  /** The lookups, the division (a zero `rFrom` throws) and the rounding. */
  function Convert(from: string, to: string, value: real, rates: map<string, real>, elapsed: int)
    : (r: Option<Offer>)
    ensures r.Some? <==> from in rates && to in rates && rates[from] != 0.0
  {
    if from !in rates || to !in rates then None
    else if rates[from] == 0.0 then None
    else Some(Offer(ApiName, Decimal.Convert(value, rates[to] / rates[from]), elapsed))
  }

  /** `TryGetQuoteAsync` with the given XML reading. */
  function Respond(request: Exchange, reply: Reply<FreakBody>, elapsed: int, skip: bool)
    : (r: Option<Offer>)
    ensures r.Some? ==> r.value.api == ApiName && r.value.elapsedTime == elapsed
  {
    var from := Text.NormalizeCode(request.from);
    var to := Text.NormalizeCode(request.to);
    if from == "" || to == "" then None
    else if reply.TransportFailure? || !reply.isSuccessStatusCode || reply.content.None? then None
    else match ReadTable(reply.content.value, skip)
      case None => None
      case Some(t) => Convert(from, to, request.value, PatchBase(t), elapsed)
  }

  /** `TryGetQuoteAsync` as written. */
  function TryGetQuoteAsWritten(request: Exchange, reply: Reply<FreakBody>, elapsed: int): Option<Offer> {
    Respond(request, reply, elapsed, true)
  }

  /** `TryGetQuoteAsync` with the corrected XML loops. */
  function TryGetQuote(request: Exchange, reply: Reply<FreakBody>, elapsed: int): Option<Offer> {
    Respond(request, reply, elapsed, false)
  }

  /** Reading the body into `baseCode` and `rates`, with the corrected XML
      loops; `None` when a reader throws. */
  method ReadBody(body: FreakBody) returns (r: Option<Table>)
    ensures r == ReadTable(body, false)
  {
    if IsXml(body.mediaType) {
      if body.xml.None? {
        return None;
      }
      r := ReadXml(body.xml.value);
    } else {
      if body.json.None? {
        return None;
      }
      var root := body.json.value;
      var baseCode := JsonBase(root);
      if baseCode.None? {
        return None;
      }
      var rates := map[];
      var ratesProp := LastProperty(root.members, "rates");
      if ratesProp.Some? && ratesProp.value.JObject? {
        rates := ReadJsonRates(ratesProp.value.members, baseCode.value);
      }
      r := Some(Table(baseCode.value, rates));
    }
  }

  /** The method body, step by step, with the corrected XML loops. */
  method TryGetQuoteAsync(request: Exchange, reply: Reply<FreakBody>, elapsed: int)
    returns (r: Option<Offer>)
    ensures r == TryGetQuote(request, reply, elapsed)
  {
    var from := Text.NormalizeCode(request.from);
    var to := Text.NormalizeCode(request.to);
    if from == "" || to == "" {
      return None;
    }
    if reply.TransportFailure? || !reply.isSuccessStatusCode || reply.content.None? {
      return None;
    }
    var table := ReadBody(reply.content.value);
    if table.None? {
      return None;
    }
    var baseCode, rates := table.value.baseCode, table.value.rates;
    if baseCode.Some? && !Text.IsNullOrWhiteSpace(baseCode.value) && baseCode.value !in rates {
      rates := rates[baseCode.value := 1.0];
    }
    if from !in rates || to !in rates {
      return None;
    }
    if rates[from] == 0.0 {
      return None;
    }
    r := Some(Offer(ApiName, Decimal.Convert(request.value, rates[to] / rates[from]), elapsed));
  }

  // ---------------------------------------------------------------------
  // Properties

  /** A blank source or target code yields no offer. */
  lemma BlankCodeIsAbsent(request: Exchange, reply: Reply<FreakBody>, elapsed: int, skip: bool)
    requires Text.IsNullOrWhiteSpace(request.from) || Text.IsNullOrWhiteSpace(request.to)
    ensures Respond(request, reply, elapsed, skip).None?
  {
    Text.NormalizeCodeFacts(request.from);
    Text.NormalizeCodeFacts(request.to);
  }

  /** A failed call, a non-success status or an unreadable body yields no
      offer. */
  lemma FailedReplyIsAbsent(request: Exchange, reply: Reply<FreakBody>, elapsed: int, skip: bool)
    requires || reply.TransportFailure? || !reply.isSuccessStatusCode || reply.content.None?
             || ReadTable(reply.content.value, skip).None?
    ensures Respond(request, reply, elapsed, skip).None?
  {
  }

  /** An offer exists exactly when both codes are non-blank, the body is
      read, and both codes are in the table (after the base default) with a
      non-zero source rate. */
  lemma {:induction false} OfferIsCrossRate(request: Exchange, reply: Reply<FreakBody>, elapsed: int, skip: bool)
    ensures var from := Text.NormalizeCode(request.from);
            var to := Text.NormalizeCode(request.to);
            Respond(request, reply, elapsed, skip).Some? <==>
              && !Text.IsNullOrWhiteSpace(request.from) && !Text.IsNullOrWhiteSpace(request.to)
              && reply.Reply? && reply.isSuccessStatusCode && reply.content.Some?
              && ReadTable(reply.content.value, skip).Some?
              && var rates := PatchBase(ReadTable(reply.content.value, skip).value);
                 from in rates && to in rates && rates[from] != 0.0
  {
    Text.NormalizeCodeFacts(request.from);
    Text.NormalizeCodeFacts(request.to);
  }

  /** The offer's `Rate` is the amount converted at `rTo / rFrom`. */
  lemma {:induction false} OfferConvertsAtCrossRate(request: Exchange, reply: Reply<FreakBody>, elapsed: int, skip: bool)
    requires Respond(request, reply, elapsed, skip).Some?
    ensures reply.Reply? && reply.content.Some? && ReadTable(reply.content.value, skip).Some?
    ensures var rates := PatchBase(ReadTable(reply.content.value, skip).value);
            var from := Text.NormalizeCode(request.from);
            var to := Text.NormalizeCode(request.to);
            && from in rates && to in rates && rates[from] != 0.0
            && Respond(request, reply, elapsed, skip).value.rate == Decimal.Convert(request.value, rates[to] / rates[from])
  {
  }

  /** The base default adds at most the base code, with rate 1, and only
      when it is non-blank and missing; every entry already present keeps
      its rate. */
  lemma PatchBaseFacts(t: Table)
    ensures forall k :: k in t.rates ==> k in PatchBase(t) && PatchBase(t)[k] == t.rates[k]
    ensures t.baseCode.Some? && !Text.IsNullOrWhiteSpace(t.baseCode.value) ==> t.baseCode.value in PatchBase(t)
    ensures forall k :: k in PatchBase(t) && k !in t.rates ==>
              t.baseCode == Some(k) && !Text.IsNullOrWhiteSpace(k) && PatchBase(t)[k] == 1.0
  {
  }

  /** Quoting from the base currency when the feed leaves it out converts at
      the target's own rate. */
  lemma QuoteFromBase(t: Table, to: string, value: real, elapsed: int)
    requires t.baseCode.Some? && !Text.IsNullOrWhiteSpace(t.baseCode.value)
    requires t.baseCode.value !in t.rates && to in t.rates
    ensures Convert(t.baseCode.value, to, value, PatchBase(t), elapsed)
            == Some(Offer(ApiName, Decimal.Convert(value, t.rates[to]), elapsed))
  {
    var rates := PatchBase(t);
    assert rates[t.baseCode.value] == 1.0 && rates[to] == t.rates[to];
    assert rates[to] / 1.0 == t.rates[to];
  }

  // ---------------------------------------------------------------------
  // Case-insensitive lookup

  /** Every code in the table, and the base code, is upper case. */
  predicate UpperTable(t: Table) {
    && (t.baseCode.Some? ==> Text.IsUpper(t.baseCode.value))
    && forall k :: k in t.rates ==> Text.IsUpper(k)
  }

  lemma StoreXmlRateUpper(rates: map<string, real>, name: string, text: string)
    requires forall k :: k in rates ==> Text.IsUpper(k)
    ensures forall k :: k in StoreXmlRate(rates, name, text) ==> Text.IsUpper(k)
  {
    Text.NormalizeCodeFacts(name);
  }

  lemma {:induction false} XmlRatesUpper(children: seq<(string, string)>)
    ensures forall k :: k in XmlRates(children) ==> Text.IsUpper(k)
  {
    if children != [] {
      var e := children[|children| - 1];
      XmlRatesUpper(children[..|children| - 1]);
      StoreXmlRateUpper(XmlRates(children[..|children| - 1]), e.0, e.1);
    }
  }

  lemma XmlTableIsUpper(s: Scanned)
    ensures UpperTable(XmlTable(s))
  {
    XmlRatesUpper(s.children);
    if s.base.Some? {
      Text.NormalizeCodeFacts(s.base.value);
    }
  }

  lemma {:induction false} JsonRatesUpper(members: seq<JsonMember>, baseCode: Option<string>)
    ensures forall k :: k in JsonRates(members, baseCode) ==> Text.IsUpper(k)
  {
    if |members| > 0 {
      JsonRatesUpper(members[..|members| - 1], baseCode);
      Text.UpperCaseFacts(members[|members| - 1].name);
    }
  }

  lemma JsonTableIsUpper(root: JsonValue)
    ensures JsonTable(root).Some? ==> UpperTable(JsonTable(root).value)
  {
    if JsonBase(root).Some? {
      var baseProp := LastProperty(root.members, "base");
      if baseProp.Some? && baseProp.value.JString? {
        Text.NormalizeCodeFacts(baseProp.value.text);
      }
      var ratesProp := LastProperty(root.members, "rates");
      if ratesProp.Some? && ratesProp.value.JObject? {
        JsonRatesUpper(ratesProp.value.members, JsonBase(root).value);
      }
    }
  }

  /** Whatever the body, every code in the table is upper case. */
  lemma TableIsUpper(body: FreakBody, skip: bool)
    ensures ReadTable(body, skip).Some? ==> UpperTable(ReadTable(body, skip).value)
  {
    if IsXml(body.mediaType) {
      var scanned := if body.xml.Some? then Outer(body.xml.value, 0, Nothing, skip) else None;
      if scanned.Some? {
        XmlTableIsUpper(scanned.value);
      }
    } else if body.json.Some? {
      JsonTableIsUpper(body.json.value);
    }
  }

  /** The `OrdinalIgnoreCase` dictionary: since every stored code and every
      looked-up code is upper case, a lookup ignoring case finds exactly the
      entry with the same key. */
  lemma IgnoreCaseLookupIsExact(body: FreakBody, skip: bool, code: string)
    requires ReadTable(body, skip).Some?
    ensures var rates := PatchBase(ReadTable(body, skip).value);
            var key := Text.NormalizeCode(code);
            forall k :: k in rates ==> (Text.EqualsIgnoreCase(k, key) <==> k == key)
  {
    TableIsUpper(body, skip);
    Text.NormalizeCodeFacts(code);
    var t := ReadTable(body, skip).value;
    var key := Text.NormalizeCode(code);
    forall k | k in PatchBase(t) ensures Text.EqualsIgnoreCase(k, key) <==> k == key {
      assert Text.IsUpper(k);
      Text.UpperEqualsIgnoreCase(k, key);
    }
  }

  // ---------------------------------------------------------------------
  // The XML reading, as written and corrected

  /** `<code>text</code>` for each entry. */
  function RateNodes(entries: seq<(string, string)>): (nodes: seq<XmlNode>)
    ensures |nodes| == 3 * |entries|
  {
    if entries == [] then []
    else
      var e := entries[|entries| - 1];
      RateNodes(entries[..|entries| - 1]) + [Element(e.0), TextNode(e.1), EndElement(e.0)]
  }

  lemma {:induction false} RateNodesAt(entries: seq<(string, string)>, k: nat)
    requires k < |entries|
    ensures RateNodes(entries)[3 * k] == Element(entries[k].0)
    ensures RateNodes(entries)[3 * k + 1] == TextNode(entries[k].1)
    ensures RateNodes(entries)[3 * k + 2] == EndElement(entries[k].0)
  {
    if k < |entries| - 1 {
      RateNodesAt(entries[..|entries| - 1], k);
    }
  }

  /** A feed shaped `<response><base>b</base><rates>…</rates></response>`. */
  function Render(base: string, entries: seq<(string, string)>): seq<XmlNode> {
    [Element("response"), Element("base"), TextNode(base), EndElement("base"), Element("rates")]
    + RateNodes(entries) + [EndElement("rates"), EndElement("response")]
  }

  /** The keywords the loops compare names against, and the root name of a
      rendered feed, told apart ignoring case. */
  lemma Keywords()
    ensures Text.EqualsIgnoreCase("base", "base") && Text.EqualsIgnoreCase("rates", "rates")
    ensures !Text.EqualsIgnoreCase("rates", "base")
    ensures !Text.EqualsIgnoreCase("response", "base") && !Text.EqualsIgnoreCase("response", "rates")
  {
    assert |Text.ToUpperInvariant("response")| == 8;
    assert |Text.ToUpperInvariant("rates")| == 5;
    assert |Text.ToUpperInvariant("base")| == 4;
  }

  lemma {:induction false} RenderShape(base: string, entries: seq<(string, string)>)
    ensures var nodes := Render(base, entries);
            var n := |entries|;
            && |nodes| == 7 + 3 * n
            && nodes[0] == Element("response") && nodes[1] == Element("base")
            && nodes[2] == TextNode(base) && nodes[3] == EndElement("base")
            && nodes[4] == Element("rates")
            && (forall j :: 0 <= j < 3 * n ==> nodes[5 + j] == RateNodes(entries)[j])
            && nodes[5 + 3 * n] == EndElement("rates") && nodes[6 + 3 * n] == EndElement("response")
  {
  }

  /** One step of the outer loop past a node that is neither `<base>` nor
      `<rates>`. */
  lemma OuterPasses(nodes: seq<XmlNode>, c: nat, s: Scanned, skip: bool)
    requires c < |nodes|
    requires nodes[c].Element? ==>
               !Text.EqualsIgnoreCase(nodes[c].name, "base") && !Text.EqualsIgnoreCase(nodes[c].name, "rates")
    ensures Outer(nodes, c, s, skip) == Outer(nodes, c + 1, s, skip)
  {
  }

  /** The content of an element holding one text node is that text, and the
      reader is left just past the end tag. */
  lemma ReadsText(nodes: seq<XmlNode>, c: nat)
    requires c + 2 < |nodes| && nodes[c + 1].TextNode? && nodes[c + 2].EndElement?
    ensures ReadContent(nodes, c + 1) == Some((nodes[c + 1].value, c + 3))
  {
    assert ReadContent(nodes, c + 2) == Some(("", c + 3));
    assert nodes[c + 1].value + "" == nodes[c + 1].value;
  }

  /** `<name>text</name>` read by the corrected inner loop, which goes on
      just past the end tag. */
  lemma InnerReadsChild(nodes: seq<XmlNode>, c: nat, s: Scanned)
    requires c + 2 < |nodes| && nodes[c].Element? && nodes[c + 1].TextNode? && nodes[c + 2].EndElement?
    ensures Inner(nodes, c, s, false)
            == Inner(nodes, c + 3, s.(children := s.children + [(nodes[c].name, nodes[c + 1].value)]), false)
  {
    ReadsText(nodes, c);
  }

  /** `<base>text</base>` read by the outer loop. */
  lemma OuterReadsBase(nodes: seq<XmlNode>, c: nat, s: Scanned, skip: bool)
    requires c + 2 < |nodes| && nodes[c] == Element("base") && nodes[c + 1].TextNode? && nodes[c + 2].EndElement?
    ensures Outer(nodes, c, s, skip)
            == Outer(nodes, Resume(nodes, c + 3, skip), s.(base := Some(nodes[c + 1].value)), skip)
  {
    Keywords();
    ReadsText(nodes, c);
  }

  /** `nodes` holds, from index `5 + 3 * k`, a `<rates>` child for each
      entry from the `k`-th on, then `</rates>` and the closing root tag. */
  predicate ListsEntries(nodes: seq<XmlNode>, entries: seq<(string, string)>, k: nat)
    decreases |entries| - k
  {
    && k <= |entries| && |nodes| == 7 + 3 * |entries|
    && if k == |entries| then
         nodes[5 + 3 * k] == EndElement("rates") && nodes[6 + 3 * k] == EndElement("response")
       else
         && nodes[5 + 3 * k] == Element(entries[k].0)
         && nodes[5 + 3 * k + 1] == TextNode(entries[k].1)
         && nodes[5 + 3 * k + 2] == EndElement(entries[k].0)
         && ListsEntries(nodes, entries, k + 1)
  }

  lemma RenderEntryAt(base: string, entries: seq<(string, string)>, k: nat)
    requires k < |entries|
    ensures var nodes := Render(base, entries);
            && |nodes| == 7 + 3 * |entries|
            && nodes[5 + 3 * k] == Element(entries[k].0)
            && nodes[5 + 3 * k + 1] == TextNode(entries[k].1)
            && nodes[5 + 3 * k + 2] == EndElement(entries[k].0)
  {
    RenderShape(base, entries);
    RateNodesAt(entries, k);
  }

  lemma RenderClosing(base: string, entries: seq<(string, string)>)
    ensures var nodes := Render(base, entries);
            var n := |entries|;
            && |nodes| == 7 + 3 * n
            && nodes[5 + 3 * n] == EndElement("rates") && nodes[6 + 3 * n] == EndElement("response")
  {
    RenderShape(base, entries);
  }

  lemma {:induction false} RenderListsEntries(base: string, entries: seq<(string, string)>, k: nat)
    requires k <= |entries|
    ensures ListsEntries(Render(base, entries), entries, k)
    decreases |entries| - k
  {
    if k < |entries| {
      RenderEntryAt(base, entries, k);
      RenderListsEntries(base, entries, k + 1);
    } else {
      RenderClosing(base, entries);
    }
  }

  /** From the `k`-th entry on, the corrected inner loop reads every
      remaining entry and then leaves through `</rates>` and the root's end. */
  lemma {:induction false} InnerOverEntries(nodes: seq<XmlNode>, entries: seq<(string, string)>, k: nat, b: Option<string>)
    requires ListsEntries(nodes, entries, k)
    ensures Inner(nodes, 5 + 3 * k, Scanned(b, entries[..k]), false) == Some(Scanned(b, entries))
    decreases |entries| - k
  {
    var c := 5 + 3 * k;
    if k == |entries| {
      Keywords();
      assert entries[..k] == entries;
      assert Inner(nodes, c, Scanned(b, entries), false) == Outer(nodes, c + 1, Scanned(b, entries), false);
      OuterPasses(nodes, c + 1, Scanned(b, entries), false);
    } else {
      InnerReadsChild(nodes, c, Scanned(b, entries[..k]));
      assert entries[..k] + [(nodes[c].name, nodes[c + 1].value)] == entries[..k + 1];
      InnerOverEntries(nodes, entries, k + 1, b);
    }
  }

  /** `<rates>` met by the outer loop starts the inner loop. */
  lemma OuterEntersRates(nodes: seq<XmlNode>, c: nat, s: Scanned, skip: bool)
    requires c < |nodes| && nodes[c] == Element("rates")
    ensures Outer(nodes, c, s, skip) == Inner(nodes, c + 1, s, skip)
  {
    Keywords();
  }

  /** The opening of a rendered feed: past `<base>`, with the base read. */
  lemma RenderOpening(base: string, entries: seq<(string, string)>, skip: bool)
    ensures var nodes := Render(base, entries);
            && 4 < |nodes| && nodes[4] == Element("rates")
            && Outer(nodes, 0, Nothing, skip) == Outer(nodes, Resume(nodes, 4, skip), Scanned(Some(base), []), skip)
  {
    var nodes := Render(base, entries);
    RenderShape(base, entries);
    Keywords();
    OuterPasses(nodes, 0, Nothing, skip);
    OuterReadsBase(nodes, 1, Nothing, skip);
  }

  /** Corrected reading: a rendered feed gives back its base and every rate
      entry, in order. */
  lemma ReadsEveryEntry(base: string, entries: seq<(string, string)>)
    ensures Outer(Render(base, entries), 0, Nothing, false) == Some(Scanned(Some(base), entries))
  {
    var nodes := Render(base, entries);
    var s := Scanned(Some(base), []);
    RenderOpening(base, entries, false);
    OuterEntersRates(nodes, 4, s, false);
    assert entries[..0] == [];
    RenderListsEntries(base, entries, 0);
    InnerOverEntries(nodes, entries, 0, Some(base));
  }

  /** Hence the table of a rendered feed holds its base code and every entry
      stored in order. */
  lemma XmlRoundTrip(base: string, entries: seq<(string, string)>)
    ensures ScanXml(Render(base, entries), false)
            == Some(Table(Some(Text.NormalizeCode(base)), XmlRates(entries)))
  {
    ReadsEveryEntry(base, entries);
  }

  /** As written: the `Read` after the base code's content skips `<rates>`
      itself, so a one-entry feed yields an empty table. */
  lemma AsWrittenSkipsRates(base: string, code: string, text: string)
    requires !Text.EqualsIgnoreCase(code, "base") && !Text.EqualsIgnoreCase(code, "rates")
    ensures ScanXml(Render(base, [(code, text)]), true) == Some(Table(Some(Text.NormalizeCode(base)), map[]))
  {
    var nodes := Render(base, [(code, text)]);
    var s := Scanned(Some(base), []);
    RenderOpening(base, [(code, text)], true);
    RenderShape(base, [(code, text)]);
    RateNodesAt([(code, text)], 0);
    assert nodes[5] == Element(code) && nodes[6] == TextNode(text) && nodes[7] == EndElement(code);
    OuterPasses(nodes, 5, s, true);
    OuterPasses(nodes, 6, s, true);
    OuterPasses(nodes, 7, s, true);
    OuterPasses(nodes, 8, s, true);
    OuterPasses(nodes, 9, s, true);
  }

  /** A successful reply carrying the rendered feed as `text/xml`. */
  function XmlReply(base: string, entries: seq<(string, string)>): Reply<FreakBody> {
    Reply(true, Some(FreakBody(Some("text/xml"), Some(Render(base, entries)), None)))
  }

  lemma TextXmlIsXml()
    ensures IsXml(Some("text/xml"))
  {
    assert Text.ToLowerInvariant("text/xml") == "text/xml";
    assert "text/xml"[1..] == "ext/xml" && "ext/xml"[1..] == "xt/xml" && "xt/xml"[1..] == "t/xml";
    assert "t/xml"[1..] == "/xml" && "/xml"[1..] == "xml" && "xml"[..3] == "xml";
    assert Text.Contains("xml", "xml");
    assert Text.Contains("/xml", "xml");
    assert Text.Contains("t/xml", "xml");
    assert Text.Contains("xt/xml", "xml");
    assert Text.Contains("ext/xml", "xml");
  }

  lemma PlainCodes()
    ensures Text.NormalizeCode("USD") == "USD" && Text.NormalizeCode("EUR") == "EUR"
  {
    Text.NormalizeLetters("USD");
    Text.NormalizeLetters("EUR");
  }

  lemma RateTextIsTrimmed()
    ensures Text.Trim("0.9") == "0.9"
  {
    Text.NormalizeUnpadded("0.9");
  }

  lemma EurIsNoKeyword()
    ensures !Text.EqualsIgnoreCase("EUR", "base") && !Text.EqualsIgnoreCase("EUR", "rates")
  {
    assert |Text.ToUpperInvariant("rates")| == 5;
    assert Text.ToUpperInvariant("base")[0] == 'B';
  }

  lemma OneEntryRates()
    ensures XmlRates([("EUR", "0.9")]) == map["EUR" := 0.9]
  {
    PlainCodes();
    RateTextIsTrimmed();
    Decimal.ParseDecimalFraction();
    assert [("EUR", "0.9")][..0] == [];
  }

  /** The tables read from a feed with base USD quoting EUR at 0.9. */
  lemma ExampleTables()
    ensures ReadTable(XmlReply("USD", [("EUR", "0.9")]).content.value, true) == Some(Table(Some("USD"), map[]))
    ensures ReadTable(XmlReply("USD", [("EUR", "0.9")]).content.value, false)
            == Some(Table(Some("USD"), map["EUR" := 0.9]))
  {
    PlainCodes();
    EurIsNoKeyword();
    TextXmlIsXml();
    AsWrittenSkipsRates("USD", "EUR", "0.9");
    XmlRoundTrip("USD", [("EUR", "0.9")]);
    OneEntryRates();
  }

  lemma UsdIsNotBlank()
    ensures !Text.IsNullOrWhiteSpace("USD")
  {
    assert !Text.IsWhiteSpace("USD"[0]);
  }

  /** The input that shows it: 100 USD to EUR against a feed with base USD
      quoting EUR at 0.9. As written no offer is made, since EUR is never
      stored. */
  lemma XmlQuoteAsWritten()
    ensures TryGetQuoteAsWritten(Exchange("USD", "EUR", 100.0), XmlReply("USD", [("EUR", "0.9")]), 0) == None
  {
    PlainCodes();
    ExampleTables();
    UsdIsNotBlank();
    assert PatchBase(Table(Some("USD"), map[])) == map["USD" := 1.0];
  }

  lemma ExampleCrossRate()
    ensures var rates := PatchBase(Table(Some("USD"), map["EUR" := 0.9]));
            Convert("USD", "EUR", 100.0, rates, 0) == Some(Offer(ApiName, 90.0, 0))
  {
    UsdIsNotBlank();
    var rates := map["EUR" := 0.9, "USD" := 1.0];
    assert PatchBase(Table(Some("USD"), map["EUR" := 0.9])) == rates;
    assert rates["EUR"] / rates["USD"] == 0.9;
    assert 100.0 * 0.9 == 90.0;
    Decimal.Round5OnGrid(90.0);
  }

  /** The corrected loops quote 90 EUR for the same request. */
  lemma XmlQuoteCorrected()
    ensures TryGetQuote(Exchange("USD", "EUR", 100.0), XmlReply("USD", [("EUR", "0.9")]), 0)
            == Some(Offer(ApiName, 90.0, 0))
  {
    PlainCodes();
    ExampleTables();
    ExampleCrossRate();
  }
}
