/**
 * The ingest handler (`POST /api/nfk`): the gate, the JSON body, the name
 * checks, the single-row insert into the event table and the reply.
 */
module Ingest {
  import opened Wrappers
  import opened Text
  import opened RangeResolver
  import opened Events
  import opened Http
  import opened Stats

  /** A parsed JSON body; numbers are integers. */
  datatype Json =
    | JNull
    | JBool(b: bool)
    | JNumber(n: int)
    | JString(s: string)
    | JArray(items: seq<Json>)
    | JObject(fields: seq<(string, Json)>)

  /** A member of a parsed object; with a repeated key `JSON.parse` keeps the last. */
  function Lookup(fields: seq<(string, Json)>, key: string): (v: Option<Json>)
    ensures v.None? <==> forall i :: 0 <= i < |fields| ==> fields[i].0 != key
    ensures v.Some? ==> exists i :: 0 <= i < |fields| && fields[i] == (key, v.value)
                                   && forall j :: i < j < |fields| ==> fields[j].0 != key
    decreases |fields|
  {
    if fields == [] then None
    else if fields[|fields| - 1].0 == key then Some(fields[|fields| - 1].1)
    else Lookup(fields[..|fields| - 1], key)
  }

  /** JavaScript truthiness of a JSON value: everything but the falsy values
      `null`, `false`, `0` and `""` is truthy. */
  function Truthy(v: Json): (t: bool)
    ensures t <==> v != JNull && v != JBool(false) && v != JNumber(0) && v != JString("")
  {
    match v
    case JNull => false
    case JBool(b) => b
    case JNumber(n) => n != 0
    case JString(s) => s != ""
    case _ => true
  }

  /** An object member named `toString`: a parsed value, so it is never
      callable, and it hides `Object.prototype.toString`. */
  predicate HasOwnToString(fields: seq<(string, Json)>) {
    exists i :: 0 <= i < |fields| && fields[i].0 == "toString"
  }

  /** Where `String(v)` throws a TypeError: an object with its own `toString`
      member has no callable conversion left (its inherited `valueOf` gives the
      object back), and an array throws when `join` meets such an item at any depth. */
  predicate StringThrows(v: Json)
    decreases v
  {
    match v
    case JObject(fields) => HasOwnToString(fields)
    case JArray(items) => exists i :: 0 <= i < |items| && StringThrows(items[i])
    case _ => false
  }

  /** `String(v)`, `None` where it throws. */
  function JsString(v: Json): (r: Option<string>)
    ensures r.None? <==> StringThrows(v)
    decreases v, 1
  {
    match v
    case JNull => Some("null")
    case JBool(b) => Some(if b then "true" else "false")
    case JNumber(n) => Some(IntToDecimal(n))
    case JString(s) => Some(s)
    case JArray(items) => Join(v, items)
    case JObject(fields) => if HasOwnToString(fields) then None else Some("[object Object]")
  }

  /** `Array.prototype.join(",")` of the items of `v`, null items as "";
      `None` where converting an item throws. */
  function Join(v: Json, items: seq<Json>): (r: Option<string>)
    requires forall x :: x in items ==> x < v
    ensures r.None? <==> exists i :: 0 <= i < |items| && StringThrows(items[i])
    decreases v, 0, |items|
  {
    if items == [] then Some("")
    else
      assert items[0] in items;
      assert forall x :: x in items[1..] ==> x in items;
      assert forall i :: 0 < i < |items| ==> items[i] == items[1..][i - 1];
      var head := if items[0].JNull? then Some("") else JsString(items[0]);
      if head.None? then None
      else if |items| == 1 then head
      else
        var tail := Join(v, items[1..]);
        if tail.None? then None else Some(head.value + "," + tail.value)
  }

  /** `body?.name`: the `name` member of an object body. */
  function NameMember(body: Json): (m: Option<Json>)
    ensures m.Some? ==> body.JObject?
    ensures body.JObject? ==> m == Lookup(body.fields, "name")
  {
    if body.JObject? then Lookup(body.fields, "name") else None
  }

  /** `String(body?.name || "")`, `None` where the conversion throws: that is
      exactly where the `name` member is a value `String` throws on, and a
      missing or falsy member gives "". */
  function NameText(body: Json): (r: Option<string>)
    ensures r.None? <==> NameMember(body).Some? && StringThrows(NameMember(body).value)
    ensures NameMember(body).None? || !Truthy(NameMember(body).value) ==> r == Some("")
  {
    var name := NameMember(body);
    if name.Some? && Truthy(name.value) then JsString(name.value) else Some("")
  }

  /** The name to store: `NameText` trimmed; `None` where the conversion throws. */
  function NameOf(body: Json): (name: Option<string>)
    ensures name.None? <==> NameText(body).None?
    ensures name.Some? ==> Trimmed(name.value)
  {
    match NameText(body)
    case None => None
    case Some(text) =>
      TrimIsTrimmed(text);
      Some(Trim(text))
  }

  const MaxNameLength: nat := 80

  /** The success body: `{ok: true, name, created_at_utc, quote}`. */
  datatype IngestReply = IngestReply(name: string, createdAt: int, quote: Option<string>)

  /** The checks ahead of the insert: accept with the name to store, refuse
      with the reply, or throw (the uncaught TypeError of `String`). */
  datatype Verdict = Accept(name: string) | Refuse(reply: Reply<IngestReply>) | Throws

  /** The early exits of `onRequest`, in order. `body` is `request.json()`,
      `None` where it threw. */
  function CheckIngest(req: Request, token: Option<string>, body: Option<Json>): (v: Verdict)
    ensures Gate<IngestReply>(req, token, "POST").Some? ==> v == Refuse(Gate<IngestReply>(req, token, "POST").value)
    ensures Gate<IngestReply>(req, token, "POST").None? && body.None? ==>
      v == Refuse(Rejected(BadRequest, "Invalid JSON body"))
    ensures v.Throws? <==>
      Gate<IngestReply>(req, token, "POST").None? && body.Some? && NameOf(body.value).None?
    ensures Gate<IngestReply>(req, token, "POST").None? && body.Some? && NameOf(body.value) == Some("") ==>
      v == Refuse(Rejected(BadRequest, "Missing name"))
    ensures Gate<IngestReply>(req, token, "POST").None? && body.Some? && NameOf(body.value).Some?
            && NameOf(body.value).value != "" && Utf16Length(NameOf(body.value).value) > MaxNameLength ==>
      v == Refuse(Rejected(BadRequest, "Name too long"))
    ensures v.Accept? <==>
      && req.verb == "POST" && Authorized(req.authorization, token)
      && body.Some? && NameOf(body.value).Some? && NameOf(body.value).value != ""
      && Utf16Length(NameOf(body.value).value) <= MaxNameLength
    ensures v.Accept? ==> NameOf(body.value) == Some(v.name) && Trimmed(v.name)
    ensures v.Refuse? ==> !v.reply.Ok?
  {
    var stop := Gate<IngestReply>(req, token, "POST");
    if stop.Some? then Refuse(stop.value)
    else if body.None? then Refuse(Rejected(BadRequest, "Invalid JSON body"))
    else
      match NameOf(body.value)
      case None => Throws
      case Some(name) =>
        if name == "" then Refuse(Rejected(BadRequest, "Missing name"))
        else if Utf16Length(name) > MaxNameLength then Refuse(Rejected(BadRequest, "Name too long"))
        else Accept(name)
  }

  /** `quoteRow?.text || null`: no row, or an empty text, gives null. */
  function QuoteOf(row: Option<string>): (q: Option<string>)
    ensures q.Some? <==> row.Some? && row.value != ""
    ensures q.Some? ==> q == row
  {
    if row.Some? && row.value != "" then row else None
  }

  /** The event table as the ingest handler changes it. */
  class EventLog {
    var events: seq<Event>

    ghost predicate Valid()
      reads this
    {
      IdsAscending(events)
    }

    constructor ()
      ensures Valid() && events == []
    {
      events := [];
    }

    /** `INSERT INTO nfk_events (created_at_utc, name) VALUES (?, ?)`: one new
        row, with the next id, at the end. */
    method Append(t: int, name: string) returns (e: Event)
      requires Valid()
      modifies this
      ensures Valid()
      ensures e == Event(NextId(old(events)), t, name)
      ensures events == old(events) + [e]
    {
      e := Event(NextId(events), t, name);
      AppendKeepsOrder(events, t, name);
      events := events + [e];
    }
  }

  /** `onRequest` of the ingest handler at time `now`, `quoteRow` being the
      text of the row the quotes query returned (`None` when the table is empty).
      The reply is `None` where the handler throws, and the runtime answers
      with its own error. */
  method HandleIngest(log: EventLog, req: Request, token: Option<string>, body: Option<Json>,
                      now: int, quoteRow: Option<string>) returns (reply: Option<Reply<IngestReply>>)
    requires log.Valid()
    modifies log
    ensures log.Valid()
    ensures CheckIngest(req, token, body).Refuse? ==>
      reply == Some(CheckIngest(req, token, body).reply) && log.events == old(log.events)
    ensures CheckIngest(req, token, body).Throws? ==>
      reply.None? && log.events == old(log.events)
    ensures CheckIngest(req, token, body).Accept? ==>
      var name := CheckIngest(req, token, body).name;
      && reply == Some(Ok(IngestReply(name, now, QuoteOf(quoteRow))))
      && log.events == old(log.events) + [Event(NextId(old(log.events)), now, name)]
  {
    var verdict := CheckIngest(req, token, body);
    match verdict
    case Refuse(r) =>
      return Some(r);
    case Throws =>
      return None;
    case Accept(name) =>
      var e := log.Append(now, name);
      reply := Some(Ok(IngestReply(e.name, e.t, QuoteOf(quoteRow))));
  }

  /** The name checks only run for an authorized POST: anything else is
      refused whatever the body, a body that is not JSON included. */
  lemma GateBeforeBody(req: Request, token: Option<string>, body: Option<Json>)
    requires req.verb != "POST" || !Authorized(req.authorization, token)
    ensures CheckIngest(req, token, body).Refuse?
    ensures req.verb == "OPTIONS" ==> CheckIngest(req, token, body).reply == Preflight
    ensures req.verb != "OPTIONS" && req.verb != "POST" ==>
      CheckIngest(req, token, body).reply == Rejected(MethodNotAllowed, "Method not allowed")
    ensures req.verb == "POST" ==> CheckIngest(req, token, body).reply == Rejected(Unauthorized, "Unauthorized")
  {
  }

  /** The stored name is the trimmed text: surrounding whitespace is dropped. */
  lemma StoredNameIsTrimmed(pre: string, name: string, post: string)
    requires AllSpace(pre) && AllSpace(post) && Trimmed(name)
    ensures NameOf(JObject([("name", JString(pre + name + post))])) == Some(name)
  {
    var text := pre + name + post;
    var body := JObject([("name", JString(text))]);
    assert Lookup(body.fields, "name") == Some(JString(text));
    assert NameText(body) == Some(text);
    TrimPadded(pre, name, post);
  }

  /** A body that is not an object, or has no truthy `name` member, gives the
      empty name, which is then refused as missing. */
  lemma FalsyNamesAreMissing(body: Json)
    requires NameMember(body).None? || !Truthy(NameMember(body).value)
    ensures NameOf(body) == Some("")
  {
    assert NameText(body) == Some("");
    TrimOfTrimmed("");
  }

  lemma FalsyNameExamples()
    ensures NameOf(JObject([])) == Some("")
    ensures NameOf(JObject([("name", JNumber(0))])) == Some("")
    ensures NameOf(JNull) == Some("")
    ensures NameOf(JArray([JString("Alice")])) == Some("")
  {
    FalsyNamesAreMissing(JObject([]));
    var zero := JObject([("name", JNumber(0))]);
    assert Lookup(zero.fields, "name") == Some(JNumber(0));
    FalsyNamesAreMissing(zero);
    FalsyNamesAreMissing(JNull);
    FalsyNamesAreMissing(JArray([JString("Alice")]));
  }

  /** A `String` form with no whitespace at its ends is stored as it is. */
  lemma NameOfTrimmedText(body: Json)
    requires NameText(body).Some? && Trimmed(NameText(body).value)
    ensures NameOf(body) == NameText(body)
  {
    TrimOfTrimmed(NameText(body).value);
  }

  /** A truthy number is stored as its decimal form. */
  lemma NumberName()
    ensures NameOf(JObject([("name", JNumber(42))])) == Some("42")
  {
    var body := JObject([("name", JNumber(42))]);
    assert Lookup(body.fields, "name") == Some(JNumber(42));
    assert NatToDecimal(4) == "4";
    assert NatToDecimal(42) == "42";
    assert NameText(body) == Some("42");
    NameOfTrimmedText(body);
  }

  /** `true` is stored as the text "true". */
  lemma BooleanName()
    ensures NameOf(JObject([("name", JBool(true))])) == Some("true")
  {
    var body := JObject([("name", JBool(true))]);
    assert Lookup(body.fields, "name") == Some(JBool(true));
    var text := "true";
    assert NameText(body) == Some(text);
    assert !IsJsSpace(text[0]) && !IsJsSpace(text[|text| - 1]);
    NameOfTrimmedText(body);
  }

  /** An array is stored joined with commas, null items empty. */
  lemma ArrayName()
    ensures NameOf(JObject([("name", JArray([JString("a"), JNull, JString("b")]))])) == Some("a,,b")
  {
    var items := [JString("a"), JNull, JString("b")];
    var arr := JArray(items);
    assert items[1..] == [JNull, JString("b")];
    assert items[1..][1..] == [JString("b")];
    assert Join(arr, items[1..][1..]) == Some("b");
    assert "" + "," + "b" == ",b";
    assert Join(arr, items[1..]) == Some(",b");
    assert "a" + "," + ",b" == "a,,b";
    assert Join(arr, items) == Some("a,,b");
    var body := JObject([("name", arr)]);
    assert Lookup(body.fields, "name") == Some(arr);
    var text := "a,,b";
    assert NameText(body) == Some(text);
    assert !IsJsSpace(text[0]) && !IsJsSpace(text[|text| - 1]);
    NameOfTrimmedText(body);
  }

  /** An object without its own `toString` member is stored as "[object Object]". */
  lemma ObjectName(fields: seq<(string, Json)>)
    requires !HasOwnToString(fields)
    ensures NameOf(JObject([("name", JObject(fields))])) == Some("[object Object]")
  {
    var body := JObject([("name", JObject(fields))]);
    var text := "[object Object]";
    assert Lookup(body.fields, "name") == Some(JObject(fields));
    assert NameText(body) == Some(text);
    assert !IsJsSpace(text[0]) && !IsJsSpace(text[|text| - 1]);
    NameOfTrimmedText(body);
  }

  /** An object name with its own `toString` member makes the handler throw
      after the gate: nothing is stored. */
  lemma ToStringMemberThrows(req: Request, token: Option<string>, member: Json)
    requires req.verb == "POST" && Authorized(req.authorization, token)
    ensures CheckIngest(req, token, Some(JObject([("name", JObject([("toString", member)]))]))) == Throws
  {
    var obj := JObject([("toString", member)]);
    assert HasOwnToString(obj.fields) by { assert obj.fields[0].0 == "toString"; }
    var body := JObject([("name", obj)]);
    assert Lookup(body.fields, "name") == Some(obj);
    assert NameText(body).None?;
  }

  /** The same object inside an array name throws too, since `join` converts it. */
  lemma ToStringItemThrows(req: Request, token: Option<string>, member: Json)
    requires req.verb == "POST" && Authorized(req.authorization, token)
    ensures var obj := JObject([("toString", member)]);
      CheckIngest(req, token, Some(JObject([("name", JArray([JString("a"), obj]))]))) == Throws
  {
    var obj := JObject([("toString", member)]);
    assert HasOwnToString(obj.fields) by { assert obj.fields[0].0 == "toString"; }
    var arr := JArray([JString("a"), obj]);
    assert StringThrows(arr) by { assert arr.items[1] == obj; }
    var body := JObject([("name", arr)]);
    assert Lookup(body.fields, "name") == Some(arr);
    assert NameText(body).None?;
  }

  /** With `name` given twice, the last one is stored. */
  lemma RepeatedKeyName()
    ensures NameOf(JObject([("name", JString("x")), ("name", JString(" Bob "))])) == Some("Bob")
  {
    var body := JObject([("name", JString("x")), ("name", JString(" Bob "))]);
    assert Lookup(body.fields, "name") == Some(JString(" Bob "));
    var text := " Bob ";
    assert Truthy(JString(text)) && JsString(JString(text)) == Some(text);
    assert text == " " + "Bob" + " ";
    assert NameText(body) == Some(" " + "Bob" + " ");
    TrimPadded(" ", "Bob", " ");
  }

  /** A name of more than 80 UTF-16 units is refused, once the gate has passed. */
  lemma LongNameRefused(req: Request, token: Option<string>, body: Json)
    requires req.verb == "POST" && Authorized(req.authorization, token)
    requires NameOf(body).Some? && |NameOf(body).value| > MaxNameLength
    ensures CheckIngest(req, token, Some(body)) == Refuse(Rejected(BadRequest, "Name too long"))
  {
  }

  /** An ingested name is then the newest row of the default statistics: with
      the table `es`, ingesting at `now` and asking for the last 24 hours at
      `later` (up to a day on) gives totals of at least one and that name
      first in `recent`. */
  lemma IngestThenStats(es: seq<Event>, name: string, now: int, later: int)
    requires IdsAscending(es)
    requires now <= later <= now + DayMs
    ensures var es' := es + [Event(NextId(es), now, name)];
      var rep := BuildStats(TimeRange(later - DayMs, later), es');
      && rep.allTimeTotal >= 1 && rep.rangeTotal >= 1
      && |rep.recent| >= 1 && rep.recent[0] == RecentRow(name, now)
  {
    var e := Event(NextId(es), now, name);
    var es' := es + [e];
    var range := TimeRange(later - DayMs, later);
    InRangeAppend(es, e, range);
    var f := InRangeEvents(es', range);
    assert f[|f| - 1] == e;
    assert Recent(es', range)[0] == e;
  }
}
