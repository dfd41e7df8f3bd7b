/**
 * What the three handlers share at the HTTP level: the request as the
 * handlers read it, the shape of their replies, `URLSearchParams.get`, and the
 * method and bearer-token gate every handler runs first.
 */
module Http {
  import opened Wrappers

  /** A request: its method (`verb`), its `Authorization` header (`None` when absent)
      and its decoded query string as name/value pairs in order. */
  datatype Request = Request(verb: string, authorization: Option<string>, query: seq<(string, string)>)

  /** A handler's reply: the empty CORS pre-flight answer, a JSON `{error}` with
      its status, or a 200 JSON report. */
  datatype Reply<+T> = Preflight | Rejected(status: nat, error: string) | Ok(body: T)

  const MethodNotAllowed: nat := 405
  const Unauthorized: nat := 401
  const BadRequest: nat := 400

  /** `URLSearchParams.get`: the value of the first pair named `key`, `None` (null) when there is none. */
  function QueryGet(query: seq<(string, string)>, key: string): (r: Option<string>)
    ensures r.None? <==> forall i :: 0 <= i < |query| ==> query[i].0 != key
    ensures r.Some? ==> exists i :: 0 <= i < |query| && query[i] == (key, r.value)
                                   && forall j :: 0 <= j < i ==> query[j].0 != key
    decreases |query|
  {
    if query == [] then None
    else if query[0].0 == key then Some(query[0].1)
    else
      var r := QueryGet(query[1..], key);
      assert forall i :: 0 < i < |query| ==> query[i] == query[1..][i - 1];
      r
  }

  /** The bearer check: `API_TOKEN` set and non-empty, and the header (absent
      reads as "") exactly `"Bearer " + API_TOKEN`. */
  predicate Authorized(header: Option<string>, token: Option<string>)
    ensures Authorized(header, token) ==> header.Some? && token.Some? && token.value != ""
    ensures token.Some? && header.Some? ==>
      (Authorized(header, token) <==> token.value != "" && header.value == "Bearer " + token.value)
  {
    token.Some? && token.value != "" && header.GetOr("") == "Bearer " + token.value
  }

  /** An authorized header is the seven characters "Bearer " followed by the whole token. */
  lemma AuthorizedHeaderShape(header: Option<string>, token: Option<string>)
    requires Authorized(header, token)
    ensures header.Some? && token.Some? && |header.value| > 7
    ensures header.value[..7] == "Bearer " && header.value[7..] == token.value
  {
  }

  /** With the token unset or empty, every request is unauthorized. */
  lemma NoTokenNoAccess(header: Option<string>, token: Option<string>)
    requires token.None? || token == Some("")
    ensures !Authorized(header, token)
  {
  }

  /** The checks before a handler's own work: OPTIONS gets the pre-flight
      answer, any method other than `allowed` a 405, then a failed bearer
      check a 401. `None` means the request passed. */
  function Gate<T>(req: Request, token: Option<string>, allowed: string): (r: Option<Reply<T>>)
    ensures req.verb == "OPTIONS" ==> r == Some(Preflight)
    ensures req.verb != "OPTIONS" && req.verb != allowed ==> r == Some(Rejected(MethodNotAllowed, "Method not allowed"))
    ensures req.verb != "OPTIONS" && req.verb == allowed && !Authorized(req.authorization, token)
            ==> r == Some(Rejected(Unauthorized, "Unauthorized"))
    ensures r.None? <==> req.verb != "OPTIONS" && req.verb == allowed && Authorized(req.authorization, token)
    ensures r.Some? ==> !r.value.Ok?
  {
    if req.verb == "OPTIONS" then Some(Preflight)
    else if req.verb != allowed then Some(Rejected(MethodNotAllowed, "Method not allowed"))
    else if !Authorized(req.authorization, token) then Some(Rejected(Unauthorized, "Unauthorized"))
    else None
  }
}
