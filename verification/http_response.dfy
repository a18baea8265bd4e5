/**
  The response side of `composables/http.ts`: the axios response interceptor's success
  handler (lines 70-97) and the `$fetch` `onResponse` hook (lines 344-379). Both verify the
  server's signature over a record of fields, decrypt when crypto is on and the content type
  says so, and parse the JSON text; the `$fetch` hook first skips every status other than
  200 and saves the response cookies before parsing.

  Verification, decryption and `JSON.parse` are parameters. The body is the text the server
  sent.
 */
module HttpResponse {
  import opened Wrappers
  import Security
  import HttpSign
  import Text

  /** A response as the handler sees it. Header names are lower case. */
  datatype Response = Response(status: int, headers: map<string, string>, data: string)

  /** The processing steps, in the order the source performs them. */
  datatype Stage = Verify | Decrypt | SaveCookies | Parse

  /**
    The result: left alone (`$fetch`, status other than 200), the parsed value, or the
    rejection for a bad signature or for text `JSON.parse` throws on.
   */
  datatype Outcome<T> = Untouched | Parsed(value: T) | BadSignature | BadJson

  datatype Processed<T> = Processed(stages: seq<Stage>, outcome: Outcome<T>)

  /** The collaborators of the response side. */
  datatype Checks<!T> = Checks(
    verify: (string, string) -> bool,
    decrypt: (Security.KeyPair, string) -> string,
    parse: string -> Option<T>)

  const HeaderContentTypeLower: string := "content-type"

  /**
    The record the server's signature covers: the session, the response's nonce and
    timestamp headers (`''` when missing), the platform, the method (`"POST"` for axios, the
    request's method for `$fetch`), the path, the query and the body text. It has no
    `authorization` field.
   */
  function ResponseFields<Q, O>(v: HttpSign.Variant, c: HttpSign.Codec<Q, O>, secrets: Security.Secrets, req: HttpSign.Request<Q, O>, resp: Response): (r: map<string, HttpSign.Field>)
    ensures "authorization" !in r && "body" in r && r["body"] == HttpSign.Str(resp.data)
  {
    map[
      "session" := HttpSign.Str(secrets.sessionId),
      "nonce" := HttpSign.Str(HttpSign.HeaderOr(resp.headers, HttpSign.HeaderNonce)),
      "platform" := HttpSign.Str(HttpSign.PlatformCode),
      "timestamp" := HttpSign.Str(HttpSign.HeaderOr(resp.headers, HttpSign.HeaderTimestamp)),
      "method" := (if v.Axios? then HttpSign.Str("POST") else HttpSign.FieldOf(req.httpMethod)),
      "path" := req.path,
      "query" := HttpSign.Str(if req.query.Some? then c.stringifyQuery(req.query.value) else ""),
      "body" := HttpSign.Str(resp.data)]
  }

  /**
    A server answering a POST or PUT with the request's nonce, timestamp and wire body signs
    the very record the client signed, less its authorization.
   */
  lemma EchoFields<Q, O>(v: HttpSign.Variant, c: HttpSign.Codec<Q, O>, secrets: Security.Secrets, nonce: string, timestamp: string,
                         req: HttpSign.Request<Q, O>, resp: Response)
    requires HttpSign.FetchKeyed(v, req.headers) && HttpSign.PostOrPut(req.httpMethod)
    requires HttpSign.HeaderOr(resp.headers, HttpSign.HeaderNonce) == nonce
    requires HttpSign.HeaderOr(resp.headers, HttpSign.HeaderTimestamp) == timestamp
    requires resp.data == HttpSign.WireBody(c, secrets, req.body)
    ensures ResponseFields(v, c, secrets, HttpSign.Intercept(v, c, secrets, nonce, timestamp, req).request, resp)
         == HttpSign.SignedFields(v, c, secrets, nonce, timestamp, req) - {"authorization"}
  {
    var wire := HttpSign.Intercept(v, c, secrets, nonce, timestamp, req).request;
    EchoRecord(v, c, secrets, nonce, timestamp, req, wire, resp);
  }

  /** The record of a response to `wire` against the record signed for `req`, when both agree on method, path and query. */
  lemma EchoRecord<Q, O>(v: HttpSign.Variant, c: HttpSign.Codec<Q, O>, secrets: Security.Secrets, nonce: string, timestamp: string,
                         req: HttpSign.Request<Q, O>, wire: HttpSign.Request<Q, O>, resp: Response)
    requires wire.httpMethod == req.httpMethod && wire.path == req.path && wire.query == req.query
    requires HttpSign.PostOrPut(req.httpMethod)
    requires HttpSign.HeaderOr(resp.headers, HttpSign.HeaderNonce) == nonce
    requires HttpSign.HeaderOr(resp.headers, HttpSign.HeaderTimestamp) == timestamp
    requires resp.data == HttpSign.WireBody(c, secrets, req.body)
    ensures ResponseFields(v, c, secrets, wire, resp) == HttpSign.SignedFields(v, c, secrets, nonce, timestamp, req) - {"authorization"}
  {
    var verb := if v.Axios? then HttpSign.Str("POST") else HttpSign.FieldOf(req.httpMethod);
    var query := HttpSign.QueryText(c, req.query);
    ResponseMap(v, c, secrets, wire, resp);
    RecordLessAuthorization(secrets.sessionId, nonce, timestamp, verb, req.path, query,
                            HttpSign.GetHeader(v, req.headers, HttpSign.Authorization), resp.data);
  }

  /** The record both sides agree on: the signed fields without the authorization, with a body. */
  function EchoMap(session: string, nonce: string, timestamp: string, verb: HttpSign.Field, path: HttpSign.Field,
                   query: string, body: string): map<string, HttpSign.Field> {
    map[
      "session" := HttpSign.Str(session),
      "nonce" := HttpSign.Str(nonce),
      "platform" := HttpSign.Str(HttpSign.PlatformCode),
      "timestamp" := HttpSign.Str(timestamp),
      "method" := verb,
      "path" := path,
      "query" := HttpSign.Str(query),
      "body" := HttpSign.Str(body)]
  }

  /** The response record as the echo record, read off the response and the request as sent. */
  lemma ResponseMap<Q, O>(v: HttpSign.Variant, c: HttpSign.Codec<Q, O>, secrets: Security.Secrets, wire: HttpSign.Request<Q, O>, resp: Response)
    ensures ResponseFields(v, c, secrets, wire, resp)
         == EchoMap(secrets.sessionId, HttpSign.HeaderOr(resp.headers, HttpSign.HeaderNonce),
                    HttpSign.HeaderOr(resp.headers, HttpSign.HeaderTimestamp),
                    if v.Axios? then HttpSign.Str("POST") else HttpSign.FieldOf(wire.httpMethod),
                    wire.path, HttpSign.QueryText(c, wire.query), resp.data)
  {
  }

  /** The signed record without its authorization is the echo record with the same parts. */
  lemma RecordLessAuthorization(session: string, nonce: string, timestamp: string, verb: HttpSign.Field, path: HttpSign.Field,
                                query: string, authorization: string, body: string)
    ensures HttpSign.Record(session, nonce, timestamp, HttpSign.PlatformCode, verb, path, query, authorization, Some(body)) - {"authorization"}
         == EchoMap(session, nonce, timestamp, verb, path, query, body)
  {
  }

  /** The signature check on a response. */
  predicate SignatureOk<Q, O, T>(v: HttpSign.Variant, c: HttpSign.Codec<Q, O>, k: Checks<T>, secrets: Security.Secrets, req: HttpSign.Request<Q, O>, resp: Response) {
    k.verify(c.stringifyObj(ResponseFields(v, c, secrets, req, resp)), HttpSign.HeaderOr(resp.headers, HttpSign.HeaderSignature))
  }

  /** Decryption happens only with crypto on and the content type exactly the encrypted type. */
  predicate Decrypts<Q, O>(c: HttpSign.Codec<Q, O>, resp: Response) {
    c.cryptoOn && HttpSign.HeaderOr(resp.headers, HeaderContentTypeLower) == HttpSign.ContentTypeEncrypted
  }

  /** The position of a stage in the source's order. */
  function Rank(s: Stage): nat {
    match s
    case Verify => 0
    case Decrypt => 1
    case SaveCookies => 2
    case Parse => 3
  }

  /** The stages run in the source's order, each at most once. */
  predicate InOrder(stages: seq<Stage>) {
    forall i, j :: 0 <= i < j < |stages| ==> Rank(stages[i]) < Rank(stages[j])
  }

  /**
    The response handler. `$fetch` leaves every status other than 200 untouched (the axios
    handler is only reached for 200, which the instance's `validateStatus` enforces). The
    signature is checked before anything else; a bad one stops processing before any
    decryption. Otherwise the text is decrypted when `Decrypts` holds, cookies are saved
    (`$fetch` only) and the text is parsed.
   */
  function Process<Q, O, T>(v: HttpSign.Variant, c: HttpSign.Codec<Q, O>, k: Checks<T>, secrets: Security.Secrets, req: HttpSign.Request<Q, O>, resp: Response): (r: Processed<T>)
    ensures v.Fetch? && resp.status != 200 ==> r == Processed([], Untouched)
    ensures |r.stages| > 0 ==> r.stages[0] == Verify
    ensures InOrder(r.stages)
    ensures Decrypt in r.stages <==> |r.stages| > 0 && SignatureOk(v, c, k, secrets, req, resp) && Decrypts(c, resp)
    ensures r.outcome == BadSignature <==> |r.stages| > 0 && !SignatureOk(v, c, k, secrets, req, resp)
    ensures r.outcome == BadSignature ==> r.stages == [Verify]
    ensures Parse in r.stages ==>
      var text := if Decrypts(c, resp) then k.decrypt(secrets.box, resp.data) else resp.data;
      r.outcome == (if k.parse(text).Some? then Parsed(k.parse(text).value) else BadJson)
    ensures SaveCookies in r.stages ==> v.Fetch? && Parse in r.stages
    ensures (v.Axios? || resp.status == 200) ==> |r.stages| > 0
    ensures (v.Axios? || resp.status == 200) && SignatureOk(v, c, k, secrets, req, resp) ==>
      Parse in r.stages && (SaveCookies in r.stages <==> v.Fetch?)
  {
    if v.Fetch? && resp.status != 200 then Processed([], Untouched)
    else if !SignatureOk(v, c, k, secrets, req, resp) then Processed([Verify], BadSignature)
    else
      var text := if Decrypts(c, resp) then k.decrypt(secrets.box, resp.data) else resp.data;
      var stages := [Verify] + (if Decrypts(c, resp) then [Decrypt] else [])
                    + (if v.Fetch? then [SaveCookies] else []) + [Parse];
      Processed(stages, match k.parse(text) case Some(x) => Parsed(x) case None => BadJson)
  }

  /**
    The request and response codecs fit together: when a server echoes the wire body of a
    POST or PUT back, marked encrypted when crypto is on and correctly signed, the handler
    returns the object the caller posted, provided decryption undoes encryption and
    `JSON.parse` undoes `JSON.stringify` for it.
   */
  lemma EchoRoundTrip<Q, O>(v: HttpSign.Variant, c: HttpSign.Codec<Q, O>, k: Checks<O>, secrets: Security.Secrets,
                            nonce: string, timestamp: string, req: HttpSign.Request<Q, O>, o: O, respHeaders: map<string, string>)
    requires req.body == HttpSign.Object(o) && HttpSign.PostOrPut(req.httpMethod)
    requires k.parse(c.stringifyObject(o)) == Some(o)
    requires HttpSign.FetchKeyed(v, req.headers)
    requires c.cryptoOn ==> k.decrypt(secrets.box, c.encrypt(secrets.box, c.stringifyObject(o))) == c.stringifyObject(o)
    requires c.cryptoOn ==> HttpSign.HeaderOr(respHeaders, HeaderContentTypeLower) == HttpSign.ContentTypeEncrypted
    requires var p := HttpSign.Intercept(v, c, secrets, nonce, timestamp, req);
      SignatureOk(v, c, k, secrets, p.request, Response(200, respHeaders, p.request.body.text))
    ensures var p := HttpSign.Intercept(v, c, secrets, nonce, timestamp, req);
      Process(v, c, k, secrets, p.request, Response(200, respHeaders, p.request.body.text)).outcome == Parsed(o)
  {
    var p := HttpSign.Intercept(v, c, secrets, nonce, timestamp, req);
    assert p.request.body.text == HttpSign.WireBody(c, secrets, req.body);
  }

  /** `$fetch` ignores non-200 responses entirely; a bad signature never reaches decryption or parsing. */
  lemma BadSignatureStopsEarly<Q, O, T>(v: HttpSign.Variant, c: HttpSign.Codec<Q, O>, k: Checks<T>, secrets: Security.Secrets, req: HttpSign.Request<Q, O>, resp: Response)
    requires v.Axios? || resp.status == 200
    requires !SignatureOk(v, c, k, secrets, req, resp)
    ensures Process(v, c, k, secrets, req, resp).stages == [Verify]
    ensures Decrypt !in Process(v, c, k, secrets, req, resp).stages
    ensures Parse !in Process(v, c, k, secrets, req, resp).stages
  {
  }
}
