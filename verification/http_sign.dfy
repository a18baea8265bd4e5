/**
  The request interceptors of `composables/http.ts`: the axios one (lines 29-67) and the
  `$fetch` `onRequest` hook (lines 302-340). Both build a record of fields, add the wire
  body for POST/PUT, sign `stringifyObj` of the record, and copy the nonce, timestamp and
  session into headers.

  Signing, encryption, `stringifyObj`, query serialisation and `JSON.stringify` of an object
  are parameters (a `Codec`). `JSON.stringify` of a string is written out, since the retry
  path feeds it one. The nonce (`generateUUID`) and the timestamp (the clock) are parameters.
 */
module HttpSign {
  import opened Wrappers
  import Text
  import Security

  const ContentTypeEncrypted: string := "application/x-encrypted;charset=utf-8"
  const PlatformCode: string := "8"
  const HeaderTimestamp: string := "x-timestamp"
  const HeaderNonce: string := "x-nonce"
  const HeaderSignature: string := "x-signature"
  const HeaderPlatform: string := "x-platform"
  const HeaderSession: string := "x-session"
  const HeaderContentType: string := "Content-Type"
  const HeaderAuthorization: string := "Authorization"

  /** Which interceptor: the axios instance's or the `$fetch` instance's. */
  datatype Variant = Axios | Fetch

  /** A value of the signed record: a string, or `undefined` for a missing method or path. */
  datatype Field = Str(s: string) | Undefined

  function FieldOf(o: Option<string>): (f: Field)
    ensures o.Some? <==> f.Str?
    ensures o.Some? ==> f.s == o.value
  {
    if o.Some? then Str(o.value) else Undefined
  }

  /**
    A request body: none, a plain object still to be serialised, or text (which is what the
    interceptor leaves behind for POST/PUT).
   */
  datatype Body<O> = NoBody | Object(obj: O) | Serialized(text: string)

  /** JavaScript truthiness of the body: objects are truthy, text only when non-empty. */
  predicate Truthy<O>(b: Body<O>) {
    b.Object? || (b.Serialized? && |b.text| > 0)
  }

  // ---------------------------------------------------------------------------
  // JSON.stringify of a string

  function HexLower(n: nat): (c: char)
    requires n < 16
  {
    if n < 10 then ('0' as int + n) as char else ('a' as int + n - 10) as char
  }

  /** The JSON escape of one character: quote, backslash and control characters are escaped. */
  function EscapeChar(ch: char): (r: string)
    ensures |r| >= 1
    ensures ch == '"' || ch == '\\' || ch < ' ' <==> |r| >= 2
  {
    if ch == '"' then "\\\""
    else if ch == '\\' then "\\\\"
    else if ch == '\U{0008}' then "\\b"
    else if ch == '\U{000C}' then "\\f"
    else if ch == '\n' then "\\n"
    else if ch == '\r' then "\\r"
    else if ch == '\t' then "\\t"
    else if ch < ' ' then "\\u00" + [HexLower(ch as nat / 16), HexLower(ch as nat % 16)]
    else [ch]
  }

  /** The escaped body of a JSON string literal; it is never shorter than the text. */
  function Escape(s: string): (r: string)
    ensures |r| >= |s|
    ensures |r| == |s| ==> r == s
    decreases |s|
  {
    if |s| == 0 then ""
    else
      var rest := Escape(s[1..]);
      assert s == [s[0]] + s[1..];
      EscapeChar(s[0]) + rest
  }

  /** `JSON.stringify(s)` for a string `s`: the escaped text between double quotes. */
  function Quote(s: string): (r: string)
    ensures |r| >= |s| + 2
    ensures r[0] == '"' && r[|r| - 1] == '"'
  {
    "\"" + Escape(s) + "\""
  }

  /** Serialising text again never gives the same text back. */
  lemma QuoteChanges(s: string)
    ensures Quote(s) != s
  {
  }

  // ---------------------------------------------------------------------------
  // The interceptors

  /** The collaborators the interceptors call. */
  datatype Codec<!Q, !O> = Codec(
    cryptoOn: bool,
    encrypt: (Security.KeyPair, string) -> string,
    sign: (Security.KeyPair, string) -> string,
    stringifyObj: map<string, Field> -> string,
    stringifyQuery: Q -> string,
    stringifyObject: O -> string)

  /** `JSON.stringify` of a truthy body. */
  function Json<Q, O>(c: Codec<Q, O>, body: Body<O>): string
    requires Truthy(body)
  {
    match body
    case Object(o) => c.stringifyObject(o)
    case Serialized(t) => Quote(t)
  }

  /**
    The body put on the wire for POST/PUT: `''` for a falsy body, otherwise its JSON text,
    encrypted with the box key pair only when crypto is switched on.
   */
  function WireBody<Q, O>(c: Codec<Q, O>, secrets: Security.Secrets, body: Body<O>): (r: string)
    ensures !Truthy(body) ==> r == ""
    ensures Truthy(body) && !c.cryptoOn ==> r == Json(c, body)
    ensures Truthy(body) && c.cryptoOn ==> r == c.encrypt(secrets.box, Json(c, body))
  {
    if !Truthy(body) then ""
    else if c.cryptoOn then c.encrypt(secrets.box, Json(c, body))
    else Json(c, body)
  }

  /**
    What the interceptor reads from a request config. For axios `headers` holds the names as
    written; for `$fetch` it is the `Headers` object built from the caller's headers
    (`FromInit`), which stores every name lower-cased (`FetchKeyed`).
   */
  datatype Request<Q, O> = Request(
    httpMethod: Option<string>,
    path: Field,
    query: Option<Q>,
    body: Body<O>,
    headers: map<string, string>)

  /** `['post', 'put'].includes((method ?? '').toLowerCase())`. */
  predicate PostOrPut(httpMethod: Option<string>) {
    var m := Text.ToLower(httpMethod.GetOr(""));
    m == "post" || m == "put"
  }

  function HeaderOr(headers: map<string, string>, name: string): string {
    if name in headers then headers[name] else ""
  }

  /** The header names the interceptors read or write. */
  datatype Name = ContentType | Authorization | Platform | Session | Timestamp | Nonce | Signature

  /** Each name as the source spells it. */
  function Spelled(n: Name): string {
    match n
    case ContentType => HeaderContentType
    case Authorization => HeaderAuthorization
    case Platform => HeaderPlatform
    case Session => HeaderSession
    case Timestamp => HeaderTimestamp
    case Nonce => HeaderNonce
    case Signature => HeaderSignature
  }

  /**
    The key a header name is stored under: axios indexes its headers by the name as written,
    while a `$fetch` `Headers` object stores every name lower-cased (`HeaderKeyLowerCase`).
   */
  function HeaderKey(v: Variant, n: Name): string {
    if v.Axios? then Spelled(n)
    else match n
      case ContentType => "content-type"
      case Authorization => "authorization"
      case _ => Spelled(n)
  }

  /** The `$fetch` key is the lower-cased spelling; the axios key is the spelling itself. */
  lemma HeaderKeyLowerCase(n: Name)
    ensures HeaderKey(Fetch, n) == Text.ToLower(Spelled(n))
    ensures HeaderKey(Axios, n) == Spelled(n)
  {
    var k := Spelled(n);
    match n
    case ContentType =>
      assert Text.ToLower(k) == "content-type";
    case Authorization =>
      assert Text.ToLower(k) == "authorization";
    case _ =>
      assert forall i :: 0 <= i < |k| ==> !('A' <= k[i] <= 'Z');
      assert Text.ToLower(k) == k;
  }

  /** The `$fetch` key of every name is already lower-case. */
  lemma KeyLowered(n: Name)
    ensures Text.ToLower(HeaderKey(Fetch, n)) == HeaderKey(Fetch, n)
  {
    HeaderKeyLowerCase(n);
    Text.ToLowerIdempotent(Spelled(n));
  }

  /** A map whose keys are all lower-case: the shape of a `$fetch` `Headers` object. */
  predicate FetchKeyed(v: Variant, headers: map<string, string>) {
    v.Fetch? ==> forall k :: k in headers ==> Text.ToLower(k) == k
  }

  /**
    `new Headers(init)`, which `$fetch` builds from the caller's `headers` before the hook
    runs: each entry is appended under its lower-cased name, and a name already present, in
    any case, gets the two values joined by `", "`.
   */
  function FromInit(init: seq<(string, string)>): (r: map<string, string>)
    ensures FetchKeyed(Fetch, r)
    ensures forall i :: 0 <= i < |init| ==> Text.ToLower(init[i].0) in r
    ensures forall k :: k in r ==> exists i :: 0 <= i < |init| && Text.ToLower(init[i].0) == k
    decreases |init|
  {
    if |init| == 0 then map[]
    else
      var front := init[..|init| - 1];
      var h := FromInit(front);
      var e := init[|init| - 1];
      var k := Text.ToLower(e.0);
      Text.ToLowerIdempotent(e.0);
      assert forall i :: 0 <= i < |front| ==> front[i] == init[i];
      h[k := if k in h then h[k] + ", " + e.1 else e.1]
  }

  /** The values the caller gives under any spelling of the lower-cased name `key`, in order. */
  function ValuesFor(init: seq<(string, string)>, key: string): seq<string>
    decreases |init|
  {
    if |init| == 0 then []
    else ValuesFor(init[..|init| - 1], key) + (if Text.ToLower(init[|init| - 1].0) == key then [init[|init| - 1].1] else [])
  }

  /** Values joined by `", "`, as `Headers` combines a repeated name. */
  function JoinValues(values: seq<string>): string
    decreases |values|
  {
    if |values| == 0 then ""
    else if |values| == 1 then values[0]
    else JoinValues(values[..|values| - 1]) + ", " + values[|values| - 1]
  }

  /**
    Each stored value is the caller's values for that name, in any spelling, joined by
    `", "` in order; a name is stored exactly when the caller gives it a value.
   */
  lemma {:induction false} FromInitValues(init: seq<(string, string)>)
    ensures forall k :: k in FromInit(init) <==> ValuesFor(init, k) != []
    ensures forall k :: k in FromInit(init) ==> FromInit(init)[k] == JoinValues(ValuesFor(init, k))
    decreases |init|
  {
    if |init| > 0 {
      var front := init[..|init| - 1];
      var e := init[|init| - 1];
      var k := Text.ToLower(e.0);
      var h := FromInit(front);
      var r := FromInit(init);
      FromInitValues(front);
      assert r == h[k := if k in h then h[k] + ", " + e.1 else e.1];
      forall x
        ensures x in r <==> ValuesFor(init, x) != []
        ensures x in r ==> r[x] == JoinValues(ValuesFor(init, x))
      {
        if x == k {
          assert ValuesFor(init, k) == ValuesFor(front, k) + [e.1];
          JoinValuesSnoc(ValuesFor(front, k), e.1);
        } else {
          assert ValuesFor(init, x) == ValuesFor(front, x);
        }
      }
    }
  }

  /** Appending a value joins it to the earlier ones with `", "`, or stands alone. */
  lemma JoinValuesSnoc(values: seq<string>, value: string)
    ensures JoinValues(values + [value]) == if values == [] then value else JoinValues(values) + ", " + value
  {
    assert (values + [value])[..|values|] == values;
  }

  /** A single header, however the caller spells its name, is stored under the lower-cased name. */
  lemma FromInitSingle(name: string, value: string)
    ensures FromInit([(name, value)]) == map[Text.ToLower(name) := value]
  {
    var init := [(name, value)];
    assert init[..0] == [];
  }

  /**
    In `$fetch` headers no key differs from a name the interceptors use only in case: any key
    that matches a name case-insensitively is that name's key.
   */
  lemma WrittenAnyCase(headers: map<string, string>, k: string, n: Name)
    requires FetchKeyed(Fetch, headers) && k in headers
    requires Text.ToLower(k) == Text.ToLower(Spelled(n))
    ensures k == HeaderKey(Fetch, n)
  {
    HeaderKeyLowerCase(n);
  }

  /** Different names are stored under different keys. */
  lemma KeysDistinct(v: Variant, n: Name, m: Name)
    requires n != m
    ensures HeaderKey(v, n) != HeaderKey(v, m)
  {
  }

  /** `headers[name] || ''` or `headers.get(name) ?? ''`. */
  function GetHeader(v: Variant, headers: map<string, string>, n: Name): string {
    HeaderOr(headers, HeaderKey(v, n))
  }

  /** `headers[name] = value` or `headers.set(name, value)`. */
  function SetHeader(v: Variant, headers: map<string, string>, n: Name, value: string): (r: map<string, string>)
    ensures GetHeader(v, r, n) == value
    ensures r.Keys == headers.Keys + {HeaderKey(v, n)}
    ensures forall k :: k in headers && k != HeaderKey(v, n) ==> r[k] == headers[k]
  {
    headers[HeaderKey(v, n) := value]
  }

  /** Setting a name keeps `$fetch` headers lower-case. */
  lemma SetKeepsKeyed(v: Variant, headers: map<string, string>, n: Name, value: string)
    requires FetchKeyed(v, headers)
    ensures FetchKeyed(v, SetHeader(v, headers, n, value))
  {
    if v.Fetch? {
      KeyLowered(n);
    }
  }

  /** Setting one name leaves what every other name reads unchanged. */
  lemma SetHeaderOther(v: Variant, headers: map<string, string>, n: Name, value: string, m: Name)
    requires m != n
    ensures GetHeader(v, SetHeader(v, headers, n, value), m) == GetHeader(v, headers, m)
  {
    KeysDistinct(v, m, n);
  }

  /** The keys every signed record has. */
  function FixedKeys(): set<string> {
    {"session", "nonce", "timestamp", "platform", "method", "path", "query", "authorization"}
  }

  /**
    The signed record. The axios interceptor signs the literal `"POST"` as the method,
    whatever the request's method; the `$fetch` hook signs the request's own method.
   */
  function SignedFields<Q, O>(v: Variant, c: Codec<Q, O>, secrets: Security.Secrets, nonce: string, timestamp: string, req: Request<Q, O>): (r: map<string, Field>)
    ensures r.Keys == FixedKeys() + (if PostOrPut(req.httpMethod) then {"body"} else {})
    ensures r["method"] == (if v.Axios? then Str("POST") else FieldOf(req.httpMethod))
    ensures r["authorization"] == Str(GetHeader(v, req.headers, Authorization))
    ensures PostOrPut(req.httpMethod) ==> r["body"] == Str(WireBody(c, secrets, req.body))
  {
    Record(secrets.sessionId, nonce, timestamp, PlatformCode,
           if v.Axios? then Str("POST") else FieldOf(req.httpMethod),
           req.path, QueryText(c, req.query), GetHeader(v, req.headers, Authorization),
           if PostOrPut(req.httpMethod) then Some(WireBody(c, secrets, req.body)) else None)
  }

  /** `stringifyObj(query)`, or `''` without a query. */
  function QueryText<Q, O>(c: Codec<Q, O>, query: Option<Q>): string {
    if query.Some? then c.stringifyQuery(query.value) else ""
  }

  /** A signed record from its parts; `body` is there only when given. */
  function Record(session: string, nonce: string, timestamp: string, platform: string, verb: Field, path: Field,
                  query: string, authorization: string, body: Option<string>): (r: map<string, Field>)
    ensures r.Keys == FixedKeys() + (if body.Some? then {"body"} else {})
    ensures r["session"] == Str(session) && r["nonce"] == Str(nonce) && r["timestamp"] == Str(timestamp)
    ensures r["authorization"] == Str(authorization)
    ensures body.Some? ==> r["body"] == Str(body.value)
  {
    var base := map[
      "session" := Str(session),
      "nonce" := Str(nonce),
      "timestamp" := Str(timestamp),
      "platform" := Str(platform),
      "method" := verb,
      "path" := path,
      "query" := Str(query),
      "authorization" := Str(authorization)];
    if body.Some? then base["body" := Str(body.value)] else base
  }

  /** Replacing the method of a record is building it with the new one. */
  lemma RecordMethod(session: string, nonce: string, timestamp: string, platform: string, verb: Field, path: Field,
                     query: string, authorization: string, body: Option<string>, verb2: Field)
    ensures Record(session, nonce, timestamp, platform, verb, path, query, authorization, body)["method" := verb2]
         == Record(session, nonce, timestamp, platform, verb2, path, query, authorization, body)
  {
    var a := Record(session, nonce, timestamp, platform, verb, path, query, authorization, body)["method" := verb2];
    var b := Record(session, nonce, timestamp, platform, verb2, path, query, authorization, body);
    assert a.Keys == b.Keys;
    assert forall k :: k in a ==> a[k] == b[k];
  }

  /** Replacing the authorization of a record is building it with the new one. */
  lemma RecordAuthorization(session: string, nonce: string, timestamp: string, platform: string, verb: Field, path: Field,
                            query: string, authorization: string, body: Option<string>, authorization2: string)
    ensures Record(session, nonce, timestamp, platform, verb, path, query, authorization, body)["authorization" := Str(authorization2)]
         == Record(session, nonce, timestamp, platform, verb, path, query, authorization2, body)
  {
    var d := Record(session, nonce, timestamp, platform, verb, path, query, authorization, body)["authorization" := Str(authorization2)];
    var e := Record(session, nonce, timestamp, platform, verb, path, query, authorization2, body);
    assert d.Keys == e.Keys;
    assert forall k :: k in d ==> d[k] == e[k];
  }

  /** The request after the interceptor, with the record it signed and the signature. */
  datatype Prepared<Q, O> = Prepared(request: Request<Q, O>, signed: map<string, Field>, signature: string)

  /** The header keys the interceptor writes. */
  predicate Written(v: Variant, key: string) {
    key == HeaderKey(v, ContentType) || key == HeaderKey(v, Platform) || key == HeaderKey(v, Session)
    || key == HeaderKey(v, Timestamp) || key == HeaderKey(v, Nonce) || key == HeaderKey(v, Signature)
  }

  /** The five headers every request gets, written in the interceptor's order. */
  function Stamp(v: Variant, headers: map<string, string>, session: string, timestamp: string, nonce: string, signature: string): (r: map<string, string>)
    requires FetchKeyed(v, headers)
    ensures FetchKeyed(v, r)
    ensures GetHeader(v, r, Platform) == PlatformCode && GetHeader(v, r, Session) == session
    ensures GetHeader(v, r, Timestamp) == timestamp && GetHeader(v, r, Nonce) == nonce
    ensures GetHeader(v, r, Signature) == signature
    ensures r.Keys == headers.Keys + {HeaderKey(v, Platform), HeaderKey(v, Session),
                                      HeaderKey(v, Timestamp), HeaderKey(v, Nonce), HeaderKey(v, Signature)}
    ensures forall k :: k in headers && !Written(v, k) ==> r[k] == headers[k]
    ensures GetHeader(v, r, ContentType) == GetHeader(v, headers, ContentType)
    ensures GetHeader(v, r, Authorization) == GetHeader(v, headers, Authorization)
  {
    KeysDistinct(v, Platform, Session); KeysDistinct(v, Platform, Timestamp);
    KeysDistinct(v, Platform, Nonce); KeysDistinct(v, Platform, Signature);
    KeysDistinct(v, Session, Timestamp); KeysDistinct(v, Session, Nonce);
    KeysDistinct(v, Session, Signature); KeysDistinct(v, Timestamp, Nonce);
    KeysDistinct(v, Timestamp, Signature); KeysDistinct(v, Nonce, Signature);
    var h1 := SetHeader(v, headers, Platform, PlatformCode);
    var h2 := SetHeader(v, h1, Session, session);
    var h3 := SetHeader(v, h2, Timestamp, timestamp);
    var h4 := SetHeader(v, h3, Nonce, nonce);
    var h5 := SetHeader(v, h4, Signature, signature);
    assert FetchKeyed(v, h5) by {
      SetKeepsKeyed(v, headers, Platform, PlatformCode);
      SetKeepsKeyed(v, h1, Session, session);
      SetKeepsKeyed(v, h2, Timestamp, timestamp);
      SetKeepsKeyed(v, h3, Nonce, nonce);
      SetKeepsKeyed(v, h4, Signature, signature);
    }
    assert forall k :: k in headers && !Written(v, k) ==> h5[k] == headers[k] by {
      forall k | k in headers && !Written(v, k) ensures h5[k] == headers[k] {
        assert h1[k] == headers[k];
        assert h2[k] == h1[k];
        assert h3[k] == h2[k];
        assert h4[k] == h3[k];
      }
    }
    assert GetHeader(v, h5, ContentType) == GetHeader(v, headers, ContentType) by {
      SetHeaderOther(v, headers, Platform, PlatformCode, ContentType);
      SetHeaderOther(v, h1, Session, session, ContentType);
      SetHeaderOther(v, h2, Timestamp, timestamp, ContentType);
      SetHeaderOther(v, h3, Nonce, nonce, ContentType);
      SetHeaderOther(v, h4, Signature, signature, ContentType);
    }
    assert GetHeader(v, h5, Authorization) == GetHeader(v, headers, Authorization) by {
      SetHeaderOther(v, headers, Platform, PlatformCode, Authorization);
      SetHeaderOther(v, h1, Session, session, Authorization);
      SetHeaderOther(v, h2, Timestamp, timestamp, Authorization);
      SetHeaderOther(v, h3, Nonce, nonce, Authorization);
      SetHeaderOther(v, h4, Signature, signature, Authorization);
    }
    h5
  }

  /**
    One pass of the interceptor. For POST/PUT the body is replaced by the wire text, which
    is exactly the text signed under `body`, and the content type is set to the encrypted
    type even when crypto is off; other requests keep their body and content type. The
    signature is over `stringifyObj` of the signed record, and the headers carry the very
    nonce, timestamp and session that were signed. Method, path, query and every header the
    interceptor does not write are left alone; for `$fetch` a caller's header with a written
    name, in whatever case, is replaced, since its `Headers` object holds lower-case keys only.
   */
  function Intercept<Q, O>(v: Variant, c: Codec<Q, O>, secrets: Security.Secrets, nonce: string, timestamp: string, req: Request<Q, O>): (r: Prepared<Q, O>)
    requires FetchKeyed(v, req.headers)
    ensures FetchKeyed(v, r.request.headers)
    ensures r.signed == SignedFields(v, c, secrets, nonce, timestamp, req)
    ensures r.signature == c.sign(secrets.sign, c.stringifyObj(r.signed))
    ensures PostOrPut(req.httpMethod) ==>
      && r.request.body == Serialized(WireBody(c, secrets, req.body))
      && r.signed["body"] == Str(r.request.body.text)
      && GetHeader(v, r.request.headers, ContentType) == ContentTypeEncrypted
    ensures !PostOrPut(req.httpMethod) ==>
      && r.request.body == req.body
      && GetHeader(v, r.request.headers, ContentType) == GetHeader(v, req.headers, ContentType)
    ensures r.signed["session"] == Str(secrets.sessionId) && r.signed["nonce"] == Str(nonce)
    ensures r.signed["timestamp"] == Str(timestamp)
    ensures r.request.headers == Stamp(v, if PostOrPut(req.httpMethod) then SetHeader(v, req.headers, ContentType, ContentTypeEncrypted) else req.headers,
                                       secrets.sessionId, timestamp, nonce, r.signature)
    ensures r.request.httpMethod == req.httpMethod && r.request.path == req.path && r.request.query == req.query
  {
    var signed := SignedFields(v, c, secrets, nonce, timestamp, req);
    var post := PostOrPut(req.httpMethod);
    var typed := if post then SetHeader(v, req.headers, ContentType, ContentTypeEncrypted) else req.headers;
    SetKeepsKeyed(v, req.headers, ContentType, ContentTypeEncrypted);
    var body := if post then Serialized(WireBody(c, secrets, req.body)) else req.body;
    var signature := c.sign(secrets.sign, c.stringifyObj(signed));
    var headers := Stamp(v, typed, secrets.sessionId, timestamp, nonce, signature);
    assert signed["session"] == Str(secrets.sessionId) && signed["nonce"] == Str(nonce);
    assert signed["timestamp"] == Str(timestamp);
    assert post ==> signed["body"] == Str(WireBody(c, secrets, req.body));
    Prepared(req.(body := body, headers := headers), signed, signature)
  }

  /** The record always has the eight fixed fields, and `body` exactly for POST/PUT. */
  lemma SignedKeys<Q, O>(v: Variant, c: Codec<Q, O>, secrets: Security.Secrets, nonce: string, timestamp: string, req: Request<Q, O>)
    ensures SignedFields(v, c, secrets, nonce, timestamp, req).Keys
         == FixedKeys() + (if PostOrPut(req.httpMethod) then {"body"} else {})
    ensures "body" in SignedFields(v, c, secrets, nonce, timestamp, req) <==> PostOrPut(req.httpMethod)
    ensures SignedFields(v, c, secrets, nonce, timestamp, req)["query"] == Str("") <== req.query.None?
  {
  }

  /** The axios interceptor signs `"POST"` even for a GET; the `$fetch` hook signs the real method. */
  lemma SignedMethod<Q, O>(c: Codec<Q, O>, secrets: Security.Secrets, nonce: string, timestamp: string, req: Request<Q, O>)
    ensures SignedFields(Axios, c, secrets, nonce, timestamp, req)["method"] == Str("POST")
    ensures SignedFields(Fetch, c, secrets, nonce, timestamp, req)["method"] == FieldOf(req.httpMethod)
  {
  }

  /**
    What a server can rebuild from the wire request alone: the session, nonce, timestamp and
    platform headers, the method, path, query and authorization, and the body for POST/PUT.
   */
  function ServerView<Q, O>(v: Variant, c: Codec<Q, O>, wire: Request<Q, O>): map<string, Field> {
    Record(GetHeader(v, wire.headers, Session), GetHeader(v, wire.headers, Nonce), GetHeader(v, wire.headers, Timestamp),
           GetHeader(v, wire.headers, Platform), FieldOf(wire.httpMethod), wire.path, QueryText(c, wire.query),
           GetHeader(v, wire.headers, Authorization),
           if PostOrPut(wire.httpMethod) && wire.body.Serialized? then Some(wire.body.text) else None)
  }


  /** The interceptor's headers carry the signed session, nonce, timestamp and platform, and the caller's authorization. */
  lemma InterceptedHeaders<Q, O>(v: Variant, c: Codec<Q, O>, secrets: Security.Secrets, nonce: string, timestamp: string, req: Request<Q, O>)
    requires FetchKeyed(v, req.headers)
    ensures var h := Intercept(v, c, secrets, nonce, timestamp, req).request.headers;
      && GetHeader(v, h, Authorization) == GetHeader(v, req.headers, Authorization)
      && GetHeader(v, h, Session) == secrets.sessionId
      && GetHeader(v, h, Nonce) == nonce
      && GetHeader(v, h, Timestamp) == timestamp
      && GetHeader(v, h, Platform) == PlatformCode
    ensures var p := Intercept(v, c, secrets, nonce, timestamp, req);
      && Str(GetHeader(v, p.request.headers, Session)) == p.signed["session"]
      && Str(GetHeader(v, p.request.headers, Nonce)) == p.signed["nonce"]
      && Str(GetHeader(v, p.request.headers, Timestamp)) == p.signed["timestamp"]
      && GetHeader(v, p.request.headers, Signature) == p.signature
  {
  }

  /** The interceptor adds exactly the keys it writes, the content type only for POST/PUT. */
  lemma InterceptKeys<Q, O>(v: Variant, c: Codec<Q, O>, secrets: Security.Secrets, nonce: string, timestamp: string, req: Request<Q, O>)
    requires FetchKeyed(v, req.headers)
    ensures var h := Intercept(v, c, secrets, nonce, timestamp, req).request.headers;
      h.Keys == req.headers.Keys + {HeaderKey(v, Platform), HeaderKey(v, Session), HeaderKey(v, Timestamp),
                                    HeaderKey(v, Nonce), HeaderKey(v, Signature)}
                + (if PostOrPut(req.httpMethod) then {HeaderKey(v, ContentType)} else {})
  {
  }

  /** Every caller header the interceptor does not write reaches the wire unchanged. */
  lemma InterceptFrame<Q, O>(v: Variant, c: Codec<Q, O>, secrets: Security.Secrets, nonce: string, timestamp: string, req: Request<Q, O>)
    requires FetchKeyed(v, req.headers)
    ensures var h := Intercept(v, c, secrets, nonce, timestamp, req).request.headers;
      forall k :: k in req.headers && !Written(v, k) ==> k in h && h[k] == req.headers[k]
  {
  }

  /** What a server rebuilds from an intercepted request is the signed record with the request's real method. */
  lemma InterceptedView<Q, O>(v: Variant, c: Codec<Q, O>, secrets: Security.Secrets, nonce: string, timestamp: string, req: Request<Q, O>)
    requires FetchKeyed(v, req.headers)
    ensures ServerView(v, c, Intercept(v, c, secrets, nonce, timestamp, req).request)
         == SignedFields(v, c, secrets, nonce, timestamp, req)["method" := FieldOf(req.httpMethod)]
  {
    var wire := Intercept(v, c, secrets, nonce, timestamp, req).request;
    InterceptedHeaders(v, c, secrets, nonce, timestamp, req);
    var verb := if v.Axios? then Str("POST") else FieldOf(req.httpMethod);
    var query := QueryText(c, req.query);
    var auth := GetHeader(v, req.headers, Authorization);
    var body := if PostOrPut(req.httpMethod) then Some(WireBody(c, secrets, req.body)) else None;
    RecordMethod(secrets.sessionId, nonce, timestamp, PlatformCode, verb, req.path, query, auth, body, FieldOf(req.httpMethod));
    assert QueryText(c, wire.query) == query;
    assert (if PostOrPut(wire.httpMethod) && wire.body.Serialized? then Some(wire.body.text) else None) == body;
  }

  /**
    The axios record is the `$fetch` record with the method replaced by `"POST"` and the
    authorization read from the header name exactly as written, where `$fetch` ignores case.
   */
  lemma AxiosSignsPost<Q, O>(c: Codec<Q, O>, secrets: Security.Secrets, nonce: string, timestamp: string, req: Request<Q, O>)
    ensures SignedFields(Axios, c, secrets, nonce, timestamp, req)
         == SignedFields(Fetch, c, secrets, nonce, timestamp, req)["method" := Str("POST")]
              ["authorization" := Str(HeaderOr(req.headers, HeaderAuthorization))]
  {
    var query := QueryText(c, req.query);
    var body := if PostOrPut(req.httpMethod) then Some(WireBody(c, secrets, req.body)) else None;
    var fetchAuth := GetHeader(Fetch, req.headers, Authorization);
    var axiosAuth := GetHeader(Axios, req.headers, Authorization);
    RecordMethod(secrets.sessionId, nonce, timestamp, PlatformCode, FieldOf(req.httpMethod), req.path, query, fetchAuth, body, Str("POST"));
    RecordAuthorization(secrets.sessionId, nonce, timestamp, PlatformCode, Str("POST"), req.path, query, fetchAuth, body, axiosAuth);
  }

  /**
    The signature covers exactly what travels: for `$fetch` the signed record is the one a
    server rebuilds from the wire request; for axios it is that record with the method
    replaced by `"POST"`.
   */
  lemma ServerRecomputes<Q, O>(v: Variant, c: Codec<Q, O>, secrets: Security.Secrets, nonce: string, timestamp: string, req: Request<Q, O>)
    requires FetchKeyed(v, req.headers)
    ensures var p := Intercept(v, c, secrets, nonce, timestamp, req);
      v.Fetch? ==> p.signed == ServerView(v, c, p.request)
    ensures var p := Intercept(v, c, secrets, nonce, timestamp, req);
      v.Axios? ==> p.signed == ServerView(v, c, p.request)["method" := Str("POST")]
  {
    InterceptedView(v, c, secrets, nonce, timestamp, req);
    var verb := if v.Axios? then Str("POST") else FieldOf(req.httpMethod);
    var query := QueryText(c, req.query);
    var auth := GetHeader(v, req.headers, Authorization);
    var body := if PostOrPut(req.httpMethod) then Some(WireBody(c, secrets, req.body)) else None;
    RecordMethod(secrets.sessionId, nonce, timestamp, PlatformCode, verb, req.path, query, auth, body, FieldOf(req.httpMethod));
    RecordMethod(secrets.sessionId, nonce, timestamp, PlatformCode, FieldOf(req.httpMethod), req.path, query, auth, body, verb);
  }

  /** The lower-case `content-type` is not a key axios writes. */
  lemma LowerContentTypeNotWritten()
    ensures !Written(Axios, "content-type")
  {
    var lower: string := "content-type";
    assert lower[0] != HeaderContentType[0];
    assert |lower| != |HeaderPlatform| && |lower| != |HeaderSession| && |lower| != |HeaderTimestamp|;
    assert |lower| != |HeaderNonce| && |lower| != |HeaderSignature|;
  }

  /**
    A POST whose caller sets the content type under any spelling of its name, as
    `useFetchAsyncPost` does with `Content-Type`: `$fetch` keeps one content type, the
    encrypted one.
   */
  lemma FetchContentTypeCase<Q, O>(c: Codec<Q, O>, secrets: Security.Secrets, nonce: string, timestamp: string,
                                   req: Request<Q, O>, name: string, value: string)
    requires PostOrPut(req.httpMethod)
    requires Text.ToLower(name) == Text.ToLower(HeaderContentType) && req.headers == FromInit([(name, value)])
    ensures var h := Intercept(Fetch, c, secrets, nonce, timestamp, req).request.headers;
      && GetHeader(Fetch, h, ContentType) == ContentTypeEncrypted
      && (forall k :: k in h && Text.ToLower(k) == Text.ToLower(HeaderContentType) ==> k == HeaderKey(Fetch, ContentType))
      && HeaderContentType !in h
  {
    var h := Intercept(Fetch, c, secrets, nonce, timestamp, req).request.headers;
    forall k | k in h && Text.ToLower(k) == Text.ToLower(HeaderContentType) ensures k == HeaderKey(Fetch, ContentType) {
      WrittenAnyCase(h, k, ContentType);
    }
    assert Text.ToLower(HeaderContentType)[0] == 'c';
  }

  /** The same POST through axios keeps the caller's `content-type` beside its own `Content-Type`. */
  lemma AxiosContentTypeCase<Q, O>(c: Codec<Q, O>, secrets: Security.Secrets, nonce: string, timestamp: string, req: Request<Q, O>)
    requires PostOrPut(req.httpMethod) && "content-type" in req.headers
    ensures var h := Intercept(Axios, c, secrets, nonce, timestamp, req).request.headers;
      && "content-type" in h && h["content-type"] == req.headers["content-type"]
      && "Content-Type" in h && h["Content-Type"] == ContentTypeEncrypted
  {
    InterceptFrame(Axios, c, secrets, nonce, timestamp, req);
    LowerContentTypeNotWritten();
  }

  /** An authorization the `$fetch` caller sets under any spelling of its name is signed. */
  lemma FetchAuthorizationCase<Q, O>(c: Codec<Q, O>, secrets: Security.Secrets, nonce: string, timestamp: string,
                                     req: Request<Q, O>, name: string, token: string)
    requires Text.ToLower(name) == Text.ToLower(HeaderAuthorization) && req.headers == FromInit([(name, token)])
    ensures SignedFields(Fetch, c, secrets, nonce, timestamp, req)["authorization"] == Str(token)
  {
    FromInitSingle(name, token);
    HeaderKeyLowerCase(Authorization);
  }

  /** An authorization set only as `authorization` is signed as `''` by axios. */
  lemma AxiosAuthorizationCase<Q, O>(c: Codec<Q, O>, secrets: Security.Secrets, nonce: string, timestamp: string, req: Request<Q, O>)
    requires "authorization" in req.headers && HeaderAuthorization !in req.headers
    ensures SignedFields(Axios, c, secrets, nonce, timestamp, req)["authorization"] == Str("")
  {
  }
}
