/**
  The axios error handler of `composables/http.ts` (lines 98-124), which retries server
  errors after a linearly growing delay, and the way `useGet`/`usePost` (lines 180-254)
  consume what a request settles to.

  The server is a function from the attempt number to its reply, so every retry sees the
  reply the environment picks. Sleeping is recorded as the list of delays, and what
  `saveCookies` does with the headers is not part of this model.

  Two behaviours of the handler are modelled twice, as written and corrected:
  - the handler RETURNS errors (and `null` on cancellation) where the callers expect a
    rejection;
  - a retry runs the request interceptor again on a body that is already serialised.
 */
module HttpRetry {
  import opened Wrappers
  import Security
  import HttpSign

  /** The retry count `useGet` and `usePost` put in their request config. */
  const CallerRetry: nat := 3

  /** Why a request failed, as the error objects the source creates. */
  datatype Error =
    | SignatureMismatch           // the response interceptor's `Error('签名验证失败')`
    | MalformedJson               // `JSON.parse` throwing on the response text
    | HttpStatus(status: int)     // an AxiosError with a response other than 200
    | Network                     // an AxiosError without a response
    | Cancel                      // the cancel token fired
    | HeadersOfNonResponse        // the TypeError of reading `resp.headers` on an error or `null`

  /** What the server does with one attempt. */
  datatype Reply<T> =
    | Answered(data: T)           // 200 with a verified, parsed body
    | Unverified                  // 200 whose signature does not verify
    | Unparsable                  // 200 whose text is not JSON
    | Status(code: int)           // any other status
    | NoResponse                  // network failure or timeout
    | Cancelled                   // the caller cancelled

  /** What `httpInstance(config)` resolves to when it fulfils. */
  datatype Value<T> = Data(data: T) | ErrorObject(error: Error) | NullValue

  /** How the request promise settles. */
  datatype Settled<T> = Fulfilled(value: Value<T>) | Rejected(error: Error)

  /** The settlement, the sleep before each retry, and the number of attempts made. */
  datatype Attempts<T> = Attempts(settled: Settled<T>, delays: seq<int>, count: nat)

  /** The handler's retry test: a 5xx status, `retry` set (non-zero), and fewer retries than that so far. */
  predicate Retries(status: int, retry: nat, done: nat) {
    500 <= status < 600 && retry > 0 && done < retry
  }

  /** The attempt `attempt` ends in a retry: a 5xx reply that `Retries` with that many retries done. */
  predicate RetriedAt<T>(reply: Reply<T>, retry: nat, attempt: nat) {
    reply.Status? && Retries(reply.code, retry, attempt)
  }

  /**
    How the request settles, as written, on the reply that is not retried: the data, the
    AxiosError object for a status or a failed network, `null` on cancellation, and a
    rejection when the response interceptor throws.
   */
  function SettleAsWritten<T>(reply: Reply<T>): Settled<T> {
    match reply
    case Answered(d) => Fulfilled(Data(d))
    case Unverified => Rejected(SignatureMismatch)
    case Unparsable => Rejected(MalformedJson)
    case Cancelled => Fulfilled(NullValue)
    case NoResponse => Fulfilled(ErrorObject(Network))
    case Status(code) => Fulfilled(ErrorObject(HttpStatus(code)))
  }

  /** How the corrected request settles on the reply that is not retried: the data, or a rejection with that reply's error. */
  function Settle<T>(reply: Reply<T>): Settled<T> {
    match reply
    case Answered(d) => Fulfilled(Data(d))
    case Unverified => Rejected(SignatureMismatch)
    case Unparsable => Rejected(MalformedJson)
    case Cancelled => Rejected(Cancel)
    case NoResponse => Rejected(Network)
    case Status(code) => Rejected(HttpStatus(code))
  }

  /**
    The k-th retry (counting from 1) sleeps 1000·k ms. The request as written: fulfilled with
    the data, with the AxiosError object itself for any other status and for a failed network,
    with `null` on cancellation; rejected only when the response interceptor rejects.
    `done` is `config.__retryCount`.
   */
  function DispatchAsWritten<T>(server: nat -> Reply<T>, retry: nat, done: nat): (r: Attempts<T>)
    ensures 1 <= r.count && |r.delays| == r.count - 1
    ensures done <= retry ==> r.count <= retry - done + 1
    ensures forall i :: 0 <= i < |r.delays| ==> r.delays[i] == 1000 * (done + i + 1)
    ensures r.count > 1 ==> server(done).Status? && Retries(server(done).code, retry, done)
    ensures r.settled.Rejected? ==> r.settled.error == SignatureMismatch || r.settled.error == MalformedJson
    ensures forall a :: done <= a < done + r.count - 1 ==> RetriedAt(server(a), retry, a)
    ensures !RetriedAt(server(done + r.count - 1), retry, done + r.count - 1)
    ensures r.settled == SettleAsWritten(server(done + r.count - 1))
    decreases retry - done
  {
    match server(done)
    case Answered(d) => Attempts(Fulfilled(Data(d)), [], 1)
    case Unverified => Attempts(Rejected(SignatureMismatch), [], 1)
    case Unparsable => Attempts(Rejected(MalformedJson), [], 1)
    case Cancelled => Attempts(Fulfilled(NullValue), [], 1)
    case NoResponse => Attempts(Fulfilled(ErrorObject(Network)), [], 1)
    case Status(code) =>
      if Retries(code, retry, done) then
        var inner := DispatchAsWritten(server, retry, done + 1);
        Attempts(inner.settled, [1000 * (done + 1)] + inner.delays, inner.count + 1)
      else Attempts(Fulfilled(ErrorObject(HttpStatus(code))), [], 1)
  }

  /** The corrected request: the same retries, but every failure, cancellation included, rejects. */
  function Dispatch<T>(server: nat -> Reply<T>, retry: nat, done: nat): (r: Attempts<T>)
    ensures 1 <= r.count && |r.delays| == r.count - 1
    ensures done <= retry ==> r.count <= retry - done + 1
    ensures forall i :: 0 <= i < |r.delays| ==> r.delays[i] == 1000 * (done + i + 1)
    ensures r.count > 1 ==> server(done).Status? && Retries(server(done).code, retry, done)
    ensures r.settled.Fulfilled? ==> r.settled.value.Data?
    ensures forall a :: done <= a < done + r.count - 1 ==> RetriedAt(server(a), retry, a)
    ensures !RetriedAt(server(done + r.count - 1), retry, done + r.count - 1)
    ensures r.settled == Settle(server(done + r.count - 1))
    decreases retry - done
  {
    match server(done)
    case Answered(d) => Attempts(Fulfilled(Data(d)), [], 1)
    case Unverified => Attempts(Rejected(SignatureMismatch), [], 1)
    case Unparsable => Attempts(Rejected(MalformedJson), [], 1)
    case Cancelled => Attempts(Rejected(Cancel), [], 1)
    case NoResponse => Attempts(Rejected(Network), [], 1)
    case Status(code) =>
      if Retries(code, retry, done) then
        var inner := Dispatch(server, retry, done + 1);
        Attempts(inner.settled, [1000 * (done + 1)] + inner.delays, inner.count + 1)
      else Attempts(Rejected(HttpStatus(code)), [], 1)
  }

  /** Both versions make the same attempts with the same delays; they differ only in how failures settle. */
  lemma SameSchedule<T>(server: nat -> Reply<T>, retry: nat, done: nat)
    ensures DispatchAsWritten(server, retry, done).delays == Dispatch(server, retry, done).delays
    ensures DispatchAsWritten(server, retry, done).count == Dispatch(server, retry, done).count
    ensures Dispatch(server, retry, done).settled.Fulfilled? <==> DispatchAsWritten(server, retry, done).settled.Fulfilled? && DispatchAsWritten(server, retry, done).settled.value.Data?
  {
    var w := DispatchAsWritten(server, retry, done);
    var d := Dispatch(server, retry, done);
    assert w.delays == d.delays;
  }

  /** A server that always answers with the same status. */
  function Always<T>(code: int): nat -> Reply<T> {
    _ => Status(code)
  }

  /**
    A server that answers every attempt with the same 5xx status gets `retry - done + 1`
    attempts. As written the call then fulfils with the AxiosError; corrected it rejects.
   */
  lemma {:induction false} PersistentServerError<T>(code: int, retry: nat, done: nat)
    requires 500 <= code < 600 && retry > 0 && done <= retry
    ensures DispatchAsWritten(Always<T>(code), retry, done).count == retry - done + 1
    ensures DispatchAsWritten(Always<T>(code), retry, done).settled == Fulfilled(ErrorObject(HttpStatus(code)))
    ensures Dispatch(Always<T>(code), retry, done).count == retry - done + 1
    ensures Dispatch(Always<T>(code), retry, done).settled == Rejected(HttpStatus(code))
    decreases retry - done
  {
    var s := Always<T>(code);
    assert s(done) == Status(code);
    if done < retry {
      PersistentServerError<T>(code, retry, done + 1);
    }
  }

  /** Three retries counted from the first attempt sleep 1, 2 and 3 seconds. */
  lemma ThreeDelays(d: seq<int>)
    requires |d| == 3 && forall i :: 0 <= i < |d| ==> d[i] == 1000 * (0 + i + 1)
    ensures d == [1000, 2000, 3000]
  {
    assert d[0] == 1000 && d[1] == 2000 && d[2] == 3000;
  }

  /**
    A GET from `useGet` (retry 3) against a server that always answers the same 5xx status,
    503 say, is sent four times, sleeping 1, 2 and 3 seconds in between.
   */
  lemma CallerSchedule<T>(code: int, retry: nat)
    requires 500 <= code < 600 && retry == CallerRetry
    ensures DispatchAsWritten(Always<T>(code), retry, 0) == Attempts(Fulfilled(ErrorObject(HttpStatus(code))), [1000, 2000, 3000], 4)
    ensures Dispatch(Always<T>(code), retry, 0) == Attempts(Rejected(HttpStatus(code)), [1000, 2000, 3000], 4)
  {
    PersistentServerError<T>(code, retry, 0);
    ThreeDelays(DispatchAsWritten(Always<T>(code), retry, 0).delays);
    ThreeDelays(Dispatch(Always<T>(code), retry, 0).delays);
  }

  /** Statuses outside 500-599, network failures and cancellations are never retried. */
  lemma OnlyServerErrorsRetried<T>(server: nat -> Reply<T>, retry: nat)
    requires !server(0).Status? || !(500 <= server(0).code < 600)
    ensures DispatchAsWritten(server, retry, 0).count == 1
    ensures Dispatch(server, retry, 0).count == 1
  {
  }

  // ---------------------------------------------------------------------------
  // What the caller sees

  /**
    What reaches `useGet`'s catch block as written, or `None` when it returns data: reading
    `resp.headers['set-cookie']` on a fulfilled AxiosError or `null` throws a TypeError
    before `saveCookies` runs; a rejection is caught as it is.
   */
  function CaughtAsWritten<T>(s: Settled<T>): (e: Option<Error>)
    ensures e.None? <==> s.Fulfilled? && s.value.Data?
    ensures s.Fulfilled? && !s.value.Data? ==> e == Some(HeadersOfNonResponse)
    ensures s.Rejected? ==> e == Some(s.error)
  {
    match s
    case Fulfilled(Data(_)) => None
    case Fulfilled(_) => Some(HeadersOfNonResponse)
    case Rejected(err) => Some(err)
  }

  /** `handle401`'s guard: only an AxiosError whose response status is 401 can start a refresh. */
  predicate Is401(e: Error) {
    e.HttpStatus? && e.status == 401
  }

  /**
    As written, no error that reaches the catch block is ever an AxiosError with status 401,
    whatever the server does: a 401 fulfils the request, reading its headers throws a
    TypeError, and the refresh logic in `handle401` is never reached.
   */
  lemma AsWrittenNeverRefreshes<T>(server: nat -> Reply<T>, retry: nat)
    ensures var e := CaughtAsWritten(DispatchAsWritten(server, retry, 0).settled);
      e.Some? ==> !Is401(e.value)
    ensures server(0) == Status(401) ==>
      CaughtAsWritten(DispatchAsWritten(server, retry, 0).settled) == Some(HeadersOfNonResponse)
  {
  }

  /** Corrected, the caller catches the 401 itself, so `handle401` can act on it. */
  lemma CorrectedReaches401<T>(server: nat -> Reply<T>, retry: nat)
    requires server(0) == Status(401)
    ensures Dispatch(server, retry, 0).settled == Rejected(HttpStatus(401))
    ensures Is401(Dispatch(server, retry, 0).settled.error)
  {
  }

  // ---------------------------------------------------------------------------
  // The body a retry sends

  /**
    The POST body of each attempt as written: the retry hands the mutated config, whose data
    is already the wire text, back to the interceptor, which serialises it again.
   */
  function BodiesAsWritten<Q, O>(c: HttpSign.Codec<Q, O>, secrets: Security.Secrets, body: HttpSign.Body<O>, attempts: nat): (r: seq<string>)
    ensures |r| == attempts
    ensures attempts > 0 ==> r[0] == HttpSign.WireBody(c, secrets, body)
    ensures forall i :: 0 < i < attempts ==> r[i] == HttpSign.WireBody(c, secrets, HttpSign.Serialized(r[i - 1]))
    decreases attempts
  {
    if attempts == 0 then []
    else if attempts == 1 then [HttpSign.WireBody(c, secrets, body)]
    else
      var prior := BodiesAsWritten(c, secrets, body, attempts - 1);
      prior + [HttpSign.WireBody(c, secrets, HttpSign.Serialized(prior[attempts - 2]))]
  }

  /** Corrected: every attempt is built from the caller's original data, so all attempts send the same body. */
  function Bodies<Q, O>(c: HttpSign.Codec<Q, O>, secrets: Security.Secrets, body: HttpSign.Body<O>, attempts: nat): (r: seq<string>)
    ensures |r| == attempts
    ensures forall i :: 0 <= i < attempts ==> r[i] == HttpSign.WireBody(c, secrets, body)
  {
    seq(attempts, _ => HttpSign.WireBody(c, secrets, body))
  }

  /**
    With crypto off, a POST of an object that first meets a 503 is retried with the first
    body's JSON text quoted as a JSON string: the server receives different text the second
    time. Corrected, the retry sends the first body again.
   */
  lemma RetryDoubleEncodes<Q, O>(c: HttpSign.Codec<Q, O>, secrets: Security.Secrets, o: O, later: nat -> Reply<O>)
    requires !c.cryptoOn
    requires |c.stringifyObject(o)| > 0
    requires later(0) == Status(503)
    ensures DispatchAsWritten(later, CallerRetry, 0).count >= 2
    ensures var bodies := BodiesAsWritten(c, secrets, HttpSign.Object(o), 2);
      bodies[0] == c.stringifyObject(o) && bodies[1] == HttpSign.Quote(c.stringifyObject(o)) && bodies[1] != bodies[0]
    ensures var bodies := Bodies(c, secrets, HttpSign.Object(o), 2);
      bodies[1] == bodies[0] == c.stringifyObject(o)
  {
    var first := c.stringifyObject(o);
    assert HttpSign.WireBody(c, secrets, HttpSign.Object(o)) == first;
    assert HttpSign.WireBody(c, secrets, HttpSign.Serialized(first)) == HttpSign.Quote(first);
    HttpSign.QuoteChanges(first);
  }
}
