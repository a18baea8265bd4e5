# nuxt-web client core, modelled in Dafny

This project models the client-side logic of a Nuxt web front end. Each piece below is one
Dafny module.

- **Security** (`utils/security.ts`) hides the session's key pairs in two cookies.
  - `encodeSecureString` lays out a 24-byte salt and two 32-byte keys, XOR-masks every byte
    from index 17 with the byte at `index % 17`, and base64-encodes the result.
  - `decodeSecureString` checks the lengths, undoes the mask and slices the keys back out.
  - `decodeSecrets` reuses the keys found in the `sid`/`cid` cookies, or makes new ones and
    rewrites both cookies.
  - `generateUUID` strips the hyphens from a random UUID.
- **Cookie** (`utils/cookie.ts`) is `parseCookies`. It splits `Set-Cookie` lines into a name,
  a value and lower-cased attributes, and drops malformed lines.
- **Perf** (`utils/perf.ts`) is `memoize` (a cache keyed by the JSON text of the argument
  list) and `debounce` (a single pending-call slot).
- **SocketClient** (`utils/websocket_client.ts`) is `WebSocketClientBase`. It covers
  connecting, the open and close handlers, close-code classification, reconnecting through a
  retry strategy, the heartbeat timer, `close`, and the send buffer.
- **SocketWorker** (`workers/websocket_worker.ts`) has two parts:
  - the shared worker's `WebSocketClient`, with a request-id counter that wraps modulo
    `0xFFFFFFFF` and a ping on every heartbeat;
  - the dispatch of port commands over the `ports` list and the single client.
- The request pipeline of `composables/http.ts` spans four modules:
  - **HttpSign**: the request interceptors of the axios instance and the `$fetch` instance.
    Each builds a signed record, serializes (and optionally encrypts) POST/PUT bodies, and
    writes the signature headers.
  - **HttpResponse**: the response handlers. They gate on the status, verify, decrypt, save
    cookies (`$fetch` only) and parse.
  - **HttpRetry**: the axios 5xx retry with linear back-off, and how `useGet`/`usePost` see
    its result.
  - **HttpRefresh**: `handle401`, `doRefreshToken` and the option handling of
    `useGet`/`usePost`. Its core is a state machine over the module-level
    `refreshTokenPromise` slot, shared by any number of concurrently failing calls.
- **Text** and **Wrappers** are helpers. Text models JavaScript's `split`, `trim` and
  `toLowerCase`; Wrappers defines `Option`.

Everything else is a parameter. That covers cryptography, base64, `stringifyObj`,
`JSON.stringify`/`JSON.parse`, retry-strategy delays, packet encoding, the clock, random
values and the network. A model function takes these as function-valued arguments, or as
fields of a record of collaborators. Base64 has one assumed law, the ghost predicate
`Security.Lawful`:

- decoding undoes encoding;
- the unpadded length of `n` bytes is `(4n+2)/3`;
- the output uses the URL-safe alphabet.

Timers are armed/disarmed flags. Concurrency is modelled as interleaved events applied to a
shared state.

Places where the code does something its names or comments do not suggest; the model follows the code:

- `close()` does not clear a pending reconnect timer. When the timer fires, the client
  connects again (`SocketClient.CloseKeepsReconnectTimer`). The worker's close command drops
  its only reference to such a client, which then opens a socket nobody can reach and pings
  on it (`SocketWorker.DiscardedClientReconnects`).
- The send buffer is never cleared, so every open replays all of it
  (`SocketClient.ReopenReplaysAgain`).
- The post-refresh retry passes only `{ autoRefreshToken: false }`. It re-reads the stored
  access token rather than using tokens handed over by the refresh
  (`HttpRefresh.NoNestedRefresh`).
- Public `HttpOptions` have no `autoRefreshToken` field. Options supplied by a caller
  therefore disable the refresh (`HttpRefresh.PublicOptionsNeverRefresh`).
- A retry whose result is falsy makes the caller rethrow the original error.
- Without a reconnect strategy, an abnormal close leaves the heartbeat running
  (`SocketClient.NoStrategyHeartbeatSurvives`).
- The axios interceptors sign and verify the literal method `"POST"` for every request. The
  `$fetch` hooks use the request's own method (`HttpSign.SignedMethod`).
- `token ??= …` writes into the caller's options object. `useAsyncGet`/`useAsyncPost` pass
  the same object on every refetch, so the first token used sticks, even after a refresh
  (`HttpRefresh.FirstTokenSticks`).
- `$fetch` headers ignore case and axios headers do not. `$fetch` stores the caller's
  headers in a `Headers` object under lower-cased names (`HttpSign.FromInit`). So a caller's
  `Content-Type` (as `useFetchAsyncPost` writes it) or `X-Nonce`, in any case, is replaced
  by the written value, and an authorization under any spelling is signed
  (`HttpSign.FetchContentTypeCase`, `HttpSign.FetchAuthorizationCase`). Through axios a
  caller's `content-type` stays beside the written `Content-Type`, and an `authorization`
  set in lower case is signed as `''` (`HttpSign.AxiosContentTypeCase`,
  `HttpSign.AxiosAuthorizationCase`).

## Model

| member | source | states |
|---|---|---|
| Security.XorPass | utils/security.ts:62-65 | bytes below index 17 are kept; every byte from 17 on is XORed with the original byte at its index mod 17 (the key bytes are never written) |
| Security.XorPassInvolution | utils/security.ts:80-83 | the decode-side XOR pass undoes the encode-side pass: applying it twice gives back the original buffer |
| Security.EncodeSecureString | utils/security.ts:58-67 | the encoded text base64-decodes to the masked layout salt ++ sign key ++ box key, and its length is that of the unpadded base64 of that layout |
| Security.DecodeSecureString | utils/security.ts:69-91 | both halves are present or both null; they are present exactly when the text is longer than 88 characters and decodes to 88 bytes, and then each is 32 bytes long (so the check at line 86 never fires) |
| Security.SecureStringRoundTrip | utils/security.ts:58-91 | decoding the encoding of a 24-byte salt and two 32-byte keys returns exactly those two keys |
| Security.DecodedReencodes | utils/security.ts:69-91 | converse round trip: re-encoding what a successful decode returned, with the salt it carried, reproduces the decoded bytes |
| Security.StripHyphens | utils/security.ts:47 | the result contains no hyphen and is no longer than the input |
| Security.StripHyphensKeeps | utils/security.ts:47 | hyphen removal keeps every other character with its multiplicity and leaves hyphen-free text unchanged |
| Security.StripHyphensConcat | utils/security.ts:47 | the global replace works piecewise: stripping a concatenation is stripping each part |
| Security.GenerateUuid | utils/security.ts:46-48 | the nonce never contains a hyphen |
| Security.UuidNonceBlocks | utils/security.ts:46-48 | for a canonical 8-4-4-4-12 UUID the nonce is its five hex blocks joined in order |
| Security.UuidNonceShape | utils/security.ts:46-48 | for a canonical UUID the nonce is 32 hex digits |
| Security.FirstWithPrefix | utils/security.ts:95 | the `find` returns the first segment starting with the prefix, or none when no segment does |
| Security.DecodeSecrets | utils/security.ts:93-126 | cookies are rewritten iff one of the four decoded keys is null; then the fresh pairs are returned with the new sid as session id, otherwise public halves come from sid and private halves from cid and the session id is the sid cookie |
| Security.RewrittenCookiesDecode | utils/security.ts:103-117 | after regeneration, decoding the new sid and cid gives back the fresh public and private keys, so every equality the source logs holds |
| Security.SidLookup | utils/security.ts:95 | in the header the browser presents after the rewrite, the sid lookup finds the written sid value |
| Security.CookieValue | utils/security.ts:95-96 | the looked-up cookie value never contains `=` |
| Security.ValueField | utils/security.ts:95 | `split('=')[1]` of a segment is the text after its first `=` up to the next `=` or the end, and `''` when the segment has no `=` |
| Security.CookieValueFirst | utils/security.ts:95-96 | when a segment's trim starts with `name=` and none before it does, the lookup returns the value field of that segment |
| Security.CookieValueAbsent | utils/security.ts:95-96 | when no segment's trim starts with `name=`, the lookup returns `''` |
| Security.CidLookup | utils/security.ts:96 | in that header the cid lookup finds the written cid value even though its segment starts with a space |
| Security.SecretsPersist | utils/security.ts:93-126 | keys are created once: after the rewritten cookies are stored, the next call rewrites nothing and returns the same secrets, whatever fresh keys it is offered |
| Text.Trim | utils/cookie.ts:20-21 | `trim()` leaves no whitespace at either end and never lengthens the text |
| Text.TrimSlice | utils/cookie.ts:20-21 | `trim()` returns a middle slice of the text and removes only whitespace before and after it |
| Text.Split | utils/cookie.ts:15-16 | `split(sep)` gives at least one part, no part holds the separator, joining the parts with it gives the text back, and there is more than one part iff the text contains the separator |
| Text.SplitSecond | utils/security.ts:95 | the second part of a split is the text after the first separator, up to the next one or the end |
| Cookie.AddAttribute | utils/cookie.ts:23-28 | a segment with an empty key before its first `=` adds nothing; otherwise exactly the trimmed, lower-cased key is set, to the trimmed text after the first `=` when that is non-empty and to `true` otherwise, and every other key keeps its value |
| Cookie.SegmentEntry | utils/cookie.ts:24-26 | a segment sets nothing exactly when its raw key before the first `=` is empty |
| Cookie.SegmentEntryPlain | utils/cookie.ts:23-27 | an empty segment sets nothing; a non-empty segment without `=` sets its trimmed, lower-cased text to `true` |
| Cookie.ParseCookie | utils/cookie.ts:14-34 | a line is dropped iff its first `;`-segment does not split on `=` into exactly two parts; a kept name and value are the trimmed halves of that split, so they have no whitespace at either end and contain neither `=` nor `;` |
| Cookie.ParseAll | utils/cookie.ts:12-35 | at most one entry per input line |
| Cookie.ParseCookies | utils/cookie.ts:4-38 | undefined or empty input yields the empty list; otherwise the result is the parse of every line with the lines without a cookie dropped (`ParseAll`), and has no more entries than lines |
| Cookie.ParseAllConcat | utils/cookie.ts:12-35 | lines are handled independently and in order: parsing a concatenation is the concatenation of the parses |
| Cookie.ParseAllKeepsAll | utils/cookie.ts:12-35 | the output is as long as the input iff every line parses |
| Cookie.ParseAllKeepsParsed | utils/cookie.ts:30-34 | every line that parses contributes its cookie to the output |
| Cookie.ParseAllFromInput | utils/cookie.ts:12-35 | every cookie in the output is the parse of some input line |
| Cookie.ParseAllSingle | utils/cookie.ts:13-34 | a one-line list yields that line's cookie or nothing |
| Cookie.AddValueSegment | utils/cookie.ts:24-26 | a segment `key=v` with a non-empty key and no further `=` sets the trimmed, lower-cased key to the trimmed `v`, or to `true` when `v` is empty, and nothing else |
| Cookie.AddPlain | utils/cookie.ts:23-27 | a formatted attribute whose key and value hold no separator, padded or in any case, sets exactly the entry the parser reads back |
| Cookie.ParsePlainAttributes | utils/cookie.ts:23-28 | parsing formatted attribute segments rebuilds the attribute map from the entries as read back, later segments overriding earlier ones |
| Cookie.ParseAttributes | utils/cookie.ts:23-28 | applying attribute segments never loses a key the options held |
| Cookie.ParseAttributesLastWins | utils/cookie.ts:23-28 | of several segments setting one key, the last decides its value |
| Cookie.ParseAttributesKeeps | utils/cookie.ts:23-28 | a key no segment sets keeps its value |
| Cookie.ParseAttributesNamed | utils/cookie.ts:23-28 | a key the options did not hold is present only if some segment sets it |
| Cookie.FormatParseRoundTrip | utils/cookie.ts:14-34 | round trip: parsing a `Set-Cookie` line formatted from a name, value and attributes without separators gives the trimmed name and value and the attributes with trimmed, lower-cased keys and trimmed values (`true` for empty ones) |
| Cookie.CanonicalEntry | utils/cookie.ts:24-26 | a trimmed, lower-case key with a trimmed, non-empty value or a flag is read back unchanged |
| Cookie.CanonicalRoundTrip | utils/cookie.ts:14-34 | for trimmed parts and lower-case keys the round trip returns exactly the name, value and attribute map written |
| Cookie.ValueWithEqualsDropped | utils/cookie.ts:16-19 | a cookie whose value contains `=` is dropped entirely |
| Cookie.SecondEqualsDiscarded | utils/cookie.ts:24-26 | text after a second `=` in an attribute is discarded |
| Cookie.EmptyValueIsFlag | utils/cookie.ts:26 | an attribute with an empty value after `=` is stored as the flag `true` |
| Cookie.BlankSegments | utils/cookie.ts:24-26 | an empty segment (a trailing `;`) adds nothing, but a blank one adds the empty key as a flag |
| Perf.Call | utils/perf.ts:23-27 | `fn` runs iff the key has no truthy cached value; only that key's entry changes; the returned value is what the cache now holds, `fn`'s result when it ran |
| Perf.Run | utils/perf.ts:23-27 | one result per call and at most one `fn` invocation per call |
| Perf.HitStays | utils/perf.ts:25-26 | once a key holds a truthy value, any number of calls with that key never invoke `fn` and all return the cached value |
| Perf.SharedKeyRunsOnce | utils/perf.ts:24-26 | argument lists that serialize to the same key share one entry: `fn` runs once and every call returns its truthy result |
| Perf.FalsyNeverCached | utils/perf.ts:25 | when `fn` returns falsy values, every call invokes `fn` again |
| Perf.Step | utils/perf.ts:10-13 | a call replaces the pending invocation with one carrying its own arguments and runs nothing; the delay elapsing runs exactly the pending invocation and empties the slot |
| Perf.PendingIsLastCall | utils/perf.ts:11-12 | after any sequence of calls and expiries, the pending invocation is the latest call's, and invocations never outnumber expiries |
| Perf.BurstArmsLast | utils/perf.ts:11-12 | a burst of calls runs nothing and leaves only the last call pending |
| Perf.RunEventsConcat | utils/perf.ts:8-14 | the debounced state composes over consecutive event sequences |
| Perf.BurstRunsOnce | utils/perf.ts:8-14 | a burst followed by one expiry runs `func` exactly once, with the last call's arguments |
| SocketClient.Initial | utils/websocket_client.ts:11-20 | a new client has no socket, an empty buffer, no timers and no deliberate close |
| SocketClient.Connect | utils/websocket_client.ts:22-50 | `openTimes` is reset; a socket that was built is connecting; a constructor failure leaves the socket as it was; nothing else changes |
| SocketClient.OnOpen | utils/websocket_client.ts:66-75 | the open is counted (line 28), the strategy reset, the heartbeat armed, the whole buffer sent in order and kept, then `onConnected` runs |
| SocketClient.Reconnect | utils/websocket_client.ts:54-63 | no-op after a deliberate close or without a strategy; otherwise the heartbeat stops, the reconnect timer is armed, and `onWillReconnect` gets the very delay the strategy produced, which advances the strategy |
| SocketClient.Closed | utils/websocket_client.ts:82-91 | both timers stop, `openTimes` is zeroed, the strategy reset, and `onDispose` runs exactly once |
| SocketClient.Close | utils/websocket_client.ts:97-101 | the close is recorded as deliberate and the socket, if any, is closed with 1000; the timers and buffer are untouched |
| SocketClient.Send | utils/websocket_client.ts:110-116 | on an open socket the data is transmitted and the buffer unchanged; otherwise the data is appended to the buffer and nothing is sent |
| SocketClient.NeverOpenedIgnored | utils/websocket_client.ts:34-37 | a close before any open since `connect` neither reconnects nor disposes |
| SocketClient.CloseCodeClassification | utils/websocket_client.ts:38-43 | codes 1000-1003 mark a deliberate close and dispose; other codes reconnect with the strategy's delay, unless closed deliberately or without a strategy, when nothing happens |
| SocketClient.OnClose | utils/websocket_client.ts:32-44 | a close always marks the socket closed and keeps the buffer; before any open it does nothing else; after an open, codes 1000-1003 mark a deliberate close, reset the open count and disarm both timers with one dispose, and other codes schedule a reconnect with the strategy's delay unless closed deliberately or without a strategy |
| SocketClient.BufferNeverShrinks | utils/websocket_client.ts:109-116 | along any trace the buffer only grows |
| SocketClient.SendsWhileDown | utils/websocket_client.ts:110-116 | sends while not open queue every item in order and transmit nothing |
| SocketClient.SendsThenOpen | utils/websocket_client.ts:72-73 | on open, the queued items are transmitted in insertion order, then `onConnected` runs |
| SocketClient.RunConcat | utils/websocket_client.ts:22-116 | a trace's state and effects compose over consecutive event sequences |
| SocketClient.ReopenReplaysAgain | utils/websocket_client.ts:72-73 | after an abnormal close and a reconnect, the next open replays the same buffer a second time |
| SocketClient.ClosedForGood | utils/websocket_client.ts:52-63 | after `close()`, no event ever schedules a reconnect and the close stays deliberate |
| SocketClient.CloseKeepsReconnectTimer | utils/websocket_client.ts:97-101 | `close()` leaves an armed reconnect timer armed, and when it fires the client connects again |
| SocketClient.TimersExclusiveStep | utils/websocket_client.ts:54-91 | no event that can arrive makes both the heartbeat and the reconnect timer armed |
| SocketClient.TimersExclusiveAlways | utils/websocket_client.ts:54-91 | along every feasible trace the heartbeat and the reconnect timer are never armed together |
| SocketClient.NoStrategyHeartbeatSurvives | utils/websocket_client.ts:55-57 | without a strategy an abnormal close leaves the heartbeat armed, and later sends are buffered |
| SocketWorker.NewWorker | workers/websocket_worker.ts:52-56 | the client gets an exponential strategy with base 1000 and the supplied attempt cap, the supplied heartbeat and url, and request id 0 |
| SocketWorker.NextId | workers/websocket_worker.ts:85 | ids stay below `0xFFFFFFFF`; the successor is one more, except that `0xFFFFFFFE` is followed by 0 |
| SocketWorker.SendMsg | workers/websocket_worker.ts:84-90 | the returned id is the new counter and is the id inside the one packet handed to `send` |
| SocketWorker.SendMsgSendsOne | workers/websocket_worker.ts:84-90 | exactly one packet leaves: transmitted on an open socket, buffered otherwise |
| SocketWorker.HeartbeatTick | workers/websocket_worker.ts:70-72 | each tick sends one ping without payload under a fresh id |
| SocketWorker.IdsCount | workers/websocket_worker.ts:49-85 | the n-th id is n mod `0xFFFFFFFF` |
| SocketWorker.IdsWrap | workers/websocket_worker.ts:85 | the first id is 1, the id after `0xFFFFFFFE` is 0, and every id lies below `0xFFFFFFFF` |
| SocketWorker.OnConnect | workers/websocket_worker.ts:25-27 | a connecting port is appended and the client is untouched |
| SocketWorker.OnMessage | workers/websocket_worker.ts:30-43 | commands never change the port list; after a close command there is no client, and the dropped one, if any, is appended to the discarded ones; any other command keeps an existing client and discards nothing |
| SocketWorker.ConnectIdempotent | workers/websocket_worker.ts:32-36 | a connect command while a client exists changes nothing |
| SocketWorker.ConnectBuildsOne | workers/websocket_worker.ts:32-38 | without a client, a connect command builds exactly one from the command data and starts it connecting |
| SocketWorker.CloseThenConnectIsFresh | workers/websocket_worker.ts:39-42 | close tells the client to close with 1000 and the worker no longer holds it, yet it lives on, marked closed normally with its timers as they were; the next connect builds a fresh client (id counter 0, empty buffer, not closed) |
| SocketWorker.DiscardedClientReconnects | workers/websocket_worker.ts:39-42 | a client dropped by close while its reconnect timer is armed reconnects when the timer fires, and once open it pings on a socket the worker cannot reach |
| SocketWorker.WorkerStep | workers/websocket_worker.ts:25-43 | only a connecting port changes the port list, by appending itself |
| SocketWorker.PortsAppendOnly | workers/websocket_worker.ts:15-27 | along any event sequence the port list is the old one followed by every joining port, in order; none is removed |
| HttpSign.FieldOf | composables/http.ts:314 | a missing method stays missing in the signed record; a present one is signed as its text |
| HttpSign.EscapeChar | composables/http.ts:50 | exactly quote, backslash and control characters are escaped |
| HttpSign.QuoteChanges | composables/http.ts:50 | `JSON.stringify` of a string never returns that string |
| HttpSign.Quote | composables/http.ts:50 | `JSON.stringify` of a string is at least two characters longer than it and starts and ends with a double quote |
| HttpSign.SignedFields | composables/http.ts:309-331 | the record a request's signature covers has the fixed keys, plus `body` exactly for POST and PUT, holding the wire body; its method is `"POST"` for axios and the request's method for `$fetch`, and its authorization is the caller's `Authorization` header or `''` |
| HttpSign.WireBody | composables/http.ts:47-56 | the wire body is empty without data, the JSON text with crypto off, and the encrypted JSON text with crypto on |
| HttpSign.HeaderKeyLowerCase | composables/http.ts:331-339 | `$fetch` stores every header name the interceptor writes lower-cased; axios stores the name as written |
| HttpSign.FromInit | composables/http.ts:395-397 | the `Headers` object `$fetch` builds from the caller's headers holds lower-cased keys only: one for each caller name, and no other |
| HttpSign.FromInitSingle | composables/http.ts:395-397 | a single caller header, however spelled, is stored under its lower-cased name with its value |
| HttpSign.FromInitValues | composables/http.ts:395-397 | a lower-case key is present iff some caller header has that name in any case, and its value is the values of those headers in order, joined with `", "` |
| HttpSign.WrittenAnyCase | composables/http.ts:317-339 | in `$fetch` headers a key that matches a written name in any case is that name's key, so no caller spelling can survive beside it |
| HttpSign.KeysDistinct | composables/http.ts:61-65 | different header names are never stored under the same key, in either instance |
| HttpSign.SetHeader | composables/http.ts:331-339 | after a set, reading the same name gives the value; exactly that key is added and every other key keeps its value |
| HttpSign.Stamp | composables/http.ts:335-339 | the five signature headers read back the platform, session, timestamp, nonce and signature; the content type, the authorization and every unwritten key keep their values; `$fetch` headers stay lower-case |
| HttpSign.Intercept | composables/http.ts:29-67 | the signature is over the signed record, which holds the session, nonce and timestamp; for POST/PUT the wire body is exactly the signed body and the content type is the encrypted type even with crypto off, otherwise body and content type stay; the headers are the caller's with the content type and the five signature headers set, and `$fetch` headers stay lower-case; method, path and query are left alone |
| HttpSign.InterceptKeys | composables/http.ts:29-67 | the interceptor adds exactly the keys it writes, the content type only for POST/PUT |
| HttpSign.InterceptFrame | composables/http.ts:29-67 | every caller header the interceptor does not write keeps its value; for `$fetch` this covers every caller spelling, since the `Headers` keys are lower-case |
| HttpSign.SignedKeys | composables/http.ts:35-58 | the signed record has the eight fixed keys, plus `body` iff the lower-cased method is post or put; the query is signed as empty without params |
| HttpSign.SignedMethod | composables/http.ts:40 | axios signs the literal `"POST"`; `$fetch` signs the request's own method (line 314) |
| HttpSign.InterceptedHeaders | composables/http.ts:61-65 | the outgoing headers hold the caller's authorization, the platform, and the very session, nonce and timestamp that were signed, and the signature |
| HttpSign.InterceptedView | composables/http.ts:302-340 | a server rebuilding the record from the intercepted request alone obtains the signed record with the request's own method |
| HttpSign.AxiosSignsPost | composables/http.ts:35-44 | the axios record differs from the `$fetch` record only in its method, which is `"POST"`, and in reading the authorization by its exact name |
| HttpSign.ServerRecomputes | composables/http.ts:29-67 | the server can recompute what was signed from the wire request: exactly for `$fetch`, and with the method forced to `"POST"` for axios |
| HttpSign.FetchContentTypeCase | composables/http.ts:331 | a POST whose caller sets the content type under any spelling, such as `Content-Type` at line 396, leaves `$fetch` with one content-type key, holding the encrypted type, and no `Content-Type` key |
| HttpSign.AxiosContentTypeCase | composables/http.ts:57 | through axios the caller's lower-case `content-type` stays, beside the written `Content-Type` |
| HttpSign.FetchAuthorizationCase | composables/http.ts:317 | an authorization the `$fetch` caller sets under any spelling is signed with its value |
| HttpSign.AxiosAuthorizationCase | composables/http.ts:43 | an authorization set only as `authorization` is signed as `''` by axios |
| HttpResponse.Process | composables/http.ts:344-379 | `$fetch` skips non-200 responses, and every axios or `$fetch` 200 response is verified first; a bad signature stops before decryption, while a good one leads to parsing, and to saving cookies for `$fetch` and only for `$fetch`; decryption happens iff crypto is on and the content type is the encrypted type; stages run in source order; the outcome is the parse of the (decrypted) text |
| HttpResponse.ResponseFields | composables/http.ts:356-365 | the record a response's signature covers has a `body` field holding the response text and no `authorization` field |
| HttpResponse.EchoFields | composables/http.ts:78-87 | when a server answers a POST or PUT with the request's nonce, timestamp and wire body, the response record is exactly the record the client signed, less its authorization |
| HttpResponse.EchoRoundTrip | composables/http.ts:46-96 | request and response codecs fit together: a correctly signed echo of a POST's or PUT's wire body, marked encrypted when crypto is on, is parsed back to the posted object |
| HttpResponse.BadSignatureStopsEarly | composables/http.ts:88-90 | a response failing verification is neither decrypted nor parsed |
| HttpRetry.DispatchAsWritten | composables/http.ts:98-124 | as written: at most `retry` retries, only after a 5xx, the k-th waiting 1000·k ms; every attempt before the last got a 5xx that is retried, the last did not, and the call settles as the last reply dictates (`SettleAsWritten`): the only rejections are the success handler's, and every error settles as a value |
| HttpRetry.Dispatch | composables/http.ts:98-124 | corrected: the same schedule and the same characterisation of the last attempt, but it settles by `Settle`: every failure of the last reply (cancel, no response, error status) rejects, and a fulfilled call carries response data |
| HttpRetry.SameSchedule | composables/http.ts:107-120 | the correction changes only how the call settles, not the number of attempts or the delays |
| HttpRetry.PersistentServerError | composables/http.ts:107-120 | a server answering 5xx every time is tried `retry`+1 times; as written the call then resolves to the error object, corrected it rejects with that status |
| HttpRetry.CallerSchedule | composables/http.ts:200 | with `retry: 3` from `useGet`/`usePost`, a persistent 5xx means four attempts with waits of 1000, 2000 and 3000 ms |
| HttpRetry.OnlyServerErrorsRetried | composables/http.ts:107 | a first reply that is not a 5xx status ends the call after one attempt |
| HttpRetry.CaughtAsWritten | composables/http.ts:203-205 | the caller's catch sees nothing only for response data; a resolved error object or null becomes the error of reading `headers` from it |
| HttpRetry.AsWrittenNeverRefreshes | composables/http.ts:203-211 | as written, no error the caller catches is a 401 response; a 401 is caught as the `headers` error |
| HttpRetry.CorrectedReaches401 | composables/http.ts:98-124 | corrected, a 401 reply rejects with the 401 status that `handle401` recognizes |
| HttpRetry.BodiesAsWritten | composables/http.ts:120 | as written, each retry serializes the previous attempt's wire text again |
| HttpRetry.Bodies | composables/http.ts:46-58 | corrected, every attempt sends the first attempt's wire body |
| HttpRetry.RetryDoubleEncodes | composables/http.ts:46-58 | with crypto off, a POST retried after a 503 sends the JSON text quoted as a string the second time, differing from the first; corrected, both attempts send the same text |
| HttpRefresh.InternalOptions | composables/http.ts:187-188 | refresh is on iff no options were given or they say `autoRefreshToken: true`; an explicit token wins over the stored one |
| HttpRefresh.WrittenBack | composables/http.ts:187-188 | the caller's options object keeps its `autoRefreshToken` and afterwards holds the token the call used; without options the caller holds nothing that changes |
| HttpRefresh.SharedOptionsPinToken | composables/http.ts:262-291 | once options shared across calls hold a token, every later call sends that token, whatever token is stored by then |
| HttpRefresh.FirstTokenSticks | composables/http.ts:187-188 | shared options without a token take the token stored at the first call and keep it for every later call; calls without options send the token stored at their time |
| HttpRefresh.TokensUsed | composables/http.ts:187-188 | a series of calls sharing options sends one token per call, and the first call sends the options' token when they hold one and the token stored at that time otherwise |
| HttpRefresh.FreshOptionsFollowStore | composables/http.ts:187-188 | without options every call sends the token stored when it runs |
| HttpRefresh.AuthHeaders | composables/http.ts:192-193 | an Authorization header `Bearer <token>` is sent iff the token is non-empty |
| HttpRefresh.PublicOptionsNeverRefresh | composables/http.ts:126-134 | public options, which have no `autoRefreshToken`, turn the refresh off; no options leave it on |
| HttpRefresh.Handle401Entry | composables/http.ts:158-172 | `handle401` declines iff refresh is off or the error is not a 401 response; otherwise it awaits the shared refresh iff one is held, and starts one iff none is |
| HttpRefresh.DoRefreshToken | composables/http.ts:143-150 | no request iff the refresh token is missing or empty; otherwise a POST with refresh off and the refresh token as bearer |
| HttpRefresh.NoNestedRefresh | composables/http.ts:143-150 | neither the refresh request nor the post-refresh retry can start another refresh; the retry re-reads the stored token |
| HttpRefresh.CatchReachesHandle401 | composables/http.ts:205-208 | as written `handle401` declines everything the caller catches; with the corrected dispatch a 401 with refresh on reaches it |
| HttpRefresh.Step | composables/http.ts:158-172 | a refresh is started only by a caught call entering while no refresh is held |
| HttpRefresh.StepKeepsInv | composables/http.ts:158-172 | every event keeps the invariant: a pending refresh is the one held, its owner holds it, and each call retries at most once |
| HttpRefresh.SingleFlight | composables/http.ts:158-172 | along any interleaving never two refreshes are pending at once, and no call retries more than once |
| HttpRefresh.ConcurrentOneRefresh | composables/http.ts:162-168 | when n calls fail with 401 together, one refresh starts, its starter owns it, and all others await the same one |
| HttpRefresh.ResumeOutcome | composables/http.ts:164-171 | a call resumes into its retry iff its refresh yielded tokens, otherwise it ends; a waiter neither arms the clear nor releases the slot |
| HttpRefresh.RejectedRefreshSticks | composables/http.ts:168-170 | as written, once a failed refresh holds the slot with no clear armed, no event releases it or starts another refresh |
| HttpRefresh.RejectedRefreshAsWritten | composables/http.ts:168-170 | as written: after a rejected refresh, a later 401 awaits the dead refresh and fails, and the slot stays held |
| HttpRefresh.RejectedRefreshCorrected | composables/http.ts:168-170 | corrected (the clear armed on failure too): after the clear fires, a later 401 starts a new refresh |
| HttpRefresh.ReleasableStep | composables/http.ts:168-171 | corrected: a held slot with no clear armed always has an owner still awaiting it, after every event |
| HttpRefresh.NeverStuckCorrected | composables/http.ts:158-172 | corrected: along any interleaving the slot can always be released |
| HttpRefresh.StuckAsWritten | composables/http.ts:168-170 | as written there is a two-call interleaving after which the slot is held forever with nobody left to release it |

## Left out

- Cryptography is taken as parameters: ed25519/x25519 key generation, `useSignData`, `useSignVerify`, `useEncrypt` and `useDecrypt`. These are foreign library calls. Correctness is stated relative to them, for example "provided decryption undoes encryption".
- Base64 is a parameter too. Its inverse law, its length and its alphabet are one assumed predicate, `Security.Lawful`, because the library is outside this model.
- `stringifyObj`, `JSON.stringify` of objects and `JSON.parse` are parameters. Their key order and text are not visible.
- HttpSign.Escape: models `JSON.stringify` of a string as escaping quote, backslash and control characters. It does not model how lone surrogates are escaped.
- Text.ToLower: maps only ASCII letters. JavaScript's `toLowerCase` also folds non-ASCII letters, which cookie keys and method names do not use here.
- Security.EncodeSecureString: the 24 random bytes are a `salt` parameter. Key generation is a `Fresh` record of parameters, because randomness cannot be modelled.
- HttpResponse.Process: treats the body as the text the server sent. For axios it does not model the library's default `transformResponse`, which may already have parsed JSON text before the interceptor runs. For `$fetch` it does not model `responseType: 'json'` (composables/http.ts:297), under which `response._data` is already parsed before `onResponse` verifies and decrypts it, because that parse happens inside the library.
- `saveCookies` (SSR headers and `useCookie`) appears only as a stage in `HttpResponse.Process`, because it is framework plumbing.
- The `useAsyncGet`/`useAsyncPost`/`useFetchAsync*` wrappers are thin layers over `useAsyncData` and are not modelled.
- The `$fetch` instance's own `retry: 3`/`retryDelay` belongs to the fetch library and is not modelled.
- `ensureSecurets`, `safeGetAccessToken` and `safeGetRefreshToken` are not modelled. Their results are parameters: the stored token, the refresh token, and the secrets.
- A failure of `ensureSecurets` is not modelled.
- The clock and `generateUUID`'s randomness enter the interceptor as `timestamp` and `nonce` parameters.
- Timers (`setTimeout`, `setInterval`, `sleep`) are armed flags or events. Only the delays they are given are modelled, not elapsed time.
- Concurrent 401 handling is modelled as interleavings of discrete events over the shared refresh slot. Events the promise semantics cannot produce are no-ops.
- The callback passed to `handle401` is a `RetryEnds` event with a truthy, falsy or throwing result. It is not a recursive call of the request pipeline.
- Events from a socket that `connect` has already replaced are not modelled. The client reacts only to the current socket's ready state.
- Retry-strategy delays are a `schedule` parameter. `retry_strategy` is not part of this model, so `ExponentialRetryStrategy` is recorded only as its base and attempt cap.
- `PacketProtocol.encodeReq` is a symbolic packet. `onData`, `getResponseMeta` and the msgpack marshaler are not part of this model.
- The command constants and `isConnectCmd` (`workers/websocket_cmd.ts`) are a `Command` datatype.
- A throwing `WebSocket` constructor is the `built` flag. The logging in the catch block is not modelled.
- Perf.Call: assumes `fn` is a pure function of its arguments. A `fn` with side effects or varying results is not modelled.
- `memoize`'s key is `stringify(args)`, a parameter standing for `JSON.stringify`.
- Logging, `console` output and error messages are not modelled.
- Axios headers are a plain map indexed by the name as written, which is how the interceptor's bracket access reads and writes them. The case handling of axios's own header class is not modelled.
- `Headers.set` also strips leading and trailing whitespace from a value. This is not modelled.
- HttpSign.FromInit: takes the caller's headers as a list of name and value pairs in order. It does not model the `Headers` constructor's name and value validation, which throws on names outside the HTTP token characters.
- SocketWorker.Registry: `discarded` is a record kept for the proofs only. The worker holds no reference to those clients.

## Findings

| source | as written | input that shows it | evidently intended | confidence | as-written member | corrected member |
|---|---|---|---|---|---|---|
| composables/http.ts:98-124 | the response error handler returns the error (and `null` on cancel), so the request resolves with it; `useGet`/`usePost` then read `resp.headers` of that value and throw a TypeError, which `handle401` declines | any 401 reply: the caller catches the `headers` error, not the 401, and the token is never refreshed | reject with the error (`Promise.reject(error)`), so the caller catches the axios error and `handle401` sees the 401 | high, not executed | HttpRetry.AsWrittenNeverRefreshes | HttpRetry.CorrectedReaches401 |
| composables/http.ts:120 | the retry hands the same config back to the instance, so the request interceptor runs again on `config.data`, which is already the serialized wire text, and `JSON.stringify`s it once more | a POST of `{a:1}` with crypto off, answered 503 once: the retry sends `"{\"a\":1}"` instead of `{"a":1}` | each retry sends the wire body of the first attempt | medium, not executed | HttpRetry.RetryDoubleEncodes | HttpRetry.Bodies |
| composables/http.ts:168-170 | when the refresh promise rejects, `await` throws before `setTimeout` arms the 5 s clear, so `refreshTokenPromise` keeps the rejected promise forever | reachable only once the dispatch of lines 98-124 is corrected (first row), since as written no 401 reaches `handle401`; then: two calls; the first 401 starts a refresh that rejects; every later 401 awaits the same rejected promise and no refresh ever starts again | clear the slot whether the refresh settles or fails (`finally`) | high, not executed | HttpRefresh.StuckAsWritten | HttpRefresh.NeverStuckCorrected |
