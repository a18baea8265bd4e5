/**
  Token refresh in `composables/http.ts`: the options `useGet`/`usePost` derive (lines
  187-193 and 228-234), `doRefreshToken` (lines 143-150) and `handle401` (lines 158-172),
  which lets concurrent 401s share one refresh through the module variable
  `refreshTokenPromise`.

  The concurrency is a state machine. Its state is the module variable (the slot), every
  refresh promise started so far, whether the 5 s release timer is armed, and where each
  failed call is inside its catch block. Events are the interleavings JavaScript allows:
  a call entering `handle401`, the refresh promise settling, an awaiting call resuming, the
  timer firing, and a retried request finishing.

  The owner of a refresh arms the release timer only after its `await` returns normally, so a
  rejected refresh keeps the slot forever. The machine is written with a flag `armsOnFailure`:
  `false` is the code as written, `true` the corrected handler, which arms the timer either way.

  The machine assumes the corrected dispatch of lines 98-124. As written, no error that
  `useGet`/`usePost` catch is a 401 `handle401` accepts (`CatchReachesHandle401`), so no
  refresh ever starts and the stuck slot is reachable only once that dispatch is fixed.
 */
module HttpRefresh {
  import opened Wrappers
  import HttpRetry

  // ---------------------------------------------------------------------------
  // Options and headers

  /** The options a caller may pass; the public `HttpOptions` has neither field, so both may be absent. */
  datatype CallOptions = CallOptions(autoRefreshToken: Option<bool>, token: Option<string>)

  /** `HttpOptionsInternal` after defaulting. */
  datatype Internal = Internal(autoRefresh: bool, token: Option<string>)

  /**
    `options ?? { autoRefreshToken: true }`, then `token ??= <stored access token>`. An
    absent `autoRefreshToken` in supplied options is `undefined`, which `handle401` treats as
    false.
   */
  function InternalOptions(options: Option<CallOptions>, stored: Option<string>): (r: Internal)
    ensures r.autoRefresh <==> options.None? || options.value.autoRefreshToken == Some(true)
    ensures r.token == (if options.Some? && options.value.token.Some? then options.value.token else stored)
  {
    match options
    case None => Internal(true, stored)
    case Some(o) => Internal(o.autoRefreshToken == Some(true), if o.token.Some? then o.token else stored)
  }

  /**
    The caller's options after the call: `internalOpts` is the caller's own object, so `??=`
    writes the stored token into it when it had none. A call without options builds a fresh
    object the caller never sees.
   */
  function WrittenBack(options: Option<CallOptions>, stored: Option<string>): (r: Option<CallOptions>)
    ensures r.Some? <==> options.Some?
    ensures r.Some? ==> r.value.autoRefreshToken == options.value.autoRefreshToken
    ensures r.Some? ==> r.value.token == InternalOptions(options, stored).token
  {
    match options
    case None => None
    case Some(o) => Some(o.(token := if o.token.Some? then o.token else stored))
  }

  /**
    The token each of a series of calls sends when every call is handed the same options, as
    `useAsyncGet` and `useAsyncPost` do on every refetch; `stored` is the access token stored
    at each call.
   */
  function TokensUsed(options: Option<CallOptions>, stored: seq<Option<string>>): (r: seq<Option<string>>)
    ensures |r| == |stored|
    ensures |stored| > 0 ==> r[0] == InternalOptions(options, stored[0]).token
    decreases |stored|
  {
    if |stored| == 0 then []
    else [InternalOptions(options, stored[0]).token] + TokensUsed(WrittenBack(options, stored[0]), stored[1..])
  }

  /**
    Once shared options carry a token, every later call sends that token, whatever token is
    stored by then: a token refreshed in the meantime is never picked up.
   */
  lemma {:induction false} SharedOptionsPinToken(o: CallOptions, stored: seq<Option<string>>)
    requires o.token.Some?
    ensures forall j :: 0 <= j < |stored| ==> TokensUsed(Some(o), stored)[j] == o.token
    decreases |stored|
  {
    if |stored| > 0 {
      var next := WrittenBack(Some(o), stored[0]);
      assert next == Some(o);
      SharedOptionsPinToken(o, stored[1..]);
      assert TokensUsed(Some(o), stored) == [o.token] + TokensUsed(next, stored[1..]);
    }
  }

  /**
    Shared options without a token take the first token stored when a call runs, and keep it
    for every call after; calls without options always send the token stored at the time.
   */
  lemma {:induction false} FirstTokenSticks(o: CallOptions, first: Option<string>, later: seq<Option<string>>)
    requires o.token.None? && first.Some?
    ensures var used := TokensUsed(Some(o), [first] + later);
      forall j :: 0 <= j < |used| ==> used[j] == first
    ensures var used := TokensUsed(None, [first] + later);
      forall j :: 0 <= j < |used| ==> used[j] == ([first] + later)[j]
  {
    var stored := [first] + later;
    var pinned := o.(token := first);
    assert stored[1..] == later;
    assert WrittenBack(Some(o), first) == Some(pinned);
    SharedOptionsPinToken(pinned, later);
    assert TokensUsed(Some(o), stored) == [first] + TokensUsed(Some(pinned), later);
    FreshOptionsFollowStore(stored);
  }

  /** Without options every call sends the token stored when it runs. */
  lemma {:induction false} FreshOptionsFollowStore(stored: seq<Option<string>>)
    ensures forall j :: 0 <= j < |stored| ==> TokensUsed(None, stored)[j] == stored[j]
    decreases |stored|
  {
    if |stored| > 0 {
      FreshOptionsFollowStore(stored[1..]);
      assert TokensUsed(None, stored) == [stored[0]] + TokensUsed(None, stored[1..]);
    }
  }

  /** The headers a call sends of its own: `Authorization: Bearer <token>` when the token is a non-empty string. */
  function AuthHeaders(token: Option<string>): (r: map<string, string>)
    ensures |r| <= 1
    ensures r.Keys == {} <==> token.None? || |token.value| == 0
    ensures token.Some? && |token.value| > 0 ==> "Authorization" in r && r["Authorization"] == "Bearer " + token.value
  {
    if token.Some? && |token.value| > 0 then map["Authorization" := "Bearer " + token.value] else map[]
  }

  /** Passing any public `HttpOptions` (say, only a cache key) switches automatic refresh off. */
  lemma PublicOptionsNeverRefresh(stored: Option<string>)
    ensures !InternalOptions(Some(CallOptions(None, None)), stored).autoRefresh
    ensures InternalOptions(None, stored).autoRefresh
  {
  }

  // ---------------------------------------------------------------------------
  // handle401 and doRefreshToken

  /** What `handle401` does on entry: returns `undefined` at once, waits on the shared refresh, or starts one. */
  datatype Entry = Declines | AwaitsShared | StartsRefresh

  /**
    `handle401`'s guards: it declines unless automatic refresh is on and the error is an
    AxiosError whose response status is 401; otherwise it waits when a refresh promise is held
    and starts one when none is.
   */
  function Handle401Entry(error: HttpRetry.Error, autoRefresh: bool, slotHeld: bool): (r: Entry)
    ensures r.Declines? <==> !autoRefresh || !HttpRetry.Is401(error)
    ensures r.AwaitsShared? <==> autoRefresh && HttpRetry.Is401(error) && slotHeld
    ensures r.StartsRefresh? <==> autoRefresh && HttpRetry.Is401(error) && !slotHeld
  {
    if !autoRefresh then Declines
    else if !error.HttpStatus? || error.status != 401 then Declines
    else if slotHeld then AwaitsShared
    else StartsRefresh
  }

  /** What `doRefreshToken` does: resolve `undefined` at once, or post to the refresh path. */
  datatype RefreshCall = NoRefreshToken | PostRefresh(options: Internal)

  /**
    Without a (non-empty) refresh token no request is made; otherwise the refresh is a POST
    with automatic refresh off and the refresh token as the bearer token.
   */
  function DoRefreshToken(refreshToken: Option<string>): (r: RefreshCall)
    ensures r.NoRefreshToken? <==> refreshToken.None? || |refreshToken.value| == 0
    ensures r.PostRefresh? ==> r.options == InternalOptions(Some(CallOptions(Some(false), refreshToken)), None)
  {
    if refreshToken.None? || |refreshToken.value| == 0 then NoRefreshToken
    else PostRefresh(Internal(false, refreshToken))
  }

  /**
    Neither the refresh request nor the retried request can enter the refresh logic again: a
    401 on either is declined, so a call never waits on its own refresh and retries at most once.
   */
  lemma NoNestedRefresh(refreshToken: Option<string>, error: HttpRetry.Error, slotHeld: bool, stored: Option<string>)
    ensures var call := DoRefreshToken(refreshToken);
      call.PostRefresh? ==>
        && Handle401Entry(error, call.options.autoRefresh, slotHeld) == Declines
        && AuthHeaders(call.options.token) == map["Authorization" := "Bearer " + refreshToken.value]
    ensures var retried := InternalOptions(Some(CallOptions(Some(false), None)), stored);
      Handle401Entry(error, retried.autoRefresh, slotHeld) == Declines && retried.token == stored
  {
  }

  /**
    As written, `handle401` declines every error `useGet`/`usePost` can catch, so no refresh
    ever starts; corrected, a first reply of 401 reaches it and, with automatic refresh on,
    it waits on or starts a refresh.
   */
  lemma CatchReachesHandle401<T>(server: nat -> HttpRetry.Reply<T>, retry: nat, autoRefresh: bool, slotHeld: bool)
    ensures var e := HttpRetry.CaughtAsWritten(HttpRetry.DispatchAsWritten(server, retry, 0).settled);
      e.Some? ==> Handle401Entry(e.value, autoRefresh, slotHeld) == Declines
    ensures server(0) == HttpRetry.Status(401) && autoRefresh ==>
      Handle401Entry(HttpRetry.Dispatch(server, retry, 0).settled.error, autoRefresh, slotHeld) != Declines
  {
    HttpRetry.AsWrittenNeverRefreshes(server, retry);
    if server(0) == HttpRetry.Status(401) {
      HttpRetry.CorrectedReaches401(server, retry);
    }
  }

  // ---------------------------------------------------------------------------
  // The single-flight machine

  /** How a refresh promise stands: pending, resolved with tokens, resolved `undefined`, or rejected. */
  datatype Settlement = Pending | Tokens | NoTokens | Failed

  /** How a call's catch block ends. */
  datatype End =
    | Resolved        // the retry returned data
    | Rethrown        // no tokens, or a falsy retry result: the original error is thrown
    | RefreshFailed   // the awaited refresh rejected, and so does the call
    | RetryFailed     // the retry threw, and so does the call

  /** Where a failed call is: caught, awaiting refresh `p` (as its owner or not), retrying, or finished. */
  datatype Phase = Caught | AwaitOwn(p: nat) | AwaitShared(p: nat) | Retrying | Finished(end: End)

  /** The module variable, every refresh started, the release timer, and the calls in their catch blocks. */
  datatype Flight = Flight(
    slot: Option<nat>,
    refreshes: seq<Settlement>,
    clearArmed: bool,
    calls: seq<Phase>,
    retries: seq<nat>)

  /** How a retried request ends: a truthy result, a falsy one, or an exception. */
  datatype RetryOutcome = Truthy | Falsy | Throws

  datatype Event =
    | Enter(call: nat)                      // a call with a 401 reaches `handle401` with automatic refresh on
    | Settle(outcome: Settlement)           // the held refresh promise settles
    | Resume(call: nat)                     // an awaiting call continues after the promise settled
    | ClearFires                            // the 5 s timer sets the variable back to null
    | RetryEnds(call: nat, result: RetryOutcome)

  /** `n` calls, each just caught a 401, and no refresh yet. */
  function Start(n: nat): (s: Flight)
    ensures |s.calls| == |s.retries| == n && s.refreshes == [] && s.slot.None?
  {
    Flight(None, [], false, seq(n, _ => Caught), seq(n, _ => 0))
  }

  predicate Awaiting(ph: Phase) {
    ph.AwaitOwn? || ph.AwaitShared?
  }

  /** The phase after resuming on a settled refresh. */
  function AfterRefresh(outcome: Settlement): Phase {
    match outcome
    case Tokens => Retrying
    case NoTokens => Finished(Rethrown)
    case _ => Finished(RefreshFailed)
  }

  /** An event whose moment has not come leaves the state as it is. */
  function Step(armsOnFailure: bool, s: Flight, e: Event): (r: Flight)
    ensures |r.refreshes| == |s.refreshes| + (if e.Enter? && e.call < |s.calls| && s.calls[e.call].Caught? && s.slot.None? then 1 else 0)
    ensures |r.calls| == |s.calls| && |r.retries| == |s.retries|
  {
    match e
    case Enter(i) =>
      if i < |s.calls| && s.calls[i].Caught? then
        if s.slot.Some? then s.(calls := s.calls[i := AwaitShared(s.slot.value)])
        else
          var p := |s.refreshes|;
          s.(slot := Some(p), refreshes := s.refreshes + [Pending], calls := s.calls[i := AwaitOwn(p)])
      else s
    case Settle(outcome) =>
      if s.slot.Some? && s.slot.value < |s.refreshes| && s.refreshes[s.slot.value].Pending? && !outcome.Pending?
      then s.(refreshes := s.refreshes[s.slot.value := outcome])
      else s
    case Resume(i) =>
      if i < |s.calls| && Awaiting(s.calls[i]) && s.calls[i].p < |s.refreshes| && !s.refreshes[s.calls[i].p].Pending? then
        var outcome := s.refreshes[s.calls[i].p];
        var arms := s.calls[i].AwaitOwn? && (armsOnFailure || !outcome.Failed?);
        var retries := if outcome.Tokens? && i < |s.retries| then s.retries[i := s.retries[i] + 1] else s.retries;
        s.(calls := s.calls[i := AfterRefresh(outcome)], retries := retries, clearArmed := s.clearArmed || arms)
      else s
    case ClearFires =>
      if s.clearArmed then s.(slot := None, clearArmed := false) else s
    case RetryEnds(i, result) =>
      if i < |s.calls| && s.calls[i].Retrying? then
        var end := match result case Truthy => Resolved case Falsy => Rethrown case Throws => RetryFailed;
        s.(calls := s.calls[i := Finished(end)])
      else s
  }

  /** The state after a trace, applying the last event last. */
  function Run(armsOnFailure: bool, s: Flight, events: seq<Event>): (r: Flight)
    ensures |r.calls| == |s.calls| && |r.retries| == |s.retries|
    decreases |events|
  {
    if |events| == 0 then s else Step(armsOnFailure, Run(armsOnFailure, s, events[..|events| - 1]), events[|events| - 1])
  }

  lemma RunSnoc(b: bool, s: Flight, events: seq<Event>, e: Event)
    ensures Run(b, s, events + [e]) == Step(b, Run(b, s, events), e)
  {
    assert (events + [e])[..|events|] == events;
  }

  // ---------------------------------------------------------------------------
  // The invariant: one refresh in flight, one owner, one retry per call

  predicate WellFormed(s: Flight) {
    && |s.retries| == |s.calls|
    && (s.slot.Some? ==> s.slot.value < |s.refreshes|)
    && (forall i :: 0 <= i < |s.calls| && Awaiting(s.calls[i]) ==> s.calls[i].p < |s.refreshes|)
  }

  /** Only the held promise can be pending. */
  predicate PendingIsHeld(s: Flight) {
    forall p :: 0 <= p < |s.refreshes| && s.refreshes[p].Pending? ==> s.slot == Some(p)
  }

  /** An owner that has not resumed still holds its promise in the slot, and the timer is not armed. */
  predicate OwnerHolds(s: Flight) {
    && (forall i :: 0 <= i < |s.calls| && s.calls[i].AwaitOwn? ==> s.slot == Some(s.calls[i].p) && !s.clearArmed)
    && (forall i, j :: 0 <= i < |s.calls| && 0 <= j < |s.calls| && s.calls[i].AwaitOwn? && s.calls[j].AwaitOwn? ==> i == j)
    && (s.clearArmed ==> s.slot.Some? && s.slot.value < |s.refreshes| && !s.refreshes[s.slot.value].Pending?)
  }

  /** A call retries only after resuming, and so at most once. */
  predicate RetriesOnce(s: Flight) {
    && |s.retries| == |s.calls|
    && (forall i :: 0 <= i < |s.retries| ==> s.retries[i] <= 1)
    && (forall i :: 0 <= i < |s.calls| && (s.calls[i].Caught? || Awaiting(s.calls[i])) ==> s.retries[i] == 0)
  }

  predicate Inv(s: Flight) {
    WellFormed(s) && PendingIsHeld(s) && OwnerHolds(s) && RetriesOnce(s)
  }

  lemma StartInv(n: nat)
    ensures Inv(Start(n))
  {
  }

  lemma EnterKeepsInv(b: bool, s: Flight, i: nat)
    requires Inv(s)
    ensures Inv(Step(b, s, Enter(i)))
  {
    var r := Step(b, s, Enter(i));
    if i < |s.calls| && s.calls[i].Caught? && s.slot.None? {
      assert forall j :: 0 <= j < |s.calls| ==> !s.calls[j].AwaitOwn?;
      assert forall p :: 0 <= p < |s.refreshes| ==> !s.refreshes[p].Pending?;
      assert !s.clearArmed;
      assert forall j :: 0 <= j < |r.calls| && j != i ==> r.calls[j] == s.calls[j];
    }
  }

  lemma SettleKeepsInv(b: bool, s: Flight, outcome: Settlement)
    requires Inv(s)
    ensures Inv(Step(b, s, Settle(outcome)))
  {
  }

  lemma ResumeKeepsInv(b: bool, s: Flight, i: nat)
    requires Inv(s)
    ensures Inv(Step(b, s, Resume(i)))
  {
    var r := Step(b, s, Resume(i));
    if i < |s.calls| && Awaiting(s.calls[i]) && s.calls[i].p < |s.refreshes| && !s.refreshes[s.calls[i].p].Pending? {
      assert forall j :: 0 <= j < |r.calls| && j != i ==> r.calls[j] == s.calls[j];
      assert !r.calls[i].AwaitOwn? && !Awaiting(r.calls[i]);
      if s.calls[i].AwaitOwn? {
        assert forall j :: 0 <= j < |s.calls| && j != i ==> !s.calls[j].AwaitOwn?;
      }
    }
  }

  lemma ClearKeepsInv(b: bool, s: Flight)
    requires Inv(s)
    ensures Inv(Step(b, s, ClearFires))
  {
  }

  lemma RetryEndsKeepsInv(b: bool, s: Flight, i: nat, result: RetryOutcome)
    requires Inv(s)
    ensures Inv(Step(b, s, RetryEnds(i, result)))
  {
    var r := Step(b, s, RetryEnds(i, result));
    if i < |s.calls| && s.calls[i].Retrying? {
      assert forall j :: 0 <= j < |r.calls| && j != i ==> r.calls[j] == s.calls[j];
    }
  }

  lemma StepKeepsInv(b: bool, s: Flight, e: Event)
    requires Inv(s)
    ensures Inv(Step(b, s, e))
  {
    match e
    case Enter(i) => EnterKeepsInv(b, s, i);
    case Settle(o) => SettleKeepsInv(b, s, o);
    case Resume(i) => ResumeKeepsInv(b, s, i);
    case ClearFires => ClearKeepsInv(b, s);
    case RetryEnds(i, result) => RetryEndsKeepsInv(b, s, i, result);
  }

  /**
    Whatever the interleaving, in both versions: at most one refresh is ever in flight, and
    no call retries its request more than once.
   */
  lemma {:induction false} SingleFlight(b: bool, n: nat, events: seq<Event>)
    ensures var s := Run(b, Start(n), events);
      && Inv(s)
      && (forall p, q :: 0 <= p < q < |s.refreshes| ==> !(s.refreshes[p].Pending? && s.refreshes[q].Pending?))
      && (forall i :: 0 <= i < |s.retries| ==> s.retries[i] <= 1)
    decreases |events|
  {
    if |events| == 0 {
      StartInv(n);
    } else {
      SingleFlight(b, n, events[..|events| - 1]);
      StepKeepsInv(b, Run(b, Start(n), events[..|events| - 1]), events[|events| - 1]);
    }
  }

  // ---------------------------------------------------------------------------
  // Concurrent 401s share one refresh

  /** Calls `0 .. k-1` entering `handle401` in order. */
  function Enters(k: nat): (r: seq<Event>)
    ensures |r| == k && forall i :: 0 <= i < k ==> r[i] == Enter(i)
  {
    if k == 0 then [] else Enters(k - 1) + [Enter(k - 1)]
  }

  /** After the first `k` of `n` calls entered: call 0 owns refresh 0, the others wait on it. */
  function Entered(n: nat, k: nat): Flight {
    Flight(Some(0), [Pending], false,
           seq(n, i => if i == 0 then AwaitOwn(0) else if i < k then AwaitShared(0) else Caught),
           seq(n, _ => 0))
  }

  lemma EnterFirst(b: bool, n: nat)
    requires 1 <= n
    ensures Step(b, Start(n), Enter(0)) == Entered(n, 1)
  {
    var s := Start(n);
    var r := Step(b, s, Enter(0));
    assert r.calls == Entered(n, 1).calls;
    assert r.retries == Entered(n, 1).retries;
  }

  lemma EnterNext(b: bool, n: nat, k: nat)
    requires 2 <= k <= n
    ensures Step(b, Entered(n, k - 1), Enter(k - 1)) == Entered(n, k)
  {
    var prev := Entered(n, k - 1);
    assert prev.calls[k - 1].Caught?;
    var r := Step(b, prev, Enter(k - 1));
    assert r.calls == prev.calls[k - 1 := AwaitShared(0)];
    assert r.calls == Entered(n, k).calls;
  }

  lemma {:induction false} EntersShare(b: bool, n: nat, k: nat)
    requires 1 <= k <= n
    ensures Run(b, Start(n), Enters(k)) == Entered(n, k)
    decreases k
  {
    var before := Enters(k - 1);
    assert Enters(k) == before + [Enter(k - 1)];
    RunSnoc(b, Start(n), before, Enter(k - 1));
    var mid := Run(b, Start(n), before);
    if k == 1 {
      assert before == [];
      assert mid == Start(n);
      EnterFirst(b, n);
    } else {
      EntersShare(b, n, k - 1);
      assert mid == Entered(n, k - 1);
      EnterNext(b, n, k);
    }
  }

  /**
    However many calls fail with 401 at once, one refresh is started: the first call owns it
    and every other call waits on the same promise.
   */
  lemma ConcurrentOneRefresh(b: bool, n: nat)
    requires n >= 1
    ensures var s := Run(b, Start(n), Enters(n));
      && s.refreshes == [Pending] && s.slot == Some(0)
      && s.calls[0] == AwaitOwn(0)
      && (forall i :: 0 < i < n ==> s.calls[i] == AwaitShared(0))
  {
    EntersShare(b, n, n);
  }

  /** Resuming on resolved tokens retries the call exactly once; other outcomes end the call. */
  lemma ResumeOutcome(b: bool, s: Flight, i: nat)
    requires Inv(s) && i < |s.calls| && Awaiting(s.calls[i])
    requires !s.refreshes[s.calls[i].p].Pending?
    ensures var r := Step(b, s, Resume(i));
      && r.calls[i] == AfterRefresh(s.refreshes[s.calls[i].p])
      && r.retries[i] == (if s.refreshes[s.calls[i].p].Tokens? then 1 else 0)
      && (s.calls[i].AwaitShared? ==> r.clearArmed == s.clearArmed && r.slot == s.slot)
  {
  }

  // ---------------------------------------------------------------------------
  // A rejected refresh

  /** The slot holds rejected refresh `p`, its owner has resumed, and nothing will release it. */
  predicate Stuck(s: Flight, p: nat) {
    && Inv(s)
    && s.slot == Some(p) && p < |s.refreshes| && s.refreshes[p] == Failed
    && !s.clearArmed
    && (forall i :: 0 <= i < |s.calls| ==> !s.calls[i].AwaitOwn?)
  }

  lemma StuckStep(s: Flight, p: nat, e: Event)
    requires Stuck(s, p)
    ensures Stuck(Step(false, s, e), p)
    ensures |Step(false, s, e).refreshes| == |s.refreshes|
    ensures e.Resume? && e.call < |s.calls| && s.calls[e.call] == AwaitShared(p) ==> Step(false, s, e).calls[e.call] == Finished(RefreshFailed)
  {
    StepKeepsInv(false, s, e);
    var r := Step(false, s, e);
    if e.Enter? && e.call < |s.calls| && s.calls[e.call].Caught? {
      assert forall j :: 0 <= j < |r.calls| && j != e.call ==> r.calls[j] == s.calls[j];
    }
    if e.Resume? || e.RetryEnds? {
      assert forall j :: 0 <= j < |r.calls| && j != e.call ==> r.calls[j] == s.calls[j];
    }
  }

  /**
    As written, once the owner of a refresh has resumed on its rejection, the slot keeps the
    rejected promise under every later interleaving: no refresh is ever started again, and
    every later 401 awaits the old promise and fails with its error.
   */
  lemma {:induction false} RejectedRefreshSticks(s: Flight, p: nat, events: seq<Event>)
    requires Stuck(s, p)
    ensures Stuck(Run(false, s, events), p)
    ensures |Run(false, s, events).refreshes| == |s.refreshes|
    decreases |events|
  {
    if |events| > 0 {
      RejectedRefreshSticks(s, p, events[..|events| - 1]);
      StuckStep(Run(false, s, events[..|events| - 1]), p, events[|events| - 1]);
    }
  }

  /** A call's refresh is rejected; after the timer's moment a second call enters `handle401`. */
  function FailThenEnter(): seq<Event> {
    [Enter(0), Settle(Failed), Resume(0), ClearFires, Enter(1)]
  }

  /** The same, and the second call resumes. */
  function FailThenRetry(): seq<Event> {
    FailThenEnter() + [Resume(1)]
  }

  /** Two calls, each just caught a 401. */
  const TwoCaught: Flight := Flight(None, [], false, [Caught, Caught], [0, 0])

  lemma StartTwo()
    ensures Start(2) == TwoCaught
  {
    assert Start(2).calls == [Caught, Caught];
    assert Start(2).retries == [0, 0];
  }

  /** The state after the first four events, as written or corrected. */
  lemma FirstFour(b: bool)
    ensures Run(b, TwoCaught, FailThenEnter()[..4])
         == Flight(if b then None else Some(0), [Failed], false, [Finished(RefreshFailed), Caught], [0, 0])
  {
    var t1: seq<Event> := [Enter(0)];
    var t2 := t1 + [Settle(Failed)];
    var t3 := t2 + [Resume(0)];
    var t4 := t3 + [ClearFires];
    assert FailThenEnter()[..4] == t4;
    RunSnoc(b, TwoCaught, [], Enter(0));
    assert [] + [Enter(0)] == t1;
    var s1 := Step(b, TwoCaught, Enter(0));
    assert s1 == Flight(Some(0), [Pending], false, [AwaitOwn(0), Caught], [0, 0]);
    RunSnoc(b, TwoCaught, t1, Settle(Failed));
    var s2 := Step(b, s1, Settle(Failed));
    assert s2 == Flight(Some(0), [Failed], false, [AwaitOwn(0), Caught], [0, 0]);
    RunSnoc(b, TwoCaught, t2, Resume(0));
    var s3 := Step(b, s2, Resume(0));
    assert s3 == Flight(Some(0), [Failed], b, [Finished(RefreshFailed), Caught], [0, 0]);
    RunSnoc(b, TwoCaught, t3, ClearFires);
  }

  /**
    The trace that shows it, for two calls: the first call's refresh rejects; the timer was
    never armed, so the clear does nothing; the second call's 401 then waits on the same
    rejected promise and fails, and there is still only one refresh.
   */
  lemma RejectedRefreshAsWritten()
    ensures var s := Run(false, Start(2), FailThenRetry());
      && s.refreshes == [Failed] && s.slot == Some(0)
      && s.calls == [Finished(RefreshFailed), Finished(RefreshFailed)]
  {
    StartTwo();
    FirstFour(false);
    var t4 := FailThenEnter()[..4];
    var s4 := Flight(Some(0), [Failed], false, [Finished(RefreshFailed), Caught], [0, 0]);
    assert FailThenEnter() == t4 + [Enter(1)];
    RunSnoc(false, TwoCaught, t4, Enter(1));
    var s5 := Step(false, s4, Enter(1));
    assert s5 == Flight(Some(0), [Failed], false, [Finished(RefreshFailed), AwaitShared(0)], [0, 0]);
    RunSnoc(false, TwoCaught, FailThenEnter(), Resume(1));
    var s6 := Step(false, s5, Resume(1));
    assert s6.calls == [Finished(RefreshFailed), Finished(RefreshFailed)];
  }

  /**
    Corrected, the same trace releases the slot: the owner arms the timer after the rejection,
    the clear empties the slot, and the second 401 starts a new refresh of its own.
   */
  lemma RejectedRefreshCorrected()
    ensures var s := Run(true, Start(2), FailThenEnter());
      && s.refreshes == [Failed, Pending] && s.slot == Some(1)
      && s.calls == [Finished(RefreshFailed), AwaitOwn(1)]
  {
    StartTwo();
    FirstFour(true);
    var t4 := FailThenEnter()[..4];
    var s4 := Flight(None, [Failed], false, [Finished(RefreshFailed), Caught], [0, 0]);
    assert FailThenEnter() == t4 + [Enter(1)];
    RunSnoc(true, TwoCaught, t4, Enter(1));
    var s5 := Step(true, s4, Enter(1));
    assert s5.calls == [Finished(RefreshFailed), AwaitOwn(1)];
  }

  /**
    While the slot is held and the release timer is not armed, some call still owns the
    refresh and will arm the timer when it resumes. As written a rejection breaks this.
   */
  predicate Releasable(s: Flight) {
    s.slot.Some? && !s.clearArmed ==> exists i :: 0 <= i < |s.calls| && s.calls[i].AwaitOwn?
  }

  lemma ReleasableStep(s: Flight, e: Event)
    requires Inv(s) && Releasable(s)
    ensures Releasable(Step(true, s, e))
  {
    var r := Step(true, s, e);
    match e
    case Enter(i) =>
      if i < |s.calls| && s.calls[i].Caught? {
        if s.slot.None? {
          assert r.calls[i].AwaitOwn?;
        } else if !s.clearArmed {
          var j :| 0 <= j < |s.calls| && s.calls[j].AwaitOwn?;
          assert r.calls[j] == s.calls[j];
        }
      }
    case Settle(o) =>
    case Resume(i) =>
      if i < |s.calls| && Awaiting(s.calls[i]) && s.calls[i].p < |s.refreshes| && !s.refreshes[s.calls[i].p].Pending? {
        if s.calls[i].AwaitShared? && s.slot.Some? && !s.clearArmed {
          var j :| 0 <= j < |s.calls| && s.calls[j].AwaitOwn?;
          assert r.calls[j] == s.calls[j];
        }
      }
    case ClearFires =>
    case RetryEnds(i, result) =>
      if i < |s.calls| && s.calls[i].Retrying? && s.slot.Some? && !s.clearArmed {
        var j :| 0 <= j < |s.calls| && s.calls[j].AwaitOwn?;
        assert r.calls[j] == s.calls[j];
      }
  }

  /** Corrected, no interleaving ever reaches a stuck slot; as written the two-call trace above does. */
  lemma {:induction false} NeverStuckCorrected(n: nat, events: seq<Event>)
    ensures Inv(Run(true, Start(n), events)) && Releasable(Run(true, Start(n), events))
    ensures forall p :: !Stuck(Run(true, Start(n), events), p)
    decreases |events|
  {
    if |events| == 0 {
      StartInv(n);
    } else {
      var prev := Run(true, Start(n), events[..|events| - 1]);
      NeverStuckCorrected(n, events[..|events| - 1]);
      StepKeepsInv(true, prev, events[|events| - 1]);
      ReleasableStep(prev, events[|events| - 1]);
    }
  }

  /** The as-written run of that trace ends stuck. */
  lemma StuckAsWritten()
    ensures Stuck(Run(false, Start(2), FailThenRetry()), 0)
    ensures !Releasable(Run(false, Start(2), FailThenRetry()))
  {
    RejectedRefreshAsWritten();
    SingleFlight(false, 2, FailThenRetry());
  }
}
