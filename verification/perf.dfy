/**
  `memoize` and `debounce` (`utils/perf.ts`).

  `memoize` keeps a map from `JSON.stringify(args)` to the value `fn` returned, and
  treats an entry as cached only when its value is truthy. `debounce` keeps one pending
  timer; each call cancels it and schedules a new one carrying the call's arguments.
  JSON serialisation, JavaScript truthiness and `fn` itself are parameters; time is the
  abstract event "the delay elapsed with the timer still armed".
 */
module Perf {
  import opened Wrappers

  // ---------------------------------------------------------------------------
  // memoize

  /**
    The parameters of one memoized function: the key function (`JSON.stringify` of the
    argument list), JavaScript truthiness of a result, and the wrapped function.
   */
  datatype Memoized<!A, !V> = Memoized(stringify: seq<A> -> string, truthy: V -> bool, fn: seq<A> -> V)

  /** The outcome of one call: the cache afterwards, the value returned, and whether `fn` ran. */
  datatype MemoCall<V> = MemoCall(cache: map<string, V>, result: V, invoked: bool)

  /** `cache.get(key)` is truthy: a missing key reads as `undefined`, which is falsy. */
  predicate Hit<A, V>(m: Memoized<A, V>, cache: map<string, V>, key: string) {
    key in cache && m.truthy(cache[key])
  }

  /**
    One call of the memoized function. `fn` runs exactly when the key is not a hit; then
    its result is stored under the key and returned. Otherwise the cached value is returned
    and the cache is left alone. No other key is ever touched.
   */
  function Call<A, V>(m: Memoized<A, V>, cache: map<string, V>, args: seq<A>): (r: MemoCall<V>)
    ensures r.invoked <==> !Hit(m, cache, m.stringify(args))
    ensures r.cache.Keys == cache.Keys + {m.stringify(args)}
    ensures forall k :: k in cache && k != m.stringify(args) ==> r.cache[k] == cache[k]
    ensures r.result == r.cache[m.stringify(args)]
    ensures r.invoked ==> r.result == m.fn(args)
    ensures !r.invoked ==> r.cache == cache && m.truthy(r.result)
  {
    var key := m.stringify(args);
    if !Hit(m, cache, key) then
      var v := m.fn(args);
      MemoCall(cache[key := v], v, true)
    else
      MemoCall(cache, cache[key], false)
  }

  /** The results of a sequence of calls and how many times `fn` ran. */
  datatype MemoRun<V> = MemoRun(cache: map<string, V>, results: seq<V>, invocations: nat)

  function Run<A, V>(m: Memoized<A, V>, cache: map<string, V>, calls: seq<seq<A>>): (r: MemoRun<V>)
    ensures |r.results| == |calls|
    ensures r.invocations <= |calls|
    decreases |calls|
  {
    if |calls| == 0 then MemoRun(cache, [], 0)
    else
      var c := Call(m, cache, calls[0]);
      var rest := Run(m, c.cache, calls[1..]);
      MemoRun(rest.cache, [c.result] + rest.results, rest.invocations + if c.invoked then 1 else 0)
  }

  /** Once a key is a hit, any number of calls with that key return the cached value and never run `fn`. */
  lemma {:induction false} HitStays<A, V>(m: Memoized<A, V>, cache: map<string, V>, calls: seq<seq<A>>, key: string)
    requires Hit(m, cache, key)
    requires forall i :: 0 <= i < |calls| ==> m.stringify(calls[i]) == key
    ensures Run(m, cache, calls).invocations == 0
    ensures Run(m, cache, calls).cache == cache
    ensures forall i :: 0 <= i < |calls| ==> Run(m, cache, calls).results[i] == cache[key]
    decreases |calls|
  {
    if |calls| > 0 {
      var c := Call(m, cache, calls[0]);
      assert !c.invoked && c.cache == cache;
      HitStays(m, cache, calls[1..], key);
    }
  }

  /**
    Argument lists that serialise equally share one entry: after a first call whose result
    is truthy, every call with the same key returns that first result, and `fn` runs once
    in all.
   */
  lemma SharedKeyRunsOnce<A, V>(m: Memoized<A, V>, cache: map<string, V>, calls: seq<seq<A>>)
    requires |calls| >= 1
    requires !Hit(m, cache, m.stringify(calls[0]))
    requires m.truthy(m.fn(calls[0]))
    requires forall i :: 0 <= i < |calls| ==> m.stringify(calls[i]) == m.stringify(calls[0])
    ensures Run(m, cache, calls).invocations == 1
    ensures forall i :: 0 <= i < |calls| ==> Run(m, cache, calls).results[i] == m.fn(calls[0])
  {
    var key := m.stringify(calls[0]);
    var c := Call(m, cache, calls[0]);
    assert c.invoked && c.cache[key] == m.fn(calls[0]);
    var tail := calls[1..];
    assert forall i :: 0 <= i < |tail| ==> m.stringify(tail[i]) == key by {
      assert forall i :: 0 <= i < |tail| ==> tail[i] == calls[i + 1];
    }
    HitStays(m, c.cache, tail, key);
    var r := Run(m, cache, calls);
    assert r.results == [c.result] + Run(m, c.cache, tail).results;
  }

  /** No key of the calls is a hit. */
  predicate NoHits<A, V>(m: Memoized<A, V>, cache: map<string, V>, calls: seq<seq<A>>) {
    forall i :: 0 <= i < |calls| ==> !Hit(m, cache, m.stringify(calls[i]))
  }

  /**
    A falsy result is never treated as cached: when `fn` returns something falsy for every
    call, and nothing relevant is cached yet, `fn` runs on every single call.
   */
  lemma {:induction false} FalsyNeverCached<A, V>(m: Memoized<A, V>, cache: map<string, V>, calls: seq<seq<A>>)
    requires forall i :: 0 <= i < |calls| ==> !m.truthy(m.fn(calls[i]))
    requires NoHits(m, cache, calls)
    ensures Run(m, cache, calls).invocations == |calls|
    ensures forall i :: 0 <= i < |calls| ==> Run(m, cache, calls).results[i] == m.fn(calls[i])
    decreases |calls|
  {
    if |calls| > 0 {
      var c := Call(m, cache, calls[0]);
      var tail := calls[1..];
      assert c.invoked;
      assert forall i :: 0 <= i < |tail| ==> tail[i] == calls[i + 1];
      assert NoHits(m, c.cache, tail) by {
        forall i | 0 <= i < |tail| ensures !Hit(m, c.cache, m.stringify(tail[i])) {
          assert !Hit(m, cache, m.stringify(calls[i + 1]));
        }
      }
      FalsyNeverCached(m, c.cache, tail);
      var r := Run(m, cache, calls);
      assert r.results == [c.result] + Run(m, c.cache, tail).results;
    }
  }

  // ---------------------------------------------------------------------------
  // debounce

  /** What happens to a debounced function: a call, or the delay running out on the armed timer. */
  datatype Event<A> = Invoke(args: seq<A>) | DelayElapses

  /** The single timer slot: at most one invocation is ever pending. */
  datatype Debounce<A> = Debounce(pending: Option<seq<A>>)

  /** What one event does to the slot, and the invocation of `func` it causes, if any. */
  datatype Fired<A> = Fired(state: Debounce<A>, ran: Option<seq<A>>)

  /**
    A call cancels whatever is pending and arms the timer with its own arguments; the delay
    running out invokes the pending arguments and empties the slot (nothing happens when no
    timer is armed).
   */
  function Step<A>(d: Debounce<A>, e: Event<A>): (r: Fired<A>)
    ensures e.Invoke? ==> r.state.pending == Some(e.args) && r.ran == None
    ensures e.DelayElapses? ==> r.state.pending == None && r.ran == d.pending
  {
    match e
    case Invoke(args) => Fired(Debounce(Some(args)), None)
    case DelayElapses => Fired(Debounce(None), d.pending)
  }

  /** The state after a trace and the arguments of each invocation, in order. */
  datatype Trace<A> = Trace(state: Debounce<A>, invocations: seq<seq<A>>)

  function RunEvents<A>(d: Debounce<A>, events: seq<Event<A>>): (r: Trace<A>)
    decreases |events|
  {
    if |events| == 0 then Trace(d, [])
    else
      var f := Step(d, events[0]);
      var rest := RunEvents(f.state, events[1..]);
      Trace(rest.state, (if f.ran.Some? then [f.ran.value] else []) + rest.invocations)
  }

  /** Reference reading of the pending slot: decided by the last event, or the start state if there is none. */
  function LastPending<A>(start: Option<seq<A>>, events: seq<Event<A>>): Option<seq<A>> {
    if |events| == 0 then start
    else match events[|events| - 1]
      case Invoke(args) => Some(args)
      case DelayElapses => None
  }

  function CountElapses<A>(events: seq<Event<A>>): nat
    decreases |events|
  {
    if |events| == 0 then 0 else (if events[0].DelayElapses? then 1 else 0) + CountElapses(events[1..])
  }

  /**
    The pending invocation always carries the arguments of the most recent call, unless the
    delay has run out since; and there are never more invocations than elapsed delays.
   */
  lemma {:induction false} PendingIsLastCall<A>(d: Debounce<A>, events: seq<Event<A>>)
    ensures RunEvents(d, events).state.pending == LastPending(d.pending, events)
    ensures |RunEvents(d, events).invocations| <= CountElapses(events)
    decreases |events|
  {
    if |events| > 0 {
      var f := Step(d, events[0]);
      var tail := events[1..];
      PendingIsLastCall(f.state, tail);
      if |tail| > 0 {
        assert events[|events| - 1] == tail[|tail| - 1];
      }
    }
  }

  /** A trace of calls only. */
  function Calls<A>(burst: seq<seq<A>>): (r: seq<Event<A>>)
    ensures |r| == |burst|
    ensures forall i :: 0 <= i < |burst| ==> r[i] == Invoke(burst[i])
  {
    seq(|burst|, i requires 0 <= i < |burst| => Invoke(burst[i]))
  }

  lemma {:induction false} BurstArmsLast<A>(d: Debounce<A>, burst: seq<seq<A>>)
    requires |burst| >= 1
    ensures RunEvents(d, Calls(burst)).state.pending == Some(burst[|burst| - 1])
    ensures RunEvents(d, Calls(burst)).invocations == []
    decreases |burst|
  {
    var events := Calls(burst);
    var f := Step(d, events[0]);
    assert events[1..] == Calls(burst[1..]);
    if |burst| > 1 {
      BurstArmsLast(f.state, burst[1..]);
    } else {
      assert RunEvents(f.state, events[1..]) == Trace(f.state, []);
    }
  }

  /** Append-distribution of a trace: running `a + b` runs `a`, then `b` from where `a` left off. */
  lemma {:induction false} RunEventsConcat<A>(d: Debounce<A>, a: seq<Event<A>>, b: seq<Event<A>>)
    ensures RunEvents(d, a + b).state == RunEvents(RunEvents(d, a).state, b).state
    ensures RunEvents(d, a + b).invocations == RunEvents(d, a).invocations + RunEvents(RunEvents(d, a).state, b).invocations
    decreases |a|
  {
    if |a| == 0 {
      assert a + b == b;
    } else {
      var ab := a + b;
      assert ab[0] == a[0] && ab[1..] == a[1..] + b;
      var f := Step(d, a[0]);
      RunEventsConcat(f.state, a[1..], b);
      var head := if f.ran.Some? then [f.ran.value] else [];
      var restA := RunEvents(f.state, a[1..]);
      var tail := RunEvents(restA.state, b);
      assert RunEvents(d, ab).invocations == head + RunEvents(f.state, ab[1..]).invocations;
      assert RunEvents(d, a).invocations == head + restA.invocations;
      assert head + (restA.invocations + tail.invocations) == (head + restA.invocations) + tail.invocations;
    }
  }

  /** A burst of calls followed by one quiet delay runs `func` exactly once, with the last call's arguments. */
  lemma BurstRunsOnce<A>(d: Debounce<A>, burst: seq<seq<A>>)
    requires |burst| >= 1
    ensures RunEvents(d, Calls(burst) + [DelayElapses]).invocations == [burst[|burst| - 1]]
    ensures RunEvents(d, Calls(burst) + [DelayElapses]).state.pending == None
  {
    BurstArmsLast(d, burst);
    RunEventsConcat(d, Calls(burst), [DelayElapses]);
    var mid := RunEvents(d, Calls(burst)).state;
    var last: seq<Event<A>> := [DelayElapses];
    assert last[1..] == [];
    assert RunEvents(mid, last) == Trace(Debounce(None), [burst[|burst| - 1]]);
  }
}
