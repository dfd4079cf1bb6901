/**
 The in-process sliding-window throttling store and the guard that refuses over it.

 `InMemoryThrottlerStorage` is the store as it runs. `Log` is what it is held to: a specification
 that reads the whole history of calls, prunes nothing, and knows nothing of deques or eviction order.
 */
module Throttler {
  import opened Options
  import opened OrderedDict

  datatype ThrottleState = ThrottleState(count: int, resetAfter: int)

  /** One request as the store sees it: who it is counted under, when, and against which budget. */
  datatype Call = Call(key: string, now: real, ttl: int, limit: int)

  type Windows = Dict<string, seq<real>>

  function Ceiling(x: real): int {
    -((-x).Floor)
  }

  function Max(a: int, b: int): int {
    if a < b then b else a
  }

  /** Whole seconds until a request made at `oldest` is `ttl` seconds old. */
  function Wait(now: real, ttl: int, oldest: real): int {
    Max(0, Ceiling(ttl as real - (now - oldest)))
  }

  // ---------------------------------------------------------------- one call

  /** A deque after the requests at its front that are no later than `cutoff` were popped. */
  function Aged(window: seq<real>, cutoff: real): (r: seq<real>)
    ensures |r| <= |window|
  {
    if window != [] && window[0] <= cutoff then Aged(window[1..], cutoff) else window
  }

  function WindowOf(d: Windows, k: string): seq<real> {
    if k in d.items then d.items[k] else []
  }

  /** What is still inside the window when a call arrives. */
  function Open(d: Windows, c: Call): seq<real> {
    Aged(WindowOf(d, c.key), c.now - c.ttl as real)
  }

  /** What the key is left holding: a refused call adds nothing. */
  function Kept(d: Windows, c: Call): seq<real> {
    if |Open(d, c)| < c.limit then Open(d, c) + [c.now] else Open(d, c)
  }

  function Touched(d: Windows, k: string, kept: seq<real>): (r: Windows)
    requires d.Valid()
    ensures r.Valid()
  {
    if kept == [] then d.Delete(k) else d.Put(k, kept).MoveToEnd(k)
  }

  function Report(c: Call, count: int, kept: seq<real>): ThrottleState {
    ThrottleState(count, if kept == [] then 0 else Wait(c.now, c.ttl, kept[0]))
  }

  /** What the store holds after a call. */
  function Counted(d: Windows, c: Call, maxKeys: nat): (r: Windows)
    requires d.Valid()
    ensures r.Valid()
  {
    Touched(d, c.key, Kept(d, c)).Newest(maxKeys)
  }

  /** What the store reports to the call. */
  function Answer(d: Windows, c: Call): ThrottleState {
    Report(c, |Open(d, c)| + 1, Kept(d, c))
  }

  /**
   What any call is told, whatever its budget: how many requests are left counted, and one more if it was
   refused; and the least number of whole seconds after which the oldest of them is as old as the window,
   or none if nothing is left.
   */
  lemma AnswerIs(d: Windows, c: Call, s: nat)
    ensures var kept, a := Kept(d, c), Answer(d, c);
      && a.count == |kept| + (if |Open(d, c)| < c.limit then 0 else 1)
      && (kept == [] ==> a.resetAfter == 0)
      && a.resetAfter >= 0
      && (kept != [] ==> (s >= a.resetAfter <==> c.now + s as real - kept[0] >= c.ttl as real))
  {
    hide Open;
  }

  /**
   What the store holds after any call, whatever its budget: the key with what is left of its requests, or not
   at all if nothing is; and the other keys as they were, less the one unused longest if there is no room.
   */
  lemma CountedHolds(d: Windows, c: Call, maxKeys: nat)
    requires d.Valid() && 1 <= maxKeys && d.Size() <= maxKeys
    ensures var r, kept := Counted(d, c, maxKeys), Kept(d, c);
      && (forall k :: k in r.items <==> k in r.order)
      && (kept == [] ==> r.order == Without(d.order, c.key))
      && (kept != [] && c.key !in d.items && d.Size() == maxKeys ==> r.order == d.order[1..] + [c.key])
      && (kept != [] && (c.key in d.items || d.Size() < maxKeys) ==> r.order == Without(d.order, c.key) + [c.key])
      && (kept != [] ==> c.key in r.items && r.items[c.key] == kept)
      && (forall k :: k in r.items && k != c.key ==> k in d.items && r.items[k] == d.items[k])
  {
    hide Kept;
    WithoutElements(d.order, c.key);
    var kept := Kept(d, c);
    if kept != [] {
      PutLast(d, c.key, kept);
      var order := Without(d.order, c.key) + [c.key];
      if |order| > maxKeys {
        LastIsSuffix(maxKeys, order);
        assert order[1..] == d.order[1..] + [c.key];
      }
    }
  }

  class InMemoryThrottlerStorage {
    const maxKeys: nat
    var windows: Windows

    ghost predicate Valid()
      reads this
    {
      maxKeys >= 1 && windows.Valid() && windows.Size() <= maxKeys
    }

    constructor (maxKeys: nat)
      requires maxKeys >= 1
      ensures Valid() && this.maxKeys == maxKeys && windows == Empty()
    {
      this.maxKeys := maxKeys;
      windows := Empty();
    }

    /** Refuses a capacity no key fits in, as construction does. */
    static method OfCapacity(maxKeys: int) returns (storage: InMemoryThrottlerStorage?)
      ensures storage != null <==> maxKeys >= 1
      ensures storage != null ==> fresh(storage) && storage.Valid() && storage.windows == Empty()
    {
      if maxKeys < 1 {
        return null;
      }
      storage := new InMemoryThrottlerStorage(maxKeys);
    }

    /** Counts one request. Nothing in it waits, so concurrent calls interleave only whole. */
    method CountRequest(key: string, now: real, ttl: int, limit: int) returns (state: ThrottleState)
      requires Valid()
      modifies this
      ensures Valid()
      ensures windows == Counted(old(windows), Call(key, now, ttl, limit), maxKeys)
      ensures state == Answer(old(windows), Call(key, now, ttl, limit))
    {
      var window := [];
      if key in windows.items {
        window := windows.items[key];
        windows := windows.MoveToEnd(key);
      }

      var cutoff := now - ttl as real;
      ghost var found, call := window, Call(key, now, ttl, limit);
      while window != [] && window[0] <= cutoff
        invariant Aged(window, cutoff) == Aged(found, cutoff)
      {
        window := window[1..];
      }

      var count;
      if |window| < limit {
        count := |window| + 1;
        window := window + [now];
      } else {
        count := |window| + 1;
      }

      assert window == Kept(old(windows), call) && count == |Open(old(windows), call)| + 1;

      var resetAfter;
      if window != [] {
        Retouched(old(windows), key, window);
        windows := windows.Put(key, window).MoveToEnd(key);
        resetAfter := Wait(now, ttl, window[0]);
      } else {
        Retouched(old(windows), key, window);
        windows := windows.Delete(key);
        resetAfter := 0;
      }

      ghost var touched := windows;
      assert touched == Touched(old(windows), key, window);
      while windows.Size() > maxKeys
        invariant windows.Valid()
        invariant windows.Newest(maxKeys) == touched.Newest(maxKeys)
      {
        NewestAfterPop(windows, maxKeys);
        windows := windows.PopFirst();
      }
      NewestOfFew(windows, maxKeys);
      state := ThrottleState(count, resetAfter);
      assert state == Report(call, count, window);
    }
  }

  /** The first move to the end, made before the deque is aged, changes nothing the second does not. */
  lemma Retouched(d: Windows, k: string, w: seq<real>)
    requires d.Valid()
    ensures k in d.items ==> d.MoveToEnd(k).Put(k, w).MoveToEnd(k) == d.Put(k, w).MoveToEnd(k)
    ensures k in d.items ==> d.MoveToEnd(k).Delete(k) == d.Delete(k)
    ensures k !in d.items ==> d.Delete(k) == d
  {
    WithoutElements(d.order, k);
    if k in d.items {
      WithoutConcat(Without(d.order, k), [k], k);
      WithoutElements(Without(d.order, k), k);
      assert Without([k], k) == [];
      assert Without(d.order, k) + [] == Without(d.order, k);
    } else {
      assert d.items - {k} == d.items;
    }
  }

  lemma NewestOfFew<V>(d: Dict<string, V>, n: nat)
    requires d.Valid() && d.Size() <= n
    ensures d.Newest(n) == d
  {
    assert d.Newest(n).items == d.items;
  }

  lemma NewestAfterPop<V>(d: Dict<string, V>, n: nat)
    requires d.Valid() && d.Size() > n
    ensures d.PopFirst().Newest(n) == d.Newest(n)
  {
    LastElements(n, d.order[1..]);
  }

  // ---------------------------------------------------------------- the guard

  datatype RateLimitPolicy = RateLimitPolicy(limit: Option<int>, windowSeconds: Option<int>, skip: bool)

  datatype RateLimitDecision = RateLimitDecision(limit: int, remaining: int, reset: int, exceeded: bool)

  /** A route that declares both a limit and a window is counted apart, under a key of its own. */
  function ResolvedCall(policy: Option<RateLimitPolicy>, caller: string, handler: string, now: real, ttl: int, limit: int): Call {
    if policy.Some? && policy.value.limit.Some? && policy.value.windowSeconds.Some? then
      Call(caller + ":route:" + handler, now, policy.value.windowSeconds.value, policy.value.limit.value)
    else
      Call(caller, now, ttl, limit)
  }

  class ThrottlerGuard {
    const storage: InMemoryThrottlerStorage
    const ttl: int
    const limit: int

    constructor (storage: InMemoryThrottlerStorage, ttl: int, limit: int)
      ensures this.storage == storage && this.ttl == ttl && this.limit == limit
    {
      this.storage, this.ttl, this.limit := storage, ttl, limit;
    }

    /**
     Decides one request, writing its rate-limit slot and, on a refusal, the Retry-After header. Without
     an active request there is nothing to decide, and it fails.
     */
    method CanActivate(exchange: Exchange?, policy: Option<RateLimitPolicy>, skipMarked: bool, caller: string, handler: string, now: real)
      returns (admitted: Option<bool>)
      requires storage.Valid()
      modifies storage, exchange
      ensures storage.Valid()
      ensures admitted.None? <==> exchange == null
      ensures exchange == null ==> unchanged(storage)
      ensures exchange != null && (skipMarked || (policy.Some? && policy.value.skip)) ==>
        admitted == Some(true) && unchanged(storage) && unchanged(exchange)
      ensures exchange != null && !skipMarked && !(policy.Some? && policy.value.skip) ==>
        var call := ResolvedCall(policy, caller, handler, now, ttl, limit);
        var state := Answer(old(storage.windows), call);
        && storage.windows == Counted(old(storage.windows), call, storage.maxKeys)
        && admitted == Some(state.count <= call.limit)
        && exchange.rateLimit == Some(RateLimitDecision(call.limit, Max(0, call.limit - state.count), state.resetAfter, !admitted.value))
        && exchange.retryAfter == if admitted.value || !exchange.hasResponse then old(exchange.retryAfter) else Some(Max(1, state.resetAfter))
    {
      hide Counted, Answer;
      if exchange == null {
        return None;
      }
      if policy.Some? && policy.value.skip {
        return Some(true);
      }
      if skipMarked {
        return Some(true);
      }
      var call := ResolvedCall(policy, caller, handler, now, ttl, limit);
      var state := storage.CountRequest(call.key, now, call.ttl, call.limit);
      var exceeded := state.count > call.limit;
      exchange.rateLimit := Some(RateLimitDecision(call.limit, Max(0, call.limit - state.count), state.resetAfter, exceeded));
      if exceeded && exchange.hasResponse {
        exchange.retryAfter := Some(Max(1, state.resetAfter));
      }
      return Some(!exceeded);
    }
  }

  /** The per-request slots the guard writes: the decision, and the header of the response to come. */
  class Exchange {
    const hasResponse: bool
    var rateLimit: Option<RateLimitDecision>
    var retryAfter: Option<int>

    constructor (hasResponse: bool)
      ensures this.hasResponse == hasResponse && rateLimit == None && retryAfter == None
    {
      this.hasResponse := hasResponse;
      rateLimit, retryAfter := None, None;
    }
  }
}
