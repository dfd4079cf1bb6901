/**
 What the throttling guard asks of its store over a run of requests, and when those calls are proper:
 every key counted under one budget.
 */
module GuardTraffic {
  import opened Options
  import opened OrderedDict
  import opened ThrottleHistory
  import opened Throttler

  /** One request at the guard: the policy of its route, whether its handler is marked, and who calls what when. */
  datatype Visit = Visit(policy: Option<RateLimitPolicy>, skipMarked: bool, caller: string, handler: string, now: real)

  type Traffic = Trail<Visit>

  predicate IsCounted(v: Visit) {
    !v.skipMarked && !(v.policy.Some? && v.policy.value.skip)
  }

  /** The route declares both a limit and a window. */
  predicate HasOwnBudget(v: Visit) {
    v.policy.Some? && v.policy.value.limit.Some? && v.policy.value.windowSeconds.Some?
  }

  function RouteKey(v: Visit): string {
    v.caller + ":route:" + v.handler
  }

  function CallOf(v: Visit, ttl: int, limit: int): Call {
    ResolvedCall(v.policy, v.caller, v.handler, v.now, ttl, limit)
  }

  /** The calls a run of requests makes of the store. */
  function Calls(t: Traffic, ttl: int, limit: int): History {
    match t
    case Start => Start
    case Then(p, v) => if IsCounted(v) then Then(Calls(p, ttl, limit), CallOf(v, ttl, limit)) else Calls(p, ttl, limit)
  }

  // ---------------------------------------------------------------- proper histories, call by call

  ghost predicate OneBudgetPerKey(h: History) {
    forall c, e :: Occurs(h, c) && Occurs(h, e) && c.key == e.key ==> c.ttl == e.ttl && c.limit == e.limit
  }

  ghost predicate BudgetsPositive(h: History) {
    forall c :: Occurs(h, c) ==> c.ttl >= 1 && c.limit >= 1
  }

  predicate NotBefore(h: History, now: real) {
    match h
    case Start => true
    case Then(p, c) => c.now <= now && NotBefore(p, now)
  }

  predicate InOrder(h: History) {
    match h
    case Start => true
    case Then(p, c) => InOrder(p) && NotBefore(p, c.now)
  }

  lemma {:induction false} FollowsIff(h: History, c: Call)
    ensures Follows(h, c) <==> NotBefore(h, c.now) && forall e :: Occurs(h, e) && e.key == c.key ==> e.ttl == c.ttl && e.limit == c.limit
  {
    if h.Then? {
      FollowsIff(h.earlier, c);
      assert Occurs(h, h.latest) && forall e :: Occurs(h.earlier, e) ==> Occurs(h, e);
    }
  }

  /** A history is proper iff its readings never step back, its budgets are positive and no key has two. */
  lemma {:induction false} ProperIff(h: History)
    ensures Proper(h) <==> InOrder(h) && BudgetsPositive(h) && OneBudgetPerKey(h)
  {
    if h.Then? {
      hide Follows, NotBefore;
      ProperIff(h.earlier);
      FollowsIff(h.earlier, h.latest);
      assert Occurs(h, h.latest) && forall e :: Occurs(h.earlier, e) ==> Occurs(h, e);
    }
  }

  // ---------------------------------------------------------------- the keys of two requests

  lemma LastAfterColon(a: string, x: string)
    requires ':' !in x
    ensures var s := a + ":" + x;
      && (x == "" <==> s[|s| - 1] == ':')
      && (x == "" ==> s[..|s| - 1] == a)
      && (x != "" ==> s[|s| - 1] == x[|x| - 1] && s[..|s| - 1] == a + ":" + x[..|x| - 1])
  {
    if x != "" {
      assert x[|x| - 1] in x;
    }
  }

  lemma {:induction false} AfterLastColon(a: string, b: string, x: string, y: string)
    requires ':' !in x && ':' !in y && a + ":" + x == b + ":" + y
    ensures a == b && x == y
  {
    LastAfterColon(a, x);
    LastAfterColon(b, y);
    if x != "" {
      AfterLastColon(a, b, x[..|x| - 1], y[..|y| - 1]);
      assert x == x[..|x| - 1] + [x[|x| - 1]] && y == y[..|y| - 1] + [y[|y| - 1]];
    }
  }

  /** A route's own key names caller and handler. */
  lemma RouteKeyTells(a: Visit, b: Visit)
    requires ':' !in a.handler && ':' !in b.handler
    ensures RouteKey(a) == RouteKey(b) <==> a.caller == b.caller && a.handler == b.handler
  {
    if RouteKey(a) == RouteKey(b) {
      var x, y := a.caller + ":route", b.caller + ":route";
      assert RouteKey(a) == x + ":" + a.handler && RouteKey(b) == y + ":" + b.handler;
      AfterLastColon(x, y, a.handler, b.handler);
      assert x[..|a.caller|] == a.caller && y[..|b.caller|] == b.caller;
    }
  }

  // ---------------------------------------------------------------- one budget per key

  lemma {:induction false} CalledIffVisited(t: Traffic, ttl: int, limit: int, c: Call)
    ensures Occurs(Calls(t, ttl, limit), c) <==> exists v :: Occurs(t, v) && IsCounted(v) && CallOf(v, ttl, limit) == c
  {
    if t.Then? {
      CalledIffVisited(t.earlier, ttl, limit, c);
      hide CallOf, IsCounted;
      assert Occurs(t, t.latest) && forall v :: Occurs(t.earlier, v) ==> Occurs(t, v);
    }
  }

  predicate OnOwnBudget(v: Visit) {
    IsCounted(v) && HasOwnBudget(v)
  }

  predicate OnCommonBudget(v: Visit) {
    IsCounted(v) && !HasOwnBudget(v)
  }

  predicate SameBudget(a: Visit, b: Visit)
    requires OnOwnBudget(a) && OnOwnBudget(b)
  {
    a.policy.value.limit == b.policy.value.limit && a.policy.value.windowSeconds == b.policy.value.windowSeconds
  }

  predicate HasBudget(a: Visit, ttl: int, limit: int)
    requires OnOwnBudget(a)
  {
    a.policy.value.limit == Some(limit) && a.policy.value.windowSeconds == Some(ttl)
  }

  /** Two requests one caller makes of one handler, counted on budgets of their own, are counted on the same. */
  ghost predicate OneBudgetPerHandler(t: Traffic) {
    forall a, b :: Occurs(t, a) && Occurs(t, b) && OnOwnBudget(a) && OnOwnBudget(b) ==>
      (a.caller == b.caller && a.handler == b.handler ==> SameBudget(a, b))
  }

  /** A caller counted on the application's budget has a key that reads as a route's own only where the budgets agree. */
  ghost predicate NoKeySpelled(t: Traffic, ttl: int, limit: int) {
    forall a, b :: Occurs(t, a) && Occurs(t, b) && OnOwnBudget(a) && OnCommonBudget(b) ==>
      (b.caller == RouteKey(a) ==> HasBudget(a, ttl, limit))
  }

  ghost predicate HandlersPlain(t: Traffic) {
    forall v :: Occurs(t, v) ==> ':' !in v.handler
  }

  /**
   Handler names holding no colon, the calls count each key under one budget iff no caller meets two
   budgets on one handler, and no caller key spells out another's route key under a different budget.
   */
  lemma OneBudgetIff(t: Traffic, ttl: int, limit: int)
    requires HandlersPlain(t)
    ensures OneBudgetPerKey(Calls(t, ttl, limit)) <==> OneBudgetPerHandler(t) && NoKeySpelled(t, ttl, limit)
  {
    hide Calls, HandlersPlain, IsCounted, CallOf, OneBudgetPerHandler, NoKeySpelled;
    var h := Calls(t, ttl, limit);
    if OneBudgetPerKey(h) {
      BudgetsAgreeByKey(t, ttl, limit);
    }
    if OneBudgetPerHandler(t) && NoKeySpelled(t, ttl, limit) {
      forall c, e | Occurs(h, c) && Occurs(h, e) && c.key == e.key ensures c.ttl == e.ttl && c.limit == e.limit {
        CalledIffVisited(t, ttl, limit, c);
        CalledIffVisited(t, ttl, limit, e);
        var a :| Occurs(t, a) && IsCounted(a) && CallOf(a, ttl, limit) == c;
        var b :| Occurs(t, b) && IsCounted(b) && CallOf(b, ttl, limit) == e;
        PlainHandlers(t, a, b);
        SameKeySameBudget(t, a, b, ttl, limit);
      }
    }
  }

  lemma PlainHandlers(t: Traffic, a: Visit, b: Visit)
    requires HandlersPlain(t) && Occurs(t, a) && Occurs(t, b)
    ensures ':' !in a.handler && ':' !in b.handler
  {
  }

  lemma SameKeySameBudget(t: Traffic, a: Visit, b: Visit, ttl: int, limit: int)
    requires OneBudgetPerHandler(t) && NoKeySpelled(t, ttl, limit)
    requires Occurs(t, a) && Occurs(t, b) && IsCounted(a) && IsCounted(b) && ':' !in a.handler && ':' !in b.handler
    requires CallOf(a, ttl, limit).key == CallOf(b, ttl, limit).key
    ensures CallOf(a, ttl, limit).ttl == CallOf(b, ttl, limit).ttl && CallOf(a, ttl, limit).limit == CallOf(b, ttl, limit).limit
  {
    RouteKeyTells(a, b);
    hide Occurs;
    assert HasOwnBudget(a) ==> CallOf(a, ttl, limit).key == RouteKey(a);
    assert HasOwnBudget(b) ==> CallOf(b, ttl, limit).key == RouteKey(b);
  }

  lemma BudgetsAgreeByKey(t: Traffic, ttl: int, limit: int)
    requires OneBudgetPerKey(Calls(t, ttl, limit))
    ensures OneBudgetPerHandler(t) && NoKeySpelled(t, ttl, limit)
  {
    hide Calls, IsCounted;
    var h := Calls(t, ttl, limit);
    forall a, b | Occurs(t, a) && Occurs(t, b) && IsCounted(a) && IsCounted(b)
      ensures CallOf(a, ttl, limit).key == CallOf(b, ttl, limit).key ==>
        CallOf(a, ttl, limit).ttl == CallOf(b, ttl, limit).ttl && CallOf(a, ttl, limit).limit == CallOf(b, ttl, limit).limit
    {
      CalledIffVisited(t, ttl, limit, CallOf(a, ttl, limit));
      CalledIffVisited(t, ttl, limit, CallOf(b, ttl, limit));
    }
  }

  // ---------------------------------------------------------------- the guard over its store

  /** Readings do not step back from one counted request to the next. */
  ghost predicate InTime(t: Traffic) {
    match t
    case Start => true
    case Then(p, v) => InTime(p) && (IsCounted(v) ==> forall e :: Occurs(p, e) && IsCounted(e) ==> e.now <= v.now)
  }

  /** Every budget a request is counted on lets at least one request pass and lasts at least a second. */
  ghost predicate BudgetsInUse(t: Traffic, ttl: int, limit: int) {
    forall v :: Occurs(t, v) && IsCounted(v) ==> CallOf(v, ttl, limit).ttl >= 1 && CallOf(v, ttl, limit).limit >= 1
  }

  lemma {:induction false} NotBeforeIff(t: Traffic, ttl: int, limit: int, now: real)
    ensures NotBefore(Calls(t, ttl, limit), now) <==> forall e :: Occurs(t, e) && IsCounted(e) ==> e.now <= now
  {
    if t.Then? {
      NotBeforeIff(t.earlier, ttl, limit, now);
      assert Occurs(t, t.latest) && forall e :: Occurs(t.earlier, e) ==> Occurs(t, e);
    }
  }

  lemma {:induction false} InTimeIff(t: Traffic, ttl: int, limit: int)
    ensures InOrder(Calls(t, ttl, limit)) <==> InTime(t)
  {
    if t.Then? {
      InTimeIff(t.earlier, ttl, limit);
      NotBeforeIff(t.earlier, ttl, limit, t.latest.now);
    }
  }

  lemma BudgetsInUseIff(t: Traffic, ttl: int, limit: int)
    ensures BudgetsPositive(Calls(t, ttl, limit)) <==> BudgetsInUse(t, ttl, limit)
  {
    hide Calls, IsCounted, CallOf;
    forall c ensures Occurs(Calls(t, ttl, limit), c) <==> exists v :: Occurs(t, v) && IsCounted(v) && CallOf(v, ttl, limit) == c {
      CalledIffVisited(t, ttl, limit, c);
    }
    forall v | Occurs(t, v) && IsCounted(v) ensures Occurs(Calls(t, ttl, limit), CallOf(v, ttl, limit)) {
      CalledIffVisited(t, ttl, limit, CallOf(v, ttl, limit));
    }
  }

  /**
   Which traffic the guard makes proper calls of: it is in time and on positive budgets, no caller meets two
   budgets on one handler, and no caller key spells out another's route key under a different budget.
   */
  lemma GuardCallsAreProperIff(t: Traffic, ttl: int, limit: int)
    requires HandlersPlain(t)
    ensures Proper(Calls(t, ttl, limit)) <==>
      InTime(t) && BudgetsInUse(t, ttl, limit) && OneBudgetPerHandler(t) && NoKeySpelled(t, ttl, limit)
  {
    hide Calls, HandlersPlain, NoKeySpelled, OneBudgetPerHandler, Proper, InOrder, OneBudgetPerKey, BudgetsPositive, BudgetsInUse, InTime;
    ProperIff(Calls(t, ttl, limit));
    InTimeIff(t, ttl, limit);
    BudgetsInUseIff(t, ttl, limit);
    OneBudgetIff(t, ttl, limit);
  }

  /** Two requests of one caller and handler, each counted on a budget of its own, and those not the same. */
  predicate TwoBudgets(a: Visit, b: Visit) {
    OnOwnBudget(a) && OnOwnBudget(b) && a.caller == b.caller && a.handler == b.handler && !SameBudget(a, b)
  }

  /** Requests of one handler all carry one policy. */
  ghost predicate OnePolicyPerHandler(t: Traffic) {
    forall a, b :: Occurs(t, a) && Occurs(t, b) && a.handler == b.handler ==> a.policy == b.policy
  }

  /**
   One policy per handler is enough for one budget. Two routes that inherit one handler under controllers of
   different limits are two policies of one handler, and then whoever calls both is counted twice on one key.
   */
  lemma InheritedHandlersShareKey(t: Traffic, a: Visit, b: Visit, ttl: int, limit: int)
    ensures OnePolicyPerHandler(t) ==> OneBudgetPerHandler(t)
    ensures Occurs(t, a) && Occurs(t, b) && TwoBudgets(a, b) ==> !OneBudgetPerKey(Calls(t, ttl, limit))
  {
    hide Calls, IsCounted;
    if OneBudgetPerKey(Calls(t, ttl, limit)) {
      BudgetsAgreeByKey(t, ttl, limit);
    }
  }

  /**
   The guard at work. On traffic such as that, each counted request is reported on from the full history of
   the run before it, whatever the store forgot.
   */
  lemma GuardAnswersFromHistory(t: Traffic, v: Visit, ttl: int, limit: int, maxKeys: nat)
    requires maxKeys >= 1 && HandlersPlain(Then(t, v)) && IsCounted(v)
    requires InTime(Then(t, v)) && BudgetsInUse(Then(t, v), ttl, limit)
    requires OneBudgetPerHandler(Then(t, v)) && NoKeySpelled(Then(t, v), ttl, limit)
    ensures var h, call := Calls(t, ttl, limit), CallOf(v, ttl, limit);
      && Answer(Run(h, maxKeys), call) == Reply(h, call, maxKeys)
      && (Answer(Run(h, maxKeys), call).count <= call.limit <==> Accepted(h, call, maxKeys))
  {
    var h, call := Calls(t, ttl, limit), CallOf(v, ttl, limit);
    GuardCallsAreProperIff(Then(t, v), ttl, limit);
    assert Calls(Then(t, v), ttl, limit) == Then(h, call);
    hide Calls, Occurs, Proper, Run, Reply, NoKeySpelled, OneBudgetPerHandler, HandlersPlain, InTime, BudgetsInUse;
    Refines(Then(h, call), maxKeys);
    ReplyCounts(h, call, maxKeys);
  }

  lemma ReplyCounts(h: History, c: Call, maxKeys: nat)
    ensures Reply(h, c, maxKeys).count <= c.limit <==> Accepted(h, c, maxKeys)
  {
  }

  /**
   One request more through the guard. The store goes on holding what the calls of the run so far leave in it, and
   on proper traffic the request is admitted iff it is not counted, or the full history accepts it.
   */
  method ServeVisit(guard: ThrottlerGuard, exchange: Exchange, v: Visit, ghost t: Traffic) returns (admitted: bool)
    requires guard.storage.Valid() && guard.storage.windows == Run(Calls(t, guard.ttl, guard.limit), guard.storage.maxKeys)
    requires Proper(Calls(Then(t, v), guard.ttl, guard.limit))
    modifies guard.storage, exchange
    ensures guard.storage.Valid()
    ensures guard.storage.windows == Run(Calls(Then(t, v), guard.ttl, guard.limit), guard.storage.maxKeys)
    ensures v.skipMarked || (v.policy.Some? && v.policy.value.skip) ==> admitted
    ensures !(v.skipMarked || (v.policy.Some? && v.policy.value.skip)) ==>
      (admitted <==> Accepted(Calls(t, guard.ttl, guard.limit), CallOf(v, guard.ttl, guard.limit), guard.storage.maxKeys))
  {
    hide Proper, Reply, Accepted, Counted, Answer;
    ghost var h := Calls(t, guard.ttl, guard.limit);
    var verdict := guard.CanActivate(exchange, v.policy, v.skipMarked, v.caller, v.handler, v.now);
    admitted := verdict.value;
    if IsCounted(v) {
      ghost var call := CallOf(v, guard.ttl, guard.limit);
      Refines(Then(h, call), guard.storage.maxKeys);
      ReplyCounts(h, call, guard.storage.maxKeys);
    }
  }
}
