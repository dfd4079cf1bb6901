/**
 Access policy from declaration to decision: merging what decorators declare, compiling the levels
 into one plan, and the guard that decides on that plan.
 */
module AccessPolicy {
  import opened Options

  datatype RateLimit = RateLimit(limit: Option<int>, window: Option<string>, skip: bool)

  datatype Deprecation = Deprecation(since: Option<string>, sunset: Option<string>, replacement: Option<string>)

  /** What one level declares; `auth` names a strategy. The compiled plan of a route has the same fields. */
  datatype Policy = Policy(
    auth: Option<string>, public: bool, roles: seq<string>, permissions: seq<string>, rateLimit: Option<RateLimit>,
    cacheTtl: Option<int>, idempotencyHeader: Option<string>, auditEvent: Option<string>, owner: Option<string>,
    deprecation: Option<Deprecation>)

  const UNDECLARED := Policy(None, false, [], [], None, None, None, None, None, None)

  // ---------------------------------------------------------------- merging

  function Later<T>(earlier: Option<T>, later: Option<T>): Option<T> {
    if later.Some? then later else earlier
  }

  function MergeRateLimits(earlier: Option<RateLimit>, later: Option<RateLimit>): Option<RateLimit> {
    match (earlier, later)
    case (_, None) => earlier
    case (None, _) => later
    case (Some(a), Some(b)) => Some(RateLimit(Later(a.limit, b.limit), Later(a.window, b.window), a.skip || b.skip))
  }

  function Merge(earlier: Policy, later: Policy): Policy {
    Policy(
      Later(earlier.auth, later.auth), earlier.public || later.public,
      earlier.roles + later.roles, earlier.permissions + later.permissions,
      MergeRateLimits(earlier.rateLimit, later.rateLimit), Later(earlier.cacheTtl, later.cacheTtl),
      Later(earlier.idempotencyHeader, later.idempotencyHeader), Later(earlier.auditEvent, later.auditEvent),
      Later(earlier.owner, later.owner), Later(earlier.deprecation, later.deprecation))
  }

  function Merged(items: seq<Policy>): Policy {
    if items == [] then UNDECLARED else Merge(Merged(items[..|items| - 1]), items[|items| - 1])
  }

  lemma NothingMerged()
    ensures Merged([]) == UNDECLARED
  {
  }

  lemma MergedStep(items: seq<Policy>, i: nat)
    requires i < |items|
    ensures Merged(items[..i + 1]) == Merge(Merged(items[..i]), items[i])
  {
    assert items[..i + 1][..i] == items[..i];
  }

  method MergePolicyMetadata(items: seq<Policy>) returns (merged: Policy)
    ensures merged == Merged(items)
  {
    hide Merged;
    var auth: Option<string>, public, roles, permissions := None, false, [], [];
    var rateLimit: Option<RateLimit> := None;
    var cacheTtl: Option<int>, idempotencyHeader: Option<string> := None, None;
    var auditEvent: Option<string>, owner: Option<string>, deprecation: Option<Deprecation> := None, None, None;
    var i := 0;
    NothingMerged();
    assert items[..0] == [];
    while i < |items|
      invariant i <= |items|
      invariant Merged(items[..i]) == Policy(auth, public, roles, permissions, rateLimit, cacheTtl, idempotencyHeader,
                                             auditEvent, owner, deprecation)
    {
      MergedStep(items, i);
      var item := items[i];
      ghost var soFar := Merged(items[..i]);
      if item.auth.Some? {
        auth := item.auth;
      }
      public := public || item.public;
      roles := roles + item.roles;
      permissions := permissions + item.permissions;
      if item.rateLimit.Some? {
        if rateLimit.None? {
          rateLimit := item.rateLimit;
        } else {
          var was, now := rateLimit.value, item.rateLimit.value;
          rateLimit := Some(RateLimit(
            if now.limit.Some? then now.limit else was.limit,
            if now.window.Some? then now.window else was.window,
            was.skip || now.skip));
        }
      }
      assert rateLimit == MergeRateLimits(soFar.rateLimit, item.rateLimit);
      if item.cacheTtl.Some? {
        cacheTtl := item.cacheTtl;
      }
      if item.idempotencyHeader.Some? {
        idempotencyHeader := item.idempotencyHeader;
      }
      if item.auditEvent.Some? {
        auditEvent := item.auditEvent;
      }
      if item.owner.Some? {
        owner := item.owner;
      }
      if item.deprecation.Some? {
        deprecation := item.deprecation;
      }
      i := i + 1;
    }
    assert items[..i] == items;
    merged := Policy(auth, public, roles, permissions, rateLimit, cacheTtl, idempotencyHeader, auditEvent, owner, deprecation);
  }

  lemma MergeAssociates(a: Policy, b: Policy, c: Policy)
    ensures Merge(Merge(a, b), c) == Merge(a, Merge(b, c))
  {
    assert (a.roles + b.roles) + c.roles == a.roles + (b.roles + c.roles);
    assert (a.permissions + b.permissions) + c.permissions == a.permissions + (b.permissions + c.permissions);
  }

  lemma MergeIdentity(a: Policy)
    ensures Merge(UNDECLARED, a) == a == Merge(a, UNDECLARED)
  {
    assert [] + a.roles == a.roles == a.roles + [];
    assert [] + a.permissions == a.permissions == a.permissions + [];
  }

  /** Merging in two parts is merging at once, wherever the declarations are cut. */
  lemma {:induction false} MergedConcat(a: seq<Policy>, b: seq<Policy>)
    ensures Merged(a + b) == Merge(Merged(a), Merged(b))
  {
    if b == [] {
      assert a + b == a;
      MergeIdentity(Merged(a));
    } else {
      var front, last := b[..|b| - 1], b[|b| - 1];
      assert (a + b)[..|a + b| - 1] == a + front;
      MergedConcat(a, front);
      MergeAssociates(Merged(a), Merged(front), last);
    }
  }

  /** A controller or handler, as decorators write its policy attribute. */
  class Declared {
    var policy: Option<Policy>
    ghost var stacked: seq<Policy>

    ghost predicate Valid()
      reads this
    {
      (if policy.Some? then policy.value else UNDECLARED) == Merged(stacked)
    }

    constructor ()
      ensures Valid() && policy == None && stacked == []
    {
      policy, stacked := None, [];
    }

    /** One decorator more. However many there are, the attribute is one merge of them all. */
    method ExtendPolicyMetadata(declaration: Policy)
      requires Valid()
      modifies this
      ensures Valid() && stacked == old(stacked) + [declaration]
      ensures policy == Some(Merged(stacked))
    {
      var existing := if policy.Some? then policy.value else UNDECLARED;
      var merged := MergePolicyMetadata([existing, declaration]);
      MergedPair(existing, declaration);
      policy := Some(merged);
      assert (stacked + [declaration])[..|stacked|] == stacked;
      stacked := stacked + [declaration];
    }
  }

  lemma MergedPair(a: Policy, b: Policy)
    ensures Merged([a, b]) == Merge(a, b)
  {
    assert [a] + [b] == [a, b] && [] + [a] == [a];
    assert Merged([a]) == Merge(Merged([a][..0]), a);
    MergedConcat([a], [b]);
    assert Merged([b]) == Merge(Merged([b][..0]), b);
    MergeIdentity(a);
    MergeIdentity(b);
  }

  // ---------------------------------------------------------------- what a merge means

  /** `r` is the last declared of a list of optional declarations. */
  predicate IsLatest<T(==)>(s: seq<Option<T>>, r: Option<T>) {
    match r
    case None => forall i :: 0 <= i < |s| ==> s[i].None?
    case Some(x) => exists i :: 0 <= i < |s| && s[i] == r && forall j :: i < j < |s| ==> s[j].None?
  }

  function Each<T>(items: seq<Policy>, field: Policy -> Option<T>): seq<Option<T>> {
    seq(|items|, i requires 0 <= i < |items| => field(items[i]))
  }

  lemma LatestExtended<T>(items: seq<Policy>, item: Policy, field: Policy -> Option<T>, r: Option<T>)
    requires IsLatest(Each(items, field), r)
    ensures IsLatest(Each(items + [item], field), Later(r, field(item)))
  {
    var before, after := Each(items, field), Each(items + [item], field);
    assert after == before + [field(item)];
    if field(item).Some? {
      assert after[|items|] == field(item);
    } else if r.Some? {
      var i :| 0 <= i < |before| && before[i] == r && forall j :: i < j < |before| ==> before[j].None?;
      assert after[i] == r;
    }
  }

  function AuthOf(p: Policy): Option<string> {
    p.auth
  }

  function CacheOf(p: Policy): Option<int> {
    p.cacheTtl
  }

  function IdempotencyOf(p: Policy): Option<string> {
    p.idempotencyHeader
  }

  function AuditOf(p: Policy): Option<string> {
    p.auditEvent
  }

  function OwnerOf(p: Policy): Option<string> {
    p.owner
  }

  function DeprecationOf(p: Policy): Option<Deprecation> {
    p.deprecation
  }

  function LimitOf(p: Policy): Option<int> {
    if p.rateLimit.Some? then p.rateLimit.value.limit else None
  }

  function WindowOf(p: Policy): Option<string> {
    if p.rateLimit.Some? then p.rateLimit.value.window else None
  }

  /**
   A merge holds the last strategy declared, the last limit and the last window, each by itself, and the
   last of every other declaration that is replaced whole; it is public or skips rate limiting if any
   declaration is or does; it demands what any declaration demands.
   */
  lemma MergedMeaning(items: seq<Policy>)
    ensures IsLatest(Each(items, AuthOf), Merged(items).auth)
    ensures IsLatest(Each(items, LimitOf), if Merged(items).rateLimit.Some? then Merged(items).rateLimit.value.limit else None)
    ensures IsLatest(Each(items, WindowOf), if Merged(items).rateLimit.Some? then Merged(items).rateLimit.value.window else None)
    ensures IsLatest(Each(items, CacheOf), Merged(items).cacheTtl)
    ensures IsLatest(Each(items, IdempotencyOf), Merged(items).idempotencyHeader)
    ensures IsLatest(Each(items, AuditOf), Merged(items).auditEvent)
    ensures IsLatest(Each(items, OwnerOf), Merged(items).owner)
    ensures IsLatest(Each(items, DeprecationOf), Merged(items).deprecation)
    ensures Merged(items).public <==> exists p :: p in items && p.public
    ensures forall x :: x in Merged(items).roles <==> exists p :: p in items && x in p.roles
    ensures forall x :: x in Merged(items).permissions <==> exists p :: p in items && x in p.permissions
    ensures Merged(items).rateLimit.Some? <==> exists p :: p in items && p.rateLimit.Some?
    ensures Merged(items).rateLimit.Some? ==>
      (Merged(items).rateLimit.value.skip <==> exists p :: p in items && p.rateLimit.Some? && p.rateLimit.value.skip)
  {
    hide Merged, IsLatest, Each;
    LatestMerged(items);
    AnyMerged(items);
  }

  lemma {:induction false} LatestMerged(items: seq<Policy>)
    ensures IsLatest(Each(items, AuthOf), Merged(items).auth)
    ensures IsLatest(Each(items, CacheOf), Merged(items).cacheTtl)
    ensures IsLatest(Each(items, IdempotencyOf), Merged(items).idempotencyHeader)
    ensures IsLatest(Each(items, AuditOf), Merged(items).auditEvent)
    ensures IsLatest(Each(items, OwnerOf), Merged(items).owner)
    ensures IsLatest(Each(items, DeprecationOf), Merged(items).deprecation)
    ensures IsLatest(Each(items, LimitOf), LimitOf(Merged(items)))
    ensures IsLatest(Each(items, WindowOf), WindowOf(Merged(items)))
  {
    if items != [] {
      hide IsLatest, Each;
      var front, last := items[..|items| - 1], items[|items| - 1];
      assert items == front + [last];
      LatestMerged(front);
      LatestExtended(front, last, AuthOf, AuthOf(Merged(front)));
      LatestExtended(front, last, CacheOf, CacheOf(Merged(front)));
      LatestExtended(front, last, IdempotencyOf, IdempotencyOf(Merged(front)));
      LatestExtended(front, last, AuditOf, AuditOf(Merged(front)));
      LatestExtended(front, last, OwnerOf, OwnerOf(Merged(front)));
      LatestExtended(front, last, DeprecationOf, DeprecationOf(Merged(front)));
      LatestExtended(front, last, LimitOf, LimitOf(Merged(front)));
      LatestExtended(front, last, WindowOf, WindowOf(Merged(front)));
    }
  }

  lemma {:induction false} AnyMerged(items: seq<Policy>)
    ensures Merged(items).public <==> exists p :: p in items && p.public
    ensures forall x :: x in Merged(items).roles <==> exists p :: p in items && x in p.roles
    ensures forall x :: x in Merged(items).permissions <==> exists p :: p in items && x in p.permissions
    ensures Merged(items).rateLimit.Some? <==> exists p :: p in items && p.rateLimit.Some?
    ensures Merged(items).rateLimit.Some? ==>
      (Merged(items).rateLimit.value.skip <==> exists p :: p in items && p.rateLimit.Some? && p.rateLimit.value.skip)
  {
    if items != [] {
      var front, last := items[..|items| - 1], items[|items| - 1];
      assert items == front + [last];
      AnyMerged(front);
      assert forall p :: p in items <==> p in front || p == last;
    }
  }

  // ---------------------------------------------------------------- compiling two levels

  predicate DeclaresAccessRequirements(p: Policy) {
    p.auth.Some? || p.roles != [] || p.permissions != []
  }

  predicate Contradictory(p: Policy) {
    p.public && DeclaresAccessRequirements(p)
  }

  function ResolvePublicPolicy(controller: Policy, handler: Policy): Option<bool> {
    if Contradictory(controller) || Contradictory(handler) then None
    else if DeclaresAccessRequirements(handler) then Some(handler.public)
    else if handler.public then Some(true)
    else Some(controller.public)
  }

  /**
   The compiled plan, or none where the route is refused. `registryReady` says whether a registry of
   authenticators is visible to the route's module and can be built without being awaited.
   */
  function Compile(controller: Policy, handler: Policy, registryReady: bool): Option<Policy> {
    var merged, public := Merge(controller, handler), ResolvePublicPolicy(controller, handler);
    if public.None? then None
    else if merged.auth.Some? && !public.value && !registryReady then None
    else Some(merged.(public := public.value))
  }

  predicate HasPolicy(plan: Policy) {
    || plan.auth.Some? || plan.public || plan.roles != [] || plan.permissions != [] || plan.rateLimit.Some?
    || plan.cacheTtl.Some? || plan.idempotencyHeader.Some? || plan.auditEvent.Some? || plan.owner.Some?
    || plan.deprecation.Some?
  }

  predicate HasPolicyRequirements(plan: Policy) {
    plan.auth.Some? || plan.public || plan.roles != [] || plan.permissions != []
  }

  // ---------------------------------------------------------------- deciding

  datatype Principal = Principal(id: string, roles: set<string>, permissions: set<string>)

  /** What a strategy makes of the request: nothing is registered for it, it knows nobody, or it knows somebody. */
  datatype Login = Unusable | Nobody | Somebody(principal: Principal)

  datatype Verdict = Admitted | Misconfigured | AuthenticationRequired | Rejected(missing: seq<string>)

  function Missing(demanded: seq<string>, held: set<string>): (r: seq<string>)
    ensures forall x :: x in r <==> x in demanded && x !in held
  {
    if demanded == [] then []
    else
      assert demanded == demanded[..|demanded| - 1] + [demanded[|demanded| - 1]];
      Missing(demanded[..|demanded| - 1], held)
      + (if demanded[|demanded| - 1] in held then [] else [demanded[|demanded| - 1]])
  }

  method MissingFrom(demanded: seq<string>, held: set<string>) returns (missing: seq<string>)
    ensures missing == Missing(demanded, held)
  {
    missing := [];
    var i := 0;
    while i < |demanded|
      invariant i <= |demanded|
      invariant missing == Missing(demanded[..i], held)
    {
      assert demanded[..i + 1][..i] == demanded[..i];
      if demanded[i] !in held {
        missing := missing + [demanded[i]];
      }
      i := i + 1;
    }
    assert demanded[..i] == demanded;
  }

  /** The context a guard decides in; a context without a request has no principal and keeps none. */
  class ExecutionContext {
    const hasRequest: bool
    var principal: Option<Principal>

    constructor (hasRequest: bool, principal: Option<Principal>)
      ensures this.hasRequest == hasRequest && this.principal == principal
    {
      this.hasRequest, this.principal := hasRequest, principal;
    }

    function GetPrincipal(): Option<Principal>
      reads this
    {
      if hasRequest then principal else None
    }
  }

  /** Who a plan asks about: whoever its strategy knows, or whoever the request already carries. */
  function Asked(strategy: Option<string>, carried: Option<Principal>, logins: string -> Login): Option<Principal> {
    if strategy.None? then carried
    else match logins(strategy.value) case Somebody(p) => Some(p) case _ => None
  }

  class PolicyGuard {
    /** Decides on a plan, and leaves an authenticated principal on the request. */
    method CanActivate(plan: Option<Policy>, context: ExecutionContext, logins: string -> Login) returns (verdict: Verdict)
      modifies context
      ensures plan.None? ==> verdict == Admitted
      ensures plan.Some? ==>
        IsVerdict(verdict, plan.value, context.hasRequest, if context.hasRequest then old(context.principal) else None, logins)
      ensures plan.None? || plan.value.public || plan.value.auth.None? || !context.hasRequest ==> unchanged(context)
      ensures plan.Some? && !plan.value.public && plan.value.auth.Some? && context.hasRequest ==>
        match logins(plan.value.auth.value)
        case Somebody(p) => context.principal == Some(p)
        case _ => unchanged(context)
    {
      if plan.None? || !HasPolicyRequirements(plan.value) {
        return Admitted;
      }
      var policy := plan.value;
      if policy.public {
        return Admitted;
      }
      var principal := context.GetPrincipal();
      if policy.auth.Some? {
        match logins(policy.auth.value) {
          case Unusable => return Misconfigured;
          case Nobody => return AuthenticationRequired;
          case Somebody(p) => principal := Some(p);
        }
        if !context.hasRequest {
          return AuthenticationRequired;
        }
        context.principal := principal;
      }
      if policy.roles != [] {
        if principal.None? {
          return AuthenticationRequired;
        }
        var missing := MissingFrom(policy.roles, principal.value.roles);
        if missing != [] {
          return Rejected(missing);
        }
      }
      if policy.permissions != [] {
        if principal.None? {
          return AuthenticationRequired;
        }
        var missing := MissingFrom(policy.permissions, principal.value.permissions);
        if missing != [] {
          return Rejected(missing);
        }
      }
      return Admitted;
    }
  }

  /** Every role and permission demanded is held by somebody. */
  predicate Satisfied(roles: seq<string>, permissions: seq<string>, who: Option<Principal>) {
    && (roles != [] || permissions != [] ==> who.Some?)
    && (forall x :: x in roles ==> x in who.value.roles)
    && (forall x :: x in permissions ==> x in who.value.permissions)
  }

  /** The verdict on a plan: which of the four, and when. */
  predicate IsVerdict(verdict: Verdict, plan: Policy, hasRequest: bool, carried: Option<Principal>, logins: string -> Login) {
    var who := Asked(plan.auth, carried, logins);
    var unidentified :=
      (plan.auth.Some? && (who.None? || !hasRequest)) || ((plan.roles != [] || plan.permissions != []) && who.None?);
    match verdict
    case Admitted => plan.public || (!unidentified && Satisfied(plan.roles, plan.permissions, who))
    case Misconfigured => !plan.public && plan.auth.Some? && logins(plan.auth.value).Unusable?
    case AuthenticationRequired => !plan.public && unidentified && (plan.auth.Some? ==> !logins(plan.auth.value).Unusable?)
    case Rejected(missing) =>
      && !plan.public && !unidentified
      && missing != [] && who.Some?
      && (missing == Missing(plan.roles, who.value.roles)
          || (Missing(plan.roles, who.value.roles) == [] && missing == Missing(plan.permissions, who.value.permissions)))
  }

  lemma OneVerdict(a: Verdict, b: Verdict, plan: Policy, hasRequest: bool, carried: Option<Principal>, logins: string -> Login)
    requires IsVerdict(a, plan, hasRequest, carried, logins) && IsVerdict(b, plan, hasRequest, carried, logins)
    ensures a == b
  {
    var who := Asked(plan.auth, carried, logins);
    if a.Rejected? || b.Rejected? {
      SatisfiedIffNothingMissing(plan, who.value);
    }
  }

  lemma SatisfiedIffNothingMissing(plan: Policy, who: Principal)
    ensures Satisfied(plan.roles, plan.permissions, Some(who)) <==>
      Missing(plan.roles, who.roles) == [] && Missing(plan.permissions, who.permissions) == []
  {
    var r, p := Missing(plan.roles, who.roles), Missing(plan.permissions, who.permissions);
    assert r != [] ==> r[0] in r;
    assert p != [] ==> p[0] in p;
  }

  /** Somebody has to be known, and is not. */
  predicate LacksSomebody(plan: Policy, hasRequest: bool, carried: Option<Principal>, logins: string -> Login) {
    match plan.auth
    case None => carried.None? && (plan.roles != [] || plan.permissions != [])
    case Some(strategy) => logins(strategy) == Nobody || (logins(strategy).Somebody? && !hasRequest)
  }

  /**
   Which refusal it is, read off the plan, the request and the login: nothing registered for the strategy;
   nobody known where somebody has to be; or what that somebody lacks, roles before permissions.
   */
  lemma RefusedAs(verdict: Verdict, plan: Policy, hasRequest: bool, carried: Option<Principal>, logins: string -> Login)
    requires IsVerdict(verdict, plan, hasRequest, carried, logins)
    ensures verdict == Misconfigured <==> !plan.public && plan.auth.Some? && logins(plan.auth.value) == Unusable
    ensures verdict == AuthenticationRequired <==> !plan.public && LacksSomebody(plan, hasRequest, carried, logins)
    ensures verdict.Rejected? ==>
      && !plan.public
      && (plan.auth.Some? ==> hasRequest && logins(plan.auth.value).Somebody?)
      && (plan.auth.None? ==> carried.Some?)
      && var who := if plan.auth.Some? then logins(plan.auth.value).principal else carried.value;
        && (exists x :: x in verdict.missing)
        && forall x :: x in verdict.missing <==>
          if exists role :: role in plan.roles && role !in who.roles then x in plan.roles && x !in who.roles
          else x in plan.permissions && x !in who.permissions
  {
    if verdict.Rejected? {
      var who := Asked(plan.auth, carried, logins).value;
      assert verdict.missing[0] in verdict.missing;
      var roles := Missing(plan.roles, who.roles);
      if roles != [] {
        assert roles[0] in roles;
      }
    } else if verdict.Admitted? && !plan.public && Asked(plan.auth, carried, logins).None? {
      assert plan.auth.None?;
    }
  }

  /** What is missing is listed in the order it is demanded in, as often as it is demanded. */
  lemma {:induction false} MissingInOrder(a: seq<string>, b: seq<string>, x: string, held: set<string>)
    ensures Missing(a + b, held) == Missing(a, held) + Missing(b, held)
    ensures Missing([x], held) == if x in held then [] else [x]
  {
    assert [x][..0] == [] && Missing([], held) == [];
    if b == [] {
      assert a + b == a;
      assert Missing(a, held) + [] == Missing(a, held);
    } else {
      assert (a + b)[..|a + b| - 1] == a + b[..|b| - 1];
      MissingInOrder(a, b[..|b| - 1], x, held);
    }
  }

  /** The verdict, were the plan not public, on a caller nobody knows. */
  predicate IsVerdictOnStranger(verdict: Verdict, p: Policy) {
    IsVerdict(verdict, p.(public := false), true, None, (strategy: string) => Nobody)
  }

  /** A declaration asks for access iff, were it not public, there is a caller it would turn away. */
  lemma AsksIffTurnsAway(p: Policy)
    ensures DeclaresAccessRequirements(p) <==> exists verdict :: verdict != Admitted && IsVerdictOnStranger(verdict, p)
    ensures DeclaresAccessRequirements(p) ==> HasPolicyRequirements(p)
    ensures HasPolicyRequirements(p) && !p.public ==> DeclaresAccessRequirements(p)
  {
    if DeclaresAccessRequirements(p) {
      assert IsVerdictOnStranger(AuthenticationRequired, p);
    } else {
      forall verdict | IsVerdictOnStranger(verdict, p) ensures verdict == Admitted {
        AdmittedIff(verdict, p.(public := false), true, None, (strategy: string) => Nobody);
      }
    }
  }

  lemma AdmittedIff(verdict: Verdict, plan: Policy, hasRequest: bool, carried: Option<Principal>, logins: string -> Login)
    requires IsVerdict(verdict, plan, hasRequest, carried, logins)
    ensures var who := Asked(plan.auth, carried, logins);
      verdict == Admitted <==>
      plan.public || ((plan.auth.Some? ==> hasRequest && who.Some?) && Satisfied(plan.roles, plan.permissions, who))
  {
    if verdict.Rejected? {
      SatisfiedIffNothingMissing(plan, Asked(plan.auth, carried, logins).value);
    }
  }

  // ---------------------------------------------------------------- the two-level rule

  /** Open to anybody: the handler says so, or the controller does and the handler asks for nothing. */
  predicate Open(controller: seq<Policy>, handler: seq<Policy>) {
    || (exists p :: p in handler && p.public)
    || ((exists p :: p in controller && p.public) && forall p :: p in handler ==> !DeclaresAccessRequirements(p))
  }

  /** Who may call a route, read off the declarations of its two levels. `strategy` is the last one declared. */
  predicate MayCall(controller: seq<Policy>, handler: seq<Policy>, strategy: Option<string>, hasRequest: bool,
                    carried: Option<Principal>, logins: string -> Login)
  {
    var who := Asked(strategy, carried, logins);
    || Open(controller, handler)
    || ((strategy.Some? ==> hasRequest && who.Some?)
        && forall p :: p in controller + handler ==> Satisfied(p.roles, p.permissions, who))
  }

  lemma DeclaresEither(a: Policy, b: Policy)
    ensures DeclaresAccessRequirements(Merge(a, b)) <==> DeclaresAccessRequirements(a) || DeclaresAccessRequirements(b)
  {
    assert |a.roles + b.roles| == |a.roles| + |b.roles|;
    assert |a.permissions + b.permissions| == |a.permissions| + |b.permissions|;
  }

  lemma {:induction false} DeclaresMerged(items: seq<Policy>)
    ensures DeclaresAccessRequirements(Merged(items)) <==> exists p :: p in items && DeclaresAccessRequirements(p)
  {
    if items != [] {
      var front, last := items[..|items| - 1], items[|items| - 1];
      assert items == front + [last];
      DeclaresMerged(front);
      DeclaresEither(Merged(front), last);
      assert forall p :: p in items <==> p in front || p == last;
    }
  }

  lemma {:induction false} SatisfiedMerged(items: seq<Policy>, who: Option<Principal>)
    ensures Satisfied(Merged(items).roles, Merged(items).permissions, who)
      <==> forall p :: p in items ==> Satisfied(p.roles, p.permissions, who)
  {
    if items != [] {
      var front, last := items[..|items| - 1], items[|items| - 1];
      assert items == front + [last];
      SatisfiedMerged(front, who);
      assert forall p :: p in items <==> p in front || p == last;
    }
  }

  /**
   What the compiled plan holds: everything the declarations of both levels merge to, controller first, and
   whether the route is open to anybody.
   */
  lemma CompiledPlanIs(controller: seq<Policy>, handler: seq<Policy>, registryReady: bool)
    requires Compile(Merged(controller), Merged(handler), registryReady).Some?
    ensures var plan, all := Compile(Merged(controller), Merged(handler), registryReady).value, Merged(controller + handler);
      && (plan.public <==> Open(controller, handler))
      && plan == Policy(all.auth, plan.public, all.roles, all.permissions, all.rateLimit, all.cacheTtl, all.idempotencyHeader,
                        all.auditEvent, all.owner, all.deprecation)
  {
    MergedConcat(controller, handler);
    OpenIffPublic(controller, handler);
    hide Merged, Open;
  }

  /** What is demanded is listed in the order it was declared in. */
  lemma DemandedInOrder(items: seq<Policy>, last: Policy)
    ensures Merged([]).roles == [] && Merged([]).permissions == []
    ensures Merged(items + [last]).roles == Merged(items).roles + last.roles
    ensures Merged(items + [last]).permissions == Merged(items).permissions + last.permissions
  {
    assert (items + [last])[..|items|] == items;
  }

  lemma LatestIsUnique<T>(s: seq<Option<T>>, a: Option<T>, b: Option<T>)
    requires IsLatest(s, a) && IsLatest(s, b)
    ensures a == b
  {
  }

  lemma OpenIffPublic(controller: seq<Policy>, handler: seq<Policy>)
    requires ResolvePublicPolicy(Merged(controller), Merged(handler)).Some?
    ensures ResolvePublicPolicy(Merged(controller), Merged(handler)).value <==> Open(controller, handler)
  {
    MergedMeaning(controller);
    MergedMeaning(handler);
    DeclaresMerged(handler);
  }

  /**
   Compilation preserves meaning: for every pair of levels the compiler takes, the guard on the compiled
   plan admits exactly whom the declarations let call the route.
   */
  lemma CompiledPlanDecidesAsDeclared(controller: seq<Policy>, handler: seq<Policy>, strategy: Option<string>,
                                      registryReady: bool, verdict: Verdict, hasRequest: bool,
                                      carried: Option<Principal>, logins: string -> Login)
    requires IsLatest(Each(controller + handler, AuthOf), strategy)
    requires Compile(Merged(controller), Merged(handler), registryReady).Some?
    requires IsVerdict(verdict, Compile(Merged(controller), Merged(handler), registryReady).value, hasRequest, carried, logins)
    ensures verdict == Admitted <==> MayCall(controller, handler, strategy, hasRequest, carried, logins)
  {
    hide Merge, Merged, IsLatest, ResolvePublicPolicy, Open, IsVerdict;
    var all := controller + handler;
    AdmittedIff(verdict, Compile(Merged(controller), Merged(handler), registryReady).value, hasRequest, carried, logins);
    MergedConcat(controller, handler);
    MergedMeaning(all);
    LatestIsUnique(Each(all, AuthOf), strategy, Merged(all).auth);
    OpenIffPublic(controller, handler);
    SatisfiedMerged(all, Asked(strategy, carried, logins));
  }

  predicate SelfContradicting(level: seq<Policy>) {
    (exists p :: p in level && p.public) && exists p :: p in level && DeclaresAccessRequirements(p)
  }

  lemma ContradictoryMerged(level: seq<Policy>)
    ensures Contradictory(Merged(level)) <==> SelfContradicting(level)
  {
    MergedMeaning(level);
    DeclaresMerged(level);
  }

  lemma {:induction false} SomeAuthIff(items: seq<Policy>)
    ensures Merged(items).auth.Some? <==> exists p :: p in items && p.auth.Some?
  {
    if items != [] {
      SomeAuthIff(items[..|items| - 1]);
      assert items == items[..|items| - 1] + [items[|items| - 1]];
    }
  }

  /** A route is refused iff a level contradicts itself, or it authenticates callers with no usable registry. */
  lemma RefusedIff(controller: seq<Policy>, handler: seq<Policy>, registryReady: bool)
    ensures Compile(Merged(controller), Merged(handler), registryReady) == None <==>
      || SelfContradicting(controller)
      || SelfContradicting(handler)
      || (!registryReady && !Open(controller, handler) && exists p :: p in controller + handler && p.auth.Some?)
  {
    hide Merge, Merged, SelfContradicting, Open, Contradictory;
    MergedConcat(controller, handler);
    ContradictoryMerged(controller);
    ContradictoryMerged(handler);
    if ResolvePublicPolicy(Merged(controller), Merged(handler)).Some? {
      OpenIffPublic(controller, handler);
    }
    SomeAuthIff(controller + handler);
  }

  /** The guard is left out only of a route that anybody may call. */
  lemma LeftOutOnlyWhereOpen(controller: seq<Policy>, handler: seq<Policy>, strategy: Option<string>, registryReady: bool,
                             hasRequest: bool, carried: Option<Principal>, logins: string -> Login)
    requires IsLatest(Each(controller + handler, AuthOf), strategy)
    requires Compile(Merged(controller), Merged(handler), registryReady).Some?
    requires !HasPolicy(Compile(Merged(controller), Merged(handler), registryReady).value)
    ensures MayCall(controller, handler, strategy, hasRequest, carried, logins)
  {
    hide Merge, Merged, ResolvePublicPolicy, Each, IsLatest, MayCall;
    var plan := Compile(Merged(controller), Merged(handler), registryReady).value;
    CompiledPlanDecidesAsDeclared(controller, handler, strategy, registryReady, Admitted, hasRequest, carried, logins);
  }
}
