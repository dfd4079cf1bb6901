/**
 The memo a route keeps its settled pipeline components in, and the resolution that reads it. The
 container is what it must agree with: asked afresh, it would answer the same.
 */
module PipelineMemos {
  import opened Options
  import opened OrderedDict

  /** An object the container built, or one that is new every time it is asked for. */
  datatype Instance = Made(id: nat) | NewOf(class_: string)

  datatype Contract = Guard | Pipe | Interceptor | Filter

  datatype ComponentKey = ComponentKey(owner: string, token: string, contract: Contract, global: bool)

  /** A declared component: one the container knows, an instance the author wrote out, or a plain class. */
  datatype Component =
    | Managed(owner: string, token: string, global: bool)
    | Written(instance: Instance)
    | Plain(class_: string)

  datatype Plan = Plan(guards: seq<Component>, pipes: seq<Component>, interceptors: seq<Component>, filters: seq<Component>) {
    predicate Declares() {
      guards != [] || pipes != [] || interceptors != [] || filters != []
    }
  }

  datatype Pipeline = Pipeline(guards: seq<Instance>, pipes: seq<Instance>, interceptors: seq<Instance>, filters: seq<Instance>)

  const EMPTY_PIPELINE := Pipeline([], [], [], [])
  const KEPT_PIPELINE_LIMIT := 8

  type Request = nat

  /**
   A container as a route sees it. `steady` names the singletons and fixed values; `answer` is what
   resolving a component for a request comes to, already expanded into the components it stands for.
   */
  datatype Container = Container(
    generation: int,
    started: bool,
    steady: (string, string) -> bool,
    answer: (Request, ComponentKey) -> seq<Instance>)
  {
    /** Resolving again would answer with the same objects. */
    predicate Settled(key: ComponentKey) {
      started && steady(key.owner, key.token)
    }

    /** What a singleton or fixed value resolves to does not depend on who asks. */
    ghost predicate Consistent() {
      forall key: ComponentKey, r: Request, q: Request :: steady(key.owner, key.token) ==> answer(r, key) == answer(q, key)
    }
  }

  // ---------------------------------------------------------------- resolving afresh

  function KeyOf(c: Component, contract: Contract): ComponentKey
    requires c.Managed?
  {
    ComponentKey(c.owner, c.token, contract, c.global)
  }

  function Afresh(w: Container, c: Component, contract: Contract, r: Request): seq<Instance> {
    match c
    case Managed(_, _, _) => w.answer(r, KeyOf(c, contract))
    case Written(i) => [i]
    case Plain(cls) => [NewOf(cls)]
  }

  function AllAfresh(w: Container, cs: seq<Component>, contract: Contract, r: Request): seq<Instance> {
    if cs == [] then [] else AllAfresh(w, cs[..|cs| - 1], contract, r) + Afresh(w, cs[|cs| - 1], contract, r)
  }

  function Fresh(w: Container, plan: Plan, r: Request): Pipeline {
    Pipeline(
      AllAfresh(w, plan.guards, Guard, r),
      AllAfresh(w, plan.pipes, Pipe, r),
      AllAfresh(w, plan.interceptors, Interceptor, r),
      AllAfresh(w, plan.filters, Filter, r))
  }

  predicate ComponentSettled(w: Container, c: Component, contract: Contract) {
    match c
    case Managed(_, _, _) => w.Settled(KeyOf(c, contract))
    case Written(_) => true
    case Plain(_) => false
  }

  predicate AllSettled(w: Container, cs: seq<Component>, contract: Contract) {
    forall i :: 0 <= i < |cs| ==> ComponentSettled(w, cs[i], contract)
  }

  predicate PlanSettled(w: Container, plan: Plan) {
    AllSettled(w, plan.guards, Guard) && AllSettled(w, plan.pipes, Pipe) &&
    AllSettled(w, plan.interceptors, Interceptor) && AllSettled(w, plan.filters, Filter)
  }

  lemma AfreshAppended(w: Container, cs: seq<Component>, c: Component, contract: Contract, r: Request)
    ensures AllAfresh(w, cs + [c], contract, r) == AllAfresh(w, cs, contract, r) + Afresh(w, c, contract, r)
  {
    assert (cs + [c])[..|cs|] == cs;
  }

  lemma {:induction false} AfreshConcat(w: Container, a: seq<Component>, b: seq<Component>, contract: Contract, r: Request)
    ensures AllAfresh(w, a + b, contract, r) == AllAfresh(w, a, contract, r) + AllAfresh(w, b, contract, r)
  {
    if b == [] {
      assert a + b == a;
      assert AllAfresh(w, b, contract, r) == [];
    } else {
      AfreshConcat(w, a, b[..|b| - 1], contract, r);
      OneBehind(w, a, b[..|b| - 1], b[|b| - 1], contract, r);
      assert b == b[..|b| - 1] + [b[|b| - 1]];
    }
  }

  lemma OneBehind(w: Container, a: seq<Component>, b: seq<Component>, c: Component, contract: Contract, r: Request)
    requires AllAfresh(w, a + b, contract, r) == AllAfresh(w, a, contract, r) + AllAfresh(w, b, contract, r)
    ensures AllAfresh(w, a + (b + [c]), contract, r) == AllAfresh(w, a, contract, r) + AllAfresh(w, b + [c], contract, r)
  {
    hide AllAfresh, Afresh;
    assert a + (b + [c]) == (a + b) + [c];
    AfreshAppended(w, b, c, contract, r);
    AfreshAppended(w, a + b, c, contract, r);
  }

  /**
   Components come in the order they are declared in: one the container knows as whatever it answers with for
   the component's owner, token, slot and reach, an instance as itself, and a plain class as a new object.
   */
  lemma ResolvedInOrder(w: Container, a: seq<Component>, c: Component, b: seq<Component>, contract: Contract, r: Request) returns (here: seq<Instance>)
    ensures AllAfresh(w, [], contract, r) == []
    ensures AllAfresh(w, a + [c] + b, contract, r) == AllAfresh(w, a, contract, r) + here + AllAfresh(w, b, contract, r)
    ensures c.Managed? ==> here == w.answer(r, ComponentKey(c.owner, c.token, contract, c.global))
    ensures c.Written? ==> here == [c.instance]
    ensures c.Plain? ==> here == [NewOf(c.class_)]
  {
    here := Afresh(w, c, contract, r);
    AfreshConcat(w, a + [c], b, contract, r);
    AfreshConcat(w, a, [c], contract, r);
    assert [c][..0] == [];
    assert AllAfresh(w, [c], contract, r) == AllAfresh(w, [], contract, r) + Afresh(w, c, contract, r) == Afresh(w, c, contract, r);
    assert AllAfresh(w, a + [c] + b, contract, r) == AllAfresh(w, a, contract, r) + Afresh(w, c, contract, r) + AllAfresh(w, b, contract, r);
  }

  /** Resolving again is bound to give the same iff no class is built anew and whatever is managed is steady in a started container. */
  lemma SettledIff(w: Container, cs: seq<Component>, contract: Contract)
    ensures AllSettled(w, cs, contract) <==>
      forall i :: 0 <= i < |cs| ==> !cs[i].Plain? && (cs[i].Managed? ==> w.started && w.steady(cs[i].owner, cs[i].token))
  {
    if forall i :: 0 <= i < |cs| ==> !cs[i].Plain? && (cs[i].Managed? ==> w.started && w.steady(cs[i].owner, cs[i].token)) {
      forall i | 0 <= i < |cs| ensures ComponentSettled(w, cs[i], contract) {
      }
    } else {
      var i :| 0 <= i < |cs| && !(!cs[i].Plain? && (cs[i].Managed? ==> w.started && w.steady(cs[i].owner, cs[i].token)));
      assert !ComponentSettled(w, cs[i], contract);
    }
  }

  lemma {:induction false} SettledForEveryone(w: Container, cs: seq<Component>, contract: Contract, r: Request, q: Request)
    requires w.Consistent() && AllSettled(w, cs, contract)
    ensures AllAfresh(w, cs, contract, r) == AllAfresh(w, cs, contract, q)
  {
    if cs != [] {
      SettledForEveryone(w, cs[..|cs| - 1], contract, r, q);
    }
  }

  /** A settled plan resolves to one pipeline, whoever asks. */
  lemma SettledPlanForEveryone(w: Container, plan: Plan, r: Request, q: Request)
    requires w.Consistent() && PlanSettled(w, plan)
    ensures Fresh(w, plan, r) == Fresh(w, plan, q)
  {
    SettledForEveryone(w, plan.guards, Guard, r, q);
    SettledForEveryone(w, plan.pipes, Pipe, r, q);
    SettledForEveryone(w, plan.interceptors, Interceptor, r, q);
    SettledForEveryone(w, plan.filters, Filter, r, q);
  }

  // ---------------------------------------------------------------- the memo

  type ContainerId = nat
  type Address = nat

  datatype Memo = Memo(
    container: Option<ContainerId>,
    generation: int,
    entries: map<ComponentKey, seq<Instance>>,
    pipelines: map<Address, (Plan, Pipeline)>)

  const EMPTY_MEMO := Memo(None, -1, map[], map[])

  /** Empties the memo when it is holding instances a container no longer has. */
  function Followed(m: Memo, c: ContainerId, generation: int): Memo {
    if m.container == Some(c) && m.generation == generation then m else Memo(Some(c), generation, map[], map[])
  }

  function WithPipeline(m: Memo, at: Address, plan: Plan, pipeline: Pipeline): Memo {
    m.(pipelines := (if |m.pipelines| >= KEPT_PIPELINE_LIMIT then map[] else m.pipelines)[at := (plan, pipeline)])
  }

  /** The memo goes on holding what it holds iff it was kept for the same run of the same container. */
  lemma FollowedKeepsIff(m: Memo, c: ContainerId, generation: int)
    ensures var f := Followed(m, c, generation);
      && f.container == Some(c) && f.generation == generation
      && (f.entries == m.entries && f.pipelines == m.pipelines
          <==> (m.container == Some(c) && m.generation == generation) || (m.entries == map[] && m.pipelines == map[]))
      && (f.entries != m.entries || f.pipelines != m.pipelines ==> f.entries == map[] && f.pipelines == map[])
  {
  }

  class PipelineMemo {
    var memo: Memo

    constructor ()
      ensures memo == EMPTY_MEMO
    {
      memo := EMPTY_MEMO;
    }

    method Follow(c: ContainerId, generation: int)
      modifies this
      ensures memo == Followed(old(memo), c, generation)
    {
      if memo.container == Some(c) && generation == memo.generation {
        return;
      }
      memo := memo.(entries := map[], pipelines := map[]);
      memo := memo.(container := Some(c), generation := generation);
    }

    method Get(c: ContainerId, generation: int, key: ComponentKey) returns (kept: Option<seq<Instance>>)
      modifies this
      ensures memo == Followed(old(memo), c, generation)
      ensures kept == if key in memo.entries then Some(memo.entries[key]) else None
    {
      Follow(c, generation);
      kept := if key in memo.entries then Some(memo.entries[key]) else None;
    }

    method Keep(c: ContainerId, generation: int, key: ComponentKey, instances: seq<Instance>)
      modifies this
      ensures var m := Followed(old(memo), c, generation); memo == m.(entries := m.entries[key := instances])
    {
      Follow(c, generation);
      memo := memo.(entries := memo.entries[key := instances]);
    }

    /** The plan is looked up by the identity of the object it is, never by what it declares. */
    method GetPipeline(c: ContainerId, generation: int, at: Address) returns (kept: Option<Pipeline>)
      modifies this
      ensures memo == Followed(old(memo), c, generation)
      ensures kept == if at in memo.pipelines then Some(memo.pipelines[at].1) else None
    {
      Follow(c, generation);
      kept := if at in memo.pipelines then Some(memo.pipelines[at].1) else None;
    }

    method KeepPipeline(c: ContainerId, generation: int, at: Address, plan: Plan, pipeline: Pipeline)
      modifies this
      ensures memo == WithPipeline(Followed(old(memo), c, generation), at, plan, pipeline)
    {
      Follow(c, generation);
      if |memo.pipelines| >= KEPT_PIPELINE_LIMIT {
        memo := memo.(pipelines := map[]);
      }
      memo := memo.(pipelines := memo.pipelines[at := (plan, pipeline)]);
    }
  }

  // ---------------------------------------------------------------- what a memo may hold

  /** What is kept for the container's current generation is what the container would answer now. */
  ghost predicate Truthful(m: Memo, c: ContainerId, w: Container, live: map<Address, Plan>) {
    m.container == Some(c) && m.generation == w.generation ==>
      && (forall key :: key in m.entries ==> w.Settled(key) && forall r :: m.entries[key] == w.answer(r, key))
      && (forall at :: at in m.pipelines ==>
        at in live && live[at] == m.pipelines[at].0 && PlanSettled(w, live[at]) && forall r :: m.pipelines[at].1 == Fresh(w, live[at], r))
  }

  lemma FollowingStaysTruthful(m: Memo, c: ContainerId, w: Container, live: map<Address, Plan>)
    requires Truthful(m, c, w, live)
    ensures Truthful(Followed(m, c, w.generation), c, w, live)
    ensures var f := Followed(m, c, w.generation); f.container == Some(c) && f.generation == w.generation
  {
  }

  /** A pipeline kept makes room by dropping all the others, and only once the table is full. */
  lemma KeptBesides(m: Memo, at: Address, plan: Plan, pipeline: Pipeline, other: Address)
    requires |m.pipelines| <= KEPT_PIPELINE_LIMIT
    ensures var n := WithPipeline(m, at, plan, pipeline);
      && at in n.pipelines && n.pipelines[at] == (plan, pipeline) && |n.pipelines| <= KEPT_PIPELINE_LIMIT
      && n.entries == m.entries && n.container == m.container && n.generation == m.generation
      && (other != at ==> (other in n.pipelines <==> other in m.pipelines && |m.pipelines| < KEPT_PIPELINE_LIMIT))
      && (other != at && other in n.pipelines ==> n.pipelines[other] == m.pipelines[other])
  {
  }

  lemma OneMore(w: Container, cs: seq<Component>, contract: Contract, r: Request, i: nat)
    requires i < |cs|
    ensures AllAfresh(w, cs[..i + 1], contract, r) == AllAfresh(w, cs[..i], contract, r) + Afresh(w, cs[i], contract, r)
    ensures AllSettled(w, cs[..i + 1], contract) <==> AllSettled(w, cs[..i], contract) && ComponentSettled(w, cs[i], contract)
  {
    assert cs[..i + 1] == cs[..i] + [cs[i]];
    assert cs[..i + 1][..i] == cs[..i];
  }

  lemma KeptAnswers(m: Memo, c: ContainerId, w: Container, live: map<Address, Plan>, key: ComponentKey, r: Request)
    requires Truthful(m, c, w, live) && m.container == Some(c) && m.generation == w.generation && key in m.entries
    ensures w.Settled(key) && m.entries[key] == w.answer(r, key)
  {
  }

  lemma KeepingStaysTruthful(m: Memo, c: ContainerId, w: Container, live: map<Address, Plan>, key: ComponentKey, r: Request)
    requires Truthful(m, c, w, live) && w.Consistent() && w.Settled(key)
    ensures Truthful(m.(entries := m.entries[key := w.answer(r, key)]), c, w, live)
  {
  }

  lemma KeptPipelineAnswers(m: Memo, c: ContainerId, w: Container, live: map<Address, Plan>, at: Address, r: Request)
    requires Truthful(m, c, w, live) && m.container == Some(c) && m.generation == w.generation && at in m.pipelines
    ensures at in live && m.pipelines[at].1 == Fresh(w, live[at], r)
  {
  }

  lemma KeepingPipelineStaysTruthful(m: Memo, c: ContainerId, w: Container, live: map<Address, Plan>, at: Address, r: Request)
    requires Truthful(m, c, w, live) && w.Consistent() && at in live && PlanSettled(w, live[at])
    ensures Truthful(WithPipeline(m, at, live[at], Fresh(w, live[at], r)), c, w, live)
  {
    forall q: Request ensures Fresh(w, live[at], q) == Fresh(w, live[at], r) {
      SettledPlanForEveryone(w, live[at], r, q);
    }
  }

  // ---------------------------------------------------------------- what is added to it

  /** A settled component among these that the container knows. */
  ghost predicate SettledAmong(w: Container, cs: seq<Component>, contract: Contract, key: ComponentKey) {
    w.Settled(key) && exists i :: 0 <= i < |cs| && cs[i].Managed? && KeyOf(cs[i], contract) == key
  }

  /** Exactly the settled components are held besides, and the same pipelines. */
  ghost predicate Remembers(m: Memo, n: Memo, w: Container, cs: seq<Component>, contract: Contract) {
    && (forall key :: key in n.entries <==> key in m.entries || SettledAmong(w, cs, contract, key))
    && n.pipelines == m.pipelines
  }

  lemma RemembersOneMore(m: Memo, n: Memo, o: Memo, w: Container, cs: seq<Component>, contract: Contract, i: nat)
    requires i < |cs| && Remembers(m, n, w, cs[..i], contract) && Remembers(n, o, w, [cs[i]], contract)
    ensures Remembers(m, o, w, cs[..i + 1], contract)
  {
    forall key ensures SettledAmong(w, cs[..i + 1], contract, key) <==> SettledAmong(w, cs[..i], contract, key) || SettledAmong(w, [cs[i]], contract, key) {
      if SettledAmong(w, cs[..i + 1], contract, key) {
        var j :| 0 <= j < i + 1 && cs[..i + 1][j].Managed? && KeyOf(cs[..i + 1][j], contract) == key;
        assert j < i ==> cs[..i][j] == cs[..i + 1][j];
        assert j == i ==> [cs[i]][0] == cs[..i + 1][j];
      }
      if SettledAmong(w, cs[..i], contract, key) {
        var j :| 0 <= j < i && cs[..i][j].Managed? && KeyOf(cs[..i][j], contract) == key;
        assert cs[..i + 1][j] == cs[..i][j];
      }
      if SettledAmong(w, [cs[i]], contract, key) {
        assert cs[..i + 1][i] == cs[i];
      }
    }
  }

  /** Every component of these that the container knows is held. */
  ghost predicate AllHeld(m: Memo, cs: seq<Component>, contract: Contract) {
    forall i :: 0 <= i < |cs| && cs[i].Managed? ==> KeyOf(cs[i], contract) in m.entries
  }

  lemma AllHeldOneMore(m: Memo, cs: seq<Component>, contract: Contract, i: nat)
    requires i < |cs|
    ensures AllHeld(m, cs[..i + 1], contract) <==> AllHeld(m, cs[..i], contract) && (cs[i].Managed? ==> KeyOf(cs[i], contract) in m.entries)
  {
    assert cs[..i + 1] == cs[..i] + [cs[i]];
  }

  lemma RemembersNothing(m: Memo, w: Container, cs: seq<Component>, contract: Contract, r: Request)
    requires cs == []
    ensures Remembers(m, m, w, cs, contract) && AllHeld(m, cs, contract)
    ensures AllAfresh(w, cs, contract, r) == [] && AllSettled(w, cs, contract)
  {
  }

  /** What one component the container may know adds. */
  lemma RemembersThis(m: Memo, n: Memo, w: Container, c: Component, contract: Contract)
    requires n.pipelines == m.pipelines
    requires forall k :: k in n.entries <==> k in m.entries || (c.Managed? && k == KeyOf(c, contract) && w.Settled(k))
    ensures Remembers(m, n, w, [c], contract)
  {
    forall k ensures SettledAmong(w, [c], contract, k) <==> c.Managed? && k == KeyOf(c, contract) && w.Settled(k) {
      assert [c][0] == c;
    }
  }

  /** A component newly held was not held when the first of these was resolved. */
  lemma NewlyHeld(m: Memo, n: Memo, w: Container, cs: seq<Component>, contract: Contract, key: ComponentKey)
    requires Remembers(m, n, w, cs, contract)
    ensures key in m.entries ==> key in n.entries
    ensures key in n.entries && key !in m.entries ==> !AllHeld(m, cs, contract)
  {
  }

  ghost predicate SettledInPlan(w: Container, plan: Plan, key: ComponentKey) {
    || SettledAmong(w, plan.guards, Guard, key) || SettledAmong(w, plan.pipes, Pipe, key)
    || SettledAmong(w, plan.interceptors, Interceptor, key) || SettledAmong(w, plan.filters, Filter, key)
  }

  ghost predicate PlanHeld(m: Memo, plan: Plan) {
    && AllHeld(m, plan.guards, Guard) && AllHeld(m, plan.pipes, Pipe)
    && AllHeld(m, plan.interceptors, Interceptor) && AllHeld(m, plan.filters, Filter)
  }

  lemma NothingDeclared(m: Memo, w: Container, plan: Plan)
    requires !plan.Declares()
    ensures PlanHeld(m, plan) && forall key :: !SettledInPlan(w, plan, key)
  {
  }

  /** What one slot of the pipeline adds is not looked for by another. */
  lemma SlotsApart(m: Memo, n: Memo, w: Container, cs: seq<Component>, contract: Contract, ds: seq<Component>, other: Contract)
    requires Remembers(m, n, w, cs, contract) && contract != other
    ensures AllHeld(n, ds, other) <==> AllHeld(m, ds, other)
  {
  }

  // ---------------------------------------------------------------- one request's resolution

  class ControllerFactory {
    const container: ContainerId
    const memo: PipelineMemo
    /** What the container was asked to resolve, in order. */
    ghost var asked: seq<ComponentKey>

    constructor (container: ContainerId, memo: PipelineMemo)
      ensures this.container == container && this.memo == memo && asked == []
    {
      this.container, this.memo, asked := container, memo, [];
    }

    /** What the memo holds for the container as it is. */
    ghost function Held(w: Container): Memo
      reads memo
    {
      Followed(memo.memo, container, w.generation)
    }

    method Ask(w: Container, key: ComponentKey, r: Request) returns (instances: seq<Instance>)
      modifies this`asked
      ensures instances == w.answer(r, key) && asked == old(asked) + [key]
    {
      asked := asked + [key];
      instances := w.answer(r, key);
    }

    /** A component the container knows: from the memo if kept, and kept if it is settled. */
    method ResolveManaged(w: Container, ghost live: map<Address, Plan>, key: ComponentKey, r: Request)
      returns (instances: seq<Instance>, settled: bool)
      requires w.Consistent() && Truthful(memo.memo, container, w, live)
      modifies memo, this`asked
      ensures Truthful(memo.memo, container, w, live)
      ensures instances == w.answer(r, key)
      ensures settled <==> w.Settled(key)
      ensures asked == if key in old(Held(w)).entries then old(asked) else old(asked) + [key]
      ensures forall k :: k in Held(w).entries <==> k in old(Held(w)).entries || (k == key && w.Settled(key))
      ensures Held(w).pipelines == old(Held(w)).pipelines
    {
      hide Truthful;
      FollowingStaysTruthful(memo.memo, container, w, live);
      var kept := memo.Get(container, w.generation, key);
      if kept.Some? {
        KeptAnswers(memo.memo, container, w, live, key, r);
        return kept.value, true;
      }
      instances := Ask(w, key, r);
      settled := w.Settled(key);
      if settled {
        KeepingStaysTruthful(memo.memo, container, w, live, key, r);
        memo.Keep(container, w.generation, key, instances);
      }
    }

    /** Components in declaration order, and whether the next request would be handed these same instances. */
    method ResolveComponents(w: Container, ghost live: map<Address, Plan>, cs: seq<Component>, contract: Contract, r: Request)
      returns (resolved: seq<Instance>, settled: bool)
      requires w.Consistent() && Truthful(memo.memo, container, w, live)
      modifies memo, this`asked
      ensures Truthful(memo.memo, container, w, live)
      ensures resolved == AllAfresh(w, cs, contract, r)
      ensures settled <==> AllSettled(w, cs, contract)
      ensures Remembers(old(Held(w)), Held(w), w, cs, contract)
      ensures old(asked) <= asked && (asked == old(asked) <==> AllHeld(old(Held(w)), cs, contract))
    {
      hide Truthful, AllAfresh, AllSettled, Remembers, AllHeld, Followed;
      resolved, settled := [], true;
      var i := 0;
      ghost var before := Held(w);
      RemembersNothing(before, w, cs[..0], contract, r);
      while i < |cs|
        invariant i <= |cs|
        invariant Truthful(memo.memo, container, w, live)
        invariant resolved == AllAfresh(w, cs[..i], contract, r)
        invariant settled <==> AllSettled(w, cs[..i], contract)
        invariant Remembers(before, Held(w), w, cs[..i], contract)
        invariant old(asked) <= asked && (asked == old(asked) <==> AllHeld(before, cs[..i], contract))
      {
        var instances, one;
        ghost var held := Held(w);
        match cs[i] {
          case Written(instance) => instances, one := [instance], true;
          case Plain(cls) => instances, one := [NewOf(cls)], false;
          case Managed(_, _, _) => instances, one := ResolveManaged(w, live, KeyOf(cs[i], contract), r);
        }
        OneMore(w, cs, contract, r, i);
        RemembersThis(held, Held(w), w, cs[i], contract);
        RemembersOneMore(before, held, Held(w), w, cs, contract, i);
        AllHeldOneMore(before, cs, contract, i);
        if cs[i].Managed? {
          NewlyHeld(before, held, w, cs[..i], contract, KeyOf(cs[i], contract));
        }
        resolved := resolved + instances;
        settled := settled && one;
        i := i + 1;
      }
      assert cs[..i] == cs;
    }

    /**
     The pipeline one request is served through, for which a plan kept whole asks the container nothing.
     `overrides` is the test support's substitution, if any.
     */
    method ResolvePipeline(w: Container, ghost live: map<Address, Plan>, at: Address, plan: Plan, overrides: Option<Plan -> Plan>, r: Request)
      returns (pipeline: Pipeline)
      requires w.Consistent() && Truthful(memo.memo, container, w, live)
      requires at in live && live[at] == plan
      modifies memo, this`asked
      ensures Truthful(memo.memo, container, w, live)
      ensures pipeline == Fresh(w, if overrides.Some? then overrides.value(plan) else plan, r)
      ensures overrides.None? && at in old(Held(w)).pipelines ==> asked == old(asked)
      ensures overrides.None? && plan.Declares() && PlanSettled(w, plan) ==> at in Held(w).pipelines
      ensures Held(w).pipelines ==
        if overrides.None? && plan.Declares() && PlanSettled(w, plan) && at !in old(Held(w)).pipelines
        then WithPipeline(old(Held(w)), at, plan, pipeline).pipelines
        else old(Held(w)).pipelines
      ensures overrides.Some? || at !in old(Held(w)).pipelines ==>
        var declared := if overrides.Some? then overrides.value(plan) else plan;
        && (asked == old(asked) <==> PlanHeld(old(Held(w)), declared))
        && forall key :: key in Held(w).entries <==> key in old(Held(w)).entries || SettledInPlan(w, declared, key)
    {
      hide Truthful, AllHeld, SettledAmong;
      var declared := if overrides.Some? then overrides.value(plan) else plan;
      ghost var before := Held(w);
      if !declared.Declares() {
        NothingDeclared(before, w, declared);
        return EMPTY_PIPELINE;
      }
      if overrides.None? {
        FollowingStaysTruthful(memo.memo, container, w, live);
        var kept := memo.GetPipeline(container, w.generation, at);
        if kept.Some? {
          KeptPipelineAnswers(memo.memo, container, w, live, at, r);
          return kept.value;
        }
      }
      var guards, g := ResolveComponents(w, live, declared.guards, Guard, r);
      ghost var first := Held(w);
      SlotsApart(before, first, w, declared.guards, Guard, declared.pipes, Pipe);
      SlotsApart(before, first, w, declared.guards, Guard, declared.interceptors, Interceptor);
      SlotsApart(before, first, w, declared.guards, Guard, declared.filters, Filter);
      var pipes, p := ResolveComponents(w, live, declared.pipes, Pipe, r);
      ghost var second := Held(w);
      SlotsApart(first, second, w, declared.pipes, Pipe, declared.interceptors, Interceptor);
      SlotsApart(first, second, w, declared.pipes, Pipe, declared.filters, Filter);
      var interceptors, i := ResolveComponents(w, live, declared.interceptors, Interceptor, r);
      SlotsApart(second, Held(w), w, declared.interceptors, Interceptor, declared.filters, Filter);
      var filters, f := ResolveComponents(w, live, declared.filters, Filter, r);
      pipeline := Pipeline(guards, pipes, interceptors, filters);
      if overrides.None? && g && p && i && f {
        FollowingStaysTruthful(memo.memo, container, w, live);
        KeepingPipelineStaysTruthful(Followed(memo.memo, container, w.generation), container, w, live, at, r);
        memo.KeepPipeline(container, w.generation, at, plan, pipeline);
      }
    }
  }
}
