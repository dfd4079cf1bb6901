/**
 One route's memo over whole runs: requests of several containers interleaved with starts, shutdowns,
 overrides, and plans being built and thrown away. A request resolves over some time, and what it keeps
 it may have resolved from the container as it was at any moment since it began.
 */
module MemoHistory {
  import opened Options
  import opened OrderedDict
  import opened PipelineMemos

  // ---------------------------------------------------------------- a container as time passes

  /** Before the start an override may change what is answered. */
  ghost predicate Overridden(v: Container, w: Container) {
    !v.started && !w.started && w.generation == v.generation && w.Consistent()
  }

  /** A shutdown begins a new generation, to be started again. */
  ghost predicate HasShutDown(v: Container, w: Container) {
    !w.started && w.generation == v.generation + 1 && w.Consistent()
  }

  ghost predicate Turns(v: Container, w: Container) {
    w == v.(started := true) || Overridden(v, w) || HasShutDown(v, w)
  }

  ghost predicate Becomes(v: Container, w: Container, steps: nat)
    decreases steps
  {
    if steps == 0 then v == w else exists x :: Becomes(v, x, steps - 1) && Turns(x, w)
  }

  /** Some run of starts, overrides and shutdowns takes a container there. */
  ghost predicate Reachable(v: Container, w: Container) {
    exists steps: nat :: Becomes(v, w, steps)
  }

  /** What a container may have become: anything of a later generation, or of this one if it has not started. */
  ghost predicate Later(v: Container, w: Container) {
    v == w || (w.Consistent() && (w.generation > v.generation || (w.generation == v.generation && !v.started)))
  }

  lemma LaterYet(a: Container, b: Container, c: Container)
    requires Later(a, b) && Later(b, c)
    ensures Later(a, c)
  {
  }

  lemma {:induction false} BecomesLater(v: Container, w: Container, steps: nat)
    requires v.Consistent() && Becomes(v, w, steps)
    ensures w.Consistent() && Later(v, w)
    decreases steps
  {
    if steps > 0 {
      var x :| Becomes(v, x, steps - 1) && Turns(x, w);
      BecomesLater(v, x, steps - 1);
      assert w == x.(started := true) ==> w.answer == x.answer && w.steady == x.steady;
    }
  }

  lemma OneTurnMore(v: Container, x: Container, w: Container, steps: nat)
    requires Becomes(v, x, steps) && Turns(x, w)
    ensures Becomes(v, w, steps + 1)
  {
  }

  /** As many shutdowns as there are generations between, and the last one leaves what is wanted. */
  lemma {:induction false} ShutDownsReach(v: Container, w: Container) returns (steps: nat)
    requires w.Consistent() && !w.started && w.generation > v.generation
    ensures Becomes(v, w, steps)
    decreases w.generation - v.generation
  {
    if w.generation == v.generation + 1 {
      assert Becomes(v, v, 0);
      OneTurnMore(v, v, w, 0);
      steps := 1;
    } else {
      var x := w.(generation := w.generation - 1);
      assert forall key: ComponentKey, r: Request :: x.answer(r, key) == w.answer(r, key) && x.steady == w.steady;
      var n := ShutDownsReach(v, x);
      OneTurnMore(v, x, w, n);
      steps := n + 1;
    }
  }

  lemma LaterIsReached(v: Container, w: Container) returns (steps: nat)
    requires Later(v, w)
    ensures Becomes(v, w, steps)
  {
    if v == w {
      return 0;
    }
    var x := w.(started := false);
    assert forall key: ComponentKey, r: Request :: x.answer(r, key) == w.answer(r, key) && x.steady == w.steady;
    if w.generation > v.generation {
      steps := ShutDownsReach(v, x);
    } else {
      assert Becomes(v, v, 0);
      OneTurnMore(v, v, x, 0);
      steps := 1;
    }
    if w.started {
      OneTurnMore(v, x, w, steps);
      steps := steps + 1;
    } else {
      assert x == w;
    }
  }

  /** A container may have become another iff some run of starts, overrides and shutdowns takes it there. */
  lemma LaterIffReached(v: Container, w: Container)
    requires v.Consistent()
    ensures Later(v, w) <==> Reachable(v, w)
  {
    hide Later;
    if Later(v, w) {
      var steps := LaterIsReached(v, w);
      assert Becomes(v, w, steps);
    }
    if Reachable(v, w) {
      var steps: nat :| Becomes(v, w, steps);
      BecomesLater(v, w, steps);
    }
  }

  // ---------------------------------------------------------------- resolving over time

  /** A key resolved at some moment between two states of a container. */
  ghost predicate Between(v: Container, w: Container, key: ComponentKey, r: Request, instances: seq<Instance>) {
    exists x :: Later(v, x) && Later(x, w) && instances == x.answer(r, key)
  }

  ghost predicate OneBetween(v: Container, w: Container, c: Component, contract: Contract, r: Request, instances: seq<Instance>) {
    if c.Managed? then Between(v, w, KeyOf(c, contract), r, instances) else instances == Afresh(w, c, contract, r)
  }

  /** Components resolved one by one, each at a moment of its own. */
  ghost predicate AllBetween(v: Container, w: Container, cs: seq<Component>, contract: Contract, r: Request, resolved: seq<Instance>) {
    if cs == [] then resolved == []
    else exists front, last ::
      && AllBetween(v, w, cs[..|cs| - 1], contract, r, front)
      && OneBetween(v, w, cs[|cs| - 1], contract, r, last)
      && resolved == front + last
  }

  ghost predicate WholeBetween(v: Container, w: Container, plan: Plan, r: Request, pipeline: Pipeline) {
    && AllBetween(v, w, plan.guards, Guard, r, pipeline.guards)
    && AllBetween(v, w, plan.pipes, Pipe, r, pipeline.pipes)
    && AllBetween(v, w, plan.interceptors, Interceptor, r, pipeline.interceptors)
    && AllBetween(v, w, plan.filters, Filter, r, pipeline.filters)
  }

  /** The container has started, and the generation it is in now is the one it was in. */
  predicate SameRun(v: Container, w: Container) {
    v.started && v.generation == w.generation
  }

  lemma {:induction false} AllBetweenSame(v: Container, w: Container, cs: seq<Component>, contract: Contract, r: Request, resolved: seq<Instance>)
    requires SameRun(v, w) && AllBetween(v, w, cs, contract, r, resolved)
    ensures resolved == AllAfresh(w, cs, contract, r)
  {
    if cs != [] {
      var front, last :| AllBetween(v, w, cs[..|cs| - 1], contract, r, front)
        && OneBetween(v, w, cs[|cs| - 1], contract, r, last) && resolved == front + last;
      AllBetweenSame(v, w, cs[..|cs| - 1], contract, r, front);
    }
  }

  /** Within one run of a container a pipeline is the current one, whenever its parts were resolved. */
  lemma WholeBetweenSame(v: Container, w: Container, plan: Plan, r: Request, pipeline: Pipeline)
    requires SameRun(v, w) && WholeBetween(v, w, plan, r, pipeline)
    ensures pipeline == Fresh(w, plan, r)
  {
    hide AllBetween, AllAfresh, SameRun;
    AllBetweenSame(v, w, plan.guards, Guard, r, pipeline.guards);
    AllBetweenSame(v, w, plan.pipes, Pipe, r, pipeline.pipes);
    AllBetweenSame(v, w, plan.interceptors, Interceptor, r, pipeline.interceptors);
    AllBetweenSame(v, w, plan.filters, Filter, r, pipeline.filters);
  }

  lemma {:induction false} AllBetweenAnywhere(v: Container, w: Container, cs: seq<Component>, contract: Contract, r: Request, resolved: seq<Instance>)
    requires AllBetween(v, w, cs, contract, r, resolved) && forall i :: 0 <= i < |cs| ==> !cs[i].Managed?
    ensures resolved == AllAfresh(w, cs, contract, r)
  {
    if cs != [] {
      var front, last :| AllBetween(v, w, cs[..|cs| - 1], contract, r, front)
        && OneBetween(v, w, cs[|cs| - 1], contract, r, last) && resolved == front + last;
      AllBetweenAnywhere(v, w, cs[..|cs| - 1], contract, r, front);
    }
  }

  lemma {:induction false} AllAtOnce(v: Container, w: Container, cs: seq<Component>, contract: Contract, r: Request)
    requires Later(v, w)
    ensures AllBetween(v, w, cs, contract, r, AllAfresh(v, cs, contract, r))
  {
    if cs != [] {
      AllAtOnce(v, w, cs[..|cs| - 1], contract, r);
      assert Later(v, v);
      assert OneBetween(v, w, cs[|cs| - 1], contract, r, Afresh(v, cs[|cs| - 1], contract, r));
    }
  }

  // ---------------------------------------------------------------- runs

  /**
   `live` names the plan object at each address in use; an address is reused once its plan is gone.
   `begun` is each container as it was when it began to resolve for a request.
   */
  datatype State = State(
    memo: Memo,
    containers: map<ContainerId, Container>,
    live: map<Address, Plan>,
    begun: map<(ContainerId, Request), Container>)

  datatype Event =
    | Allocate(at: Address, plan: Plan)
    | Free(at: Address)
    | Create(c: ContainerId, w: Container)
    | StartUp(c: ContainerId)
    | Override(c: ContainerId, w: Container)
    | ShutDown(c: ContainerId, w: Container)
    | Begin(c: ContainerId, r: Request)
    | LookUp(c: ContainerId)
    | KeepOne(c: ContainerId, r: Request, key: ComponentKey, instances: seq<Instance>)
    | KeepWhole(c: ContainerId, r: Request, at: Address, pipeline: Pipeline)

  type Events = Trail<Event>

  function CurrentMemo(s: State, c: ContainerId): Memo
    requires c in s.containers
  {
    Followed(s.memo, c, s.containers[c].generation)
  }

  /** A plan the memo holds cannot be freed. What is kept was resolved since its request began, and is settled now. */
  ghost predicate Enabled(s: State, e: Event) {
    match e
    case Allocate(at, _) => at !in s.live
    case Free(at) => at in s.live && at !in s.memo.pipelines
    case Create(c, w) => c !in s.containers && s.memo.container != Some(c) && w.Consistent()
    case StartUp(c) => c in s.containers
    case Override(c, w) => c in s.containers && Overridden(s.containers[c], w)
    case ShutDown(c, w) => c in s.containers && HasShutDown(s.containers[c], w)
    case Begin(c, _) => c in s.containers
    case LookUp(c) => c in s.containers
    case KeepOne(c, r, key, instances) =>
      && c in s.containers && (c, r) in s.begun && s.containers[c].Settled(key)
      && Between(s.begun[(c, r)], s.containers[c], key, r, instances)
    case KeepWhole(c, r, at, pipeline) =>
      && c in s.containers && (c, r) in s.begun && at in s.live && PlanSettled(s.containers[c], s.live[at])
      && WholeBetween(s.begun[(c, r)], s.containers[c], s.live[at], r, pipeline)
  }

  ghost function Next(s: State, e: Event): State
    requires Enabled(s, e)
  {
    match e
    case Allocate(at, plan) => s.(live := s.live[at := plan])
    case Free(at) => s.(live := s.live - {at})
    case Create(c, w) => s.(containers := s.containers[c := w])
    case StartUp(c) => s.(containers := s.containers[c := s.containers[c].(started := true)])
    case Override(c, w) => s.(containers := s.containers[c := w])
    case ShutDown(c, w) => s.(containers := s.containers[c := w])
    case Begin(c, r) => s.(begun := s.begun[(c, r) := s.containers[c]])
    case LookUp(c) => s.(memo := CurrentMemo(s, c))
    case KeepOne(c, _, key, instances) =>
      s.(memo := CurrentMemo(s, c).(entries := CurrentMemo(s, c).entries[key := instances]))
    case KeepWhole(c, _, at, pipeline) => s.(memo := WithPipeline(CurrentMemo(s, c), at, s.live[at], pipeline))
  }

  /** What is kept is kept in the run of its container that it began to be resolved in. */
  predicate Timely(s: State, e: Event) {
    e.KeepOne? || e.KeepWhole? ==>
      e.c in s.containers && (e.c, e.r) in s.begun && SameRun(s.begun[(e.c, e.r)], s.containers[e.c])
  }

  ghost predicate Reaches(h: Events, s: State) {
    match h
    case Start => s == State(EMPTY_MEMO, map[], map[], map[])
    case Then(p, e) => exists before :: Reaches(p, before) && Enabled(before, e) && s == Next(before, e)
  }

  /** A run in which everything is kept in time. */
  ghost predicate TimelyReaches(h: Events, s: State) {
    match h
    case Start => s == State(EMPTY_MEMO, map[], map[], map[])
    case Then(p, e) => exists before :: TimelyReaches(p, before) && Enabled(before, e) && Timely(before, e) && s == Next(before, e)
  }

  // ---------------------------------------------------------------- what every run keeps

  /** Containers answer consistently and have only moved on; no generation is remembered that is yet to come. */
  ghost predicate Orderly(s: State) {
    && (forall c :: c in s.containers ==> s.containers[c].Consistent())
    && (forall c :: s.memo.container == Some(c) ==> c in s.containers && s.memo.generation <= s.containers[c].generation)
    && (forall k :: k in s.begun ==> k.0 in s.containers && Later(s.begun[k], s.containers[k.0]))
    && |s.memo.pipelines| <= KEPT_PIPELINE_LIMIT
  }

  ghost predicate AllTruthful(s: State) {
    forall c :: c in s.containers ==> Truthful(s.memo, c, s.containers[c], s.live)
  }

  ghost predicate Invariant(s: State) {
    Orderly(s) && AllTruthful(s)
  }

  /** A plan settled before the start declares nothing resolved through the container, so an override cannot reach it. */
  lemma {:induction false} SettledUnstarted(v: Container, w: Container, cs: seq<Component>, contract: Contract, r: Request)
    requires !v.started && AllSettled(v, cs, contract)
    ensures AllSettled(w, cs, contract) && AllAfresh(v, cs, contract, r) == AllAfresh(w, cs, contract, r)
  {
    if cs != [] {
      assert ComponentSettled(v, cs[|cs| - 1], contract);
      SettledUnstarted(v, w, cs[..|cs| - 1], contract, r);
      forall i | 0 <= i < |cs| ensures ComponentSettled(w, cs[i], contract) {
        assert ComponentSettled(v, cs[i], contract);
      }
    }
  }

  lemma OverrideReachesNothingKept(m: Memo, c: ContainerId, v: Container, w: Container, live: map<Address, Plan>)
    requires Truthful(m, c, v, live) && !v.started && v.generation == w.generation
    ensures Truthful(m, c, w, live)
  {
    if m.container == Some(c) && m.generation == w.generation {
      forall at | at in m.pipelines
        ensures PlanSettled(w, live[at]) && forall r :: m.pipelines[at].1 == Fresh(w, live[at], r) {
        forall r: Request ensures m.pipelines[at].1 == Fresh(w, live[at], r) && PlanSettled(w, live[at]) {
          assert m.pipelines[at].1 == Fresh(v, live[at], r);
          SettledUnstarted(v, w, live[at].guards, Guard, r);
          SettledUnstarted(v, w, live[at].pipes, Pipe, r);
          SettledUnstarted(v, w, live[at].interceptors, Interceptor, r);
          SettledUnstarted(v, w, live[at].filters, Filter, r);
        }
      }
    }
  }

  lemma TurnKeepsOrder(s: State, c: ContainerId, w: Container)
    requires Orderly(s) && c in s.containers && Turns(s.containers[c], w)
    ensures Orderly(s.(containers := s.containers[c := w]))
  {
    var t := s.(containers := s.containers[c := w]);
    BecomesOnce(s.containers[c], w);
    forall k | k in t.begun ensures k.0 in t.containers && Later(t.begun[k], t.containers[k.0]) {
      if k.0 == c {
        LaterYet(t.begun[k], s.containers[c], w);
      }
    }
  }

  lemma BecomesOnce(v: Container, w: Container)
    requires v.Consistent() && Turns(v, w)
    ensures w.Consistent() && Later(v, w) && w.generation >= v.generation
  {
    assert Becomes(v, v, 0);
    OneTurnMore(v, v, w, 0);
    BecomesLater(v, w, 1);
  }

  lemma StepKeepsOrder(s: State, e: Event)
    requires Orderly(s) && Enabled(s, e)
    ensures Orderly(Next(s, e))
  {
    hide Between, WholeBetween, PlanSettled, Later, Overridden, HasShutDown, Orderly;
    match e
    case StartUp(c) => TurnKeepsOrder(s, c, s.containers[c].(started := true));
    case Override(c, w) => TurnKeepsOrder(s, c, w);
    case ShutDown(c, w) => TurnKeepsOrder(s, c, w);
    case Begin(c, r) => BegunInOrder(s, c, r);
    case Create(c, w) => CreatedInOrder(s, c, w);
    case Allocate(at, plan) => LiveApart(s, Next(s, e));
    case Free(at) => LiveApart(s, Next(s, e));
    case LookUp(c) => FollowedInOrder(s, c, CurrentMemo(s, c).entries);
    case KeepOne(c, _, key, instances) => FollowedInOrder(s, c, CurrentMemo(s, c).entries[key := instances]);
    case KeepWhole(c, r, at, pipeline) => KeptInOrder(s, c, WithPipeline(CurrentMemo(s, c), at, s.live[at], pipeline), at, pipeline);
  }

  lemma LiveApart(s: State, t: State)
    requires Orderly(s) && t == s.(live := t.live)
    ensures Orderly(t)
  {
  }

  lemma CreatedInOrder(s: State, c: ContainerId, w: Container)
    requires Orderly(s) && c !in s.containers && s.memo.container != Some(c) && w.Consistent()
    ensures Orderly(s.(containers := s.containers[c := w]))
  {
  }

  lemma FollowedInOrder(s: State, c: ContainerId, entries: map<ComponentKey, seq<Instance>>)
    requires Orderly(s) && c in s.containers
    ensures Orderly(s.(memo := CurrentMemo(s, c).(entries := entries)))
  {
    hide Later;
  }

  lemma BegunInOrder(s: State, c: ContainerId, r: Request)
    requires Orderly(s) && c in s.containers
    ensures Orderly(s.(begun := s.begun[(c, r) := s.containers[c]]))
  {
  }

  lemma KeptInOrder(s: State, c: ContainerId, m: Memo, at: Address, pipeline: Pipeline)
    requires Orderly(s) && c in s.containers && at in s.live && m == WithPipeline(CurrentMemo(s, c), at, s.live[at], pipeline)
    ensures Orderly(s.(memo := m))
  {
    EightAtMost(CurrentMemo(s, c), at, s.live[at], pipeline);
    hide WithPipeline, Later;
  }

  lemma FollowedKeeps(s: State, c: ContainerId)
    requires Invariant(s) && c in s.containers
    ensures Invariant(s.(memo := CurrentMemo(s, c)))
  {
  }

  lemma KeptOne(s: State, c: ContainerId, r: Request, key: ComponentKey, instances: seq<Instance>)
    requires Invariant(s) && Enabled(s, KeepOne(c, r, key, instances)) && Timely(s, KeepOne(c, r, key, instances))
    ensures AllTruthful(Next(s, KeepOne(c, r, key, instances)))
  {
    FollowedKeeps(s, c);
    assert instances == s.containers[c].answer(r, key);
    KeepingStaysTruthful(CurrentMemo(s, c), c, s.containers[c], s.live, key, r);
  }

  lemma KeptWhole(s: State, c: ContainerId, r: Request, at: Address, pipeline: Pipeline)
    requires Invariant(s) && Enabled(s, KeepWhole(c, r, at, pipeline)) && Timely(s, KeepWhole(c, r, at, pipeline))
    ensures AllTruthful(Next(s, KeepWhole(c, r, at, pipeline)))
  {
    hide Fresh, PlanSettled, WholeBetween;
    FollowedKeeps(s, c);
    var m := CurrentMemo(s, c);
    WholeBetweenSame(s.begun[(c, r)], s.containers[c], s.live[at], r, pipeline);
    KeepingPipelineStaysTruthful(m, c, s.containers[c], s.live, at, r);
    EightAtMost(m, at, s.live[at], pipeline);
    hide WithPipeline;
  }

  lemma EightAtMost(m: Memo, at: Address, plan: Plan, pipeline: Pipeline)
    requires |m.pipelines| <= KEPT_PIPELINE_LIMIT
    ensures |WithPipeline(m, at, plan, pipeline).pipelines| <= KEPT_PIPELINE_LIMIT
    ensures WithPipeline(m, at, plan, pipeline).container == m.container
    ensures WithPipeline(m, at, plan, pipeline).generation == m.generation
  {
    var base: map<Address, (Plan, Pipeline)> := if |m.pipelines| >= KEPT_PIPELINE_LIMIT then map[] else m.pipelines;
    assert base[at := (plan, pipeline)].Keys == base.Keys + {at};
  }

  /** A shutdown leaves what was kept behind a generation nobody asks for again. */
  lemma ShutDownForgets(m: Memo, c: ContainerId, w: Container, live: map<Address, Plan>)
    requires m.container == Some(c) ==> m.generation < w.generation
    ensures Truthful(m, c, w, live)
  {
  }

  lemma StartKeeps(m: Memo, c: ContainerId, w: Container, live: map<Address, Plan>)
    requires Truthful(m, c, w, live)
    ensures Truthful(m, c, w.(started := true), live)
  {
    var v := w.(started := true);
    forall plan: Plan, r: Request ensures Fresh(v, plan, r) == Fresh(w, plan, r) {
      SameAnswers(w, plan.guards, Guard, r);
      SameAnswers(w, plan.pipes, Pipe, r);
      SameAnswers(w, plan.interceptors, Interceptor, r);
      SameAnswers(w, plan.filters, Filter, r);
    }
  }

  lemma {:induction false} SameAnswers(w: Container, cs: seq<Component>, contract: Contract, r: Request)
    ensures AllAfresh(w.(started := true), cs, contract, r) == AllAfresh(w, cs, contract, r)
  {
    if cs != [] {
      SameAnswers(w, cs[..|cs| - 1], contract, r);
    }
  }

  lemma PlansMoved(m: Memo, c: ContainerId, w: Container, live: map<Address, Plan>, moved: map<Address, Plan>)
    requires Truthful(m, c, w, live)
    requires forall at :: at in m.pipelines && at in live ==> at in moved && moved[at] == live[at]
    ensures Truthful(m, c, w, moved)
  {
  }

  /** Each step taken in time keeps the memo truthful, and within its size. */
  lemma StepKeepsInvariant(s: State, e: Event)
    requires Invariant(s) && Enabled(s, e) && Timely(s, e)
    ensures Invariant(Next(s, e))
  {
    StepKeepsOrder(s, e);
    match e
    case Allocate(at, plan) =>
      forall c | c in s.containers ensures Truthful(s.memo, c, s.containers[c], s.live[at := plan]) {
        PlansMoved(s.memo, c, s.containers[c], s.live, s.live[at := plan]);
      }
    case Free(at) =>
      forall c | c in s.containers ensures Truthful(s.memo, c, s.containers[c], s.live - {at}) {
        PlansMoved(s.memo, c, s.containers[c], s.live, s.live - {at});
      }
    case Create(c, w) => ShutDownForgets(s.memo, c, w, s.live);
    case StartUp(c) => StartKeeps(s.memo, c, s.containers[c], s.live);
    case Override(c, w) => OverrideReachesNothingKept(s.memo, c, s.containers[c], w, s.live);
    case ShutDown(c, w) => ShutDownForgets(s.memo, c, w, s.live);
    case Begin(_, _) =>
    case LookUp(c) => FollowedKeeps(s, c);
    case KeepOne(c, r, key, instances) => KeptOne(s, c, r, key, instances);
    case KeepWhole(c, r, at, pipeline) => KeptWhole(s, c, r, at, pipeline);
  }

  lemma {:induction false} ReachedIsOrderly(h: Events, s: State)
    requires Reaches(h, s)
    ensures Orderly(s)
  {
    match h
    case Start =>
    case Then(p, e) =>
      var before :| Reaches(p, before) && Enabled(before, e) && s == Next(before, e);
      ReachedIsOrderly(p, before);
      StepKeepsOrder(before, e);
  }

  lemma {:induction false} TimelyIsInvariant(h: Events, s: State)
    requires TimelyReaches(h, s)
    ensures Reaches(h, s) && Invariant(s)
  {
    match h
    case Start =>
    case Then(p, e) =>
      var before :| TimelyReaches(p, before) && Enabled(before, e) && Timely(before, e) && s == Next(before, e);
      TimelyIsInvariant(p, before);
      StepKeepsInvariant(before, e);
  }

  /** A plan's address is free for another plan once the plan is gone, which it can be iff the memo does not hold it. */
  lemma ReusedIff(h: Events, s: State, at: Address, plan: Plan)
    requires Reaches(h, s) && at in s.live
    ensures Reaches(Then(Then(h, Free(at)), Allocate(at, plan)), s.(live := s.live[at := plan])) <==> at !in s.memo.pipelines
  {
    var gone := s.(live := s.live - {at});
    assert (s.live - {at})[at := plan] == s.live[at := plan];
    if at !in s.memo.pipelines {
      assert Enabled(s, Free(at)) && gone == Next(s, Free(at));
      assert Reaches(Then(h, Free(at)), gone);
    } else if mid :| Reaches(Then(h, Free(at)), mid) {
      var before :| Reaches(h, before) && Enabled(before, Free(at)) && mid == Next(before, Free(at));
      OneState(h, s, before);
      assert false;
    }
  }

  /** A run leads to one state. */
  lemma {:induction false} OneState(h: Events, s: State, t: State)
    requires Reaches(h, s) && Reaches(h, t)
    ensures s == t
  {
    hide Next, Enabled;
    if h.Then? {
      var a :| Reaches(h.earlier, a) && Enabled(a, h.latest) && s == Next(a, h.latest);
      var b :| Reaches(h.earlier, b) && Enabled(b, h.latest) && t == Next(b, h.latest);
      OneState(h.earlier, a, b);
    }
  }

  /**
   The memo never changes an answer. In every run that keeps in time, what a look-up finds under a key or
   a plan is what the container would answer now, to any request, for that very plan; and at most eight
   are kept.
   */
  lemma NeverChangesAnAnswer(h: Events, s: State, c: ContainerId, r: Request)
    requires TimelyReaches(h, s) && c in s.containers
    ensures var m := CurrentMemo(s, c);
      && (forall key :: key in m.entries ==> m.entries[key] == s.containers[c].answer(r, key))
      && (forall at :: at in m.pipelines ==>
        at in s.live && m.pipelines[at].0 == s.live[at] && m.pipelines[at].1 == Fresh(s.containers[c], s.live[at], r))
      && |m.pipelines| <= KEPT_PIPELINE_LIMIT
  {
    TimelyIsInvariant(h, s);
    FollowedKeeps(s, c);
  }

  // ---------------------------------------------------------------- when keeping is safe

  predicate DeclaresManaged(plan: Plan) {
    || (exists i :: 0 <= i < |plan.guards| && plan.guards[i].Managed?)
    || (exists i :: 0 <= i < |plan.pipes| && plan.pipes[i].Managed?)
    || (exists i :: 0 <= i < |plan.interceptors| && plan.interceptors[i].Managed?)
    || (exists i :: 0 <= i < |plan.filters| && plan.filters[i].Managed?)
  }

  predicate DeclaresPlain(plan: Plan) {
    || (exists i :: 0 <= i < |plan.guards| && plan.guards[i].Plain?)
    || (exists i :: 0 <= i < |plan.pipes| && plan.pipes[i].Plain?)
    || (exists i :: 0 <= i < |plan.interceptors| && plan.interceptors[i].Plain?)
    || (exists i :: 0 <= i < |plan.filters| && plan.filters[i].Plain?)
  }

  lemma {:induction false} AnswersLonger(v: Container, w: Container, cs: seq<Component>, contract: Contract, r: Request)
    requires forall key :: |w.answer(r, key)| == |v.answer(r, key)| + 1
    ensures |AllAfresh(w, cs, contract, r)| >= |AllAfresh(v, cs, contract, r)|
    ensures (exists i :: 0 <= i < |cs| && cs[i].Managed?) ==> |AllAfresh(w, cs, contract, r)| > |AllAfresh(v, cs, contract, r)|
  {
    if cs != [] {
      AnswersLonger(v, w, cs[..|cs| - 1], contract, r);
      if i :| 0 <= i < |cs| && cs[i].Managed? && i != |cs| - 1 {
        assert cs[..|cs| - 1][i] == cs[i];
      }
    }
  }

  /** A container of generation `g`, started and all of singletons, that answers each key with one object more. */
  function OneMoreEach(v: Container, g: int, r: Request): Container {
    Container(g, true, (o: string, t: string) => true, (q: Request, key: ComponentKey) => v.answer(r, key) + [Made(0)])
  }

  lemma OneMoreEachSettles(v: Container, g: int, r: Request, cs: seq<Component>, contract: Contract)
    requires forall i :: 0 <= i < |cs| ==> !cs[i].Plain?
    ensures AllSettled(OneMoreEach(v, g, r), cs, contract)
  {
  }

  lemma ManagedDiffers(v: Container, g: int, plan: Plan, r: Request)
    requires DeclaresManaged(plan) && !DeclaresPlain(plan)
    ensures var w := OneMoreEach(v, g, r); w.Consistent() && PlanSettled(w, plan) && Fresh(w, plan, r) != Fresh(v, plan, r)
  {
    var w := OneMoreEach(v, g, r);
    OneMoreEachSettles(v, g, r, plan.guards, Guard);
    OneMoreEachSettles(v, g, r, plan.pipes, Pipe);
    OneMoreEachSettles(v, g, r, plan.interceptors, Interceptor);
    OneMoreEachSettles(v, g, r, plan.filters, Filter);
    hide AllAfresh, AllSettled;
    AnswersLonger(v, w, plan.guards, Guard, r);
    AnswersLonger(v, w, plan.pipes, Pipe, r);
    AnswersLonger(v, w, plan.interceptors, Interceptor, r);
    AnswersLonger(v, w, plan.filters, Filter, r);
  }

  lemma WholeAtOnce(v: Container, w: Container, plan: Plan, r: Request)
    requires Later(v, w)
    ensures WholeBetween(v, w, plan, r, Fresh(v, plan, r))
  {
    AllAtOnce(v, w, plan.guards, Guard, r);
    AllAtOnce(v, w, plan.pipes, Pipe, r);
    AllAtOnce(v, w, plan.interceptors, Interceptor, r);
    AllAtOnce(v, w, plan.filters, Filter, r);
    hide AllBetween, AllAfresh;
  }

  lemma UnmanagedAgrees(v: Container, w: Container, plan: Plan, r: Request, pipeline: Pipeline)
    requires !DeclaresManaged(plan) && WholeBetween(v, w, plan, r, pipeline)
    ensures pipeline == Fresh(w, plan, r)
  {
    AllBetweenAnywhere(v, w, plan.guards, Guard, r, pipeline.guards);
    AllBetweenAnywhere(v, w, plan.pipes, Pipe, r, pipeline.pipes);
    AllBetweenAnywhere(v, w, plan.interceptors, Interceptor, r, pipeline.interceptors);
    AllBetweenAnywhere(v, w, plan.filters, Filter, r, pipeline.filters);
    hide AllAfresh, AllBetween;
  }

  /** Whatever the container has become by generation `g`, a key kept then is what it answers then. */
  ghost predicate SureOfOne(v: Container, g: int, key: ComponentKey, r: Request) {
    forall w: Container, instances: seq<Instance> ::
      Later(v, w) && w.generation == g && w.Settled(key) && Between(v, w, key, r, instances) ==> instances == w.answer(r, key)
  }

  /** The same of a pipeline. */
  ghost predicate SureOfWhole(v: Container, g: int, plan: Plan, r: Request) {
    forall w: Container, pipeline: Pipeline ::
      Later(v, w) && w.generation == g && PlanSettled(w, plan) && WholeBetween(v, w, plan, r, pipeline) ==> pipeline == Fresh(w, plan, r)
  }

  /**
   When keeping a component is safe: iff its resolution began after the start of the generation that it is
   kept in. Otherwise the container may have come to answer with another object in between.
   */
  lemma KeepingOneIsSafeIff(v: Container, g: int, key: ComponentKey, r: Request)
    requires g >= v.generation
    ensures SureOfOne(v, g, key, r) <==> v.started && v.generation == g
  {
    if !(v.started && v.generation == g) {
      var w := OneMoreEach(v, g, r);
      assert Later(v, w) && w.Settled(key);
      assert Between(v, w, key, r, v.answer(r, key)) by {
        assert Later(v, v);
      }
      assert |w.answer(r, key)| == |v.answer(r, key)| + 1;
    }
  }

  /**
   When keeping a pipeline is safe: iff its resolution began after the start of the generation it is kept
   in, or its plan declares nothing that is resolved through the container, or a class that is built anew
   each time, so that it is not kept at all.
   */
  lemma KeepingWholeIsSafeIff(v: Container, g: int, plan: Plan, r: Request)
    requires g >= v.generation
    ensures SureOfWhole(v, g, plan, r) <==> (v.started && v.generation == g) || !DeclaresManaged(plan) || DeclaresPlain(plan)
  {
    hide Fresh, WholeBetween;
    if DeclaresPlain(plan) {
      PlainIsUnsettled(plan);
    } else if !DeclaresManaged(plan) {
      forall w: Container, pipeline: Pipeline | WholeBetween(v, w, plan, r, pipeline) ensures pipeline == Fresh(w, plan, r) {
        UnmanagedAgrees(v, w, plan, r, pipeline);
      }
    } else if v.started && v.generation == g {
      forall w: Container, pipeline: Pipeline | w.generation == g && WholeBetween(v, w, plan, r, pipeline) ensures pipeline == Fresh(w, plan, r) {
        WholeBetweenSame(v, w, plan, r, pipeline);
      }
    } else {
      var w := OneMoreEach(v, g, r);
      ManagedDiffers(v, g, plan, r);
      WholeAtOnce(v, w, plan, r);
      assert Later(v, w) && w.generation == g;
    }
  }

  lemma PlainIsUnsettled(plan: Plan)
    requires DeclaresPlain(plan)
    ensures forall w: Container :: !PlanSettled(w, plan)
  {
    forall w: Container ensures !PlanSettled(w, plan) {
      if i :| 0 <= i < |plan.guards| && plan.guards[i].Plain? {
        assert !ComponentSettled(w, plan.guards[i], Guard);
      }
      if i :| 0 <= i < |plan.pipes| && plan.pipes[i].Plain? {
        assert !ComponentSettled(w, plan.pipes[i], Pipe);
      }
      if i :| 0 <= i < |plan.interceptors| && plan.interceptors[i].Plain? {
        assert !ComponentSettled(w, plan.interceptors[i], Interceptor);
      }
      if i :| 0 <= i < |plan.filters| && plan.filters[i].Plain? {
        assert !ComponentSettled(w, plan.filters[i], Filter);
      }
    }
  }

  // ---------------------------------------------------------------- a run that keeps too late

  const GUARD := Managed("app", "guard", false)
  const ONE_GUARD := Plan([GUARD], [], [], [])

  /** A container whose every component is one singleton. */
  function Answering(id: nat, generation: int): Container {
    Container(generation, false, (o: string, t: string) => true, (r: Request, k: ComponentKey) => [Made(id)])
  }

  lemma AnswersWith(id: nat, generation: int, r: Request)
    ensures var w := Answering(id, generation).(started := true);
      && w.answer(r, KeyOf(GUARD, Guard)) == [Made(id)] && w.Settled(KeyOf(GUARD, Guard))
      && Fresh(w, ONE_GUARD, r) == Pipeline([Made(id)], [], [], []) && PlanSettled(w, ONE_GUARD)
  {
    var w := Answering(id, generation).(started := true);
    assert ONE_GUARD.guards[..0] == [];
    assert Fresh(w, ONE_GUARD, r).guards == AllAfresh(w, [], Guard, r) + [Made(id)] == [Made(id)];
    assert ComponentSettled(w, GUARD, Guard);
  }

  lemma Reached(h: Events, s: State, e: Event, n: State)
    requires Reaches(h, s) && Enabled(s, e) && n == Next(s, e)
    ensures Reaches(Then(h, e), n)
  {
  }

  /** Request 7 has begun, and its container has moved on under it. */
  function Moved(begun: Container, now: Container): State {
    State(EMPTY_MEMO, map[0 := now], map[5 := ONE_GUARD], map[(0, 7) := begun])
  }

  /** A request begins with a container that has or has not started. */
  lemma BegunRun(v: Container, start: bool) returns (h: Events)
    requires v.Consistent() && !v.started
    ensures var w := if start then v.(started := true) else v; Reaches(h, Moved(w, w))
  {
    var s0 := State(EMPTY_MEMO, map[], map[], map[]);
    var h1, s1 := Then(Start, Allocate(5, ONE_GUARD)), s0.(live := map[5 := ONE_GUARD]);
    assert Reaches(Start, s0);
    Reached(Start, s0, Allocate(5, ONE_GUARD), s1);
    var h2, s2 := Then(h1, Create(0, v)), s1.(containers := map[0 := v]);
    Reached(h1, s1, Create(0, v), s2);
    var w, h3, s3 := v, h2, s2;
    if start {
      w := v.(started := true);
      h3, s3 := Then(h2, StartUp(0)), s2.(containers := map[0 := w]);
      Reached(h2, s2, StartUp(0), s3);
    }
    h := Then(h3, Begin(0, 7));
    assert map[0 := w][0] == w && s3.begun[(0, 7) := w] == map[(0, 7) := w];
    Reached(h3, s3, Begin(0, 7), Moved(w, w));
  }

  /** Resolved when its request began, kept now, and not what any resolution would answer with now. */
  ghost predicate StaleOnceKept(s: State, e: Event) {
    && (e.KeepOne? || e.KeepWhole?) && e.c in s.containers && Enabled(s, e)
    && match e
       case KeepOne(c, _, key, _) =>
         key in Next(s, e).memo.entries && forall r :: Next(s, e).memo.entries[key] != s.containers[c].answer(r, key)
       case KeepWhole(c, _, at, _) =>
         at in s.live && at in Next(s, e).memo.pipelines && forall r :: Next(s, e).memo.pipelines[at].1 != Fresh(s.containers[c], s.live[at], r)
  }

  const ONE := KeepOne(0, 7, KeyOf(GUARD, Guard), [Made(0)])
  const WHOLE := KeepWhole(0, 7, 5, Pipeline([Made(0)], [], [], []))

  lemma ShownStale(begun: Container, g: int)
    requires begun.answer == Answering(0, 0).answer && Later(begun, Answering(1, g).(started := true))
    ensures var s := Moved(begun, Answering(1, g).(started := true)); StaleOnceKept(s, ONE) && StaleOnceKept(s, WHOLE)
  {
    var now := Answering(1, g).(started := true);
    AnswersWith(0, 0, 7);
    AnswersWith(1, g, 7);
    SameAnswers(Answering(0, 0), ONE_GUARD.guards, Guard, 7);
    AnsweredBefore(begun, now);
    var s := Moved(begun, now);
    hide WholeBetween, Between, Answering, PlanSettled, Later, Fresh;
    forall r: Request
      ensures now.answer(r, KeyOf(GUARD, Guard)) == [Made(1)] && Fresh(now, ONE_GUARD, r) == Pipeline([Made(1)], [], [], [])
    {
      AnswersWith(1, g, r);
    }
  }

  lemma AnsweredBefore(begun: Container, now: Container)
    requires begun.answer == Answering(0, 0).answer && Later(begun, now)
    ensures Between(begun, now, KeyOf(GUARD, Guard), 7, [Made(0)])
    ensures WholeBetween(begun, now, ONE_GUARD, 7, Pipeline([Made(0)], [], [], []))
  {
    assert Later(begun, begun) && begun.answer(7, KeyOf(GUARD, Guard)) == [Made(0)];
    WholeAtOnce(begun, now, ONE_GUARD, 7);
    assert ONE_GUARD.guards[..0] == [];
    assert Fresh(begun, ONE_GUARD, 7).guards == AllAfresh(begun, [], Guard, 7) + [Made(0)] == [Made(0)];
  }

  /**
   A run in which a request begins before a shutdown and keeps what it resolved only after the restart. The
   component, and the pipeline it is part of, are served from then on, though no resolution of the run they
   are served in would answer with them.
   */
  lemma StaleAcrossRestart() returns (h: Events, s: State)
    ensures Reaches(h, s) && StaleOnceKept(s, ONE) && StaleOnceKept(s, WHOLE)
    ensures (0, 7) in s.begun && 0 in s.containers && s.begun[(0, 7)].generation < s.containers[0].generation
  {
    hide Reaches, StaleOnceKept;
    var v, w := Answering(0, 0).(started := true), Answering(1, 1);
    h := BegunRun(Answering(0, 0), true);
    var down := Moved(v, w);
    assert Moved(v, v).containers[0 := w] == map[0 := w];
    Reached(h, Moved(v, v), ShutDown(0, w), down);
    s := Moved(v, w.(started := true));
    assert down.containers[0 := w.(started := true)] == map[0 := w.(started := true)];
    h := Then(h, ShutDown(0, w));
    Reached(h, down, StartUp(0), s);
    h := Then(h, StartUp(0));
    ShownStale(v, 1);
  }

  /** The same within one generation: a request begins before the start, and an override is made in between. */
  lemma StaleAcrossStart() returns (h: Events, s: State)
    ensures Reaches(h, s) && StaleOnceKept(s, ONE) && StaleOnceKept(s, WHOLE)
    ensures (0, 7) in s.begun && 0 in s.containers && s.begun[(0, 7)].generation == s.containers[0].generation
  {
    hide Reaches, StaleOnceKept;
    var v, w := Answering(0, 0), Answering(1, 0);
    h := BegunRun(v, false);
    var over := Moved(v, w);
    assert Moved(v, v).containers[0 := w] == map[0 := w];
    Reached(h, Moved(v, v), Override(0, w), over);
    s := Moved(v, w.(started := true));
    assert over.containers[0 := w.(started := true)] == map[0 := w.(started := true)];
    h := Then(h, Override(0, w));
    Reached(h, over, StartUp(0), s);
    h := Then(h, StartUp(0));
    ShownStale(v, 0);
  }
}
