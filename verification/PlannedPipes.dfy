/**
 What a route compiles ahead of its requests: which parameters are piped, and the slices its pipeline
 is resolved in. Neither may change what a handler receives.
 */
module PlannedPipes {
  import opened Options
  import opened PipelineMemos

  datatype Source = RequestSource | Custom | OtherSource(name: string)

  datatype ValidationMode = Auto | Explicit | Off

  /** How an annotation reads to automatic validation: no class, an ordinary class, or a model class. */
  datatype Annotation = NoClass | OrdinaryClass(name: string) | ModelClass(name: string)

  datatype Binding = Binding(name: string, source: Source, annotation: Annotation)

  datatype BindingPlan = BindingPlan(parameters: seq<Binding>, mode: ValidationMode, validateCustom: bool)

  /** What a pipe is handed beside the value: the one parameter it is transforming, and its value so far. */
  datatype Parameter<V> = Parameter(binding: Binding, value: V, mode: ValidationMode, validateCustom: bool)

  datatype Result<V, E> = Value(value: V) | Raise(error: E)

  /** A pipe may read and change the world around it, and may raise. */
  datatype PipeStage<!W, !V, !E> = PipeStage(isValidation: bool, transform: (W, V, Parameter<V>) -> (W, Result<V, E>))

  // ---------------------------------------------------------------- piping one parameter

  predicate ValidatedUnasked(b: Binding, plan: BindingPlan) {
    plan.mode == Auto && !(b.source == Custom && !plan.validateCustom) && b.annotation.ModelClass?
  }

  function ResolvedPipes<W, V, E>(at: Parameter<V>, pipes: seq<PipeStage<W, V, E>>, validation: PipeStage<W, V, E>): seq<PipeStage<W, V, E>> {
    if at.mode != Auto then pipes
    else if at.binding.source == Custom && !at.validateCustom then pipes
    else if !at.binding.annotation.ModelClass? then pipes
    else if exists i :: 0 <= i < |pipes| && pipes[i].isValidation then pipes
    else pipes + [validation]
  }

  /**
   The stages a parameter goes through: the author's own, in their order, and then validation iff it is
   automatic, the parameter is of a model class, custom parameters are validated if it is one, and the
   author validates nowhere.
   */
  lemma StagesAre<W, V, E>(at: Parameter<V>, pipes: seq<PipeStage<W, V, E>>, validation: PipeStage<W, V, E>)
    ensures var stages := ResolvedPipes(at, pipes, validation);
      && pipes <= stages
      && (stages == pipes || stages == pipes + [validation])
      && (|stages| > |pipes| <==>
        && at.mode == Auto && at.binding.annotation.ModelClass?
        && (at.binding.source == Custom ==> at.validateCustom)
        && forall stage :: stage in pipes ==> !stage.isValidation)
  {
    if i :| 0 <= i < |pipes| && pipes[i].isValidation {
      assert pipes[i] in pipes;
    }
  }

  /** Each stage in order, the next one handed what this one returned. */
  function Piped<W, V, E>(w: W, v: V, at: Parameter<V>, stages: seq<PipeStage<W, V, E>>): (W, Result<V, E>)
    decreases |stages|
  {
    if stages == [] then (w, Value(v))
    else
      var (w', r) := stages[0].transform(w, v, at);
      if r.Raise? then (w', r) else Piped(w', r.value, at.(value := r.value), stages[1..])
  }

  /** What the rest of a pipeline makes of what its beginning came to: nothing after a failure. */
  function AndThen<W, V, E>(at: Parameter<V>, begun: (W, Result<V, E>), rest: seq<PipeStage<W, V, E>>): (W, Result<V, E>) {
    if begun.1.Raise? then begun else Piped(begun.0, begun.1.value, at.(value := begun.1.value), rest)
  }

  /** Stages one after the other; one of them alone, handed the value it is to transform and its parameter. */
  lemma {:induction false} PipedInTurn<W, V, E>(w: W, v: V, at: Parameter<V>, first: seq<PipeStage<W, V, E>>, rest: seq<PipeStage<W, V, E>>, stage: PipeStage<W, V, E>)
    ensures at.value == v ==> Piped(w, v, at, first + rest) == AndThen(at, Piped(w, v, at, first), rest)
    ensures Piped(w, v, at, [stage]) == stage.transform(w, v, at)
    ensures Piped<W, V, E>(w, v, at, []) == (w, Value(v))
    decreases |first|
  {
    var (after, r) := stage.transform(w, v, at);
    assert [stage][1..] == [];
    if r.Value? {
      assert Piped(after, r.value, at.(value := r.value), [stage][1..]) == (after, r);
    }
    if first == [] {
      assert first + rest == rest;
    } else {
      assert (first + rest)[0] == first[0] && (first + rest)[1..] == first[1..] + rest;
      var (w1, r1) := first[0].transform(w, v, at);
      if r1.Value? {
        PipedInTurn(w1, r1.value, at.(value := r1.value), first[1..], rest, stage);
      }
    }
  }

  method RunPipes<W, V, E>(w: W, v: V, at: Parameter<V>, pipes: seq<PipeStage<W, V, E>>, validation: PipeStage<W, V, E>)
    returns (after: W, r: Result<V, E>)
    ensures (after, r) == Piped(w, v, at, ResolvedPipes(at, pipes, validation))
  {
    var stages := ResolvedPipes(at, pipes, validation);
    var current, context := v, at;
    after := w;
    var i := 0;
    while i < |stages|
      invariant i <= |stages|
      invariant Piped(after, current, context, stages[i..]) == Piped(w, v, at, stages)
    {
      var (next, result) := stages[i].transform(after, current, context);
      assert stages[i..][1..] == stages[i + 1..];
      after := next;
      if result.Raise? {
        return after, result;
      }
      current := result.value;
      context := context.(value := current);
      i := i + 1;
    }
    return after, Value(current);
  }

  // ---------------------------------------------------------------- piping every parameter

  function At<V>(b: Binding, v: V, plan: BindingPlan): Parameter<V> {
    Parameter(b, v, plan.mode, plan.validateCustom)
  }

  /** The pipeline as anyone would write it: every parameter that is not the request is piped. */
  function Naive<W, V, E>(w: W, plan: BindingPlan, vs: seq<V>, pipes: seq<PipeStage<W, V, E>>, validation: PipeStage<W, V, E>, n: nat)
    : (W, Result<seq<V>, E>)
    requires |vs| == |plan.parameters| && n <= |vs|
    decreases |vs| - n
  {
    if n == |vs| then (w, Value([]))
    else
      var b := plan.parameters[n];
      var (w1, r) := if b.source == RequestSource then (w, Value(vs[n]))
        else Piped(w, vs[n], At(b, vs[n], plan), ResolvedPipes(At(b, vs[n], plan), pipes, validation));
      if r.Raise? then (w1, Raise(r.error))
      else
        var (w2, rest) := Naive(w1, plan, vs, pipes, validation, n + 1);
        (w2, if rest.Raise? then rest else Value([r.value] + rest.value))
  }

  /**
   What a handler receives, parameter by parameter. The request is passed as it is; any other parameter goes
   through its stages, which are told its binding and how it is validated; the next starts from the world
   that leaves, and nothing after a failure is piped.
   */
  lemma OneParameterMore<W, V, E>(w: W, plan: BindingPlan, vs: seq<V>, pipes: seq<PipeStage<W, V, E>>, validation: PipeStage<W, V, E>, n: nat)
    requires |vs| == |plan.parameters| && n < |vs|
    ensures var b := plan.parameters[n];
      var at := Parameter(b, vs[n], plan.mode, plan.validateCustom);
      var one := if b.source == RequestSource then (w, Value(vs[n])) else Piped(w, vs[n], at, ResolvedPipes(at, pipes, validation));
      var whole := Naive(w, plan, vs, pipes, validation, n);
      && (one.1.Raise? ==> whole == (one.0, Raise(one.1.error)))
      && (one.1.Value? ==>
        var rest := Naive(one.0, plan, vs, pipes, validation, n + 1);
        && whole.0 == rest.0
        && (rest.1.Raise? ==> whole.1 == rest.1)
        && (rest.1.Value? ==> whole.1 == Value([one.1.value] + rest.1.value)))
    ensures Naive(w, plan, vs, pipes, validation, |vs|) == (w, Value([]))
  {
  }

  /** The flags compiled for a route that runs pipes. */
  function PipedParameters(plan: BindingPlan): seq<bool> {
    seq(|plan.parameters|, i requires 0 <= i < |plan.parameters| => plan.parameters[i].source != RequestSource)
  }

  /** The flags compiled for a route that runs none: what the framework validates unasked. */
  function ValidatedParameters(plan: BindingPlan): seq<bool> {
    seq(|plan.parameters|, i requires 0 <= i < |plan.parameters| =>
      plan.parameters[i].source != RequestSource && ValidatedUnasked(plan.parameters[i], plan))
  }

  function Flags<W, V, E>(plan: BindingPlan, pipes: seq<PipeStage<W, V, E>>): (flags: seq<bool>)
    ensures |flags| == |plan.parameters|
  {
    if pipes != [] then PipedParameters(plan) else ValidatedParameters(plan)
  }

  /** A flag compiled before any request is set iff some stage applies to the parameter of every request. */
  lemma FlagsAreExact<W, V, E>(plan: BindingPlan, vs: seq<V>, pipes: seq<PipeStage<W, V, E>>, validation: PipeStage<W, V, E>)
    requires |vs| == |plan.parameters|
    ensures forall i :: 0 <= i < |vs| ==> (Flags(plan, pipes)[i] <==> Matters(plan, i, vs[i], pipes, validation))
  {
  }

  /** Pipes the marked parameters only; the unmarked reach the handler as they were bound. */
  method ApplyPipes<W, V, E>(w: W, plan: BindingPlan, vs: seq<V>, pipes: seq<PipeStage<W, V, E>>, validation: PipeStage<W, V, E>, piped: seq<bool>)
    returns (after: W, r: Result<seq<V>, E>)
    requires |vs| == |plan.parameters| == |piped|
    requires forall i :: 0 <= i < |piped| ==> (piped[i] <==> Matters(plan, i, vs[i], pipes, validation))
    ensures (after, r) == Naive(w, plan, vs, pipes, validation, 0)
  {
    var transformed: seq<V> := [];
    PrefixedNone(Naive(w, plan, vs, pipes, validation, 0));
    after := w;
    var i := 0;
    while i < |vs|
      invariant i <= |vs|
      invariant Naive(w, plan, vs, pipes, validation, 0) == Prefixed(transformed, Naive(after, plan, vs, pipes, validation, i))
    {
      var value := vs[i];
      if piped[i] {
        var one;
        after, one := RunPipes(after, vs[i], At(plan.parameters[i], vs[i], plan), pipes, validation);
        if one.Raise? {
          return after, Raise(one.error);
        }
        value := one.value;
      }
      PrefixedStep(transformed, value, Naive(after, plan, vs, pipes, validation, i + 1));
      transformed := transformed + [value];
      i := i + 1;
    }
    assert transformed + [] == transformed;
    return after, Value(transformed);
  }

  lemma PrefixedNone<W, V, E>(rest: (W, Result<seq<V>, E>))
    ensures Prefixed([], rest) == rest
  {
    if rest.1.Value? {
      assert [] + rest.1.value == rest.1.value;
    }
  }

  function Prefixed<W, V, E>(done: seq<V>, rest: (W, Result<seq<V>, E>)): (W, Result<seq<V>, E>) {
    (rest.0, if rest.1.Raise? then rest.1 else Value(done + rest.1.value))
  }

  lemma PrefixedStep<W, V, E>(done: seq<V>, v: V, rest: (W, Result<seq<V>, E>))
    ensures Prefixed(done, Prefixed([v], rest)) == Prefixed(done + [v], rest)
  {
    if rest.1.Value? {
      assert done + ([v] + rest.1.value) == done + [v] + rest.1.value;
    }
  }

  /** Piping a parameter could do something: it is not the request and some stage applies to it. */
  predicate Matters<W, V, E>(plan: BindingPlan, i: nat, v: V, pipes: seq<PipeStage<W, V, E>>, validation: PipeStage<W, V, E>)
    requires i < |plan.parameters|
  {
    plan.parameters[i].source != RequestSource && ResolvedPipes(At(plan.parameters[i], v, plan), pipes, validation) != []
  }

  /**
   The step of the request path: the flags are chosen by whether the route runs pipes, and piping is
   skipped altogether when none is set. What the handler receives, what the world is left like and
   what is raised are those of the naive pipeline.
   */
  method PrepareArguments<W, V, E>(w: W, plan: BindingPlan, vs: seq<V>, pipes: seq<PipeStage<W, V, E>>, validation: PipeStage<W, V, E>)
    returns (after: W, r: Result<seq<V>, E>)
    requires |vs| == |plan.parameters|
    ensures (after, r) == Naive(w, plan, vs, pipes, validation, 0)
  {
    var piped := Flags(plan, pipes);
    FlagsAreExact(plan, vs, pipes, validation);
    if exists i :: 0 <= i < |piped| && piped[i] {
      after, r := ApplyPipes(w, plan, vs, pipes, validation, piped);
    } else {
      NothingMatters(w, plan, vs, pipes, validation, 0);
      after, r := w, Value(vs);
    }
  }

  lemma {:induction false} NothingMatters<W, V, E>(w: W, plan: BindingPlan, vs: seq<V>, pipes: seq<PipeStage<W, V, E>>, validation: PipeStage<W, V, E>, n: nat)
    requires |vs| == |plan.parameters| && n <= |vs|
    requires forall i :: n <= i < |vs| ==> !Matters(plan, i, vs[i], pipes, validation)
    ensures Naive(w, plan, vs, pipes, validation, n) == (w, Value(vs[n..]))
    decreases |vs| - n
  {
    if n < |vs| {
      NothingMatters(w, plan, vs, pipes, validation, n + 1);
      assert vs[n..] == [vs[n]] + vs[n + 1..];
    }
  }

  // ---------------------------------------------------------------- slices

  /** A test's replacements, one table per slot; a component the table does not name stays. */
  datatype Overrides = Overrides(
    guards: map<Component, Component>,
    pipes: map<Component, Component>,
    interceptors: map<Component, Component>,
    filters: map<Component, Component>)
  {
    function Apply(plan: Plan): Plan {
      Plan(Replaced(guards, plan.guards), Replaced(pipes, plan.pipes),
        Replaced(interceptors, plan.interceptors), Replaced(filters, plan.filters))
    }
  }

  function Replaced(table: map<Component, Component>, cs: seq<Component>): seq<Component> {
    seq(|cs|, i requires 0 <= i < |cs| => if cs[i] in table then table[cs[i]] else cs[i])
  }

  /** Each component is replaced by what the table of its own slot names for it, and stays where it is. */
  lemma OverridesReplace(overrides: Overrides, plan: Plan, i: nat)
    ensures var r := overrides.Apply(plan);
      && |r.guards| == |plan.guards| && |r.pipes| == |plan.pipes|
      && |r.interceptors| == |plan.interceptors| && |r.filters| == |plan.filters|
      && (i < |plan.guards| ==> if plan.guards[i] in overrides.guards then r.guards[i] == overrides.guards[plan.guards[i]] else r.guards[i] == plan.guards[i])
      && (i < |plan.pipes| ==> if plan.pipes[i] in overrides.pipes then r.pipes[i] == overrides.pipes[plan.pipes[i]] else r.pipes[i] == plan.pipes[i])
      && (i < |plan.interceptors| ==>
        if plan.interceptors[i] in overrides.interceptors then r.interceptors[i] == overrides.interceptors[plan.interceptors[i]]
        else r.interceptors[i] == plan.interceptors[i])
      && (i < |plan.filters| ==> if plan.filters[i] in overrides.filters then r.filters[i] == overrides.filters[plan.filters[i]] else r.filters[i] == plan.filters[i])
  {
  }

  function GatePlan(plan: Plan): Plan {
    Plan(plan.guards, [], [], plan.filters)
  }

  function RemainderPlan(plan: Plan): Plan {
    Plan([], plan.pipes, plan.interceptors, [])
  }

  function FilterPlan(plan: Plan): Plan {
    Plan([], [], [], plan.filters)
  }

  predicate DeclaresGate(plan: Plan) {
    plan.guards != [] || plan.filters != []
  }

  predicate DeclaresRemainder(plan: Plan) {
    plan.pipes != [] || plan.interceptors != []
  }

  function Resolved(w: Container, overrides: Overrides, plan: Plan, r: Request): Pipeline {
    Fresh(w, overrides.Apply(plan), r)
  }

  /** The components the request path ends up with: a slice that declares nothing is never resolved. */
  function Sliced(w: Container, overrides: Overrides, plan: Plan, r: Request): Pipeline {
    var gate := if DeclaresGate(plan) then Resolved(w, overrides, GatePlan(plan), r) else EMPTY_PIPELINE;
    var remainder := if DeclaresRemainder(plan) then Resolved(w, overrides, RemainderPlan(plan), r) else EMPTY_PIPELINE;
    Pipeline(gate.guards, remainder.pipes, remainder.interceptors, gate.filters)
  }

  /** Under any componentwise override, the slices come to the whole plan resolved at once. */
  lemma SlicesAreTheWhole(w: Container, overrides: Overrides, plan: Plan, r: Request)
    ensures Sliced(w, overrides, plan, r) == Resolved(w, overrides, plan, r)
    ensures Resolved(w, overrides, FilterPlan(plan), r).filters == Resolved(w, overrides, plan, r).filters
  {
    assert Replaced(overrides.guards, []) == [] && Replaced(overrides.filters, []) == [];
    assert Replaced(overrides.pipes, []) == [] && Replaced(overrides.interceptors, []) == [];
    if !DeclaresGate(plan) {
      assert overrides.Apply(plan).guards == [] && overrides.Apply(plan).filters == [];
    }
    if !DeclaresRemainder(plan) {
      assert overrides.Apply(plan).pipes == [] && overrides.Apply(plan).interceptors == [];
    }
  }
}
