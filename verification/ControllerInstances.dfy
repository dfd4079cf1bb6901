/**
 Controllers handed out by concurrent requests: one per run for a singleton, one per request for a
 request-scoped controller, and a new one each time for a transient, whatever the interleaving.
 */
module ControllerInstances {
  import opened OrderedDict

  type Task = nat
  type Request = nat
  type Key = nat
  type Instance = nat

  datatype Scope = Singleton | PerRequest | Transient

  /** Where one caller stands. `Building` awaits the construction; a failure anywhere ends in `Failed`. */
  datatype Line = Looking | Choosing | Waiting | Locked | Building | Got(instance: Instance) | Failed

  datatype Caller = Caller(key: Key, request: Request, line: Line)

  /** Everything shared: the singleton table, the request caches, the locks, and who built what. */
  datatype State = State(
    callers: map<Task, Caller>,
    singletons: map<Key, Instance>,
    caches: map<(Request, Key), Instance>,
    holders: map<Key, Task>,
    built: seq<Construction>)

  /** Who constructed an instance, for which controller, serving which request. */
  datatype Construction = Construction(task: Task, key: Key, request: Request)

  datatype Step =
    | Arrive(task: Task, key: Key, request: Request)
    | Look(task: Task)
    | Choose(task: Task)
    | Lock(task: Task)
    | LookAgain(task: Task)
    | Finish(task: Task)
    | Fail(task: Task)

  type Steps = Trail<Step>

  type Scopes = Key -> Scope

  predicate At(s: State, t: Task, line: Line) {
    t in s.callers && s.callers[t].line == line
  }

  predicate Enabled(s: State, e: Step) {
    match e
    case Arrive(t, _, _) => t !in s.callers
    case Look(t) => At(s, t, Looking)
    case Choose(t) => At(s, t, Choosing)
    case Lock(t) => At(s, t, Waiting) && s.callers[t].key !in s.holders
    case LookAgain(t) => At(s, t, Locked)
    case Finish(t) => At(s, t, Building)
    case Fail(t) => At(s, t, Waiting) || At(s, t, Locked) || At(s, t, Building)
  }

  function Moved(s: State, t: Task, line: Line): State
    requires t in s.callers
  {
    s.(callers := s.callers[t := s.callers[t].(line := line)])
  }

  /** Leaving the lock, for whoever holds it. */
  function Unlocked(s: State, t: Task): State
    requires t in s.callers
  {
    var k := s.callers[t].key;
    if k in s.holders && s.holders[k] == t then s.(holders := s.holders - {k}) else s
  }

  /** A construction is done: the tables take it as the scope of the controller asks. */
  function Finished(s: State, scopes: Scopes, t: Task): State
    requires t in s.callers
  {
    var c, made := s.callers[t], |s.built|;
    var built := s.(built := s.built + [Construction(t, c.key, c.request)]);
    match scopes(c.key)
    case Transient => Moved(built, t, Got(made))
    case PerRequest =>
      var kept := if (c.request, c.key) in s.caches then s.caches[(c.request, c.key)] else made;
      Moved(built.(caches := s.caches[(c.request, c.key) := kept]), t, Got(kept))
    case Singleton =>
      Moved(Unlocked(built.(singletons := s.singletons[c.key := made]), t), t, Got(made))
  }

  function Next(s: State, scopes: Scopes, e: Step): State
    requires Enabled(s, e)
  {
    match e
    case Arrive(t, k, r) => s.(callers := s.callers[t := Caller(k, r, Looking)])
    case Look(t) =>
      var k := s.callers[t].key;
      Moved(s, t, if k in s.singletons then Got(s.singletons[k]) else Choosing)
    case Choose(t) =>
      var c := s.callers[t];
      Moved(s, t,
        match scopes(c.key)
        case Transient => Building
        case PerRequest => if (c.request, c.key) in s.caches then Got(s.caches[(c.request, c.key)]) else Building
        case Singleton => Waiting)
    case Lock(t) => Moved(s.(holders := s.holders[s.callers[t].key := t]), t, Locked)
    case LookAgain(t) =>
      var k := s.callers[t].key;
      if k in s.singletons then Moved(Unlocked(s, t), t, Got(s.singletons[k])) else Moved(s, t, Building)
    case Finish(t) => Finished(s, scopes, t)
    case Fail(t) => Moved(Unlocked(s, t), t, Failed)
  }

  /** The states some interleaving leads to. */
  ghost predicate Reaches(h: Steps, scopes: Scopes, s: State) {
    match h
    case Start => s == State(map[], map[], map[], map[], [])
    case Then(p, e) => exists before :: Reaches(p, scopes, before) && Enabled(before, e) && s == Next(before, scopes, e)
  }

  // ---------------------------------------------------------------- what every step keeps

  predicate Inside(c: Caller, scopes: Scopes) {
    c.line == Locked || (c.line == Building && scopes(c.key) == Singleton)
  }

  /** The lock of a key is held by exactly the caller inside its critical section. */
  ghost predicate MutuallyExclusive(s: State, scopes: Scopes) {
    forall t :: t in s.callers ==> ExclusiveAt(s, scopes, t, s.callers[t])
  }

  predicate ExclusiveAt(s: State, scopes: Scopes, t: Task, c: Caller) {
    && (Inside(c, scopes) ==> c.key in s.holders && s.holders[c.key] == t)
    && (c.line == Waiting || c.line == Locked ==> scopes(c.key) == Singleton)
  }

  /** A caller building a singleton found none, and nobody else can have put one there since. */
  ghost predicate StillMissing(s: State, scopes: Scopes) {
    forall t :: At(s, t, Building) && scopes(s.callers[t].key) == Singleton ==> s.callers[t].key !in s.singletons
  }

  /** What callers were handed is what the tables hold. */
  ghost predicate HandedOut(s: State, scopes: Scopes) {
    forall t :: t in s.callers && s.callers[t].line.Got? ==> Justified(s, scopes, t, s.callers[t])
  }

  predicate Justified(s: State, scopes: Scopes, t: Task, c: Caller)
    requires c.line.Got?
  {
    match scopes(c.key)
    case Singleton => c.key in s.singletons && s.singletons[c.key] == c.line.instance
    case PerRequest => (c.request, c.key) in s.caches && s.caches[(c.request, c.key)] == c.line.instance
    case Transient => c.line.instance < |s.built| && s.built[c.line.instance] == Construction(t, c.key, c.request)
  }

  /** Every instance in a table was constructed for the slot it stands in. */
  ghost predicate Placed(s: State, scopes: Scopes) {
    && (forall k :: k in s.singletons ==>
      scopes(k) == Singleton && s.singletons[k] < |s.built| && s.built[s.singletons[k]].key == k)
    && (forall slot :: slot in s.caches ==>
      scopes(slot.1) == PerRequest && s.caches[slot] < |s.built| &&
      s.built[s.caches[slot]].key == slot.1 && s.built[s.caches[slot]].request == slot.0)
  }

  /** Every singleton ever built is the one in the table: no second construction took place. */
  ghost predicate BuiltOnce(s: State, scopes: Scopes) {
    forall i :: 0 <= i < |s.built| && scopes(s.built[i].key) == Singleton ==>
      s.built[i].key in s.singletons && s.singletons[s.built[i].key] == i
  }

  /** A lock is held by a caller inside its critical section, and by nobody else. */
  ghost predicate HeldInside(s: State, scopes: Scopes) {
    forall k :: k in s.holders ==>
      && s.holders[k] in s.callers
      && s.callers[s.holders[k]].key == k && Inside(s.callers[s.holders[k]], scopes)
  }

  ghost predicate Invariant(s: State, scopes: Scopes) {
    HeldInside(s, scopes) && MutuallyExclusive(s, scopes) && StillMissing(s, scopes) && HandedOut(s, scopes) && Placed(s, scopes) && BuiltOnce(s, scopes)
  }

  ghost predicate TouchesOnly(s: State, n: State, t: Task, locks: bool) {
    && t in n.callers && n.callers == s.callers[t := n.callers[t]]
    && var k := n.callers[t].key;
      (n.holders == s.holders
        || (locks && n.holders == s.holders[k := t])
        || (k in s.holders && s.holders[k] == t && n.holders == s.holders - {k}))
  }

  lemma FinishedTouches(s: State, scopes: Scopes, t: Task)
    requires t in s.callers
    ensures TouchesOnly(s, Finished(s, scopes, t), t, false)
  {
  }

  /** What one step may touch: its own caller, and the lock of that caller's key. */
  lemma Touched(s: State, scopes: Scopes, e: Step)
    requires Enabled(s, e)
    ensures TouchesOnly(s, Next(s, scopes, e), e.task, e.Lock?)
  {
    if e.Finish? {
      FinishedTouches(s, scopes, e.task);
    }
    hide Finished;
  }

  lemma MoverIsExclusive(s: State, scopes: Scopes, e: Step)
    requires Enabled(s, e) && MutuallyExclusive(s, scopes)
    ensures var n := Next(s, scopes, e); e.task in n.callers && ExclusiveAt(n, scopes, e.task, n.callers[e.task])
  {
    if e.Finish? {
      FinishedLeaves(s, scopes, e.task);
    }
    hide Finished;
  }

  lemma FinishedLeaves(s: State, scopes: Scopes, t: Task)
    requires t in s.callers
    ensures t in Finished(s, scopes, t).callers && Finished(s, scopes, t).callers[t].line.Got?
  {
  }

  lemma KeepsExclusion(s: State, scopes: Scopes, e: Step)
    requires Enabled(s, e) && MutuallyExclusive(s, scopes)
    ensures MutuallyExclusive(Next(s, scopes, e), scopes)
  {
    Touched(s, scopes, e);
    MoverIsExclusive(s, scopes, e);
    assert e.Lock? ==> s.callers[e.task].key !in s.holders;
    hide Next, Enabled;
  }

  lemma KeepsHeldInside(s: State, scopes: Scopes, e: Step)
    requires Enabled(s, e) && MutuallyExclusive(s, scopes) && HeldInside(s, scopes)
    ensures HeldInside(Next(s, scopes, e), scopes)
  {
    var t := e.task;
    if t in s.callers {
      assert ExclusiveAt(s, scopes, t, s.callers[t]);
    }
    if e.Finish? {
      FinishedLeaves(s, scopes, t);
      FinishedUnlocks(s, scopes, t);
    }
    hide Finished;
  }

  /** A singleton's construction leaves its lock when it is done. */
  lemma FinishedUnlocks(s: State, scopes: Scopes, t: Task)
    requires t in s.callers
    ensures var n, k := Finished(s, scopes, t), s.callers[t].key;
      && n.callers == s.callers[t := n.callers[t]] && n.callers[t].key == k
      && n.holders == (if scopes(k) == Singleton && k in s.holders && s.holders[k] == t then s.holders - {k} else s.holders)
  {
  }

  lemma KeepsMissing(s: State, scopes: Scopes, e: Step)
    requires Enabled(s, e) && MutuallyExclusive(s, scopes) && StillMissing(s, scopes)
    ensures StillMissing(Next(s, scopes, e), scopes)
  {
  }

  /** Only a finished construction reaches the tables. */
  lemma TablesUntouched(s: State, scopes: Scopes, e: Step)
    requires Enabled(s, e) && !e.Finish?
    ensures var n := Next(s, scopes, e); n.singletons == s.singletons && n.caches == s.caches && n.built == s.built
  {
  }

  ghost predicate Grown(s: State, n: State) {
    && (forall k :: k in s.singletons ==> k in n.singletons && n.singletons[k] == s.singletons[k])
    && (forall slot :: slot in s.caches ==> slot in n.caches && n.caches[slot] == s.caches[slot])
    && |s.built| <= |n.built| && (forall i :: 0 <= i < |s.built| ==> n.built[i] == s.built[i])
  }

  /** Nothing a table or the record of constructions holds is ever replaced. */
  lemma TablesGrow(s: State, scopes: Scopes, e: Step)
    requires Enabled(s, e) && StillMissing(s, scopes)
    ensures Grown(s, Next(s, scopes, e))
  {
    if !e.Finish? {
      TablesUntouched(s, scopes, e);
      hide Next, Enabled;
    } else {
      assert At(s, e.task, Building);
    }
  }

  lemma FinishedIsJustified(s: State, scopes: Scopes, t: Task)
    requires t in s.callers
    ensures var n := Finished(s, scopes, t); n.callers[t].line.Got? && Justified(n, scopes, t, n.callers[t])
  {
  }

  lemma MoverIsJustified(s: State, scopes: Scopes, e: Step)
    requires Enabled(s, e) && MutuallyExclusive(s, scopes) && Placed(s, scopes)
    ensures var n := Next(s, scopes, e); e.task in n.callers && (n.callers[e.task].line.Got? ==> Justified(n, scopes, e.task, n.callers[e.task]))
  {
    if e.Finish? {
      FinishedIsJustified(s, scopes, e.task);
    }
    hide Finished;
  }

  lemma StaysJustified(s: State, n: State, scopes: Scopes, t: Task, c: Caller)
    requires Grown(s, n) && c.line.Got? && Justified(s, scopes, t, c)
    ensures Justified(n, scopes, t, c)
  {
  }

  lemma KeepsHandedOut(s: State, scopes: Scopes, e: Step)
    requires Enabled(s, e) && MutuallyExclusive(s, scopes) && StillMissing(s, scopes) && Placed(s, scopes) && HandedOut(s, scopes)
    ensures HandedOut(Next(s, scopes, e), scopes)
  {
    hide Next, Finished, Placed, MutuallyExclusive, StillMissing, Enabled, Grown, Justified;
    TablesGrow(s, scopes, e);
    Touched(s, scopes, e);
    MoverIsJustified(s, scopes, e);
    var n := Next(s, scopes, e);
    forall t | t in n.callers && n.callers[t].line.Got? ensures Justified(n, scopes, t, n.callers[t]) {
      if t != e.task {
        assert n.callers[t] == s.callers[t];
        StaysJustified(s, n, scopes, t, s.callers[t]);
      }
    }
  }

  lemma KeepsPlaced(s: State, scopes: Scopes, e: Step)
    requires Enabled(s, e) && Placed(s, scopes)
    ensures Placed(Next(s, scopes, e), scopes)
  {
    if e.Finish? {
      FinishedPlaced(s, scopes, e.task);
    } else {
      TablesUntouched(s, scopes, e);
    }
    hide Next, Finished;
  }

  /** The tables after a construction: at most one slot is new, and it holds what was built for it. */
  lemma FinishedTables(s: State, scopes: Scopes, t: Task)
    requires t in s.callers
    ensures var n, c := Finished(s, scopes, t), s.callers[t];
      && n.built == s.built + [Construction(t, c.key, c.request)]
      && (n.singletons == s.singletons || (scopes(c.key) == Singleton && n.singletons == s.singletons[c.key := |s.built|]))
      && (n.caches == s.caches || (scopes(c.key) == PerRequest && n.caches == s.caches[(c.request, c.key) := |s.built|]))
  {
    var c := s.callers[t];
    if (c.request, c.key) in s.caches {
      assert s.caches[(c.request, c.key) := s.caches[(c.request, c.key)]] == s.caches;
    }
  }

  lemma FinishedPlaced(s: State, scopes: Scopes, t: Task)
    requires t in s.callers && Placed(s, scopes)
    ensures Placed(Finished(s, scopes, t), scopes)
  {
    FinishedTables(s, scopes, t);
    hide Finished;
  }

  lemma KeepsBuiltOnce(s: State, scopes: Scopes, e: Step)
    requires Enabled(s, e) && StillMissing(s, scopes) && BuiltOnce(s, scopes)
    ensures BuiltOnce(Next(s, scopes, e), scopes)
  {
  }

  lemma {:induction false} ReachedIsInvariant(h: Steps, scopes: Scopes, s: State)
    requires Reaches(h, scopes, s)
    ensures Invariant(s, scopes)
  {
    match h
    case Start =>
    case Then(p, e) =>
      var before :| Reaches(p, scopes, before) && Enabled(before, e) && s == Next(before, scopes, e);
      ReachedIsInvariant(p, scopes, before);
      KeepsExclusion(before, scopes, e);
      KeepsHeldInside(before, scopes, e);
      KeepsMissing(before, scopes, e);
      KeepsHandedOut(before, scopes, e);
      KeepsBuiltOnce(before, scopes, e);
      KeepsPlaced(before, scopes, e);
  }

  // ---------------------------------------------------------------- what callers are promised

  predicate Served(s: State, t: Task) {
    t in s.callers && s.callers[t].line.Got?
  }

  function InstanceOf(s: State, t: Task): Instance
    requires Served(s, t)
  {
    s.callers[t].line.instance
  }

  /** Every caller of a singleton controller gets one instance, and it was built once. */
  lemma SingletonIsOne(h: Steps, scopes: Scopes, s: State, t: Task, u: Task, i: nat, j: nat)
    requires Reaches(h, scopes, s) && Served(s, t) && Served(s, u)
    requires s.callers[t].key == s.callers[u].key && scopes(s.callers[t].key) == Singleton
    requires i < |s.built| && j < |s.built| && s.built[i].key == s.built[j].key == s.callers[t].key
    ensures InstanceOf(s, t) == InstanceOf(s, u)
    ensures i == j == InstanceOf(s, t)
  {
    ReachedIsInvariant(h, scopes, s);
    assert Justified(s, scopes, t, s.callers[t]) && Justified(s, scopes, u, s.callers[u]);
  }

  /** All stages of one request are handed one request-scoped controller, even when two of them built. */
  lemma RequestHasOne(h: Steps, scopes: Scopes, s: State, t: Task, u: Task)
    requires Reaches(h, scopes, s) && Served(s, t) && Served(s, u)
    requires s.callers[t].key == s.callers[u].key && scopes(s.callers[t].key) == PerRequest
    requires s.callers[t].request == s.callers[u].request
    ensures InstanceOf(s, t) == InstanceOf(s, u)
  {
    ReachedIsInvariant(h, scopes, s);
  }

  /** Different requests never share a request-scoped controller, nor different callers a transient one. */
  lemma NeverShared(h: Steps, scopes: Scopes, s: State, t: Task, u: Task)
    requires Reaches(h, scopes, s) && Served(s, t) && Served(s, u)
    ensures scopes(s.callers[t].key) == scopes(s.callers[u].key) == PerRequest && s.callers[t].request != s.callers[u].request ==>
      InstanceOf(s, t) != InstanceOf(s, u)
    ensures scopes(s.callers[t].key) == Transient && scopes(s.callers[u].key) == Transient && t != u ==>
      InstanceOf(s, t) != InstanceOf(s, u)
    ensures s.callers[t].key != s.callers[u].key ==> InstanceOf(s, t) != InstanceOf(s, u)
  {
    ReachedIsInvariant(h, scopes, s);
  }

  /** The lock of a controller is held iff some caller is inside its critical section, and by that caller. */
  lemma LockIsHeldInside(h: Steps, scopes: Scopes, s: State, k: Key, t: Task)
    requires Reaches(h, scopes, s)
    ensures k in s.holders && s.holders[k] == t <==> t in s.callers && s.callers[t].key == k && Inside(s.callers[t], scopes)
  {
    ReachedIsInvariant(h, scopes, s);
    if t in s.callers {
      assert ExclusiveAt(s, scopes, t, s.callers[t]);
    }
  }

  /** A caller inside the critical section is the only one, so a lock is never granted twice. */
  lemma OneInside(h: Steps, scopes: Scopes, s: State, t: Task, u: Task)
    requires Reaches(h, scopes, s)
    requires t in s.callers && u in s.callers && Inside(s.callers[t], scopes) && Inside(s.callers[u], scopes)
    requires s.callers[t].key == s.callers[u].key
    ensures t == u
  {
    ReachedIsInvariant(h, scopes, s);
  }

  // ---------------------------------------------------------------- everyone is served

  /** `later` continues `h`; nobody new arrives and nothing fails. */
  predicate Continues(h: Steps, later: Steps) {
    later == h || (later.Then? && !later.latest.Arrive? && !later.latest.Fail? && Continues(h, later.earlier))
  }

  /** Callers still on their way. */
  function Pending(s: State): set<Task> {
    set t | t in s.callers && !s.callers[t].line.Got? && !s.callers[t].line.Failed?
  }

  /** Nobody else moved, and the caller kept what it came for. */
  predicate OnlyMoved(s: State, n: State, t: Task) {
    && t in s.callers && t in n.callers && n.callers == s.callers[t := n.callers[t]]
    && n.callers[t].key == s.callers[t].key && n.callers[t].request == s.callers[t].request
  }

  predicate NobodyFailed(s: State, n: State) {
    forall t :: t in s.callers && !s.callers[t].line.Failed? ==> t in n.callers && !n.callers[t].line.Failed?
  }

  lemma OneStep(h: Steps, scopes: Scopes, s: State, e: Step) returns (later: Steps, n: State)
    requires Reaches(h, scopes, s) && Enabled(s, e) && !e.Arrive? && !e.Fail?
    ensures n == Next(s, scopes, e) && later == Then(h, e)
    ensures Reaches(later, scopes, n) && Continues(h, later) && OnlyMoved(s, n, e.task) && NobodyFailed(s, n)
  {
    MovesOnly(s, scopes, e);
    hide Next, OnlyMoved, NobodyFailed, Enabled;
    n, later := Next(s, scopes, e), Then(h, e);
    assert Continues(h, h);
  }

  lemma MovesOnly(s: State, scopes: Scopes, e: Step)
    requires Enabled(s, e) && !e.Arrive? && !e.Fail?
    ensures OnlyMoved(s, Next(s, scopes, e), e.task) && NobodyFailed(s, Next(s, scopes, e))
  {
    hide Finished;
    if e.Finish? {
      FinishedMoves(s, scopes, e.task);
    }
  }

  lemma FinishedMoves(s: State, scopes: Scopes, t: Task)
    requires t in s.callers
    ensures OnlyMoved(s, Finished(s, scopes, t), t) && !Finished(s, scopes, t).callers[t].line.Failed?
  {
  }

  lemma {:induction false} ContinuesOn(h: Steps, middle: Steps, later: Steps)
    requires Continues(h, middle) && Continues(middle, later)
    ensures Continues(h, later)
  {
    if later != middle {
      ContinuesOn(h, middle, later.earlier);
    }
  }

  /** A caller inside the critical section, or constructing, is served by its own steps, and leaves its lock. */
  lemma FinishesOff(h: Steps, scopes: Scopes, s: State, t: Task) returns (later: Steps, n: State)
    requires Reaches(h, scopes, s) && (At(s, t, Locked) || At(s, t, Building))
    ensures Reaches(later, scopes, n) && Continues(h, later) && OnlyMoved(s, n, t) && Served(n, t) && NobodyFailed(s, n)
    ensures s.callers[t].key in n.holders ==> n.holders[s.callers[t].key] != t
  {
    hide Reaches, Finished;
    if At(s, t, Building) {
      later, n := OneStep(h, scopes, s, Finish(t));
      FinishedLeaves(s, scopes, t);
    } else {
      var middle, m := OneStep(h, scopes, s, LookAgain(t));
      later, n := middle, m;
      if At(m, t, Building) {
        later, n := OneStep(middle, scopes, m, Finish(t));
        FinishedLeaves(m, scopes, t);
        ContinuesOn(h, middle, later);
      }
    }
    LockIsHeldInside(later, scopes, n, s.callers[t].key, t);
  }

  /** A caller that waits is served, once whoever holds the lock is. */
  lemma WaitingIsServed(h: Steps, scopes: Scopes, s: State, t: Task) returns (later: Steps, n: State)
    requires Reaches(h, scopes, s) && At(s, t, Waiting)
    ensures Reaches(later, scopes, n) && Continues(h, later) && Served(n, t) && NobodyFailed(s, n)
    ensures n.callers.Keys == s.callers.Keys && forall u :: Served(s, u) ==> Served(n, u)
    ensures Pending(n) <= Pending(s)
  {
    hide Reaches, Next, Finished;
    var k := s.callers[t].key;
    var free, m := h, s;
    assert Continues(h, h);
    if k in s.holders {
      LockIsHeldInside(h, scopes, s, k, s.holders[k]);
      free, m := FinishesOff(h, scopes, s, s.holders[k]);
      if k in m.holders {
        LockIsHeldInside(free, scopes, m, k, m.holders[k]);
        LockIsHeldInside(h, scopes, s, k, m.holders[k]);
      }
    }
    var locked, l := OneStep(free, scopes, m, Lock(t));
    ContinuesOn(h, free, locked);
    LocksIt(m, scopes, t);
    later, n := FinishesOff(locked, scopes, l, t);
    ContinuesOn(h, locked, later);
  }

  lemma LocksIt(s: State, scopes: Scopes, t: Task)
    requires Enabled(s, Lock(t))
    ensures At(Next(s, scopes, Lock(t)), t, Locked)
  {
  }

  /** A caller that looks about comes to wait, to build, or to have what it came for. */
  lemma GetsGoing(h: Steps, scopes: Scopes, s: State, t: Task) returns (later: Steps, n: State)
    requires Reaches(h, scopes, s) && t in Pending(s)
    ensures Reaches(later, scopes, n) && Continues(h, later) && OnlyMoved(s, n, t) && NobodyFailed(s, n)
    ensures At(n, t, Waiting) || At(n, t, Locked) || At(n, t, Building) || Served(n, t)
  {
    hide Reaches;
    later, n := h, s;
    assert Continues(h, h);
    if At(s, t, Looking) {
      later, n := OneStep(h, scopes, s, Look(t));
    }
    if At(n, t, Choosing) {
      var to, m := OneStep(later, scopes, n, Choose(t));
      ContinuesOn(h, later, to);
      later, n := to, m;
    }
  }

  /** Nobody is set back by another's moves. */
  ghost predicate SetsNobodyBack(s: State, n: State) {
    n.callers.Keys == s.callers.Keys && Pending(n) <= Pending(s) && forall u :: Served(s, u) ==> Served(n, u)
  }

  lemma MovingSetsNobodyBack(s: State, n: State, t: Task)
    requires OnlyMoved(s, n, t) && NobodyFailed(s, n) && t in Pending(s)
    ensures SetsNobodyBack(s, n)
  {
  }

  /** Wherever it stands, a caller that has not failed is served. */
  lemma IsServed(h: Steps, scopes: Scopes, s: State, t: Task) returns (later: Steps, n: State)
    requires Reaches(h, scopes, s) && t in Pending(s)
    ensures Reaches(later, scopes, n) && Continues(h, later) && Served(n, t) && NobodyFailed(s, n)
    ensures SetsNobodyBack(s, n) && Pending(n) < Pending(s)
  {
    later, n := GetsGoing(h, scopes, s, t);
    hide Reaches, Next, Finished, OnlyMoved, Continues;
    MovingSetsNobodyBack(s, n, t);
    if At(n, t, Waiting) {
      var to, m := WaitingIsServed(later, scopes, n, t);
      ContinuesOn(h, later, to);
      later, n := to, m;
    } else if At(n, t, Locked) || At(n, t, Building) {
      var to, m := FinishesOff(later, scopes, n, t);
      MovingSetsNobodyBack(n, m, t);
      ContinuesOn(h, later, to);
      later, n := to, m;
    }
    assert t in Pending(s) && t !in Pending(n);
  }

  /**
   Nobody waits for ever. From every reachable state there is a continuation in which nothing fails and
   every caller that has arrived, and not failed, is handed its controller.
   */
  lemma {:induction false} EveryoneIsServed(h: Steps, scopes: Scopes, s: State) returns (later: Steps, n: State)
    requires Reaches(h, scopes, s)
    ensures Reaches(later, scopes, n) && Continues(h, later) && n.callers.Keys == s.callers.Keys
    ensures forall t :: t in s.callers && !s.callers[t].line.Failed? ==> Served(n, t)
    decreases Pending(s)
  {
    hide Reaches;
    if t :| t in Pending(s) {
      var to, m := IsServed(h, scopes, s, t);
      later, n := EveryoneIsServed(to, scopes, m);
      ContinuesOn(h, to, later);
      assert forall u :: u in s.callers && !s.callers[u].line.Failed? ==> !m.callers[u].line.Failed?;
    } else {
      later, n := h, s;
      assert Continues(h, h);
      forall u | u in s.callers && !s.callers[u].line.Failed? ensures Served(s, u) {
        assert u !in Pending(s);
      }
    }
  }

  /** Whoever comes, whenever it comes, for whatever controller, can be served. */
  lemma NewcomerIsServed(h: Steps, scopes: Scopes, s: State, t: Task, k: Key, r: Request) returns (later: Steps, n: State)
    requires Reaches(h, scopes, s) && t !in s.callers
    ensures Reaches(later, scopes, n) && Continues(Then(h, Arrive(t, k, r)), later)
    ensures Served(n, t) && n.callers[t].key == k && n.callers[t].request == r
  {
    hide Finished;
    var came := Next(s, scopes, Arrive(t, k, r));
    assert Reaches(Then(h, Arrive(t, k, r)), scopes, came);
    assert came.callers[t] == Caller(k, r, Looking);
    later, n := EveryoneIsServed(Then(h, Arrive(t, k, r)), scopes, came);
    KeepsItsErrand(Then(h, Arrive(t, k, r)), scopes, came, later, n, t);
  }

  lemma {:induction false} KeepsItsErrand(h: Steps, scopes: Scopes, s: State, later: Steps, n: State, t: Task)
    requires Reaches(h, scopes, s) && Reaches(later, scopes, n) && Continues(h, later) && t in s.callers
    ensures t in n.callers && n.callers[t].key == s.callers[t].key && n.callers[t].request == s.callers[t].request
    decreases later
  {
    hide Next, Enabled;
    if later == h {
      OneState(h, scopes, s, n);
    } else {
      var before :| Reaches(later.earlier, scopes, before) && Enabled(before, later.latest) && n == Next(before, scopes, later.latest);
      KeepsItsErrand(h, scopes, s, later.earlier, before, t);
      ErrandStays(before, scopes, later.latest, t);
    }
  }

  lemma ErrandStays(s: State, scopes: Scopes, e: Step, t: Task)
    requires Enabled(s, e) && t in s.callers
    ensures var n := Next(s, scopes, e);
      t in n.callers && n.callers[t].key == s.callers[t].key && n.callers[t].request == s.callers[t].request
  {
    hide Finished;
    if e.Finish? {
      FinishedMoves(s, scopes, e.task);
    }
  }

  /** A run leads to one state. */
  lemma {:induction false} OneState(h: Steps, scopes: Scopes, s: State, n: State)
    requires Reaches(h, scopes, s) && Reaches(h, scopes, n)
    ensures s == n
  {
    hide Next, Enabled;
    if h.Then? {
      var a :| Reaches(h.earlier, scopes, a) && Enabled(a, h.latest) && s == Next(a, scopes, h.latest);
      var b :| Reaches(h.earlier, scopes, b) && Enabled(b, h.latest) && n == Next(b, scopes, h.latest);
      OneState(h.earlier, scopes, a, b);
    }
  }

  /** A singleton already built is handed over at the first look: no lock is taken for it, and nothing is built. */
  lemma HandedOverAtOnce(s: State, scopes: Scopes, t: Task)
    requires At(s, t, Looking) && s.callers[t].key in s.singletons
    ensures var n := Next(s, scopes, Look(t));
      && Served(n, t) && InstanceOf(n, t) == s.singletons[s.callers[t].key]
      && n.holders == s.holders && n.built == s.built && OnlyMoved(s, n, t)
  {
  }
}
