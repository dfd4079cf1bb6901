/**
 Synchronous handlers on worker threads: every call holds one of its loop's thread tokens while it
 runs, through queueing, failures and both kinds of cancellation.
 */
module HandlerThreads {
  import opened OrderedDict

  type Task = nat

  /** Where one call stands: waiting for a token, holding one at some line, or over. */
  datatype Line = Queued | Submitting | Awaiting | Shielded | Releasing | Over

  datatype State = State(lines: map<Task, Line>, borrowed: set<Task>, threads: set<Task>, ceiling: nat)

  datatype Step =
    | SetCeiling(tokens: nat)
    | Call(task: Task)
    | Grant(task: Task)
    | CancelQueued(task: Task)
    | Submit(task: Task)
    | FailSubmit(task: Task)
    | ThreadReturns(task: Task)
    | Resume(task: Task)
    | AnyioCancel(task: Task)
    | NativeCancel(task: Task)
    | Release(task: Task)

  type Steps = Trail<Step>

  predicate At(s: State, t: Task, line: Line) {
    t in s.lines && s.lines[t] == line
  }

  predicate Enabled(s: State, e: Step) {
    match e
    case SetCeiling(_) => true
    case Call(t) => t !in s.lines
    case Grant(t) => At(s, t, Queued) && |s.borrowed| < s.ceiling
    case CancelQueued(t) => At(s, t, Queued)
    case Submit(t) => At(s, t, Submitting)
    case FailSubmit(t) => At(s, t, Submitting)
    case ThreadReturns(t) => t in s.threads
    case Resume(t) => (At(s, t, Awaiting) || At(s, t, Shielded)) && t !in s.threads
    case AnyioCancel(t) => At(s, t, Awaiting)
    case NativeCancel(t) => At(s, t, Awaiting) || At(s, t, Shielded)
    case Release(t) => At(s, t, Releasing)
  }

  function Next(s: State, e: Step): State {
    match e
    case SetCeiling(n) => s.(ceiling := n)
    case Call(t) =>
      if |s.borrowed| < s.ceiling then s.(borrowed := s.borrowed + {t}, lines := s.lines[t := Submitting])
      else s.(lines := s.lines[t := Queued])
    case Grant(t) => s.(borrowed := s.borrowed + {t}, lines := s.lines[t := Submitting])
    case CancelQueued(t) => s.(lines := s.lines[t := Over])
    case Submit(t) => s.(threads := s.threads + {t}, lines := s.lines[t := Awaiting])
    case FailSubmit(t) => s.(lines := s.lines[t := Releasing])
    case ThreadReturns(t) => s.(threads := s.threads - {t})
    case Resume(t) => s.(lines := s.lines[t := Releasing])
    case AnyioCancel(t) => s.(lines := s.lines[t := Shielded])
    case NativeCancel(t) => s.(lines := s.lines[t := Releasing])
    case Release(t) => s.(borrowed := s.borrowed - {t}, lines := s.lines[t := Over])
  }

  function Run(h: Steps, ceiling: nat): State {
    match h
    case Start => State(map[], {}, {}, ceiling)
    case Then(p, e) => Next(Run(p, ceiling), e)
  }

  predicate Possible(h: Steps, ceiling: nat) {
    match h
    case Start => true
    case Then(p, e) => Possible(p, ceiling) && Enabled(Run(p, ceiling), e)
  }

  /** Whether a step took a token for the task. */
  predicate Takes(s: State, e: Step, t: Task) {
    (e.Call? && e.task == t && |s.borrowed| < s.ceiling) || (e.Grant? && e.task == t)
  }

  function Acquired(h: Steps, ceiling: nat, t: Task): nat {
    match h
    case Start => 0
    case Then(p, e) => Acquired(p, ceiling, t) + if Takes(Run(p, ceiling), e, t) then 1 else 0
  }

  function Released(h: Steps, t: Task): nat {
    match h
    case Start => 0
    case Then(p, e) => Released(p, t) + if e == Release(t) then 1 else 0
  }

  predicate Holds(s: State, t: Task) {
    t in s.lines && s.lines[t] in {Submitting, Awaiting, Shielded, Releasing}
  }

  /**
   Tokens balance. In every interleaving a call has acquired at most one token; it has released it
   iff it no longer holds it, and never without holding it; a call that is over holds none.
   */
  lemma {:induction false} TokensBalance(h: Steps, ceiling: nat, t: Task)
    requires Possible(h, ceiling)
    ensures t in Run(h, ceiling).borrowed <==> Holds(Run(h, ceiling), t)
    ensures Acquired(h, ceiling, t) == Released(h, t) + if t in Run(h, ceiling).borrowed then 1 else 0
    ensures Acquired(h, ceiling, t) <= 1
    ensures Acquired(h, ceiling, t) == 1 ==> t in Run(h, ceiling).lines && !At(Run(h, ceiling), t, Queued)
  {
    hide Next, Enabled, Holds, At, Takes;
    if h.Then? {
      TokensBalance(h.earlier, ceiling, t);
      StepBalances(Run(h.earlier, ceiling), h.latest, t);
    } else {
      assert !Holds(Run(h, ceiling), t) by {
        NobodyHolds(t, ceiling);
      }
    }
  }

  lemma NobodyHolds(t: Task, ceiling: nat)
    ensures !Holds(State(map[], {}, {}, ceiling), t)
  {
  }

  predicate Granted(s: State, t: Task) {
    t in s.lines && !At(s, t, Queued)
  }

  function One(b: bool): nat {
    if b then 1 else 0
  }

  lemma StepBalances(s: State, e: Step, t: Task)
    requires Enabled(s, e) && (t in s.borrowed <==> Holds(s, t))
    ensures var n := Next(s, e);
      && (t in n.borrowed <==> Holds(n, t))
      && One(t in n.borrowed) == One(t in s.borrowed) + One(Takes(s, e, t)) - One(e == Release(t))
      && (Granted(s, t) ==> Granted(n, t) && !Takes(s, e, t))
      && (Takes(s, e, t) ==> Granted(n, t))
  {
  }

  /** From any line at which a call holds a token, its own steps alone give the token back. */
  lemma TokenReturns(h: Steps, ceiling: nat, t: Task) returns (k: Steps)
    requires Possible(h, ceiling) && t in Run(h, ceiling).borrowed
    ensures Possible(k, ceiling) && Continues(h, k, t)
    ensures t !in Run(k, ceiling).borrowed && At(Run(k, ceiling), t, Over)
  {
    TokensBalance(h, ceiling, t);
    k := h;
    if At(Run(k, ceiling), t, Submitting) {
      k := Then(k, Submit(t));
      assert Continues(h, k, t);
    }
    if At(Run(k, ceiling), t, Awaiting) || At(Run(k, ceiling), t, Shielded) {
      if t in Run(k, ceiling).threads {
        k := Then(k, ThreadReturns(t));
        assert Possible(k, ceiling) && Continues(h, k, t);
      }
      k := Then(k, Resume(t));
      assert Possible(k, ceiling) && Continues(h, k, t);
    }
    k := Then(k, Release(t));
  }

  predicate Continues(h: Steps, k: Steps, t: Task) {
    k == h || (k.Then? && k.latest in {Submit(t), ThreadReturns(t), Resume(t), Release(t)} && Continues(h, k.earlier, t))
  }

  // ---------------------------------------------------------------- where a call stands

  predicate Did(h: Steps, e: Step) {
    h.Then? && (h.latest == e || Did(h.earlier, e))
  }

  /** Whether the call came by a token, at once or out of the queue. */
  predicate Took(h: Steps, ceiling: nat, t: Task) {
    h.Then? && (Takes(Run(h.earlier, ceiling), h.latest, t) || Took(h.earlier, ceiling, t))
  }

  predicate LetRun(h: Steps, t: Task) {
    Did(h, FailSubmit(t)) || Did(h, Resume(t)) || Did(h, NativeCancel(t))
  }

  /** The line of each call, the thread it occupies and the ceiling, read off the steps taken. */
  ghost predicate StandsAsStepped(h: Steps, s: State, took: bool, t: Task) {
    && (t in s.lines <==> Did(h, Call(t)))
    && (At(s, t, Queued) <==> Did(h, Call(t)) && !took && !Did(h, CancelQueued(t)))
    && (At(s, t, Submitting) <==> took && !Did(h, Submit(t)) && !Did(h, FailSubmit(t)))
    && (At(s, t, Awaiting) <==> Did(h, Submit(t)) && !Did(h, AnyioCancel(t)) && !LetRun(h, t))
    && (At(s, t, Shielded) <==> Did(h, AnyioCancel(t)) && !LetRun(h, t))
    && (At(s, t, Releasing) <==> LetRun(h, t) && !Did(h, Release(t)))
    && (At(s, t, Over) <==> Did(h, CancelQueued(t)) || Did(h, Release(t)))
    && (t in s.threads <==> Did(h, Submit(t)) && !Did(h, ThreadReturns(t)))
  }

  /** No step of a call comes before the one it follows, and none that another shuts out comes at all. */
  ghost predicate InOrder(h: Steps, took: bool, t: Task) {
    && (Did(h, Grant(t)) ==> took)
    && (took || Did(h, CancelQueued(t)) ==> Did(h, Call(t)))
    && !(took && Did(h, CancelQueued(t)))
    && (Did(h, Submit(t)) || Did(h, FailSubmit(t)) ==> took)
    && !(Did(h, Submit(t)) && Did(h, FailSubmit(t)))
    && (Did(h, ThreadReturns(t)) || Did(h, AnyioCancel(t)) || Did(h, NativeCancel(t)) ==> Did(h, Submit(t)))
    && (Did(h, Resume(t)) ==> Did(h, ThreadReturns(t)))
    && !(Did(h, Resume(t)) && Did(h, NativeCancel(t)))
    && (Did(h, Release(t)) ==> LetRun(h, t))
  }

  /**
   What has happened tells where every call stands, and in what order a call's steps may come: a call cancelled
   in the queue is over without ever holding a token, a shielded call goes on only once its thread is back,
   and a call is over iff it was cancelled in the queue or gave its token back.
   */
  lemma {:induction false} StandsWhereItsStepsLed(h: Steps, ceiling: nat, t: Task)
    requires Possible(h, ceiling)
    ensures StandsAsStepped(h, Run(h, ceiling), Took(h, ceiling, t), t)
    ensures InOrder(h, Took(h, ceiling, t), t)
    ensures Acquired(h, ceiling, t) == One(Took(h, ceiling, t)) && Released(h, t) == One(Did(h, Release(t)))
  {
    hide Next, Enabled;
    if h.Then? {
      StandsWhereItsStepsLed(h.earlier, ceiling, t);
      TokensBalance(h, ceiling, t);
      TokensBalance(h.earlier, ceiling, t);
      MovesOn(h, Run(h.earlier, ceiling), Took(h.earlier, ceiling, t), t);
      StaysInOrder(h, Run(h.earlier, ceiling), Took(h.earlier, ceiling, t), t);
    }
  }

  lemma MovesOn(h: Steps, s: State, took: bool, t: Task)
    requires h.Then? && Enabled(s, h.latest)
    requires StandsAsStepped(h.earlier, s, took, t) && InOrder(h.earlier, took, t)
    ensures StandsAsStepped(h, Next(s, h.latest), took || Takes(s, h.latest, t), t)
  {
    if h.latest.SetCeiling? || h.latest.task != t {
      AnotherMoves(h, s, took, t);
    }
  }

  lemma AnotherMoves(h: Steps, s: State, took: bool, t: Task)
    requires h.Then? && (h.latest.SetCeiling? || h.latest.task != t)
    requires StandsAsStepped(h.earlier, s, took, t)
    ensures StandsAsStepped(h, Next(s, h.latest), took || Takes(s, h.latest, t), t)
  {
  }

  lemma StaysInOrder(h: Steps, s: State, took: bool, t: Task)
    requires h.Then? && Enabled(s, h.latest)
    requires StandsAsStepped(h.earlier, s, took, t) && InOrder(h.earlier, took, t)
    ensures InOrder(h, took || Takes(s, h.latest, t), t)
  {
    hide Next;
  }

  /** The ceiling in force: the one set last, or the one the run began with. */
  function LastSet(h: Steps, ceiling: nat): nat {
    match h
    case Start => ceiling
    case Then(p, e) => if e.SetCeiling? then e.tokens else LastSet(p, ceiling)
  }

  /** What may happen next, read off what has happened. */
  ghost predicate MayFollow(h: Steps, ceiling: nat, e: Step) {
    if e.SetCeiling? then true
    else
      var t, took := e.task, Took(h, ceiling, e.task);
      var queued := Did(h, Call(t)) && !took && !Did(h, CancelQueued(t));
      match e
      case Call(_) => !Did(h, Call(t))
      case Grant(_) => queued && |Run(h, ceiling).borrowed| < LastSet(h, ceiling)
      case CancelQueued(_) => queued
      case Submit(_) => took && !Did(h, Submit(t)) && !Did(h, FailSubmit(t))
      case FailSubmit(_) => took && !Did(h, Submit(t)) && !Did(h, FailSubmit(t))
      case ThreadReturns(_) => Did(h, Submit(t)) && !Did(h, ThreadReturns(t))
      case Resume(_) => Did(h, ThreadReturns(t)) && !LetRun(h, t)
      case AnyioCancel(_) => Did(h, Submit(t)) && !Did(h, AnyioCancel(t)) && !LetRun(h, t)
      case NativeCancel(_) => Did(h, Submit(t)) && !LetRun(h, t)
      case Release(_) => LetRun(h, t) && !Did(h, Release(t))
  }

  /** A step is possible iff what has happened admits it; no state needs to be known but how many tokens are out. */
  lemma PossibleIffMayFollow(h: Steps, ceiling: nat, e: Step)
    requires Possible(h, ceiling)
    ensures Run(h, ceiling).ceiling == LastSet(h, ceiling)
    ensures Possible(Then(h, e), ceiling) <==> MayFollow(h, ceiling, e)
  {
    CeilingIsLastSet(h, ceiling);
    if !e.SetCeiling? {
      StandsWhereItsStepsLed(h, ceiling, e.task);
    }
  }

  lemma {:induction false} CeilingIsLastSet(h: Steps, ceiling: nat)
    ensures Run(h, ceiling).ceiling == LastSet(h, ceiling)
  {
    if h.Then? {
      CeilingIsLastSet(h.earlier, ceiling);
    }
  }

  // ---------------------------------------------------------------- threads

  /** The calls let go by a native cancellation so far. */
  function LetGo(h: Steps): set<Task> {
    match h
    case Start => {}
    case Then(p, e) => if e.NativeCancel? then LetGo(p) + {e.task} else LetGo(p)
  }

  function HighestCeiling(h: Steps, ceiling: nat): nat {
    match h
    case Start => ceiling
    case Then(p, e) => if e.SetCeiling? && e.tokens > HighestCeiling(p, ceiling) then e.tokens else HighestCeiling(p, ceiling)
  }

  /** An occupied thread belongs to a call still waiting for it, unless a native cancellation let that call go. */
  lemma {:induction false} ThreadIsWaitedFor(h: Steps, ceiling: nat, t: Task)
    requires Possible(h, ceiling) && t in Run(h, ceiling).threads
    ensures t in LetGo(h) || At(Run(h, ceiling), t, Awaiting) || At(Run(h, ceiling), t, Shielded)
  {
    if t in Run(h.earlier, ceiling).threads {
      ThreadIsWaitedFor(h.earlier, ceiling, t);
    }
    StillWaitedFor(Run(h.earlier, ceiling), h.latest, t);
  }

  lemma StillWaitedFor(s: State, e: Step, t: Task)
    requires Enabled(s, e) && t in Next(s, e).threads
    ensures (t in s.threads ==> At(s, t, Awaiting) || At(s, t, Shielded)) ==>
      e == NativeCancel(t) || At(Next(s, e), t, Awaiting) || At(Next(s, e), t, Shielded)
  {
  }

  lemma {:induction false} TokensBounded(h: Steps, ceiling: nat)
    requires Possible(h, ceiling)
    ensures |Run(h, ceiling).borrowed| <= HighestCeiling(h, ceiling)
    ensures Run(h, ceiling).ceiling <= HighestCeiling(h, ceiling)
  {
    if h.Then? {
      TokensBounded(h.earlier, ceiling);
      if h.latest.Release? {
        SubsetSize(Run(h, ceiling).borrowed, Run(h.earlier, ceiling).borrowed);
      }
    }
  }

  // ---------------------------------------------------------------- when the ceiling can be passed

  predicate Waits(s: State, t: Task) {
    At(s, t, Awaiting) || At(s, t, Shielded)
  }

  /** Threads that run on although nobody waits for them. */
  function Orphans(s: State): set<Task> {
    set t | t in s.threads && !Waits(s, t)
  }

  /** Calls that hold a token and occupy a thread, or are about to. */
  function Working(s: State): set<Task> {
    set t | t in s.lines && (s.lines[t] == Submitting || (Waits(s, t) && t in s.threads))
  }

  /** Calls that hold a token and have no more use for a thread. */
  function Idle(s: State): set<Task> {
    set t | t in s.lines && Holds(s, t) && t !in Working(s)
  }

  /** `k` goes on from `h` with neither a native cancellation nor a change of the ceiling. */
  predicate Onward(h: Steps, k: Steps) {
    k == h || (k.Then? && !k.latest.NativeCancel? && !k.latest.SetCeiling? && Onward(h, k.earlier))
  }

  lemma {:induction false} OnwardOnward(h: Steps, k: Steps, l: Steps)
    requires Onward(h, k) && Onward(k, l)
    ensures Onward(h, l)
  {
    if l != k {
      OnwardOnward(h, k, l.earlier);
    }
  }

  lemma {:induction false} OnwardCeiling(h: Steps, k: Steps, ceiling: nat)
    requires Onward(h, k)
    ensures HighestCeiling(k, ceiling) == HighestCeiling(h, ceiling) && Run(k, ceiling).ceiling == Run(h, ceiling).ceiling
  {
    hide Run, Next;
    if k != h {
      OnwardCeiling(h, k.earlier, ceiling);
      SameCeiling(k.earlier, k.latest, ceiling);
    }
  }

  lemma SameCeiling(h: Steps, e: Step, ceiling: nat)
    requires !e.SetCeiling?
    ensures Run(Then(h, e), ceiling).ceiling == Run(h, ceiling).ceiling
  {
  }

  /** A call that has not reached a thread has none. */
  lemma {:induction false} NoThreadYet(h: Steps, ceiling: nat, t: Task)
    requires Possible(h, ceiling)
    ensures t in Run(h, ceiling).threads ==> t in Run(h, ceiling).lines && !At(Run(h, ceiling), t, Queued) && !At(Run(h, ceiling), t, Submitting)
  {
    hide Run, Next, Enabled, Possible;
    if h.Then? {
      Unstep(h, ceiling);
      NoThreadYet(h.earlier, ceiling, t);
      StillNoThread(Run(h.earlier, ceiling), h.latest, t);
    } else {
      Untouched(ceiling);
    }
  }

  lemma Unstep(h: Steps, ceiling: nat)
    requires Possible(h, ceiling) && h.Then?
    ensures Possible(h.earlier, ceiling) && Enabled(Run(h.earlier, ceiling), h.latest)
    ensures Run(h, ceiling) == Next(Run(h.earlier, ceiling), h.latest)
  {
  }

  predicate Threaded(s: State, t: Task) {
    t in s.threads ==> t in s.lines && !At(s, t, Queued) && !At(s, t, Submitting)
  }

  lemma StillNoThread(s: State, e: Step, t: Task)
    requires Enabled(s, e) && Threaded(s, t)
    ensures Threaded(Next(s, e), t)
  {
  }

  /** Without a native cancellation no thread is newly abandoned. */
  lemma OrphansShrink(s: State, e: Step, t: Task)
    requires Enabled(s, e) && !e.NativeCancel? && Threaded(s, t) && t in Orphans(Next(s, e))
    ensures t in Orphans(s)
  {
  }

  /** A call takes up work only with a token, and tokens are handed out below the ceiling. */
  lemma WorkTaken(s: State, e: Step, t: Task)
    requires Enabled(s, e) && t in Working(Next(s, e)) && t !in Working(s)
    ensures Takes(s, e, t) && t in Next(s, e).borrowed
  {
  }

  lemma TokenTaken(s: State, e: Step)
    requires Enabled(s, e) && (e.Call? || e.Grant?) && Takes(s, e, e.task)
    ensures Next(s, e).borrowed == s.borrowed + {e.task} && |Next(s, e).borrowed| <= s.ceiling
  {
  }

  lemma StepBounds(s: State, e: Step)
    requires Enabled(s, e) && !e.NativeCancel? && (forall t :: Threaded(s, t)) && forall t :: t in s.borrowed <==> Holds(s, t)
    ensures Orphans(Next(s, e)) <= Orphans(s)
    ensures Working(Next(s, e)) <= Working(s) || (Working(Next(s, e)) <= Next(s, e).borrowed && |Next(s, e).borrowed| <= s.ceiling)
  {
    forall t | t in Working(s) ensures t in s.borrowed {
      assert Holds(s, t);
    }
    hide Next, Enabled, Orphans, Working, Holds, Threaded, Takes;
    var n := Next(s, e);
    forall t | t in Orphans(n) ensures t in Orphans(s) {
      OrphansShrink(s, e, t);
    }
    if t :| t in Working(n) && t !in Working(s) {
      WorkTaken(s, e, t);
      TakerIsNamed(s, e, t);
      TokenTaken(s, e);
      forall u | u in Working(n) ensures u in n.borrowed {
        if u !in Working(s) {
          WorkTaken(s, e, u);
        }
      }
    }
  }

  lemma TakerIsNamed(s: State, e: Step, t: Task)
    requires Takes(s, e, t)
    ensures (e.Call? || e.Grant?) && e.task == t
  {
  }

  function Most(a: nat, b: nat): nat {
    if a < b then b else a
  }

  lemma UnionSize(a: set<Task>, b: set<Task>)
    ensures |a + b| <= |a| + |b|
    ensures a !! b ==> |a + b| == |a| + |b|
  {
    assert |a + b| == |a| + |b| - |a * b|;
  }

  lemma OccupiedBound(s: State)
    ensures |s.threads| <= |Orphans(s)| + |Working(s)|
  {
    SubsetSize(s.threads, Orphans(s) + Working(s));
    UnionSize(Orphans(s), Working(s));
  }

  /** However a run goes on, its orphans and the greater of its work and its tokens bound its threads. */
  lemma {:induction false} OnwardBounds(h: Steps, k: Steps, ceiling: nat)
    requires Possible(k, ceiling) && Onward(h, k)
    ensures Orphans(Run(k, ceiling)) <= Orphans(Run(h, ceiling))
    ensures |Working(Run(k, ceiling))| <= Most(Run(h, ceiling).ceiling, |Working(Run(h, ceiling))|)
  {
    hide Run, Next, Possible, Orphans, Working, Enabled, Holds, Threaded;
    if k != h {
      Unstep(k, ceiling);
      OnwardBounds(h, k.earlier, ceiling);
      OnwardCeiling(h, k.earlier, ceiling);
      var s := Run(k.earlier, ceiling);
      forall t ensures Threaded(s, t) && (t in s.borrowed <==> Holds(s, t)) {
        ReachedThreaded(k.earlier, ceiling, t);
        TokensBalance(k.earlier, ceiling, t);
      }
      StepBounds(s, k.latest);
      var n := Next(s, k.latest);
      if Working(n) <= Working(s) {
        SubsetSize(Working(n), Working(s));
      } else {
        SubsetSize(Working(n), n.borrowed);
      }
    }
  }

  lemma ReachedThreaded(h: Steps, ceiling: nat, t: Task)
    requires Possible(h, ceiling)
    ensures Threaded(Run(h, ceiling), t)
  {
    NoThreadYet(h, ceiling, t);
  }

  lemma WorkIsBounded(h: Steps, ceiling: nat)
    requires Possible(h, ceiling)
    ensures |Working(Run(h, ceiling))| <= HighestCeiling(h, ceiling)
  {
    var s := Run(h, ceiling);
    forall t | t in Working(s) ensures t in s.borrowed {
      TokensBalance(h, ceiling, t);
    }
    SubsetSize(Working(s), s.borrowed);
    TokensBounded(h, ceiling);
  }

  /**
   The thread ceiling. Beyond the threads nobody waits for any more, which only a native cancellation
   leaves behind and only until they return, no more threads are occupied than the highest ceiling set:
   an anyio cancellation waits its thread out.
   */
  lemma ThreadsBounded(h: Steps, ceiling: nat)
    requires Possible(h, ceiling)
    ensures |Run(h, ceiling).threads| <= |Orphans(Run(h, ceiling))| + HighestCeiling(h, ceiling)
    ensures Orphans(Run(h, ceiling)) <= LetGo(h)
    ensures |Run(h, ceiling).threads - LetGo(h)| <= HighestCeiling(h, ceiling)
    ensures LetGo(h) == {} ==> |Run(h, ceiling).threads| <= HighestCeiling(h, ceiling)
  {
    hide Run, Possible, Working, HighestCeiling, LetGo;
    var s := Run(h, ceiling);
    OccupiedBound(s);
    WorkIsBounded(h, ceiling);
    forall t | t in s.threads ensures t in LetGo(h) || Waits(s, t) {
      ThreadIsWaitedFor(h, ceiling, t);
    }
    forall t | t in s.threads && t !in LetGo(h) ensures t in Working(s) {
      WaitsIsWorking(s, t);
    }
    SubsetSize(s.threads - LetGo(h), Working(s));
    assert LetGo(h) == {} ==> s.threads - LetGo(h) == s.threads;
  }

  lemma WaitsIsWorking(s: State, t: Task)
    requires Waits(s, t) && t in s.threads
    ensures t in Working(s)
  {
  }

  // ---------------------------------------------------------------- the queue is served

  /** While one call finishes the others stay where they are. */
  lemma {:induction false} OthersStay(h: Steps, k: Steps, ceiling: nat, t: Task, u: Task)
    requires Continues(h, k, t) && t != u
    ensures u in Run(h, ceiling).lines <==> u in Run(k, ceiling).lines
    ensures u in Run(h, ceiling).lines ==> Run(k, ceiling).lines[u] == Run(h, ceiling).lines[u]
    ensures u in Run(h, ceiling).borrowed <==> u in Run(k, ceiling).borrowed
  {
    if k != h {
      OthersStay(h, k.earlier, ceiling, t, u);
    }
  }

  lemma {:induction false} FinishingIsOnward(h: Steps, k: Steps, t: Task)
    requires Continues(h, k, t)
    ensures Onward(h, k)
  {
    if k != h {
      FinishingIsOnward(h, k.earlier, t);
    }
  }

  /** Every token out may be given back while a call waits in the queue. */
  lemma {:induction false} AllGiveBack(h: Steps, ceiling: nat, u: Task) returns (k: Steps)
    requires Possible(h, ceiling) && At(Run(h, ceiling), u, Queued)
    ensures Possible(k, ceiling) && Onward(h, k) && At(Run(k, ceiling), u, Queued) && Run(k, ceiling).borrowed == {}
    decreases |Run(h, ceiling).borrowed|
  {
    hide Run, Possible, Continues, Onward;
    k := h;
    var s := Run(h, ceiling);
    assert Onward(h, k) by {
      StaysOnward(h);
    }
    if s.borrowed != {} {
      var t :| t in s.borrowed;
      TokensBalance(h, ceiling, t);
      var l := TokenReturns(h, ceiling, t);
      forall x | x in Run(l, ceiling).borrowed ensures x in s.borrowed - {t} {
        OthersStay(h, l, ceiling, t, x);
      }
      SubsetSize(Run(l, ceiling).borrowed, s.borrowed - {t});
      OthersStay(h, l, ceiling, t, u);
      FinishingIsOnward(h, l, t);
      k := AllGiveBack(l, ceiling, u);
      OnwardOnward(h, l, k);
    }
  }

  lemma StaysOnward(h: Steps)
    ensures Onward(h, h)
  {
  }

  /** Nobody comes by a token while the ceiling is zero. */
  lemma {:induction false} NoTokens(h: Steps, k: Steps, ceiling: nat, t: Task)
    requires Possible(k, ceiling) && Onward(h, k) && Run(h, ceiling).ceiling == 0
    ensures t in Run(k, ceiling).borrowed ==> t in Run(h, ceiling).borrowed
  {
    if k != h {
      NoTokens(h, k.earlier, ceiling, t);
      OnwardCeiling(h, k.earlier, ceiling);
    }
  }

  /** A queued call can still come by a token, whatever the calls before it are doing, iff there are tokens at all. */
  lemma QueuedIsServedIff(h: Steps, ceiling: nat, t: Task)
    requires Possible(h, ceiling) && At(Run(h, ceiling), t, Queued)
    ensures (exists k :: Onward(h, k) && Possible(k, ceiling) && t in Run(k, ceiling).borrowed) <==> Run(h, ceiling).ceiling > 0
  {
    TokensBalance(h, ceiling, t);
    hide Run, Possible, Next;
    var s := Run(h, ceiling);
    if s.ceiling > 0 {
      var k := AllGiveBack(h, ceiling, t);
      OnwardCeiling(h, k, ceiling);
      var n := Run(k, ceiling);
      GrantGives(n, t);
      Stepped(k, Grant(t), ceiling, n, Next(n, Grant(t)));
      var l := Then(k, Grant(t));
      assert Onward(h, l) && Possible(l, ceiling) && t in Run(l, ceiling).borrowed;
    } else if k :| Onward(h, k) && Possible(k, ceiling) && t in Run(k, ceiling).borrowed {
      NoTokens(h, k, ceiling, t);
      assert false;
    }
  }

  lemma GrantGives(s: State, t: Task)
    requires At(s, t, Queued) && |s.borrowed| < s.ceiling
    ensures Enabled(s, Grant(t)) && t in Next(s, Grant(t)).borrowed
  {
  }

  // ---------------------------------------------------------------- filling the threads up

  lemma Stepped(h: Steps, e: Step, ceiling: nat, s: State, n: State)
    requires Possible(h, ceiling) && Run(h, ceiling) == s && Enabled(s, e) && Next(s, e) == n
    ensures Possible(Then(h, e), ceiling) && Run(Then(h, e), ceiling) == n
  {
  }

  /** A state with the same orphans and the same work. */
  ghost predicate SameWork(s: State, n: State) {
    Orphans(s) == Orphans(n) && Working(s) == Working(n) && s.ceiling == n.ceiling
  }

  lemma SubmitKeepsWork(s: State, t: Task)
    requires At(s, t, Submitting) && Threaded(s, t)
    ensures Enabled(s, Submit(t)) && SameWork(s, Next(s, Submit(t)))
    ensures Waiting(Next(s, Submit(t))) == Waiting(s) - {t}
  {
  }

  /** Calls holding a token that have not been given a thread yet. */
  function Waiting(s: State): set<Task> {
    set t | t in s.lines && s.lines[t] == Submitting
  }

  /** Every call about to occupy a thread may do so. */
  lemma {:induction false} SubmitAll(h: Steps, ceiling: nat) returns (k: Steps)
    requires Possible(h, ceiling)
    ensures Possible(k, ceiling) && Onward(h, k) && SameWork(Run(h, ceiling), Run(k, ceiling)) && Waiting(Run(k, ceiling)) == {}
    decreases |Waiting(Run(h, ceiling))|
  {
    hide Run, Next, Possible, Enabled, Threaded;
    k := h;
    var s := Run(h, ceiling);
    if Waiting(s) != {} {
      var t :| t in Waiting(s);
      ReachedThreaded(h, ceiling, t);
      SubmitKeepsWork(s, t);
      Stepped(h, Submit(t), ceiling, s, Next(s, Submit(t)));
      k := SubmitAll(Then(h, Submit(t)), ceiling);
      OnwardOnward(h, Then(h, Submit(t)), k);
    }
  }

  lemma ResumeKeepsWork(s: State, t: Task)
    requires Waits(s, t) && t !in s.threads && Waiting(s) == {}
    ensures Enabled(s, Resume(t)) && SameWork(s, Next(s, Resume(t)))
    ensures At(Next(s, Resume(t)), t, Releasing) && Idle(Next(s, Resume(t))) == Idle(s) && Waiting(Next(s, Resume(t))) == {}
  {
    assert Holds(s, t);
  }

  lemma ReleaseKeepsWork(s: State, t: Task)
    requires At(s, t, Releasing) && Waiting(s) == {}
    ensures Enabled(s, Release(t)) && SameWork(s, Next(s, Release(t)))
    ensures t in Idle(s) && Idle(Next(s, Release(t))) == Idle(s) - {t} && Waiting(Next(s, Release(t))) == {}
  {
  }

  /** Every token whose call has no more use for a thread may be given back. */
  lemma {:induction false} ReleaseIdle(h: Steps, ceiling: nat) returns (k: Steps)
    requires Possible(h, ceiling) && Waiting(Run(h, ceiling)) == {}
    ensures Possible(k, ceiling) && Onward(h, k) && SameWork(Run(h, ceiling), Run(k, ceiling))
    ensures Waiting(Run(k, ceiling)) == {} && Idle(Run(k, ceiling)) == {}
    decreases |Idle(Run(h, ceiling))|
  {
    hide Run, Next, Possible, Enabled;
    k := h;
    var s := Run(h, ceiling);
    if Idle(s) != {} {
      var t :| t in Idle(s);
      if !At(s, t, Releasing) {
        ResumeKeepsWork(s, t);
        Stepped(h, Resume(t), ceiling, s, Next(s, Resume(t)));
        k := Then(h, Resume(t));
      }
      var mid := Run(k, ceiling);
      ReleaseKeepsWork(mid, t);
      Stepped(k, Release(t), ceiling, mid, Next(mid, Release(t)));
      var l := Then(k, Release(t));
      k := ReleaseIdle(l, ceiling);
      OnwardOnward(h, l, k);
    }
  }

  lemma {:induction false} FreshTask(tasks: set<Task>) returns (t: Task)
    ensures t !in tasks && forall u :: u in tasks ==> u < t
    decreases |tasks|
  {
    if tasks == {} {
      t := 0;
    } else {
      var u :| u in tasks;
      var above := FreshTask(tasks - {u});
      t := if above <= u then u + 1 else above;
      assert forall x :: x in tasks ==> x == u || x in tasks - {u};
    }
  }

  /** A call whose line and thread are the same counts the same. */
  lemma CountsTheSame(s: State, n: State, t: Task)
    requires t in s.lines <==> t in n.lines
    requires t in s.lines ==> s.lines[t] == n.lines[t]
    requires t in s.threads <==> t in n.threads
    ensures (t in Working(s) <==> t in Working(n)) && (t in Orphans(s) <==> t in Orphans(n))
    ensures (t in Waiting(s) <==> t in Waiting(n)) && (t in Idle(s) <==> t in Idle(n))
  {
  }

  lemma CountsAsSubmitting(s: State, t: Task)
    requires At(s, t, Submitting) && t !in s.threads
    ensures t in Working(s) && t !in Orphans(s) && t in Waiting(s) && t !in Idle(s)
  {
  }

  lemma CountsAsNothing(s: State, t: Task)
    requires t !in s.lines && t !in s.threads
    ensures t !in Working(s) && t !in Orphans(s) && t !in Waiting(s) && t !in Idle(s)
  {
  }

  lemma CalledTakesWork(s: State, t: Task)
    requires t !in s.lines && t !in s.threads && |s.borrowed| < s.ceiling
    ensures var n := Next(s, Call(t));
      && Enabled(s, Call(t)) && At(n, t, Submitting) && t !in n.threads
      && n.borrowed == s.borrowed + {t} && n.ceiling == s.ceiling
      && Working(n) == Working(s) + {t} && Orphans(n) == Orphans(s) && Waiting(n) == Waiting(s) + {t} && Idle(n) == Idle(s)
  {
    hide Working, Orphans, Waiting, Idle, Holds;
    var n := Next(s, Call(t));
    CountsAsNothing(s, t);
    CountsAsSubmitting(n, t);
    forall u
      ensures u != t ==> (u in Working(s) <==> u in Working(n)) && (u in Orphans(s) <==> u in Orphans(n))
      ensures u != t ==> (u in Waiting(s) <==> u in Waiting(n)) && (u in Idle(s) <==> u in Idle(n))
    {
      if u != t {
        CountsTheSame(s, n, u);
      }
    }
  }

  lemma SubmitKeepsIdle(s: State, t: Task)
    requires At(s, t, Submitting) && t !in s.threads
    ensures var n := Next(s, Submit(t)); n.borrowed == s.borrowed && Idle(n) == Idle(s)
  {
  }

  /** One call more is granted a token and occupies a thread. */
  lemma CalledAndSubmitted(s: State, t: Task)
    requires t !in s.lines && t !in s.threads && t !in s.borrowed && |s.borrowed| < s.ceiling
    ensures Enabled(s, Call(t)) && Enabled(Next(s, Call(t)), Submit(t))
    ensures var n := Next(Next(s, Call(t)), Submit(t));
      && n.borrowed == s.borrowed + {t} && Working(n) == Working(s) + {t} && Orphans(n) == Orphans(s) && n.ceiling == s.ceiling
      && Waiting(n) == Waiting(s) - {t} && Idle(n) == Idle(s)
  {
    hide Next, Enabled, Working, Orphans, Waiting, Idle;
    CalledTakesWork(s, t);
    SubmitKeepsWork(Next(s, Call(t)), t);
    SubmitKeepsIdle(Next(s, Call(t)), t);
  }

  lemma TokensAreWork(h: Steps, ceiling: nat)
    requires Possible(h, ceiling) && Idle(Run(h, ceiling)) == {}
    ensures Run(h, ceiling).borrowed <= Working(Run(h, ceiling))
  {
    hide Run, Possible, Working;
    var s := Run(h, ceiling);
    forall t | t in s.borrowed ensures t in Working(s) {
      TokensBalance(h, ceiling, t);
      assert t !in Idle(s);
    }
  }

  lemma SubmittedOnward(h: Steps, t: Task)
    ensures Onward(h, Then(Then(h, Call(t)), Submit(t)))
  {
    assert Onward(h, Then(h, Call(t)));
  }

  lemma OneThreadMore(h: Steps, ceiling: nat) returns (l: Steps)
    requires Possible(h, ceiling) && |Run(h, ceiling).borrowed| < Run(h, ceiling).ceiling && Waiting(Run(h, ceiling)) == {}
    ensures Possible(l, ceiling) && Onward(h, l)
    ensures var s, n := Run(h, ceiling), Run(l, ceiling);
      && Orphans(n) == Orphans(s) && Waiting(n) == {} && Idle(n) == Idle(s) && n.ceiling == s.ceiling
      && Working(s) <= Working(n) && |n.borrowed| == |s.borrowed| + 1
  {
    hide Run, Next, Possible, Enabled, Orphans, Working, Waiting, Idle, Onward, Holds;
    var s := Run(h, ceiling);
    var t := FreshTask(s.lines.Keys + s.threads + s.borrowed);
    CalledAndSubmitted(s, t);
    SubmittedOnward(h, t);
    var called := Next(s, Call(t));
    Stepped(h, Call(t), ceiling, s, called);
    l := Then(h, Call(t));
    Stepped(l, Submit(t), ceiling, called, Next(called, Submit(t)));
    l := Then(l, Submit(t));
  }

  /** Fresh calls may take every token left. */
  lemma {:induction false} FillTokens(h: Steps, ceiling: nat) returns (k: Steps)
    requires Possible(h, ceiling) && Waiting(Run(h, ceiling)) == {} && Idle(Run(h, ceiling)) == {}
    ensures Possible(k, ceiling) && Onward(h, k) && Orphans(Run(k, ceiling)) == Orphans(Run(h, ceiling)) && Waiting(Run(k, ceiling)) == {}
    ensures |Working(Run(k, ceiling))| >= Most(Run(h, ceiling).ceiling, |Working(Run(h, ceiling))|)
    decreases Run(h, ceiling).ceiling - |Run(h, ceiling).borrowed|
  {
    hide Run, Next, Possible, Enabled, Orphans, Working, Waiting, Idle, Holds;
    k := h;
    var s := Run(h, ceiling);
    if |s.borrowed| < s.ceiling {
      var l := OneThreadMore(h, ceiling);
      SubsetSize(Working(s), Working(Run(l, ceiling)));
      k := FillTokens(l, ceiling);
      OnwardOnward(h, l, k);
    } else {
      TokensAreWork(h, ceiling);
      SubsetSize(s.borrowed, Working(s));
    }
  }

  /** Orphans and working calls with nothing left to submit occupy a thread each. */
  lemma AllOccupied(s: State)
    requires Waiting(s) == {}
    ensures |s.threads| == |Orphans(s)| + |Working(s)|
  {
    forall t | t in Working(s) ensures t in s.threads && t !in Orphans(s) {
      assert t !in Waiting(s);
    }
    assert s.threads == Orphans(s) + Working(s);
    UnionSize(Orphans(s), Working(s));
  }

  /** From any state, as many threads may come to be occupied as there are orphans, and tokens or work, whichever is more. */
  lemma ThreadsFillUp(h: Steps, ceiling: nat) returns (k: Steps)
    requires Possible(h, ceiling)
    ensures Possible(k, ceiling) && Onward(h, k)
    ensures |Run(k, ceiling).threads| >= |Orphans(Run(h, ceiling))| + Most(Run(h, ceiling).ceiling, |Working(Run(h, ceiling))|)
  {
    hide Run, Possible, Waiting, Idle, Orphans, Working;
    var a := SubmitAll(h, ceiling);
    var b := ReleaseIdle(a, ceiling);
    k := FillTokens(b, ceiling);
    OnwardOnward(h, a, b);
    OnwardOnward(h, b, k);
    AllOccupied(Run(k, ceiling));
  }

  /**
   The exact condition. Without a further native cancellation or change of the ceiling, a run can come to
   occupy more threads than the highest ceiling set iff the threads nobody waits for, together with the
   tokens there are or the work in hand if that is more, exceed it.
   */
  lemma CeilingPassableIff(h: Steps, ceiling: nat)
    requires Possible(h, ceiling)
    ensures (exists k :: Onward(h, k) && Possible(k, ceiling) && |Run(k, ceiling).threads| > HighestCeiling(k, ceiling))
      <==> var s := Run(h, ceiling); |Orphans(s)| + Most(s.ceiling, |Working(s)|) > HighestCeiling(h, ceiling)
  {
    hide Run, Possible, Orphans, Working, HighestCeiling;
    var l := ThreadsFillUp(h, ceiling);
    OnwardCeiling(h, l, ceiling);
    if k :| Onward(h, k) && Possible(k, ceiling) && |Run(k, ceiling).threads| > HighestCeiling(k, ceiling) {
      OnwardBounds(h, k, ceiling);
      OnwardCeiling(h, k, ceiling);
      OccupiedBound(Run(k, ceiling));
      SubsetSize(Orphans(Run(k, ceiling)), Orphans(Run(h, ceiling)));
    }
  }

  /** While the ceiling stands at its highest, it can be passed iff some thread runs on that nobody waits for. */
  lemma CeilingPassableIffOrphaned(h: Steps, ceiling: nat)
    requires Possible(h, ceiling) && Run(h, ceiling).ceiling == HighestCeiling(h, ceiling)
    ensures (exists k :: Onward(h, k) && Possible(k, ceiling) && |Run(k, ceiling).threads| > HighestCeiling(k, ceiling))
      <==> exists t :: t in Run(h, ceiling).threads && !Waits(Run(h, ceiling), t)
  {
    CeilingPassableIff(h, ceiling);
    var s := Run(h, ceiling);
    hide Run, Possible, HighestCeiling, Onward;
    WorkIsBounded(h, ceiling);
    if t :| t in s.threads && !Waits(s, t) {
      assert t in Orphans(s);
    } else {
      assert Orphans(s) == {};
    }
  }

  /** A native cancellation does break the ceiling: one token, two threads occupied. */
  lemma NativeCancellationExceeds() returns (h: Steps)
    ensures Possible(h, 1) && |Run(h, 1).threads| == 2 > HighestCeiling(h, 1)
  {
    hide Run, Possible;
    var before := Abandoned();
    var s0 := State(map[0 := Over], {}, {0}, 1);
    var s1 := State(map[0 := Over, 1 := Submitting], {1}, {0}, 1);
    Stepped(before, Call(1), 1, s0, s1);
    var s2 := State(map[0 := Over, 1 := Awaiting], {1}, {0, 1}, 1);
    Stepped(Then(before, Call(1)), Submit(1), 1, s1, s2);
    h := Then(Then(before, Call(1)), Submit(1));
  }

  /** A call let go by a native cancellation has given its token back while its thread runs on. */
  lemma Abandoned() returns (h: Steps)
    ensures Possible(h, 1) && Run(h, 1) == State(map[0 := Over], {}, {0}, 1) && HighestCeiling(h, 1) == 1
  {
    hide Run, Possible;
    var s0, s1 := State(map[], {}, {}, 1), State(map[0 := Submitting], {0}, {}, 1);
    Untouched(1);
    Stepped(Start, Call(0), 1, s0, s1);
    var h1, s2 := Then(Start, Call(0)), State(map[0 := Awaiting], {0}, {0}, 1);
    Stepped(h1, Submit(0), 1, s1, s2);
    var h2, s3 := Then(h1, Submit(0)), State(map[0 := Releasing], {0}, {0}, 1);
    Stepped(h2, NativeCancel(0), 1, s2, s3);
    var h3, s4 := Then(h2, NativeCancel(0)), State(map[0 := Over], {}, {0}, 1);
    Stepped(h3, Release(0), 1, s3, s4);
    h := Then(h3, Release(0));
  }

  lemma Untouched(ceiling: nat)
    ensures Possible(Start, ceiling) && Run(Start, ceiling) == State(map[], {}, {}, ceiling)
  {
  }
}
