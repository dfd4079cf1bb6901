/**
 The two interceptors that answer from recordings. An attempt looks its key up, runs its handler if
 nothing answers, and records what the handler returned; other attempts interleave between the steps.
 */
module Replay {
  import opened Options
  import opened OrderedDict
  import opened RecordedResults

  const CACHE_ENTRY_LIMIT := 512
  const IDEMPOTENCY_KEY_LIMIT := 1024
  const IDEMPOTENCY_RETENTION_SECONDS := 24.0 * 60.0 * 60.0

  // ---------------------------------------------------------------- what a request is kept under

  /**
   What the interceptors read off one request; `None` where the transport carries nothing readable.
   The key names the handler function, by its module and qualified name, and not the compiled route that
   led to it: routes of two controllers that inherit one handler share it.
   */
  datatype Context = Context(
    route: string,
    handler: (string, string),
    verb: string,
    path: string,
    query: Option<string>,
    principal: Principal,
    headers: map<string, string>)

  datatype Principal = Nobody | Unreadable | Known(id: string)

  datatype Key =
    | CacheKey(handler: (string, string), verb: string, path: string, query: string, caller: Option<string>)
    | AttemptKey(handler: (string, string), verb: string, path: string, presented: string)

  function Upper(s: string): string {
    seq(|s|, i requires 0 <= i < |s| => if 'a' <= s[i] <= 'z' then s[i] - 'a' + 'A' else s[i])
  }

  function Lower(s: string): string {
    seq(|s|, i requires 0 <= i < |s| => if 'A' <= s[i] <= 'Z' then s[i] - 'A' + 'a' else s[i])
  }

  function CacheableKey(request: Option<Context>): Option<Key> {
    if request.None? || Upper(request.value.verb) !in {"GET", "HEAD"} then None
    else
      var r := request.value;
      if r.query.None? || r.principal.Unreadable? then None
      else
        var caller := if r.principal.Known? then Some(r.principal.id) else None;
        Some(CacheKey(r.handler, Upper(r.verb), r.path, r.query.value, caller))
  }

  /** The named header, then its folded name, an empty value counting as none. */
  function Presented(headers: map<string, string>, name: string): Option<string> {
    if name in headers && headers[name] != "" then Some(headers[name])
    else if Lower(name) in headers && headers[Lower(name)] != "" then Some(headers[Lower(name)])
    else None
  }

  function PresentedKey(request: Option<Context>, keyHeader: Option<string>): Option<Key> {
    if request.None? || keyHeader.None? then None
    else
      match Presented(request.value.headers, keyHeader.value)
      case None => None
      case Some(p) => Some(AttemptKey(request.value.handler, Upper(request.value.verb), request.value.path, p))
  }

  /** Two requests are kept under one cache key iff they ask one handler the same question as the same caller. */
  lemma OneQuestionPerKey(a: Context, b: Context)
    requires CacheableKey(Some(a)).Some? && CacheableKey(Some(b)).Some?
    ensures CacheableKey(Some(a)) == CacheableKey(Some(b)) <==>
      && a.handler == b.handler && Upper(a.verb) == Upper(b.verb)
      && a.path == b.path && a.query == b.query && a.principal == b.principal
    ensures Upper(a.verb) in {"GET", "HEAD"}
  {
  }

  /** Two attempts are kept under one key iff they reach one handler, verb and path and present one value. */
  lemma OneAttemptPerKey(a: Context, b: Context, headerOfA: Option<string>, headerOfB: Option<string>)
    requires PresentedKey(Some(a), headerOfA).Some? && PresentedKey(Some(b), headerOfB).Some?
    ensures PresentedKey(Some(a), headerOfA) == PresentedKey(Some(b), headerOfB) <==>
      && a.handler == b.handler && Upper(a.verb) == Upper(b.verb) && a.path == b.path
      && Presented(a.headers, headerOfA.value) == Presented(b.headers, headerOfB.value)
  {
    hide Upper, Presented;
  }

  /** Two verbs are one but for the case of their letters. */
  predicate SameButForCase(s: string, t: string) {
    |s| == |t| && forall i :: 0 <= i < |s| ==> SameLetter(s[i], t[i])
  }

  predicate SameLetter(a: char, b: char) {
    || a == b
    || ('a' <= a <= 'z' && 'A' <= b <= 'Z' && a as int - 'a' as int == b as int - 'A' as int)
    || ('A' <= a <= 'Z' && 'a' <= b <= 'z' && a as int - 'A' as int == b as int - 'a' as int)
  }

  /** `t` is `s` in small letters. */
  predicate InSmallLetters(s: string, t: string) {
    SameButForCase(s, t) && forall i :: 0 <= i < |t| ==> !('A' <= t[i] <= 'Z')
  }

  lemma UpperTells(s: string, t: string)
    ensures Upper(s) == Upper(t) <==> SameButForCase(s, t)
  {
    var a, b := Upper(s), Upper(t);
    if a == b {
      forall i | 0 <= i < |s| ensures SameLetter(s[i], t[i]) {
        assert a[i] == b[i];
      }
    }
  }

  lemma SafeVerbIff(verb: string)
    ensures Upper(verb) in {"GET", "HEAD"} <==> SameButForCase(verb, "GET") || SameButForCase(verb, "HEAD")
  {
    UpperTells(verb, "GET");
    UpperTells(verb, "HEAD");
    assert Upper("GET") == "GET" && Upper("HEAD") == "HEAD";
  }

  lemma SmallLettersAreLower(s: string, t: string)
    requires InSmallLetters(s, t)
    ensures Lower(s) == t
  {
    forall i | 0 <= i < |s| ensures Lower(s)[i] == t[i] {
      assert SameLetter(s[i], t[i]);
    }
  }

  /** The header carries a value under a name. */
  predicate Carries(headers: map<string, string>, name: string) {
    name in headers && headers[name] != ""
  }

  /** Which requests are kept in the cache: a safe verb, a readable query string and a principal that can be told. */
  lemma UncacheableIff(request: Option<Context>)
    ensures CacheableKey(request) == None <==>
      || request.None?
      || !(SameButForCase(request.value.verb, "GET") || SameButForCase(request.value.verb, "HEAD"))
      || request.value.query.None? || request.value.principal.Unreadable?
  {
    if request.Some? {
      SafeVerbIff(request.value.verb);
    }
  }

  /** Which attempts present nothing: neither the declared name nor the name in small letters carries a value. */
  lemma PresentsNothingIff(request: Option<Context>, keyHeader: Option<string>, small: string)
    requires keyHeader.Some? ==> InSmallLetters(keyHeader.value, small)
    ensures PresentedKey(request, keyHeader) == None <==>
      request.None? || keyHeader.None? || (!Carries(request.value.headers, keyHeader.value) && !Carries(request.value.headers, small))
    ensures PresentedKey(request, keyHeader) != None ==>
      ReadUnder(request.value, keyHeader.value, if Carries(request.value.headers, keyHeader.value) then keyHeader.value else small)
  {
    if keyHeader.Some? {
      SmallLettersAreLower(keyHeader.value, small);
    }
  }

  /** The name an attempt's value is read under: the declared one if it carries a value, else that in small letters. */
  predicate ReadUnder(c: Context, declared: string, name: string) {
    Carries(c.headers, name) &&
    if Carries(c.headers, declared) then name == declared else InSmallLetters(declared, name)
  }

  /**
   Two attempts are kept under one key iff the values their headers carry are the same, and so are handler,
   path and, but for its case, verb.
   */
  lemma ValuesTellAttempts(a: Context, b: Context, declaredByA: string, declaredByB: string, nameOfA: string, nameOfB: string)
    requires ReadUnder(a, declaredByA, nameOfA) && ReadUnder(b, declaredByB, nameOfB)
    ensures PresentedKey(Some(a), Some(declaredByA)) == PresentedKey(Some(b), Some(declaredByB)) <==>
      && a.headers[nameOfA] == b.headers[nameOfB]
      && a.handler == b.handler && a.path == b.path && SameButForCase(a.verb, b.verb)
  {
    UpperTells(a.verb, b.verb);
    ValueRead(a, declaredByA, nameOfA);
    ValueRead(b, declaredByB, nameOfB);
    hide Upper, Lower, Presented, ReadUnder, SameButForCase;
  }

  lemma ValueRead(c: Context, declared: string, name: string)
    requires ReadUnder(c, declared, name)
    ensures name in c.headers && Presented(c.headers, declared) == Some(c.headers[name])
  {
    if !Carries(c.headers, declared) {
      SmallLettersAreLower(declared, name);
    }
  }

  /** Two cacheable requests are kept under one key iff they agree in handler, path, query, principal and, but for its case, verb. */
  lemma FieldsTellQuestions(a: Context, b: Context)
    requires CacheableKey(Some(a)).Some? && CacheableKey(Some(b)).Some?
    ensures CacheableKey(Some(a)) == CacheableKey(Some(b)) <==>
      && a.handler == b.handler && a.path == b.path && SameButForCase(a.verb, b.verb)
      && a.query == b.query && a.principal == b.principal
  {
    OneQuestionPerKey(a, b);
    UpperTells(a.verb, b.verb);
    hide Upper, CacheableKey, SameButForCase;
  }

  // ---------------------------------------------------------------- runs

  datatype Step<V> =
    | Arrive(id: nat, key: Key, now: real)
    | Finish(id: nat, result: V, now: real, ttl: real)
    | Fail(id: nat)

  type Steps<V> = Trail<Step<V>>

  function Arrival<V>(t: Steps<V>, id: nat): Option<Key> {
    match t
    case Start => None
    case Then(p, s) => if s.Arrive? && s.id == id then Some(s.key) else Arrival(p, id)
  }

  /** Whether the attempt has handed its handler's outcome back. */
  predicate Ended<V>(t: Steps<V>, id: nat) {
    t.Then? && ((!t.latest.Arrive? && t.latest.id == id) || Ended(t.earlier, id))
  }

  /** Whether the attempt found nothing to answer it, so that its handler was run. */
  predicate Ran<V>(t: Steps<V>, id: nat, limit: nat) {
    t.Then? &&
    if t.latest.Arrive? && t.latest.id == id
    then !Answerable(Run(Events(t.earlier), limit), t.latest.key, t.latest.now)
    else Ran(t.earlier, id, limit)
  }

  /** What the steps did to the store. */
  function Events<V>(t: Steps<V>): History<Key, V> {
    match t
    case Start => Start
    case Then(p, Arrive(_, k, now)) => Then(Events(p), Look(k, now))
    case Then(p, Finish(id, v, now, ttl)) =>
      if Arrival(p, id).Some? then Then(Events(p), Record(Arrival(p, id).value, v, now, ttl)) else Events(p)
    case Then(p, Fail(_)) => Events(p)
  }

  /** Attempts arrive once; only one whose handler was run, and has not come back yet, comes back. */
  predicate Possible<V>(t: Steps<V>, limit: nat) {
    match t
    case Start => true
    case Then(p, s) =>
      Possible(p, limit) &&
      if s.Arrive? then Arrival(p, s.id) == None
      else Arrival(p, s.id).Some? && Ran(p, s.id, limit) && !Ended(p, s.id)
  }

  predicate Happened<V(==)>(t: Steps<V>, s: Step<V>) {
    t.Then? && (t.latest == s || Happened(t.earlier, s))
  }

  lemma {:induction false} EndedIff<V(!new)>(t: Steps<V>, id: nat)
    ensures Ended(t, id) <==> exists s: Step<V> :: Happened(t, s) && !s.Arrive? && s.id == id
  {
    if t.Then? {
      EndedIff(t.earlier, id);
      assert Happened(t, t.latest) && forall s: Step<V> :: Happened(t, s) <==> t.latest == s || Happened(t.earlier, s);
    }
  }

  class Interceptor<V> {
    const results: ResultStore<Key, V>
    ghost var steps: Steps<V>

    ghost predicate Valid()
      reads this, results
    {
      results.Valid() && results.entries == Run(Events(steps), results.limit) && Possible(steps, results.limit)
    }

    constructor (limit: nat)
      ensures Valid() && fresh(results) && results.limit == limit && steps == Start
    {
      results := new ResultStore(limit);
      steps := Start;
    }

    /** The look-up before the handler: what it returns is the whole reply of a hit. */
    method LookUp(id: nat, key: Key, now: real) returns (hit: Option<V>)
      requires Valid() && Arrival(steps, id) == None
      modifies this, results
      ensures Valid() && steps == Then(old(steps), Arrive(id, key, now))
      ensures hit.None? <==> Ran(steps, id, results.limit)
      ensures hit.Some? ==> Answered(old(results.entries), key, now).Some? && hit.value == Answered(old(results.entries), key, now).value.value
    {
      var recorded := results.Answer(key, now);
      steps := Then(steps, Arrive(id, key, now));
      match recorded
      case Some(entry) => return Some(entry.value);
      case None => return None;
    }

    /** The recording after the handler returned. */
    method HandOver(id: nat, key: Key, result: V, now: real, ttl: real)
      requires Valid() && Arrival(steps, id) == Some(key) && Ran(steps, id, results.limit) && !Ended(steps, id)
      modifies this, results
      ensures Valid() && steps == Then(old(steps), Finish(id, result, now, ttl))
    {
      results.Record(key, result, now, ttl);
      steps := Then(steps, Finish(id, result, now, ttl));
    }
  }

  // ---------------------------------------------------------------- provenance

  lemma {:induction false} ArrivalStays<V>(t: Steps<V>, id: nat, limit: nat)
    requires Possible(t, limit) && t.Then? && Arrival(t.earlier, id).Some?
    ensures Arrival(t, id) == Arrival(t.earlier, id)
    ensures Ran(t, id, limit) == Ran(t.earlier, id, limit)
  {
  }

  /** The recording a key was last given was handed over by an attempt of that key whose handler ran. */
  lemma {:induction false} RecordedByRun<V>(t: Steps<V>, k: Key, limit: nat) returns (id: nat)
    requires Possible(t, limit) && LastRecord(Events(t), k).Some?
    ensures var e := LastRecord(Events(t), k).value;
      && e.Record? && e.key == k
      && Happened(t, Finish(id, e.value, e.now, e.ttl))
      && Arrival(t, id) == Some(k) && Ran(t, id, limit)
  {
    if t.latest.Finish? && Arrival(t.earlier, t.latest.id) == Some(k) {
      id := t.latest.id;
    } else {
      id := RecordedByRun(t.earlier, k, limit);
    }
    ArrivalStays(t, id, limit);
  }

  /**
   Every hit replays an earlier run: an attempt of the same key ran its handler, it returned the value
   replayed, and that was recorded less than its ttl ago.
   */
  lemma HitReplaysRun<V>(t: Steps<V>, k: Key, now: real, limit: nat) returns (run: Step<V>)
    requires Possible(t, limit) && Answerable(Run(Events(t), limit), k, now)
    ensures run.Finish? && Happened(t, run) && Arrival(t, run.id) == Some(k) && Ran(t, run.id, limit)
    ensures Run(Events(t), limit).items[k].value == run.result && now < run.now + run.ttl
  {
    Holds(Events(t), limit);
    var id := RecordedByRun(t, k, limit);
    var e := LastRecord(Events(t), k).value;
    run := Finish(id, e.value, e.now, e.ttl);
  }

  /** A cached answer only ever reaches the caller, the handler, the path and the query it was computed for. */
  lemma HitServesItsOwnCaller<V>(t: Steps<V>, ask: Context, now: real, limit: nat, contexts: nat -> Context) returns (run: Step<V>)
    requires Possible(t, limit) && CacheableKey(Some(ask)).Some?
    requires forall id :: Arrival(t, id).Some? ==> CacheableKey(Some(contexts(id))) == Arrival(t, id)
    requires Answerable(Run(Events(t), limit), CacheableKey(Some(ask)).value, now)
    ensures run.Finish? && Happened(t, run) && Ran(t, run.id, limit)
    ensures Run(Events(t), limit).items[CacheableKey(Some(ask)).value].value == run.result
    ensures var asked := contexts(run.id);
      asked.principal == ask.principal && asked.handler == ask.handler && asked.path == ask.path && asked.query == ask.query
  {
    run := HitReplaysRun(t, CacheableKey(Some(ask)).value, now, limit);
    OneQuestionPerKey(ask, contexts(run.id));
  }

  // ---------------------------------------------------------------- whose attempt is replayed

  /** The attempt whose result a key was last given. */
  function Recorder<V>(t: Steps<V>, k: Key): Option<nat> {
    match t
    case Start => None
    case Then(p, s) => if s.Finish? && Arrival(p, s.id) == Some(k) then Some(s.id) else Recorder(p, k)
  }

  lemma {:induction false} RecorderRan<V>(t: Steps<V>, k: Key, limit: nat)
    requires Possible(t, limit) && LastRecord(Events(t), k).Some?
    ensures Recorder(t, k).Some? && Arrival(t, Recorder(t, k).value) == Some(k) && Ran(t, Recorder(t, k).value, limit)
  {
    if !(t.latest.Finish? && Arrival(t.earlier, t.latest.id) == Some(k)) {
      RecorderRan(t.earlier, k, limit);
    }
    ArrivalStays(t, Recorder(t, k).value, limit);
  }

  /** What an interceptor keeps a request under. */
  type Keying = Context -> Option<Key>

  /** A run over requests of some traffic, and one more of them that is answered from a recording. */
  ghost predicate Replays<V(!new)>(t: Steps<V>, contexts: nat -> Context, ask: Context, now: real, traffic: Context -> bool, keyOf: Keying, limit: nat) {
    && Possible(t, limit)
    && (forall id :: Arrival(t, id).Some? ==> traffic(contexts(id)) && keyOf(contexts(id)) == Arrival(t, id))
    && traffic(ask) && keyOf(ask).Some?
    && Answerable(Run(Events(t), limit), keyOf(ask).value, now)
  }

  /** The request answered agrees, in what `of` reads off it, with the one whose result it is answered with. */
  predicate ServesItsOwn<V, A(==)>(t: Steps<V>, contexts: nat -> Context, ask: Context, keyOf: Keying, of: Context -> A) {
    var k := keyOf(ask);
    k.Some? && Recorder(t, k.value).Some? && of(contexts(Recorder(t, k.value).value)) == of(ask)
  }

  /** No two requests of the traffic are kept under one key and differ in what `of` reads. */
  ghost predicate KeysTellApart<A>(traffic: Context -> bool, keyOf: Keying, of: Context -> A) {
    forall a, b :: traffic(a) && traffic(b) && keyOf(a).Some? && keyOf(a) == keyOf(b) ==> of(a) == of(b)
  }

  /** One attempt that came back, and everything recorded so far is its result. */
  lemma OneRecording<V(!new)>(k: Key, v: V, limit: nat) returns (t: Steps<V>)
    requires limit >= 1
    ensures Possible(t, limit) && Recorder(t, k) == Some(0)
    ensures forall id :: Arrival(t, id) == if id == 0 then Some(k) else None
    ensures Answerable(Run(Events(t), limit), k, 0.0)
  {
    var arrived := Then(Start, Arrive(0, k, 0.0));
    t := Then(arrived, Finish(0, v, 0.0, 1.0));
    forall id: nat ensures Arrival(t, id) == if id == 0 then Some(k) else None {
      assert Arrival(t, id) == Arrival(arrived, id);
      assert Arrival<V>(Start, id) == None;
    }
    assert Events(arrived) == Then(Start, Look(k, 0.0));
    assert Run(Events(arrived), limit) == Empty();
    KeptLast(Empty(), k, v, 0.0, 1.0, limit);
  }

  /** Whoever is kept under another request's key is answered with that request's result, in some run. */
  lemma AnotherIsServed<V(!new), A>(a: Context, b: Context, v: V, keyOf: Keying, limit: nat, of: Context -> A) returns (t: Steps<V>)
    requires limit >= 1 && keyOf(a).Some? && keyOf(a) == keyOf(b) && of(a) != of(b)
    ensures forall traffic: Context -> bool :: traffic(a) && traffic(b) ==> Replays(t, (id: nat) => a, b, 0.0, traffic, keyOf, limit)
    ensures !ServesItsOwn(t, (id: nat) => a, b, keyOf, of)
  {
    t := OneRecording(keyOf(a).value, v, limit);
  }

  /** Over all runs of a traffic, every replay agrees with its recording iff the keys tell apart what is read. */
  lemma ReplaysServeTheirOwnIff<V(!new), A>(traffic: Context -> bool, keyOf: Keying, limit: nat, of: Context -> A, v: V)
    requires limit >= 1
    ensures (forall t: Steps<V>, contexts: nat -> Context, ask: Context, now: real ::
        Replays(t, contexts, ask, now, traffic, keyOf, limit) ==> ServesItsOwn(t, contexts, ask, keyOf, of))
      <==> KeysTellApart(traffic, keyOf, of)
  {
    if KeysTellApart(traffic, keyOf, of) {
      forall t: Steps<V>, contexts: nat -> Context, ask: Context, now: real | Replays(t, contexts, ask, now, traffic, keyOf, limit)
        ensures ServesItsOwn(t, contexts, ask, keyOf, of)
      {
        Holds(Events(t), limit);
        RecorderRan(t, keyOf(ask).value, limit);
      }
    } else {
      var a, b :| traffic(a) && traffic(b) && keyOf(a).Some? && keyOf(a) == keyOf(b) && of(a) != of(b);
      var t := AnotherIsServed(a, b, v, keyOf, limit, of);
      assert Replays(t, (id: nat) => a, b, 0.0, traffic, keyOf, limit);
    }
  }

  // ---------------------------------------------------------------- callers and routes

  /** The declared header is part of a route's compiled plan, so a route has one or none. */
  type Headers = string -> Option<string>

  function AttemptKeyOf(c: Context, headers: Headers): Option<Key> {
    PresentedKey(Some(c), headers(c.route))
  }

  function ByAttempt(headers: Headers): Keying {
    (c: Context) => AttemptKeyOf(c, headers)
  }

  function ByQuestion(): Keying {
    (c: Context) => CacheableKey(Some(c))
  }

  /** Two requests that reach one handler, verb and path and present one value. */
  predicate PresentsTheSame(a: Context, b: Context, headers: Headers) {
    && AttemptKeyOf(a, headers).Some? && AttemptKeyOf(b, headers).Some?
    && a.handler == b.handler && Upper(a.verb) == Upper(b.verb) && a.path == b.path
    && headers(a.route).Some? && headers(b.route).Some?
    && Presented(a.headers, headers(a.route).value) == Presented(b.headers, headers(b.route).value)
  }

  /** Two cacheable requests that ask one handler the same question as the same caller. */
  predicate AsksTheSame(a: Context, b: Context) {
    && CacheableKey(Some(a)).Some? && CacheableKey(Some(b)).Some?
    && a.handler == b.handler && Upper(a.verb) == Upper(b.verb)
    && a.path == b.path && a.query == b.query && a.principal == b.principal
  }

  lemma AttemptsTellApartIff<A>(traffic: Context -> bool, headers: Headers, of: Context -> A)
    ensures KeysTellApart(traffic, ByAttempt(headers), of) <==>
      forall a, b :: traffic(a) && traffic(b) && PresentsTheSame(a, b, headers) ==> of(a) == of(b)
  {
    forall a, b
      ensures PresentsTheSame(a, b, headers) <==> ByAttempt(headers)(a).Some? && ByAttempt(headers)(a) == ByAttempt(headers)(b)
    {
      if AttemptKeyOf(a, headers).Some? && AttemptKeyOf(b, headers).Some? {
        OneAttemptPerKey(a, b, headers(a.route), headers(b.route));
      }
    }
    hide PresentsTheSame, AttemptKeyOf, ByAttempt;
  }

  lemma QuestionsTellApartIff<A>(traffic: Context -> bool, of: Context -> A)
    ensures KeysTellApart(traffic, ByQuestion(), of) <==>
      forall a, b :: traffic(a) && traffic(b) && AsksTheSame(a, b) ==> of(a) == of(b)
  {
    forall a, b ensures AsksTheSame(a, b) <==> ByQuestion()(a).Some? && ByQuestion()(a) == ByQuestion()(b) {
      if CacheableKey(Some(a)).Some? && CacheableKey(Some(b)).Some? {
        OneQuestionPerKey(a, b);
      }
    }
    hide AsksTheSame, CacheableKey, ByQuestion;
  }

  function CallerOf(c: Context): Principal {
    c.principal
  }

  function RouteOf(c: Context): string {
    c.route
  }

  /** Every idempotent replay serves the principal it was recorded for iff no two principals present the same. */
  lemma ReplaysServeTheirCallerIff<V(!new)>(traffic: Context -> bool, headers: Headers, v: V)
    ensures (forall t: Steps<V>, contexts: nat -> Context, ask: Context, now: real ::
        Replays(t, contexts, ask, now, traffic, ByAttempt(headers), IDEMPOTENCY_KEY_LIMIT) ==>
          ServesItsOwn(t, contexts, ask, ByAttempt(headers), CallerOf))
      <==> forall a, b :: traffic(a) && traffic(b) && PresentsTheSame(a, b, headers) ==> a.principal == b.principal
  {
    hide Replays, ServesItsOwn, PresentsTheSame, ByAttempt, KeysTellApart;
    ReplaysServeTheirOwnIff(traffic, ByAttempt(headers), IDEMPOTENCY_KEY_LIMIT, CallerOf, v);
    AttemptsTellApartIff(traffic, headers, CallerOf);
  }

  /** Every idempotent replay serves the route it was recorded for iff no two routes are presented the same. */
  lemma ReplaysServeTheirRouteIff<V(!new)>(traffic: Context -> bool, headers: Headers, v: V)
    ensures (forall t: Steps<V>, contexts: nat -> Context, ask: Context, now: real ::
        Replays(t, contexts, ask, now, traffic, ByAttempt(headers), IDEMPOTENCY_KEY_LIMIT) ==>
          ServesItsOwn(t, contexts, ask, ByAttempt(headers), RouteOf))
      <==> forall a, b :: traffic(a) && traffic(b) && PresentsTheSame(a, b, headers) ==> a.route == b.route
  {
    hide Replays, ServesItsOwn, PresentsTheSame, ByAttempt, KeysTellApart;
    ReplaysServeTheirOwnIff(traffic, ByAttempt(headers), IDEMPOTENCY_KEY_LIMIT, RouteOf, v);
    AttemptsTellApartIff(traffic, headers, RouteOf);
  }

  /** Every cache hit serves the route it was computed for iff no two routes are asked the same. */
  lemma HitsServeTheirRouteIff<V(!new)>(traffic: Context -> bool, v: V)
    ensures (forall t: Steps<V>, contexts: nat -> Context, ask: Context, now: real ::
        Replays(t, contexts, ask, now, traffic, ByQuestion(), CACHE_ENTRY_LIMIT) ==>
          ServesItsOwn(t, contexts, ask, ByQuestion(), RouteOf))
      <==> forall a, b :: traffic(a) && traffic(b) && AsksTheSame(a, b) ==> a.route == b.route
  {
    hide Replays, ServesItsOwn, AsksTheSame, ByQuestion, KeysTellApart;
    ReplaysServeTheirOwnIff(traffic, ByQuestion(), CACHE_ENTRY_LIMIT, RouteOf, v);
    QuestionsTellApartIff(traffic, RouteOf);
  }

  /** Two routes that share a handler and a path: asked the same, the second is answered with the first's result. */
  lemma AnotherRouteIsServed<V(!new)>(a: Context, b: Context, v: V) returns (t: Steps<V>)
    requires AsksTheSame(a, b) && a.route != b.route
    ensures forall traffic: Context -> bool :: traffic(a) && traffic(b) ==>
      Replays(t, (id: nat) => a, b, 0.0, traffic, ByQuestion(), CACHE_ENTRY_LIMIT)
    ensures !ServesItsOwn(t, (id: nat) => a, b, ByQuestion(), RouteOf)
  {
    OneQuestionPerKey(a, b);
    t := AnotherIsServed(a, b, v, ByQuestion(), CACHE_ENTRY_LIMIT, RouteOf);
  }

  /** Whoever presents another principal's value to its handler, verb and path is answered with its result. */
  lemma AnotherCallerIsServed<V(!new)>(a: Context, b: Context, v: V, headers: Headers) returns (t: Steps<V>)
    requires PresentsTheSame(a, b, headers) && a.principal != b.principal
    ensures forall traffic: Context -> bool :: traffic(a) && traffic(b) ==>
      Replays(t, (id: nat) => a, b, 0.0, traffic, ByAttempt(headers), IDEMPOTENCY_KEY_LIMIT)
    ensures !ServesItsOwn(t, (id: nat) => a, b, ByAttempt(headers), CallerOf)
  {
    OneAttemptPerKey(a, b, headers(a.route), headers(b.route));
    t := AnotherIsServed(a, b, v, ByAttempt(headers), IDEMPOTENCY_KEY_LIMIT, CallerOf);
  }

  // ---------------------------------------------------------------- transparency

  /** Every handler run returned what its key determines. */
  predicate Determined<V(==)>(t: Steps<V>, answer: Key -> V) {
    match t
    case Start => true
    case Then(p, s) =>
      Determined(p, answer) && (s.Finish? && Arrival(p, s.id).Some? ==> s.result == answer(Arrival(p, s.id).value))
  }

  predicate Begins<V(==)>(p: Steps<V>, t: Steps<V>) {
    p == t || (t.Then? && Begins(p, t.earlier))
  }

  /** At whatever point of a run a handler came back, it returned what its key determines. */
  lemma {:induction false} DeterminedIff<V(!new)>(t: Steps<V>, answer: Key -> V)
    ensures Determined(t, answer) <==>
      forall p: Steps<V>, s: Step<V> :: Begins(Then(p, s), t) && s.Finish? && Arrival(p, s.id).Some? ==> s.result == answer(Arrival(p, s.id).value)
  {
    if t.Then? {
      hide Arrival;
      DeterminedIff(t.earlier, answer);
      assert Begins(Then(t.earlier, t.latest), t);
      assert forall p: Steps<V>, s: Step<V> :: Begins(Then(p, s), t.earlier) ==> Begins(Then(p, s), t);
    }
  }

  lemma {:induction false} DeterminedRecord<V>(t: Steps<V>, answer: Key -> V, k: Key)
    requires Determined(t, answer) && LastRecord(Events(t), k).Some?
    ensures var e := LastRecord(Events(t), k).value; e.Record? && e.value == answer(k)
  {
    if !(t.latest.Finish? && Arrival(t.earlier, t.latest.id) == Some(k)) {
      DeterminedRecord(t.earlier, answer, k);
    }
  }

  /** For a handler its key determines, a replayed answer is the one the handler would give. */
  lemma CachedEqualsUncached<V>(t: Steps<V>, answer: Key -> V, k: Key, now: real, limit: nat)
    requires Determined(t, answer) && Answerable(Run(Events(t), limit), k, now)
    ensures Run(Events(t), limit).items[k].value == answer(k)
  {
    Holds(Events(t), limit);
    DeterminedRecord(t, answer, k);
  }

  // ---------------------------------------------------------------- once per key

  predicate InLockOrder<V>(t: Steps<V>, ttl: real) {
    Ordered(Events(t)) && OneTtl(Events(t), ttl)
  }

  /** The recordings of `k`'s attempts that came back, latest first: the time of the last one. */
  function LastFinish<V>(t: Steps<V>, k: Key): Option<real> {
    match t
    case Start => None
    case Then(p, s) =>
      if s.Finish? && Arrival(p, s.id) == Some(k) then Some(s.now) else LastFinish(p, k)
  }

  /** The keys of attempts that came back since an attempt of `k` last did. */
  function FinishedSince<V>(t: Steps<V>, k: Key): set<Key> {
    match t
    case Start => {}
    case Then(p, s) =>
      if s.Finish? && Arrival(p, s.id).Some? then
        if Arrival(p, s.id).value == k then {} else FinishedSince(p, k) + {Arrival(p, s.id).value}
      else FinishedSince(p, k)
  }

  lemma {:induction false} StepsAndEvents<V>(t: Steps<V>, k: Key, ttl: real)
    requires OneTtl(Events(t), ttl)
    ensures FinishedSince(t, k) == OthersSince(Events(t), k)
    ensures LastFinish(t, k).Some? <==> LastRecord(Events(t), k).Some?
    ensures LastFinish(t, k).Some? ==> LastRecord(Events(t), k).value.Record? && Expiry(LastRecord(Events(t), k).value) == LastFinish(t, k).value + ttl
  {
    if t.Then? {
      StepsAndEvents(t.earlier, k, ttl);
    }
  }

  /** Whatever the ttls, an arriving attempt runs its handler iff exact retention leaves it nothing to replay. */
  lemma RunsIffUnanswered<V>(t: Steps<V>, k: Key, id: nat, now: real, limit: nat)
    requires Ordered(Events(t)) && Before(Events(t), now)
    ensures Ran(Then(t, Arrive(id, k, now)), id, limit) <==> !(Fresh(Events(t), k, now) && NeverCrowded(Events(t), k, limit))
  {
    AnswersIff(Events(t), k, now, limit);
  }

  /**
   Under one retention, an arriving attempt runs its handler iff no attempt of its key has come back
   within the retention, or `limit` distinct other keys were recorded since one did. Attempts still
   running do not count: two that overlap both run.
   */
  lemma RunsIffNotRetained<V>(t: Steps<V>, k: Key, id: nat, now: real, limit: nat, ttl: real)
    requires InLockOrder(t, ttl) && Before(Events(t), now)
    ensures Ran(Then(t, Arrive(id, k, now)), id, limit) <==>
      (LastFinish(t, k).None? || LastFinish(t, k).value + ttl <= now || limit <= |FinishedSince(t, k)|)
  {
    AnswersExactly(Events(t), k, now, limit, ttl);
    StepsAndEvents(t, k, ttl);
  }

  lemma {:induction false} LastFinishAfter<V>(t: Steps<V>, first: Step<V>, k: Key, ttl: real, limit: nat)
    requires InLockOrder(t, ttl) && Possible(t, limit)
    requires first.Finish? && Happened(t, first) && Arrival(t, first.id) == Some(k)
    ensures LastFinish(t, k).Some? && LastFinish(t, k).value >= first.now
  {
    if t.latest != first {
      var p := t.earlier;
      EndedWhenFinished(p, first, limit);
      LastFinishAfter(p, first, k, ttl, limit);
      StepsAndEvents(p, k, ttl);
      RecordBefore(Events(p), k);
      TtlOf(Events(p), k, ttl);
      assert LastFinish(p, k).value <= Events(p).latest.now;
    }
  }

  lemma {:induction false} EndedWhenFinished<V>(t: Steps<V>, s: Step<V>, limit: nat)
    requires Possible(t, limit) && s.Finish? && Happened(t, s)
    ensures Ended(t, s.id) && Arrival(t, s.id).Some?
  {
    if t.latest != s {
      EndedWhenFinished(t.earlier, s, limit);
    }
  }

  /**
   Idempotence. Once one attempt of a key has come back, no attempt of it arriving inside the
   retention runs the handler again, unless `limit` distinct other keys were recorded in between.
   */
  lemma OncePerKey<V>(t: Steps<V>, first: Step<V>, k: Key, id: nat, now: real)
    requires Possible(t, IDEMPOTENCY_KEY_LIMIT) && InLockOrder(t, IDEMPOTENCY_RETENTION_SECONDS) && Before(Events(t), now)
    requires first.Finish? && Happened(t, first) && Arrival(t, first.id) == Some(k)
    requires now < first.now + IDEMPOTENCY_RETENTION_SECONDS
    requires |FinishedSince(t, k)| < IDEMPOTENCY_KEY_LIMIT
    ensures !Ran(Then(t, Arrive(id, k, now)), id, IDEMPOTENCY_KEY_LIMIT)
  {
    LastFinishAfter(t, first, k, IDEMPOTENCY_RETENTION_SECONDS, IDEMPOTENCY_KEY_LIMIT);
    RunsIffNotRetained(t, k, id, now, IDEMPOTENCY_KEY_LIMIT, IDEMPOTENCY_RETENTION_SECONDS);
  }
}
