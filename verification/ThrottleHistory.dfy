/**
 What the throttling store promises over whole runs. `Log` and `Reply` read the full history of
 calls and never forget anything; `Refines` says the pruned, bounded store cannot be told from them.
 */
module ThrottleHistory {
  import opened OrderedDict
  import opened Throttler

  type History = Trail<Call>

  /** The run of the store itself over a history. */
  function Run(h: History, maxKeys: nat): (d: Windows)
    ensures d.Valid()
  {
    match h
    case Start => Empty()
    case Then(p, c) => Counted(Run(p, maxKeys), c, maxKeys)
  }

  // ---------------------------------------------------------------- the specification

  function Keys(h: History): Trail<string> {
    match h
    case Start => Start
    case Then(p, c) => Then(Keys(p), c.key)
  }

  /** Fewer than `maxKeys` distinct other keys were counted since `k` last was. */
  predicate Held(h: History, k: string, maxKeys: nat) {
    Occurs(Keys(h), k) && |Since(Keys(h), k)| < maxKeys
  }

  function Within(s: seq<real>, cutoff: real): (r: seq<real>)
    ensures |r| <= |s|
  {
    if s == [] then []
    else (if s[0] > cutoff then [s[0]] else []) + Within(s[1..], cutoff)
  }

  /** When every accepted request since `k` last entered the store was made, none of them forgotten. */
  function Log(h: History, k: string, maxKeys: nat): seq<real>
    decreases h, 0
  {
    match h
    case Start => []
    case Then(p, c) =>
      if c.key != k then Log(p, k, maxKeys)
      else if Accepted(p, c, maxKeys) then Spent(p, k, maxKeys) + [c.now]
      else Spent(p, k, maxKeys)
  }

  /** The log a call for `k` is measured against: an evicted caller starts again. */
  function Spent(h: History, k: string, maxKeys: nat): seq<real>
    decreases h, 1
  {
    if Held(h, k, maxKeys) then Log(h, k, maxKeys) else []
  }

  predicate Accepted(h: History, c: Call, maxKeys: nat)
    decreases h, 2
  {
    |Within(Spent(h, c.key, maxKeys), c.now - c.ttl as real)| < c.limit
  }

  /** The accepted requests of `k` that were inside its window when it was last counted. */
  function Window(h: History, k: string, maxKeys: nat): seq<real> {
    match h
    case Start => []
    case Then(p, c) =>
      if c.key != k then Window(p, k, maxKeys) else Within(Log(h, k, maxKeys), c.now - c.ttl as real)
  }

  function Reply(h: History, c: Call, maxKeys: nat): ThrottleState {
    Report(c, |Within(Spent(h, c.key, maxKeys), c.now - c.ttl as real)| + 1, Window(Then(h, c), c.key, maxKeys))
  }

  /** Readings never step back, and each key is counted under one budget of at least one request. */
  predicate Proper(h: History) {
    match h
    case Start => true
    case Then(p, c) => Proper(p) && c.ttl >= 1 && c.limit >= 1 && Follows(p, c)
  }

  predicate Follows(h: History, c: Call) {
    match h
    case Start => true
    case Then(p, e) => e.now <= c.now && (e.key == c.key ==> e.ttl == c.ttl && e.limit == c.limit) && Follows(p, c)
  }

  predicate Budget(h: History, k: string, ttl: int, limit: int) {
    match h
    case Start => true
    case Then(p, c) => (c.key == k ==> c.ttl == ttl && c.limit == limit) && Budget(p, k, ttl, limit)
  }

  lemma FollowsBudget(h: History, c: Call)
    requires Follows(h, c)
    ensures Budget(h, c.key, c.ttl, c.limit)
  {
  }

  // ---------------------------------------------------------------- ageing

  ghost predicate Ascending(s: seq<real>) {
    forall i, j :: 0 <= i < j < |s| ==> s[i] <= s[j]
  }

  lemma {:induction false} WithinAll(s: seq<real>, cutoff: real)
    requires forall i :: 0 <= i < |s| ==> s[i] > cutoff
    ensures Within(s, cutoff) == s
  {
    if s != [] {
      WithinAll(s[1..], cutoff);
    }
  }

  /** Popping the front of an ascending deque keeps exactly what is inside the window. */
  lemma {:induction false} AgedIsWithin(s: seq<real>, cutoff: real)
    requires Ascending(s)
    ensures Aged(s, cutoff) == Within(s, cutoff)
  {
    if s != [] {
      if s[0] <= cutoff {
        AgedIsWithin(s[1..], cutoff);
      } else {
        WithinAll(s, cutoff);
      }
    }
  }

  lemma {:induction false} WithinTwice(s: seq<real>, a: real, b: real)
    requires a <= b
    ensures Within(Within(s, a), b) == Within(s, b)
  {
    if s != [] {
      WithinTwice(s[1..], a, b);
      WithinConcat(if s[0] > a then [s[0]] else [], Within(s[1..], a), b);
    }
  }

  lemma {:induction false} WithinConcat(s: seq<real>, t: seq<real>, cutoff: real)
    ensures Within(s + t, cutoff) == Within(s, cutoff) + Within(t, cutoff)
  {
    if s == [] {
      assert s + t == t;
    } else {
      assert (s + t)[1..] == s[1..] + t && (s + t)[0] == s[0];
      WithinConcat(s[1..], t, cutoff);
      var head := if s[0] > cutoff then [s[0]] else [];
      assert head + (Within(s[1..], cutoff) + Within(t, cutoff)) == head + Within(s[1..], cutoff) + Within(t, cutoff);
    }
  }

  /** In an ascending log the window is a suffix, so its length says where its oldest request is. */
  lemma {:induction false} WithinSuffix(s: seq<real>, cutoff: real, i: nat)
    requires Ascending(s) && i < |s|
    ensures |Within(s, cutoff)| >= |s| - i <==> s[i] > cutoff
  {
    if s[0] > cutoff {
      WithinAll(s, cutoff);
    } else if i > 0 {
      WithinSuffix(s[1..], cutoff, i - 1);
    }
  }

  lemma {:induction false} WithinAscending(s: seq<real>, cutoff: real)
    requires Ascending(s)
    ensures Ascending(Within(s, cutoff))
  {
    if s != [] {
      if s[0] > cutoff {
        WithinAll(s, cutoff);
      } else {
        WithinAscending(s[1..], cutoff);
      }
    }
  }

  lemma Reaged(log: seq<real>, a: real, b: real)
    requires Ascending(log) && a <= b
    ensures Aged(Within(log, a), b) == Within(log, b)
  {
    WithinAscending(log, a);
    AgedIsWithin(Within(log, a), b);
    WithinTwice(log, a, b);
  }

  // ---------------------------------------------------------------- the log

  lemma {:induction false} LogAscends(h: History, k: string, maxKeys: nat)
    requires Proper(h)
    ensures Ascending(Log(h, k, maxKeys))
    ensures forall t :: t in Log(h, k, maxKeys) ==> h.Then? && t <= h.latest.now
  {
    if h.Then? {
      LogAscends(h.earlier, k, maxKeys);
      var base, now := Spent(h.earlier, k, maxKeys), h.latest.now;
      FollowsLatest(h);
      if Log(h, k, maxKeys) == base + [now] {
        forall i, j | 0 <= i < j < |base + [now]| ensures (base + [now])[i] <= (base + [now])[j] {
          assert i < |base| && base[i] in base;
        }
      }
    }
  }

  lemma FollowsLatest(h: History)
    requires Proper(h) && h.Then?
    ensures h.earlier.Then? ==> h.earlier.latest.now <= h.latest.now
  {
  }

  /** Accepted requests `limit` apart in the log are at least one window apart in time. */
  ghost predicate Spaced(log: seq<real>, ttl: int, limit: int)
    requires limit >= 1
  {
    forall i :: 0 <= i && i + limit < |log| ==> log[i + limit] - log[i] >= ttl as real
  }

  lemma {:induction false} LogSpaced(h: History, k: string, maxKeys: nat, ttl: int, limit: int)
    requires Proper(h) && Budget(h, k, ttl, limit) && limit >= 1
    ensures Spaced(Log(h, k, maxKeys), ttl, limit)
  {
    if h.Then? {
      LogSpaced(h.earlier, k, maxKeys, ttl, limit);
      if h.latest.key == k && Accepted(h.earlier, h.latest, maxKeys) {
        LogAscends(h.earlier, k, maxKeys);
        SpacedAppend(Spent(h.earlier, k, maxKeys), h.latest.now, ttl, limit);
      }
    }
  }

  lemma SpacedAppend(base: seq<real>, now: real, ttl: int, limit: int)
    requires limit >= 1 && Ascending(base) && Spaced(base, ttl, limit)
    requires |Within(base, now - ttl as real)| < limit
    ensures Spaced(base + [now], ttl, limit)
  {
    var all := base + [now];
    forall i | 0 <= i && i + limit < |all| ensures all[i + limit] - all[i] >= ttl as real {
      if i + limit == |base| {
        WithinSuffix(base, now - ttl as real, i);
      }
    }
  }

  /** The places in a log whose moments lie in a half-open interval. */
  function InInterval(log: seq<real>, from: real, to: real): (places: set<nat>)
    ensures forall i: nat :: i in places <==> i < |log| && from <= log[i] < to
  {
    set i: nat | i < |log| && from <= log[i] < to
  }

  /** Places no two of which are `n` or more apart are no more than `n`. */
  lemma {:induction false} CloseTogether(places: set<nat>, least: nat, n: nat)
    requires forall i :: i in places ==> least <= i < least + n
    ensures |places| <= n
  {
    if n > 0 {
      CloseTogether(places - {least + n - 1}, least, n - 1);
    } else {
      assert places == {};
    }
  }

  lemma {:induction false} FirstFrom(log: seq<real>, from: real) returns (first: nat)
    requires Ascending(log)
    ensures first <= |log| && (forall i :: 0 <= i < first ==> log[i] < from) && (first < |log| ==> log[first] >= from)
  {
    first := 0;
    while first < |log| && log[first] < from
      invariant first <= |log| && forall i :: 0 <= i < first ==> log[i] < from
    {
      first := first + 1;
    }
  }

  lemma SpacedInterval(log: seq<real>, ttl: int, limit: int, from: real)
    requires limit >= 1 && ttl >= 1 && Ascending(log) && Spaced(log, ttl, limit)
    ensures |InInterval(log, from, from + ttl as real)| <= limit
  {
    var places := InInterval(log, from, from + ttl as real);
    var first := FirstFrom(log, from);
    forall i | i in places ensures first <= i < first + limit {
      if first + limit < |log| {
        assert log[first + limit] - log[first] >= ttl as real;
      }
    }
    CloseTogether(places, first, limit);
  }

  /**
   Sliding-window safety. Between two evictions of a key, no half-open interval as long as the
   window holds more accepted requests than the limit, wherever the interval starts.
   */
  lemma SlidingWindowSafety(h: History, k: string, maxKeys: nat, ttl: int, limit: int, from: real)
    requires Proper(h) && Budget(h, k, ttl, limit) && ttl >= 1 && limit >= 1
    ensures Spaced(Log(h, k, maxKeys), ttl, limit)
    ensures |InInterval(Log(h, k, maxKeys), from, from + ttl as real)| <= limit
  {
    LogAscends(h, k, maxKeys);
    LogSpaced(h, k, maxKeys, ttl, limit);
    SpacedInterval(Log(h, k, maxKeys), ttl, limit, from);
  }

  // ---------------------------------------------------------------- refinement

  /** Ageing the pruned window of a key's last call gives the same answer as ageing its whole log. */
  lemma {:induction false} WindowReaged(h: History, k: string, maxKeys: nat, now: real, ttl: int, limit: int)
    requires Proper(h) && Occurs(Keys(h), k) && Budget(h, k, ttl, limit) && now >= h.latest.now
    ensures Aged(Window(h, k, maxKeys), now - ttl as real) == Within(Log(h, k, maxKeys), now - ttl as real)
  {
    hide Held;
    if h.latest.key == k {
      LogAscends(h, k, maxKeys);
      Reaged(Log(h, k, maxKeys), h.latest.now - ttl as real, now - ttl as real);
    } else {
      FollowsLatest(h);
      WindowReaged(h.earlier, k, maxKeys, now, ttl, limit);
    }
  }

  ghost predicate Tracks(d: Windows, h: History, maxKeys: nat) {
    && d.order == Last(maxKeys, Recent(Keys(h)))
    && (forall k :: k in d.items ==> d.items[k] == Window(h, k, maxKeys))
  }

  /** A key is held iff fewer than `maxKeys` distinct other keys were counted since it last was. */
  lemma HeldIffRecent(h: History, d: Windows, k: string, maxKeys: nat)
    requires d.Valid() && d.order == Last(maxKeys, Recent(Keys(h)))
    ensures k in d.items <==> Held(h, k, maxKeys)
  {
    AmongNewest(maxKeys, Keys(h), k);
    assert k in d.order <==> k in d.items;
  }

  /** What the store finds for a key, aged, is the specification's log, aged. */
  lemma OpenIsSpent(p: History, c: Call, d: Windows, maxKeys: nat)
    requires Proper(p) && Follows(p, c)
    requires c.key in d.items <==> Held(p, c.key, maxKeys)
    requires c.key in d.items ==> d.items[c.key] == Window(p, c.key, maxKeys)
    ensures Open(d, c) == Within(Spent(p, c.key, maxKeys), c.now - c.ttl as real)
  {
    if c.key in d.items {
      FollowsBudget(p, c);
      WindowReaged(p, c.key, maxKeys, c.now, c.ttl, c.limit);
    }
  }

  lemma KeptIsWindow(p: History, c: Call, d: Windows, maxKeys: nat)
    requires c.ttl >= 1 && c.limit >= 1
    requires Open(d, c) == Within(Spent(p, c.key, maxKeys), c.now - c.ttl as real)
    ensures Kept(d, c) == Window(Then(p, c), c.key, maxKeys) != []
  {
    hide Held;
    var cutoff, base := c.now - c.ttl as real, Spent(p, c.key, maxKeys);
    WithinConcat(base, [c.now], cutoff);
    assert Within([c.now], cutoff) == [c.now] + Within([], cutoff);
    assert Log(Then(p, c), c.key, maxKeys) == if Accepted(p, c, maxKeys) then base + [c.now] else base;
    hide Within, Spent, Log, Aged;
  }

  lemma WindowElsewhere(p: History, c: Call, k: string, maxKeys: nat)
    requires k != c.key
    ensures Window(Then(p, c), k, maxKeys) == Window(p, k, maxKeys)
  {
  }

  lemma TracksStep(p: History, c: Call, d: Windows, maxKeys: nat)
    requires Proper(Then(p, c)) && maxKeys >= 1
    requires d.Valid() && Tracks(d, p, maxKeys)
    ensures Tracks(Counted(d, c, maxKeys), Then(p, c), maxKeys)
    ensures Answer(d, c) == Reply(p, c, maxKeys)
    ensures c.key in Counted(d, c, maxKeys).items
  {
    hide Held, Counted, Last, Spent, Log, Window, Within, Open, Kept, Recent, Follows;
    HeldIffRecent(p, d, c.key, maxKeys);
    OpenIsSpent(p, c, d, maxKeys);
    KeptIsWindow(p, c, d, maxKeys);
    RecentElements(Keys(p));
    StepOrder(d, c, maxKeys, Recent(Keys(p)));
    RecentAfter(Keys(p), c.key);
    var e := Counted(d, c, maxKeys);
    forall k | k in e.items ensures e.items[k] == Window(Then(p, c), k, maxKeys) {
      if k != c.key {
        WindowElsewhere(p, c, k, maxKeys);
      }
    }
  }

  lemma RecentAfter(keys: Trail<string>, k: string)
    ensures Recent(Then(keys, k)) == Without(Recent(keys), k) + [k]
  {
  }

  /**
   The store refines the full-history specification: it holds exactly the `maxKeys` most recently
   counted distinct keys, in that order, and for each the accepted requests since the key last
   entered that were inside the window at its last call; every reply is the specified one; and the
   key just counted is never the one evicted.
   */
  lemma {:induction false} Refines(h: History, maxKeys: nat)
    requires Proper(h) && maxKeys >= 1
    ensures Tracks(Run(h, maxKeys), h, maxKeys)
    ensures forall k :: k in Run(h, maxKeys).items <==> Held(h, k, maxKeys)
    ensures h.Then? ==> Answer(Run(h.earlier, maxKeys), h.latest) == Reply(h.earlier, h.latest, maxKeys)
    ensures h.Then? ==> h.latest.key in Run(h, maxKeys).items
  {
    if h.Then? {
      Refines(h.earlier, maxKeys);
      TracksStep(h.earlier, h.latest, Run(h.earlier, maxKeys), maxKeys);
    }
    forall k ensures k in Run(h, maxKeys).items <==> Held(h, k, maxKeys) {
      HeldIffRecent(h, Run(h, maxKeys), k, maxKeys);
    }
  }

  lemma StepOrder(d: Windows, c: Call, maxKeys: nat, recent: seq<string>)
    requires d.Valid() && maxKeys >= 1 && Distinct(recent) && d.order == Last(maxKeys, recent)
    requires Kept(d, c) != []
    ensures var e := Counted(d, c, maxKeys);
      && e.order == Last(maxKeys, Without(recent, c.key) + [c.key])
      && c.key in e.items && e.items[c.key] == Kept(d, c)
      && (forall k :: k in e.items && k != c.key ==> k in d.items && e.items[k] == d.items[k])
  {
    hide Kept;
    var kept := Kept(d, c);
    var touched := Touched(d, c.key, kept);
    assert touched.order == Without(d.order, c.key) + [c.key] by {
      PutLast(d, c.key, kept);
    }
    TrimmedTouch(maxKeys, recent, c.key);
    var e := touched.Newest(maxKeys);
    LastElements(maxKeys, touched.order);
    assert e.order[|e.order| - 1] == c.key;
    assert c.key in e.order;
    assert touched.items == d.items[c.key := kept];
  }

  // ---------------------------------------------------------------- what a caller is told

  lemma {:induction false} WithinBounds(s: seq<real>, cutoff: real)
    requires Ascending(s) && Within(s, cutoff) != []
    ensures Within(s, cutoff)[0] == s[|s| - |Within(s, cutoff)|] > cutoff
  {
    if s[0] > cutoff {
      WithinAll(s, cutoff);
    } else {
      WithinBounds(s[1..], cutoff);
    }
  }

  lemma SpacedWindow(log: seq<real>, now: real, ttl: int, limit: int)
    requires limit >= 1 && ttl >= 1 && Ascending(log) && Spaced(log, ttl, limit)
    requires forall t :: t in log ==> t <= now
    ensures |Within(log, now - ttl as real)| <= limit
  {
    if |log| > limit {
      var i := |log| - limit - 1;
      assert log[i + limit] in log;
      WithinSuffix(log, now - ttl as real, i);
    }
  }

  /** A wait counted from a reading inside the window is at least one second and at most the window. */
  lemma WaitBounds(now: real, ttl: int, oldest: real)
    requires ttl >= 1 && now - ttl as real < oldest <= now
    ensures 1 <= Wait(now, ttl, oldest) <= ttl
    ensures oldest == now ==> Wait(now, ttl, oldest) == ttl
  {
  }

  /** The oldest request left in a window after one more is counted is inside it. */
  lemma OldestIsInside(spent: seq<real>, now: real, ttl: int, limit: int)
    requires ttl >= 1 && limit >= 1 && Ascending(spent) && forall t :: t in spent ==> t <= now
    ensures var cutoff := now - ttl as real;
      var w := Within(if |Within(spent, cutoff)| < limit then spent + [now] else spent, cutoff);
      w != [] && cutoff < w[0] <= now && (spent == [] ==> w[0] == now)
  {
    var cutoff := now - ttl as real;
    WithinConcat(spent, [now], cutoff);
    assert Within([now], cutoff) == [now] + Within([], cutoff);
    if Within(spent, cutoff) != [] {
      WithinBounds(spent, cutoff);
      var i := |spent| - |Within(spent, cutoff)|;
      assert spent[i] in spent;
      hide Within;
    }
  }

  lemma OneCallMore(h: History, c: Call, maxKeys: nat)
    ensures var cutoff, spent := c.now - c.ttl as real, Spent(h, c.key, maxKeys);
      && (Accepted(h, c, maxKeys) <==> |Within(spent, cutoff)| < c.limit)
      && Log(Then(h, c), c.key, maxKeys) == (if Accepted(h, c, maxKeys) then spent + [c.now] else spent)
      && Window(Then(h, c), c.key, maxKeys) == Within(Log(Then(h, c), c.key, maxKeys), cutoff)
  {
    hide Held, Within;
  }

  lemma SpentAscends(h: History, c: Call, maxKeys: nat)
    requires Proper(h) && Follows(h, c)
    ensures Ascending(Spent(h, c.key, maxKeys)) && forall t :: t in Spent(h, c.key, maxKeys) ==> t <= c.now
  {
    LogAscends(h, c.key, maxKeys);
    LatestFollows(h, c);
    hide Proper, Follows, Held, Log;
  }

  /** The oldest request in the window after a call is inside it, and is the call itself if nothing was spent. */
  lemma WindowHead(h: History, c: Call, maxKeys: nat)
    requires Proper(Then(h, c))
    ensures var w := Window(Then(h, c), c.key, maxKeys);
      && w != [] && c.now - c.ttl as real < w[0] <= c.now
      && (Spent(h, c.key, maxKeys) == [] ==> w[0] == c.now)
  {
    hide Held, Within, Log, Spent, Accepted, Window, Follows, Ascending;
    SpentAscends(h, c, maxKeys);
    OneCallMore(h, c, maxKeys);
    OldestIsInside(Spent(h, c.key, maxKeys), c.now, c.ttl, c.limit);
  }

  /** No more than the limit is ever found inside a window. */
  lemma SpentWithinLimit(h: History, c: Call, maxKeys: nat)
    requires Proper(Then(h, c))
    ensures |Within(Spent(h, c.key, maxKeys), c.now - c.ttl as real)| <= c.limit
  {
    hide Held;
    FollowsBudget(h, c);
    LogSpaced(h, c.key, maxKeys, c.ttl, c.limit);
    LogAscends(h, c.key, maxKeys);
    LatestFollows(h, c);
    SpacedWindow(Spent(h, c.key, maxKeys), c.now, c.ttl, c.limit);
  }

  /**
   Every reply: the count is exact, exceeds the limit by exactly one iff the request was refused, and
   the wait is at least one second and at most the window, all of it for a key with nothing spent.
   */
  lemma ReplyBounds(h: History, c: Call, maxKeys: nat)
    requires Proper(Then(h, c))
    ensures var r := Reply(h, c, maxKeys);
      && 1 <= r.count <= c.limit + 1
      && (Accepted(h, c, maxKeys) <==> r.count <= c.limit)
      && 1 <= r.resetAfter <= c.ttl
      && (Spent(h, c.key, maxKeys) == [] ==> r.resetAfter == c.ttl)
      && (!Accepted(h, c, maxKeys) ==> Log(Then(h, c), c.key, maxKeys) == Spent(h, c.key, maxKeys) == Log(h, c.key, maxKeys))
  {
    WindowHead(h, c, maxKeys);
    SpentWithinLimit(h, c, maxKeys);
    WaitBounds(c.now, c.ttl, Window(Then(h, c), c.key, maxKeys)[0]);
    hide Held, Wait, Within, Window, Follows;
    assert Spent(h, c.key, maxKeys) == Log(h, c.key, maxKeys) || Spent(h, c.key, maxKeys) == [];
    NothingWithinNothing(c.now - c.ttl as real);
  }

  /**
   Every reply is exact, whether the call was accepted or refused. The count is how many accepted requests
   are inside the window after the call, and one more if it was refused. The wait is the least number of
   whole seconds after which, with nothing more accepted, fewer of them are.
   */
  lemma ReplyExact(h: History, c: Call, s: nat, maxKeys: nat)
    requires Proper(Then(h, c))
    ensures var r, log := Reply(h, c, maxKeys), Log(Then(h, c), c.key, maxKeys);
      var left := |Within(log, c.now - c.ttl as real)|;
      && r.count == left + (if Accepted(h, c, maxKeys) then 0 else 1)
      && (|Within(log, c.now + s as real - c.ttl as real)| < left <==> s >= r.resetAfter)
  {
    CountExact(h, c, maxKeys);
    WaitExact(h, c, s, maxKeys);
    hide Reply, Log, Within, Accepted, Proper;
  }

  lemma CountExact(h: History, c: Call, maxKeys: nat)
    requires Proper(Then(h, c))
    ensures Reply(h, c, maxKeys).count ==
      |Within(Log(Then(h, c), c.key, maxKeys), c.now - c.ttl as real)| + (if Accepted(h, c, maxKeys) then 0 else 1)
  {
    var cutoff, spent := c.now - c.ttl as real, Spent(h, c.key, maxKeys);
    hide Held, Log, Spent, Window, Follows;
    OneCallMore(h, c, maxKeys);
    assert cutoff < c.now;
    hide Proper, Occurs;
    WithinConcat(spent, [c.now], cutoff);
    NothingWithinNothing(cutoff);
    assert Within([c.now], cutoff) == [c.now];
    assert Accepted(h, c, maxKeys) ==> Within(Log(Then(h, c), c.key, maxKeys), cutoff) == Within(spent, cutoff) + [c.now];
  }

  lemma WaitExact(h: History, c: Call, s: nat, maxKeys: nat)
    requires Proper(Then(h, c))
    ensures var log := Log(Then(h, c), c.key, maxKeys);
      |Within(log, c.now + s as real - c.ttl as real)| < |Within(log, c.now - c.ttl as real)| <==> s >= Reply(h, c, maxKeys).resetAfter
  {
    var log, cutoff := Log(Then(h, c), c.key, maxKeys), c.now - c.ttl as real;
    hide Held, Log, Spent, Window, Follows;
    OneCallMore(h, c, maxKeys);
    WindowHead(h, c, maxKeys);
    LogAscends(Then(h, c), c.key, maxKeys);
    hide Proper, Occurs;
    WithinBounds(log, cutoff);
    WithinSuffix(log, c.now + s as real - c.ttl as real, |log| - |Within(log, cutoff)|);
  }

  lemma NothingWithinNothing(cutoff: real)
    ensures Within([], cutoff) == []
  {
  }

  lemma LatestFollows(h: History, c: Call)
    requires Follows(h, c)
    ensures h.Then? ==> h.latest.now <= c.now
  {
  }

  /** `h` continues `base`, and in between `k` was never evicted and no request of it was accepted. */
  predicate Undisturbed(base: History, h: History, k: string, maxKeys: nat) {
    h == base ||
    (h.Then? && Undisturbed(base, h.earlier, k, maxKeys) && Held(h, k, maxKeys) &&
      (h.latest.key == k ==> !Accepted(h.earlier, h.latest, maxKeys)))
  }

  lemma {:induction false} UndisturbedLog(base: History, h: History, k: string, maxKeys: nat)
    requires Undisturbed(base, h, k, maxKeys) && Held(base, k, maxKeys)
    ensures Held(h, k, maxKeys) && Log(h, k, maxKeys) == Log(base, k, maxKeys)
  {
    hide Held;
    if h != base {
      UndisturbedLog(base, h.earlier, k, maxKeys);
    }
  }

  /**
   Retry-After is exact. After a refusal that reported `r`, and as long as nothing else of the key is
   accepted, a request made `s` whole seconds later is accepted iff `s` is at least `r`; and `r` is
   the number the header carries.
   */
  lemma RetryAfterExact(h: History, refused: Call, later: History, s: nat, maxKeys: nat)
    requires maxKeys >= 1 && Proper(Then(h, refused)) && !Accepted(h, refused, maxKeys)
    requires Undisturbed(Then(h, refused), later, refused.key, maxKeys)
    requires Proper(Then(later, refused.(now := refused.now + s as real)))
    ensures var r := Reply(h, refused, maxKeys).resetAfter;
      && (Accepted(later, refused.(now := refused.now + s as real), maxKeys) <==> s >= r)
      && Max(1, r) == r
  {
    var k, cutoff := refused.key, refused.now - refused.ttl as real;
    var spent, retry := Spent(h, k, maxKeys), refused.(now := refused.now + s as real);
    assert Held(Then(h, refused), k, maxKeys);
    hide Held;
    ReplyBounds(h, refused, maxKeys);
    UndisturbedLog(Then(h, refused), later, k, maxKeys);
    assert Spent(later, k, maxKeys) == spent;
    LogAscends(h, k, maxKeys);
    WithinBounds(spent, cutoff);
    assert |Within(spent, cutoff)| == refused.limit;
    assert Window(Then(h, refused), k, maxKeys) == Within(spent, cutoff);
    WithinSuffix(spent, retry.now - retry.ttl as real, |spent| - refused.limit);
  }

  // ---------------------------------------------------------------- memory

  ghost predicate LimitsWithin(h: History, most: nat) {
    forall c :: Occurs(h, c) ==> c.limit <= most
  }

  function Stored(order: seq<string>, items: map<string, seq<real>>): nat
    requires forall k :: k in order ==> k in items
  {
    if order == [] then 0
    else
      assert order[0] in items && forall k :: k in order[1..] ==> k in order;
      |items[order[0]]| + Stored(order[1..], items)
  }

  /** Every key held counts with all the timestamps of its window. */
  lemma {:induction false} StoredAdds(order: seq<string>, more: seq<string>, items: map<string, seq<real>>)
    requires forall k :: k in order || k in more ==> k in items
    ensures Stored(order + more, items) == Stored(order, items) + Stored(more, items)
    ensures |more| == 1 ==> Stored(more, items) == |items[more[0]]|
  {
    if order == [] {
      assert order + more == more;
    } else {
      assert order == [order[0]] + order[1..] && (order + more)[1..] == order[1..] + more;
      StoredAdds(order[1..], more, items);
    }
  }

  lemma {:induction false} StoredBound(order: seq<string>, items: map<string, seq<real>>, most: nat)
    requires forall k :: k in order ==> k in items && |items[k]| <= most
    ensures Stored(order, items) <= |order| * most
  {
    if order != [] {
      StoredBound(order[1..], items, most);
      assert |items[order[0]]| <= most;
      assert |order| * most == most + |order[1..]| * most;
    }
  }

  lemma {:induction false} WindowsBounded(h: History, maxKeys: nat, most: nat)
    requires LimitsWithin(h, most)
    ensures forall k :: k in Run(h, maxKeys).items ==> |Run(h, maxKeys).items[k]| <= most
    ensures Run(h, maxKeys).Size() <= maxKeys
  {
    if h.Then? {
      assert Occurs(h, h.latest) && forall c :: Occurs(h.earlier, c) ==> Occurs(h, c);
      WindowsBounded(h.earlier, maxKeys, most);
      hide Occurs, Distinct, Without, Last;
      var d, c := Run(h.earlier, maxKeys), h.latest;
      var touched := Touched(d, c.key, Kept(d, c));
      assert |Kept(d, c)| <= most;
      assert forall k :: k in touched.items ==> |touched.items[k]| <= most;
    }
  }

  /** The store never holds more than `maxKeys * most` timestamps, whatever arrives and whenever. */
  lemma MemoryBound(h: History, maxKeys: nat, most: nat)
    requires LimitsWithin(h, most)
    ensures var d := Run(h, maxKeys);
      && d.Valid() && d.Size() <= maxKeys && (forall k :: k in d.items ==> |d.items[k]| <= most)
      && Stored(d.order, d.items) <= maxKeys * most
  {
    WindowsBounded(h, maxKeys, most);
    var d := Run(h, maxKeys);
    StoredBound(d.order, d.items, most);
    TimesMonotone(d.Size(), maxKeys, most);
  }

  lemma TimesMonotone(a: nat, b: nat, m: nat)
    requires a <= b
    ensures a * m <= b * m
  {
  }
}
