/**
 The exception-filter engine: which filters are offered an exception, in which order, and what is
 answered when they decline or fail.
 */
module ExceptionFilters {
  import opened Options

  const EXCEPTION := "Exception"
  const BASE_EXCEPTION := "BaseException"

  /** A raised exception: the resolution order of its class, and the classes it is registered with beyond that. */
  datatype Raised = Raised(mro: seq<string>, registered: set<string>, detail: string)

  datatype Filter = Filter(types: seq<string>)

  /** What one call of a filter comes to. No result means the filter declines. */
  datatype Outcome<R> = Returns(result: Option<R>) | Raises(failure: Raised)

  /** The filters' behaviour, free to differ from call to call: each filter is called at most once a pass. */
  type Catches<!R> = (bool, nat, Raised) -> Outcome<R>

  datatype Call = Tried(again: bool, index: nat, exc: Raised) | Fallback(exc: Raised)

  // ---------------------------------------------------------------- matching

  predicate InstanceOf(e: Raised, t: string) {
    t in e.mro || t in e.registered
  }

  function IndexOf(s: seq<string>, t: string): (r: nat)
    ensures r <= |s| && (r < |s| <==> t in s) && (r < |s| ==> s[r] == t)
    ensures t !in s[..r]
  {
    if s == [] then 0 else if s[0] == t then 0 else 1 + IndexOf(s[1..], t)
  }

  function Distance(e: Raised, t: string): nat {
    IndexOf(e.mro, t)
  }

  function Declared(f: Filter): (r: seq<string>)
    ensures r != []
  {
    if f.types == [] then [EXCEPTION] else f.types
  }

  /** The least distance to a declared type the exception is an instance of, if there is one. */
  function Nearest(e: Raised, types: seq<string>): (r: Option<nat>)
    ensures r.None? <==> forall t :: t in types ==> !InstanceOf(e, t)
    ensures r.Some? ==> exists t :: t in types && InstanceOf(e, t) && Distance(e, t) == r.value
    ensures r.Some? ==> forall t :: t in types && InstanceOf(e, t) ==> r.value <= Distance(e, t)
  {
    if types == [] then None
    else
      var front, t := types[..|types| - 1], types[|types| - 1];
      assert types == front + [t];
      var before := Nearest(e, front);
      if !InstanceOf(e, t) then before
      else if before.None? || Distance(e, t) < before.value then Some(Distance(e, t))
      else before
  }

  predicate CatchAll(f: Filter) {
    forall t :: t in Declared(f) ==> t == EXCEPTION || t == BASE_EXCEPTION
  }

  predicate Matches(e: Raised, f: Filter) {
    exists t :: t in Declared(f) && InstanceOf(e, t)
  }

  lemma NearestIffMatches(e: Raised, f: Filter)
    ensures Nearest(e, Declared(f)).Some? <==> Matches(e, f)
  {
  }

  datatype Rank = Rank(catchAll: bool, distance: nat, index: nat)

  function RankOf(e: Raised, filters: seq<Filter>, i: nat): Rank
    requires i < |filters| && Matches(e, filters[i])
  {
    Rank(CatchAll(filters[i]), Nearest(e, Declared(filters[i])).value, i)
  }

  /** Specific before catch-all, then nearest first, then later-declared first. */
  predicate Before(a: Rank, b: Rank) {
    if a.catchAll != b.catchAll then !a.catchAll
    else if a.distance != b.distance then a.distance < b.distance
    else a.index > b.index
  }

  // ---------------------------------------------------------------- what ranks a filter

  /** The filter names the class, or names none and the class is `Exception`. */
  predicate NamesClass(f: Filter, t: string) {
    t in f.types || (f.types == [] && t == EXCEPTION)
  }

  /** The filter names a class besides the two every exception has. */
  predicate IsSpecific(f: Filter) {
    exists t :: t in f.types && t != EXCEPTION && t != BASE_EXCEPTION
  }

  /** Going up from the exception's own class, the first class the filter names is the `k`-th, or there is none. */
  predicate FirstNamedAt(e: Raised, f: Filter, k: nat) {
    && k <= |e.mro|
    && (forall m :: 0 <= m < k ==> !NamesClass(f, e.mro[m]))
    && (k < |e.mro| ==> NamesClass(f, e.mro[k]))
  }

  /** A filter matches iff it names a class the exception is of, by inheritance or by registration. */
  lemma MatchesIff(e: Raised, f: Filter)
    ensures Matches(e, f) <==> exists t :: NamesClass(f, t) && (t in e.mro || t in e.registered)
  {
    forall t ensures t in Declared(f) <==> NamesClass(f, t) {
    }
    if t :| NamesClass(f, t) && (t in e.mro || t in e.registered) {
      assert t in Declared(f) && InstanceOf(e, t);
    }
  }

  lemma NearestIs(e: Raised, f: Filter, k: nat)
    requires Matches(e, f) && FirstNamedAt(e, f, k)
    ensures Nearest(e, Declared(f)) == Some(k)
  {
    var best := Nearest(e, Declared(f)).value;
    var t :| t in Declared(f) && InstanceOf(e, t) && Distance(e, t) == best;
    assert NamesClass(f, t);
    if best < |e.mro| {
      assert e.mro[best] == t;
    }
    if k < |e.mro| {
      var u := e.mro[k];
      assert u in Declared(f) && InstanceOf(e, u);
      assert u !in e.mro[..IndexOf(e.mro, u)];
    }
  }

  /**
   Which of two matching filters is offered an exception first: one that names something specific, then the
   one whose class is nearer, then the one declared later.
   */
  lemma RankedBeforeIff(e: Raised, filters: seq<Filter>, i: nat, j: nat, atI: nat, atJ: nat)
    requires i < |filters| && j < |filters| && Matches(e, filters[i]) && Matches(e, filters[j])
    requires FirstNamedAt(e, filters[i], atI) && FirstNamedAt(e, filters[j], atJ)
    ensures Before(RankOf(e, filters, i), RankOf(e, filters, j)) <==>
      if IsSpecific(filters[i]) != IsSpecific(filters[j]) then IsSpecific(filters[i])
      else if atI != atJ then atI < atJ
      else i > j
  {
    NearestIs(e, filters[i], atI);
    NearestIs(e, filters[j], atJ);
    SpecificIff(filters[i]);
    SpecificIff(filters[j]);
    hide Nearest, CatchAll, Declared, FirstNamedAt, Matches;
  }

  lemma SpecificIff(f: Filter)
    ensures IsSpecific(f) <==> !CatchAll(f)
  {
  }

  // ---------------------------------------------------------------- the order tried

  ghost predicate Ranked(ranks: seq<Rank>, e: Raised, filters: seq<Filter>) {
    forall r :: r in ranks <==> r.index < |filters| && Matches(e, filters[r.index]) && r == RankOf(e, filters, r.index)
  }

  predicate Ordered(ranks: seq<Rank>) {
    forall i, j :: 0 <= i < j < |ranks| ==> Before(ranks[i], ranks[j])
  }

  /** The matching filters, each once, in the order of their ranks. */
  ghost predicate IsTryOrder(ranks: seq<Rank>, e: Raised, filters: seq<Filter>) {
    Ranked(ranks, e, filters) && Ordered(ranks)
  }

  function Insert(r: Rank, s: seq<Rank>): seq<Rank> {
    if s == [] || Before(r, s[0]) then [r] + s else [s[0]] + Insert(r, s[1..])
  }

  function Sorted(s: seq<Rank>): seq<Rank> {
    if s == [] then [] else Insert(s[|s| - 1], Sorted(s[..|s| - 1]))
  }

  lemma {:induction false} InsertIsOrdered(r: Rank, s: seq<Rank>)
    requires Ordered(s) && forall x :: x in s ==> x.index != r.index
    ensures Ordered(Insert(r, s))
    ensures forall x :: x in Insert(r, s) <==> x == r || x in s
  {
    if s != [] && !Before(r, s[0]) {
      var rest := Insert(r, s[1..]);
      assert s == [s[0]] + s[1..];
      InsertIsOrdered(r, s[1..]);
      assert s[0] in s;
      forall j | 0 <= j < |rest| ensures Before(s[0], rest[j]) {
        assert rest[j] in rest;
        if rest[j] != r {
          var m :| 0 <= m < |s[1..]| && s[1..][m] == rest[j];
          assert Before(s[0], s[m + 1]);
        }
      }
    }
  }

  predicate DistinctIndices(s: seq<Rank>) {
    forall i, j :: 0 <= i < j < |s| ==> s[i].index != s[j].index
  }

  lemma {:induction false} SortedIsOrdered(s: seq<Rank>)
    requires DistinctIndices(s)
    ensures Ordered(Sorted(s))
    ensures forall x :: x in Sorted(s) <==> x in s
  {
    if s != [] {
      var front, last := s[..|s| - 1], s[|s| - 1];
      assert s == front + [last];
      SortedIsOrdered(front);
      forall x | x in Sorted(front) ensures x.index != last.index {
        var i :| 0 <= i < |front| && front[i] == x;
        assert s[i] == x;
      }
      InsertIsOrdered(last, Sorted(front));
    }
  }

  lemma EmptyIffBare(s: seq<Rank>)
    ensures s == [] <==> forall x :: x !in s
  {
    if s != [] {
      assert s[0] in s;
    }
  }

  /** Ranks leave no choice: the matching filters have one order only. */
  lemma {:induction false} OrderIsUnique(a: seq<Rank>, b: seq<Rank>)
    requires Ordered(a) && Ordered(b) && forall x :: x in a <==> x in b
    ensures a == b
  {
    if a == [] {
      EmptyIffBare(b);
    } else {
      assert a[0] in a && a[0] in b && b[0] in b && b[0] in a;
      HeadIsFirst(a, b[0]);
      HeadIsFirst(b, a[0]);
      OrderedTail(a);
      OrderedTail(b);
      forall x ensures x in a[1..] <==> x in b[1..] {
        assert x in a <==> x == a[0] || x in a[1..] by { assert a == [a[0]] + a[1..]; }
        assert x in b <==> x == b[0] || x in b[1..] by { assert b == [b[0]] + b[1..]; }
      }
      OrderIsUnique(a[1..], b[1..]);
    }
  }

  lemma HeadIsFirst(s: seq<Rank>, x: Rank)
    requires Ordered(s) && x in s
    ensures x == s[0] || Before(s[0], x)
  {
    var i :| 0 <= i < |s| && s[i] == x;
  }

  lemma OrderedTail(s: seq<Rank>)
    requires Ordered(s) && s != []
    ensures Ordered(s[1..]) && s[0] !in s[1..]
  {
    forall i | 0 <= i < |s[1..]| ensures s[1..][i] != s[0] {
      assert Before(s[0], s[i + 1]);
    }
  }

  lemma {:induction false} SortedSize(s: seq<Rank>)
    ensures |Sorted(s)| == |s|
  {
    if s != [] {
      SortedSize(s[..|s| - 1]);
      InsertSize(s[|s| - 1], Sorted(s[..|s| - 1]));
    }
  }

  lemma {:induction false} InsertSize(r: Rank, s: seq<Rank>)
    ensures |Insert(r, s)| == |s| + 1
  {
    if s != [] && !Before(r, s[0]) {
      InsertSize(r, s[1..]);
    }
  }

  function Collected(e: Raised, filters: seq<Filter>, n: nat): (r: seq<Rank>)
    requires n <= |filters|
    ensures |r| <= n
  {
    if n == 0 then []
    else
      Collected(e, filters, n - 1) + (if Matches(e, filters[n - 1]) then [RankOf(e, filters, n - 1)] else [])
  }

  lemma {:induction false} CollectedMeaning(e: Raised, filters: seq<Filter>, n: nat)
    requires n <= |filters|
    ensures DistinctIndices(Collected(e, filters, n))
    ensures forall x :: x in Collected(e, filters, n) <==>
      x.index < n && Matches(e, filters[x.index]) && x == RankOf(e, filters, x.index)
  {
    hide Matches, Nearest, CatchAll;
    if n > 0 {
      var front := Collected(e, filters, n - 1);
      CollectedMeaning(e, filters, n - 1);
      assert forall j :: 0 <= j < |front| ==> front[j] in front;
    }
  }

  function TryOrder(e: Raised, filters: seq<Filter>): seq<Rank> {
    Sorted(Collected(e, filters, |filters|))
  }

  /** The order tried is a permutation of the matching filters, ranked, and the only one there is. */
  lemma TryOrderMeaning(e: Raised, filters: seq<Filter>)
    ensures IsTryOrder(TryOrder(e, filters), e, filters)
    ensures |TryOrder(e, filters)| <= |filters|
    ensures forall order :: IsTryOrder(order, e, filters) ==> order == TryOrder(e, filters)
  {
    hide Matches, RankOf, Before, Sorted, Collected;
    var collected := Collected(e, filters, |filters|);
    CollectedMeaning(e, filters, |filters|);
    SortedIsOrdered(collected);
    SortedSize(collected);
    forall order | IsTryOrder(order, e, filters) ensures order == TryOrder(e, filters) {
      OrderIsUnique(order, TryOrder(e, filters));
    }
  }

  /** Collects the matching filters with their ranks, and sorts them. */
  method MatchingFilters(e: Raised, filters: seq<Filter>) returns (ranks: seq<Rank>)
    ensures ranks == TryOrder(e, filters)
  {
    hide Nearest, Matches, CatchAll, Sorted, Declared;
    var collected: seq<Rank> := [];
    var i := 0;
    while i < |filters|
      invariant i <= |filters|
      invariant collected == Collected(e, filters, i)
    {
      var nearest := Nearest(e, Declared(filters[i]));
      NearestIffMatches(e, filters[i]);
      if nearest.Some? {
        collected := collected + [Rank(CatchAll(filters[i]), nearest.value, i)];
      }
      i := i + 1;
    }
    return Sorted(collected);
  }

  // ---------------------------------------------------------------- handling

  datatype PassEnd<R> = Settled(value: R) | Broke(failure: Raised) | Exhausted

  /** One pass over an order: the first result given, or the first failure, or neither. */
  function Pass<R>(order: seq<Rank>, again: bool, e: Raised, catches: Catches<R>): PassEnd<R> {
    if order == [] then Exhausted
    else
      match catches(again, order[0].index, e)
      case Raises(failure) => Broke(failure)
      case Returns(Some(value)) => Settled(value)
      case Returns(None) => Pass(order[1..], again, e, catches)
  }

  function PassCalls<R>(order: seq<Rank>, again: bool, e: Raised, catches: Catches<R>): (r: seq<Call>)
    ensures |r| <= |order|
    ensures forall i :: 0 <= i < |r| ==> r[i] == Tried(again, order[i].index, e)
  {
    if order == [] then []
    else
      [Tried(again, order[0].index, e)]
      + (if catches(again, order[0].index, e) == Returns(None) then PassCalls(order[1..], again, e, catches) else [])
  }

  /** The answer: the first pass's result, else a second pass over what it failed with, else the fallback. */
  function Handled<R>(e: Raised, filters: seq<Filter>, catches: Catches<R>, problem: Raised -> R): R {
    match Pass(TryOrder(e, filters), false, e, catches)
    case Settled(value) => value
    case Exhausted => problem(e)
    case Broke(next) =>
      match Pass(TryOrder(next, filters), true, next, catches)
      case Settled(value) => value
      case Exhausted => problem(next)
      case Broke(last) => problem(last)
  }

  function FallbackCall<R>(end: PassEnd<R>, e: Raised): seq<Call> {
    match end
    case Settled(_) => []
    case Exhausted => [Fallback(e)]
    case Broke(last) => [Fallback(last)]
  }

  function HandledCalls<R>(e: Raised, filters: seq<Filter>, catches: Catches<R>): seq<Call> {
    var order := TryOrder(e, filters);
    var end := Pass(order, false, e, catches);
    var first := PassCalls(order, false, e, catches);
    if end.Broke? then
      var again := TryOrder(end.failure, filters);
      first + PassCalls(again, true, end.failure, catches) + FallbackCall(Pass(again, true, end.failure, catches), end.failure)
    else first + FallbackCall(end, e)
  }

  /** The calls of the first `n` filters of an order. */
  function Tries(order: seq<Rank>, again: bool, e: Raised, n: nat): seq<Call>
    requires n <= |order|
  {
    seq(n, m requires 0 <= m < n => Tried(again, order[m].index, e))
  }

  /** The first `k` filters of an order decline. */
  predicate Decline<R(==)>(order: seq<Rank>, again: bool, e: Raised, catches: Catches<R>, k: nat) {
    k <= |order| && forall m :: 0 <= m < k ==> catches(again, order[m].index, e) == Returns(None)
  }

  lemma DeclineOn<R>(order: seq<Rank>, again: bool, e: Raised, catches: Catches<R>, k: nat)
    requires Decline(order, again, e, catches, k) && k > 0
    ensures catches(again, order[0].index, e) == Returns(None) && Decline(order[1..], again, e, catches, k - 1)
    ensures k < |order| ==> order[1..][k - 1] == order[k]
    ensures forall n :: 0 < n <= |order| ==> Tries(order, again, e, n) == [Tried(again, order[0].index, e)] + Tries(order[1..], again, e, n - 1)
  {
    forall m | 0 <= m < k - 1 ensures catches(again, order[1..][m].index, e) == Returns(None) {
      assert order[1..][m] == order[m + 1];
    }
  }

  /** A pass ends with the first filter that does not decline, and calls none after it. */
  lemma {:induction false} PassEnds<R>(order: seq<Rank>, again: bool, e: Raised, catches: Catches<R>, k: nat)
    requires Decline(order, again, e, catches, k)
    ensures k == |order| ==> Pass(order, again, e, catches) == Exhausted
    ensures k < |order| && catches(again, order[k].index, e) != Returns(None) ==>
      Pass(order, again, e, catches) ==
        match catches(again, order[k].index, e)
        case Raises(failure) => Broke(failure)
        case Returns(Some(value)) => Settled(value)
        case Returns(None) => Exhausted
  {
    if k > 0 {
      DeclineOn(order, again, e, catches, k);
      hide Decline;
      PassEnds(order[1..], again, e, catches, k - 1);
    }
  }

  lemma {:induction false} PassCallsAre<R>(order: seq<Rank>, again: bool, e: Raised, catches: Catches<R>, k: nat)
    requires Decline(order, again, e, catches, k)
    ensures k == |order| ==> PassCalls(order, again, e, catches) == Tries(order, again, e, k)
    ensures k < |order| && catches(again, order[k].index, e) != Returns(None) ==>
      PassCalls(order, again, e, catches) == Tries(order, again, e, k + 1)
  {
    if k > 0 {
      DeclineOn(order, again, e, catches, k);
      hide Decline, Tries;
      PassCallsAre(order[1..], again, e, catches, k - 1);
    }
  }

  /**
   What is answered, call by call. If all decline, the fallback answers with the exception. If the first that
   does not decline gives a result, that is it. If it fails, the filters matching the failure are asked, once
   more, in their own order: all declining, the fallback answers with the failure; a result is the answer;
   and failing again, the fallback answers with the second failure.
   */
  lemma AnswerIs<R>(e: Raised, filters: seq<Filter>, catches: Catches<R>, problem: Raised -> R, k: nat, n: nat)
    requires var order := TryOrder(e, filters);
      Decline(order, false, e, catches, k) && (k < |order| ==> catches(false, order[k].index, e) != Returns(None))
    requires var order := TryOrder(e, filters);
      k < |order| && catches(false, order[k].index, e).Raises? ==>
        var x := catches(false, order[k].index, e).failure;
        var again := TryOrder(x, filters);
        Decline(again, true, x, catches, n) && (n < |again| ==> catches(true, again[n].index, x) != Returns(None))
    ensures var order := TryOrder(e, filters);
      var answer, calls := Handled(e, filters, catches, problem), HandledCalls(e, filters, catches);
      if k == |order| then answer == problem(e) && calls == Tries(order, false, e, k) + [Fallback(e)]
      else match catches(false, order[k].index, e)
        case Returns(result) => result == Some(answer) && calls == Tries(order, false, e, k + 1)
        case Raises(x) =>
          var again, first := TryOrder(x, filters), Tries(order, false, e, k + 1);
          if n == |again| then answer == problem(x) && calls == first + Tries(again, true, x, n) + [Fallback(x)]
          else match catches(true, again[n].index, x)
            case Returns(result) => result == Some(answer) && calls == first + Tries(again, true, x, n + 1)
            case Raises(y) => answer == problem(y) && calls == first + Tries(again, true, x, n + 1) + [Fallback(y)]
  {
    hide TryOrder, Pass, PassCalls;
    var order := TryOrder(e, filters);
    PassEnds(order, false, e, catches, k);
    PassCallsAre(order, false, e, catches, k);
    if k < |order| && catches(false, order[k].index, e).Raises? {
      var x := catches(false, order[k].index, e).failure;
      PassEnds(TryOrder(x, filters), true, x, catches, n);
      PassCallsAre(TryOrder(x, filters), true, x, catches, n);
    }
    hide Decline, Tries;
  }

  /** One call more of a pass. */
  lemma PassStep<R>(order: seq<Rank>, i: nat, again: bool, e: Raised, catches: Catches<R>)
    requires i < |order|
    ensures var outcome, rest := catches(again, order[i].index, e), order[i..];
      && Pass(rest, again, e, catches) ==
        (match outcome
         case Raises(failure) => Broke(failure)
         case Returns(Some(value)) => Settled(value)
         case Returns(None) => Pass(order[i + 1..], again, e, catches))
      && PassCalls(rest, again, e, catches) ==
        [Tried(again, order[i].index, e)]
        + (if outcome == Returns(None) then PassCalls(order[i + 1..], again, e, catches) else [])
  {
    assert order[i..][1..] == order[i + 1..];
  }

  lemma Regrouped(calls: seq<Call>, call: Call, rest: seq<Call>)
    ensures calls + ([call] + rest) == (calls + [call]) + rest
    ensures calls + ([call] + []) == calls + [call]
  {
  }

  lemma PassDone<R>(order: seq<Rank>, again: bool, e: Raised, catches: Catches<R>)
    ensures Pass(order[|order|..], again, e, catches) == Exhausted
    ensures PassCalls(order[|order|..], again, e, catches) == []
  {
  }

  lemma CallsBounded<R>(e: Raised, filters: seq<Filter>, catches: Catches<R>)
    ensures |HandledCalls(e, filters, catches)| <= 2 * |filters| + 1
  {
    hide TryOrder, Pass, PassCalls, IsTryOrder;
    TryOrderMeaning(e, filters);
    var end := Pass(TryOrder(e, filters), false, e, catches);
    if end.Broke? {
      TryOrderMeaning(end.failure, filters);
    }
  }

  /** Handles an exception. It ends, always with a result, after at most two passes and 2n + 1 calls. */
  method HandleException<R(==)>(exc: Raised, filters: seq<Filter>, catches: Catches<R>, problem: Raised -> R)
    returns (result: Option<R>, calls: seq<Call>)
    ensures result == Some(Handled(exc, filters, catches, problem))
    ensures calls == HandledCalls(exc, filters, catches)
    ensures |calls| <= 2 * |filters| + 1
  {
    hide TryOrder, Pass, PassCalls, IsTryOrder;
    CallsBounded(exc, filters, catches);
    var current, reentered := exc, false;
    calls := [];
    while true
      invariant !reentered ==> current == exc && calls == []
      invariant reentered ==>
        && Pass(TryOrder(exc, filters), false, exc, catches) == Broke(current)
        && calls == PassCalls(TryOrder(exc, filters), false, exc, catches)
      decreases !reentered
    {
      var restart := false;
      var order := MatchingFilters(current, filters);
      ghost var before := calls;
      var i := 0;
      assert order[i..] == order;
      while i < |order|
        invariant i <= |order|
        invariant Pass(order, reentered, current, catches) == Pass(order[i..], reentered, current, catches)
        invariant before + PassCalls(order, reentered, current, catches) ==
          calls + PassCalls(order[i..], reentered, current, catches)
      {
        PassStep(order, i, reentered, current, catches);
        var outcome := catches(reentered, order[i].index, current);
        Regrouped(calls, Tried(reentered, order[i].index, current), PassCalls(order[i + 1..], reentered, current, catches));
        calls := calls + [Tried(reentered, order[i].index, current)];
        assert outcome != Returns(None) ==> calls == before + PassCalls(order, reentered, current, catches);
        if outcome.Raises? {
          if reentered {
            return Some(problem(outcome.failure)), calls + [Fallback(outcome.failure)];
          }
          current, reentered, restart := outcome.failure, true, true;
          break;
        }
        if outcome.result.Some? {
          return outcome.result, calls;
        }
        i := i + 1;
      }
      if !restart {
        PassDone(order, reentered, current, catches);
        assert calls == before + PassCalls(order, reentered, current, catches);
        return Some(problem(current)), calls + [Fallback(current)];
      }
    }
  }

  // ---------------------------------------------------------------- the runtime's own limit filter

  const LIMIT_FILTER := Filter([EXCEPTION])

  function WithLimitFilter(filters: seq<Filter>): seq<Filter> {
    [LIMIT_FILTER] + filters
  }

  /** An instance of Exception, whose class resolves it before BaseException as every such class does. */
  predicate IsException(e: Raised) {
    EXCEPTION in e.mro && BASE_EXCEPTION in e.mro && Distance(e, EXCEPTION) < Distance(e, BASE_EXCEPTION)
  }

  /**
   Whether the application is asked before the runtime's limit filter. Every matching filter is, except
   one that declares BaseException and nothing else, which the limit filter comes before.
   */
  lemma AskedBeforeLimitFilterIff(e: Raised, filters: seq<Filter>, i: nat)
    requires IsException(e) && i < |filters| && Matches(e, filters[i])
    ensures var all := WithLimitFilter(filters);
      && Matches(e, all[0]) && all[i + 1] == filters[i]
      && (Before(RankOf(e, all, i + 1), RankOf(e, all, 0)) <==> exists t :: t in Declared(filters[i]) && t != BASE_EXCEPTION)
      && (Before(RankOf(e, all, 0), RankOf(e, all, i + 1)) <==> forall t :: t in Declared(filters[i]) ==> t == BASE_EXCEPTION)
  {
    hide Nearest, Declared, CatchAll, InstanceOf;
    var all := WithLimitFilter(filters);
    BroadFilter(e, all[0]);
    BroadFilter(e, filters[i]);
  }

  lemma BroadFilter(e: Raised, f: Filter)
    requires IsException(e)
    ensures CatchAll(f) && EXCEPTION !in Declared(f) <==> forall t :: t in Declared(f) ==> t == BASE_EXCEPTION
    ensures CatchAll(f) ==> Matches(e, f)
    ensures CatchAll(f) ==>
      Nearest(e, Declared(f)) == Some(Distance(e, if EXCEPTION in Declared(f) then EXCEPTION else BASE_EXCEPTION))
    ensures f == LIMIT_FILTER ==> CatchAll(f) && EXCEPTION in Declared(f)
  {
    assert Declared(f)[0] in Declared(f);
  }

  /** An order over the filters behind the limit filter, as an order over the application's own. */
  function Rest(order: seq<Rank>): seq<Rank> {
    if order == [] then []
    else (if order[0].index == 0 then [] else [order[0].(index := order[0].index - 1)]) + Rest(order[1..])
  }

  function Ahead(r: Rank): Rank {
    r.(index := r.index + 1)
  }

  lemma {:induction false} RestMember(order: seq<Rank>, x: Rank)
    ensures x in Rest(order) <==> Ahead(x) in order
  {
    if order != [] {
      RestMember(order[1..], x);
      assert order == [order[0]] + order[1..];
      assert order[0].index > 0 ==> (x == order[0].(index := order[0].index - 1) <==> Ahead(x) == order[0]);
    }
  }

  lemma BeforeBehind(a: Rank, b: Rank)
    ensures Before(a, b) == Before(Ahead(a), Ahead(b))
  {
  }

  lemma {:induction false} RestIsOrdered(order: seq<Rank>)
    requires Ordered(order)
    ensures Ordered(Rest(order))
  {
    hide Before;
    if order != [] {
      OrderedTail(order);
      RestIsOrdered(order[1..]);
      var rest := Rest(order[1..]);
      if order[0].index > 0 {
        var first := order[0].(index := order[0].index - 1);
        forall j | 0 <= j < |rest| ensures Before(first, rest[j]) {
          RestMember(order[1..], rest[j]);
          HeadIsFirst(order, Ahead(rest[j]));
          BeforeBehind(first, rest[j]);
        }
        assert Rest(order) == [first] + rest;
      }
    }
  }

  lemma SameRankBehind(e: Raised, filters: seq<Filter>, x: Rank)
    ensures var all, y := WithLimitFilter(filters), Ahead(x);
      (y.index < |all| && Matches(e, all[y.index]) && y == RankOf(e, all, y.index))
      <==> (x.index < |filters| && Matches(e, filters[x.index]) && x == RankOf(e, filters, x.index))
  {
    hide Matches, Nearest, CatchAll, Declared;
  }

  lemma OrderBehind(e: Raised, filters: seq<Filter>)
    ensures Rest(TryOrder(e, WithLimitFilter(filters))) == TryOrder(e, filters)
  {
    hide Matches, RankOf, TryOrder, Ordered, Rest, WithLimitFilter;
    var all := WithLimitFilter(filters);
    TryOrderMeaning(e, all);
    TryOrderMeaning(e, filters);
    var order := TryOrder(e, all);
    RestIsOrdered(order);
    forall x ensures x in Rest(order) <==>
      x.index < |filters| && Matches(e, filters[x.index]) && x == RankOf(e, filters, x.index)
    {
      RestMember(order, x);
      SameRankBehind(e, filters, x);
    }
    assert IsTryOrder(Rest(order), e, filters);
  }

  function Behind<R>(catches: Catches<R>): Catches<R> {
    (again: bool, i: nat, e: Raised) => catches(again, i + 1, e)
  }

  lemma {:induction false} PassBehind<R>(order: seq<Rank>, again: bool, e: Raised, catches: Catches<R>)
    requires catches(again, 0, e) == Returns(None)
    ensures Pass(order, again, e, catches) == Pass(Rest(order), again, e, Behind(catches))
  {
    if order != [] {
      PassBehind(order[1..], again, e, catches);
      if order[0].index > 0 {
        assert Rest(order)[1..] == Rest(order[1..]);
      } else {
        assert Rest(order) == Rest(order[1..]);
      }
    }
  }

  /**
   For every exception it does not claim, the limit filter changes nothing: the application's filters
   and the fallback answer as they would without it.
   */
  lemma LimitFilterIsTransparent<R>(e: Raised, filters: seq<Filter>, catches: Catches<R>, problem: Raised -> R, claims: Raised -> bool)
    requires forall again, x :: !claims(x) ==> catches(again, 0, x) == Returns(None)
    requires !claims(e) && forall again, i: nat, x :: catches(again, i, x).Raises? ==> !claims(catches(again, i, x).failure)
    ensures Handled(e, WithLimitFilter(filters), catches, problem) == Handled(e, filters, Behind(catches), problem)
  {
    hide TryOrder, Rest, WithLimitFilter, Pass;
    OrderBehind(e, filters);
    var order := TryOrder(e, WithLimitFilter(filters));
    PassBehind(order, false, e, catches);
    var end := Pass(order, false, e, catches);
    if end.Broke? {
      FailureIsRaised(order, false, e, catches);
      OrderBehind(end.failure, filters);
      PassBehind(TryOrder(end.failure, WithLimitFilter(filters)), true, end.failure, catches);
    }
  }

  lemma {:induction false} FailureIsRaised<R>(order: seq<Rank>, again: bool, e: Raised, catches: Catches<R>)
    requires Pass(order, again, e, catches).Broke?
    ensures exists i :: catches(again, i, e) == Raises(Pass(order, again, e, catches).failure)
  {
    if !catches(again, order[0].index, e).Raises? {
      FailureIsRaised(order[1..], again, e, catches);
    }
  }

  /** An exception the limit filter claims and every filter of the application declines is answered by it. */
  lemma LimitFilterAnswersLast<R>(e: Raised, filters: seq<Filter>, catches: Catches<R>, problem: Raised -> R)
    requires IsException(e)
    requires catches(false, 0, e).Returns? && catches(false, 0, e).result.Some?
    requires forall i: nat :: 1 <= i <= |filters| ==> catches(false, i, e) == Returns(None)
    ensures Handled(e, WithLimitFilter(filters), catches, problem) == catches(false, 0, e).result.value
  {
    hide TryOrder, IsException, Nearest, Declared, Matches, CatchAll;
    var all := WithLimitFilter(filters);
    TryOrderMeaning(e, all);
    BroadFilter(e, all[0]);
    assert RankOf(e, all, 0).index == 0;
    assert RankOf(e, all, 0) in TryOrder(e, all);
    OnlyOneAnswers(TryOrder(e, all), e, catches);
  }

  lemma {:induction false} OnlyOneAnswers<R>(order: seq<Rank>, e: Raised, catches: Catches<R>)
    requires exists r :: r in order && r.index == 0
    requires forall r :: r in order && r.index != 0 ==> catches(false, r.index, e) == Returns(None)
    requires catches(false, 0, e).Returns? && catches(false, 0, e).result.Some?
    ensures Pass(order, false, e, catches) == Settled(catches(false, 0, e).result.value)
  {
    assert order == [order[0]] + order[1..];
    if order[0].index != 0 {
      OnlyOneAnswers(order[1..], e, catches);
    }
  }
}
