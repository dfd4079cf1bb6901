/**
 Compilation of contracts into the plan an adapter registers, under each kind of versioning, and the
 dispatch that picks a version at request time.
 */
module RoutePlan {
  import opened Options
  import opened OrderedDict
  import opened RouteRegistry

  datatype Versioning = Unversioned | Uri(prefix: string, default: Option<string>) | ByRequest(default: Option<string>)

  type RouteKey = (string, string)

  /** One registration: a verb and a path, the hosts it answers at, and the contracts that serve it. */
  datatype Entry = Entry(key: RouteKey, hosts: seq<string>, contracts: seq<Contract>)

  function KeyOf(c: Contract): RouteKey {
    (c.verb, c.path)
  }

  // ---------------------------------------------------------------- paths of one contract

  function JoinPaths(prefix: string, path: string): string {
    if prefix == "" then path else if path == "/" then prefix else prefix + path
  }

  /** Each path once, in order of first appearance. */
  function Deduped(s: seq<string>): (r: seq<string>)
    ensures forall x :: x in r <==> x in s
  {
    if s == [] then []
    else
      var front, last := Deduped(s[..|s| - 1]), s[|s| - 1];
      assert s == s[..|s| - 1] + [last];
      if last in front then front else front + [last]
  }

  lemma {:induction false} DedupedDistinct(s: seq<string>)
    ensures Distinct(Deduped(s))
  {
    if s != [] {
      DedupedDistinct(s[..|s| - 1]);
      DistinctConcat(Deduped(s[..|s| - 1]), [s[|s| - 1]]);
    }
  }

  /** The paths of one version: its own, and the bare one as well for the default. */
  function PathsOfVersion(path: string, v: string, prefix: string, default: Option<string>): seq<string> {
    [JoinPaths("/" + prefix + v, path)] + (if default == Some(v) then [path] else [])
  }

  function VersionedPaths(path: string, versions: seq<string>, prefix: string, default: Option<string>): seq<string> {
    if versions == [] then []
    else
      VersionedPaths(path, versions[..|versions| - 1], prefix, default)
      + PathsOfVersion(path, versions[|versions| - 1], prefix, default)
  }

  function UriPaths(c: Contract, prefix: string, default: Option<string>): seq<string> {
    if Neutral(c.versions) then [c.path] else Deduped(VersionedPaths(c.path, c.versions, prefix, default))
  }

  lemma {:induction false} VersionedPathsExactly(path: string, versions: seq<string>, prefix: string, default: Option<string>, x: string)
    ensures x in VersionedPaths(path, versions, prefix, default) <==>
      (exists v :: v in versions && x == JoinPaths("/" + prefix + v, path)) || (default.Some? && default.value in versions && x == path)
  {
    if versions != [] {
      var front, last := versions[..|versions| - 1], versions[|versions| - 1];
      VersionedPathsExactly(path, front, prefix, default, x);
      assert versions == front + [last];
      assert x in PathsOfVersion(path, last, prefix, default) <==>
        x == JoinPaths("/" + prefix + last, path) || (default == Some(last) && x == path);
    }
  }

  /**
   The paths of a contract under URI versioning, each once: its own if it is neutral, otherwise the
   joined path of every version it declares, and the bare one if it declares the default.
   */
  lemma UriPathsExactly(c: Contract, prefix: string, default: Option<string>)
    ensures Distinct(UriPaths(c, prefix, default))
    ensures forall x :: x in UriPaths(c, prefix, default) <==>
      if Neutral(c.versions) then x == c.path
      else (exists v :: v in c.versions && x == JoinPaths("/" + prefix + v, c.path)) || (default.Some? && default.value in c.versions && x == c.path)
  {
    DedupedDistinct(VersionedPaths(c.path, c.versions, prefix, default));
    forall x
      ensures x in VersionedPaths(c.path, c.versions, prefix, default) <==>
        (exists v :: v in c.versions && x == JoinPaths("/" + prefix + v, c.path)) || (default.Some? && default.value in c.versions && x == c.path)
    {
      VersionedPathsExactly(c.path, c.versions, prefix, default, x);
    }
  }

  /** Where a path appears first. */
  function FirstPlace(s: seq<string>, x: string): (n: nat)
    ensures n <= |s| && (x in s <==> n < |s|)
  {
    if s == [] || s[0] == x then 0 else assert s == [s[0]] + s[1..]; 1 + FirstPlace(s[1..], x)
  }

  lemma {:induction false} FirstPlaceConcat(a: seq<string>, b: seq<string>, x: string)
    ensures FirstPlace(a + b, x) == if x in a then FirstPlace(a, x) else |a| + FirstPlace(b, x)
  {
    if a == [] {
      assert a + b == b;
    } else {
      assert a == [a[0]] + a[1..] && (a + b)[1..] == a[1..] + b;
      FirstPlaceConcat(a[1..], b, x);
    }
  }

  /** Paths keep the order they first appear in. */
  lemma {:induction false} DedupedInOrder(s: seq<string>, i: nat, j: nat)
    requires i < j < |Deduped(s)|
    ensures FirstPlace(s, Deduped(s)[i]) < FirstPlace(s, Deduped(s)[j])
  {
    var front, last, kept := s[..|s| - 1], s[|s| - 1], Deduped(s[..|s| - 1]);
    assert s == front + [last];
    FirstPlaceConcat(front, [last], Deduped(s)[i]);
    FirstPlaceConcat(front, [last], Deduped(s)[j]);
    if j < |kept| {
      DedupedInOrder(front, i, j);
      assert kept[i] in kept && kept[j] in kept;
    } else {
      assert kept[i] in kept;
    }
  }

  lemma {:induction false} VersionsConcat(path: string, a: seq<string>, b: seq<string>, prefix: string, default: Option<string>)
    ensures VersionedPaths(path, a + b, prefix, default) == VersionedPaths(path, a, prefix, default) + VersionedPaths(path, b, prefix, default)
  {
    if b == [] {
      assert a + b == a;
    } else {
      VersionsConcat(path, a, b[..|b| - 1], prefix, default);
      assert (a + b)[..|a + b| - 1] == a + b[..|b| - 1];
    }
  }

  /** Each version in turn: the prefix and the version before the path, and the bare path right behind the default's. */
  lemma VersionsInTurn(path: string, a: seq<string>, v: string, b: seq<string>, prefix: string, default: Option<string>)
    ensures VersionedPaths(path, a + [v] + b, prefix, default) ==
      VersionedPaths(path, a, prefix, default)
      + ["/" + prefix + v + (if path == "/" then "" else path)] + (if default == Some(v) then [path] else [])
      + VersionedPaths(path, b, prefix, default)
  {
    var here := ["/" + prefix + v + (if path == "/" then "" else path)] + (if default == Some(v) then [path] else []);
    VersionsConcat(path, a + [v], b, prefix, default);
    VersionsConcat(path, a, [v], prefix, default);
    assert ("/" + prefix + v) + "" == "/" + prefix + v;
    assert VersionedPaths(path, [v][..0], prefix, default) == [];
    assert VersionedPaths(path, [v], prefix, default) == [] + here == here;
    assert VersionedPaths(path, a, prefix, default) + here
      == VersionedPaths(path, a, prefix, default) + ["/" + prefix + v + (if path == "/" then "" else path)] + (if default == Some(v) then [path] else []);
  }

  method BuildUriPaths(path: string, versions: seq<string>, prefix: string, default: Option<string>) returns (paths: seq<string>)
    ensures forall c: Contract :: c.path == path && c.versions == versions ==> paths == UriPaths(c, prefix, default)
    ensures Distinct(paths)
    ensures forall x :: x in paths <==>
      if Neutral(versions) then x == path
      else (exists v :: v in versions && x == JoinPaths("/" + prefix + v, path)) || (default.Some? && default.value in versions && x == path)
  {
    UriPathsExactly(Contract("", path, versions, [], ""), prefix, default);
    if Neutral(versions) {
      return [path];
    }
    var versioned := [];
    var i := 0;
    while i < |versions|
      invariant i <= |versions|
      invariant versioned == VersionedPaths(path, versions[..i], prefix, default)
    {
      assert versions[..i + 1][..i] == versions[..i];
      var before := versioned;
      versioned := versioned + [JoinPaths("/" + prefix + versions[i], path)];
      if default == Some(versions[i]) {
        versioned := versioned + [path];
      }
      assert versioned == before + PathsOfVersion(path, versions[i], prefix, default);
      i := i + 1;
    }
    assert versions[..i] == versions;
    return Deduped(versioned);
  }

  // ---------------------------------------------------------------- the plan

  function PathsOf(c: Contract, v: Versioning): seq<string> {
    match v
    case Uri(prefix, default) => UriPaths(c, prefix, default)
    case _ => [c.path]
  }

  function EntriesFor(c: Contract, paths: seq<string>): (r: seq<Entry>)
    ensures |r| == |paths| && forall i :: 0 <= i < |r| ==> r[i] == Entry((c.verb, paths[i]), c.hosts, [c])
  {
    seq(|paths|, i requires 0 <= i < |paths| => Entry((c.verb, paths[i]), c.hosts, [c]))
  }

  /** One entry per contract and path: what the builder plans without a dispatcher. */
  function Planned(cs: seq<Contract>, v: Versioning): seq<Entry> {
    if cs == [] then [] else Planned(cs[..|cs| - 1], v) + EntriesFor(cs[|cs| - 1], PathsOf(cs[|cs| - 1], v))
  }

  function Keys(entries: seq<Entry>): (r: seq<RouteKey>)
    ensures |r| == |entries| && forall i :: 0 <= i < |r| ==> r[i] == entries[i].key
  {
    seq(|entries|, i requires 0 <= i < |entries| => entries[i].key)
  }

  /** The contracts of one verb and path, in declaration order. */
  function Sharing(cs: seq<Contract>, k: RouteKey): seq<Contract> {
    if cs == [] then []
    else Sharing(cs[..|cs| - 1], k) + (if KeyOf(cs[|cs| - 1]) == k then [cs[|cs| - 1]] else [])
  }

  predicate PairwiseApart(cs: seq<Contract>) {
    forall i, j :: 0 <= i < j < |cs| ==> !VersionsOverlap(cs[i].versions, cs[j].versions)
  }

  /** Whether the builder takes every contract. */
  ghost predicate Acceptable(cs: seq<Contract>, v: Versioning) {
    match v
    case ByRequest(_) => forall k :: PairwiseApart(Sharing(cs, k))
    case _ => Distinct(Keys(Planned(cs, v)))
  }

  /** Accumulates contracts into the plan. `accepted` keeps what was added, for the contracts only. */
  class RoutePlanBuilder {
    const versioning: Versioning
    var seen: map<RouteKey, string>
    var routes: seq<Entry>
    var versioned: Dict<RouteKey, seq<Contract>>
    ghost var accepted: seq<Contract>

    ghost predicate Valid()
      reads this
    {
      && versioned.Valid()
      && Acceptable(accepted, versioning)
      && (versioning.ByRequest? ==>
        && routes == []
        && (forall k :: k in versioned.items <==> Sharing(accepted, k) != [])
        && (forall k :: k in versioned.items ==> versioned.items[k] == Sharing(accepted, k)))
      && (!versioning.ByRequest? ==>
        && routes == Planned(accepted, versioning)
        && versioned == Empty()
        && (forall k :: k in seen <==> k in Keys(routes)))
    }

    constructor (versioning: Versioning)
      ensures Valid() && this.versioning == versioning && accepted == []
    {
      this.versioning := versioning;
      seen, routes, versioned, accepted := map[], [], Empty(), [];
    }

    /** Plans one contract, or holds it for a dispatcher. After a refusal the builder is not used again. */
    method Add(c: Contract) returns (ok: bool)
      requires Valid()
      modifies this
      ensures ok ==> Valid() && accepted == old(accepted) + [c]
      ensures ok <==> Acceptable(old(accepted) + [c], versioning)
    {
      if versioning.ByRequest? {
        ok := Hold(c);
      } else {
        ok := ClaimAll(c);
      }
    }

    method ClaimAll(c: Contract) returns (ok: bool)
      requires Valid() && !versioning.ByRequest?
      modifies this
      ensures ok ==> Valid() && accepted == old(accepted) + [c]
      ensures ok <==> Acceptable(old(accepted) + [c], versioning)
    {
      hide Planned, UriPaths, Deduped, Distinct, Sharing;
      var paths;
      match versioning {
        case Uri(prefix, default) => paths := BuildUriPaths(c.path, c.versions, prefix, default);
        case _ => paths := [c.path];
      }
      ghost var before := routes;
      AddedKeys(accepted, c, versioning);
      PathsDistinct(c, versioning);
      var i := 0;
      while i < |paths|
        invariant i <= |paths|
        invariant routes == before + EntriesFor(c, paths)[..i]
        invariant forall k :: k in seen <==> k in Keys(routes)
        invariant Distinct(Keys(routes))
        invariant versioned == Empty() && accepted == old(accepted)
      {
        var key := (c.verb, paths[i]);
        KeysPrefix(before, c, paths, i);
        if key in seen {
          SeenAlready(before, c, paths, i);
          return false;
        }
        DistinctAppend(Keys(routes), key);
        seen := seen[key := c.owner];
        routes := routes + [Entry(key, c.hosts, [c])];
        assert Keys(routes) == Keys(before + EntriesFor(c, paths)[..i]) + [key];
        i := i + 1;
      }
      assert EntriesFor(c, paths)[..i] == EntriesFor(c, paths);
      assert (accepted + [c])[..|accepted|] == accepted;
      accepted := accepted + [c];
      return true;
    }

    /** Holds a contract beside those of its verb and path, unless a version of it is taken. */
    method Hold(c: Contract) returns (ok: bool)
      requires Valid() && versioning.ByRequest?
      modifies this
      ensures ok ==> Valid() && accepted == old(accepted) + [c]
      ensures ok <==> Acceptable(old(accepted) + [c], versioning)
    {
      hide Sharing;
      var held := if KeyOf(c) in versioned.items then versioned.items[KeyOf(c)] else [];
      SharingAppended(accepted, c);
      assert held == Sharing(accepted, KeyOf(c));
      var i := 0;
      while i < |held|
        invariant i <= |held|
        invariant forall j :: 0 <= j < i ==> !VersionsOverlap(held[j].versions, c.versions)
      {
        if VersionsOverlap(held[i].versions, c.versions) {
          var together := held + [c];
          assert VersionsOverlap(together[i].versions, together[|held|].versions);
          assert !PairwiseApart(Sharing(accepted + [c], KeyOf(c)));
          return false;
        }
        i := i + 1;
      }
      HeldStaysApart(accepted, c, versioning);
      versioned := versioned.Put(KeyOf(c), held + [c]);
      accepted := accepted + [c];
      return true;
    }

    /** The plan: what was appended, and one dispatching entry per verb and path held back. */
    method Build() returns (plan: seq<Entry>)
      requires Valid()
      ensures !versioning.ByRequest? ==> plan == Planned(accepted, versioning)
      ensures versioning.ByRequest? ==> IsDispatchPlan(plan, accepted)
    {
      hide Acceptable, Sharing, Planned;
      plan := routes;
      if versioning.ByRequest? {
        var i := 0;
        while i < |versioned.order|
          invariant i <= |versioned.order|
          invariant |plan| == i
          invariant forall j :: 0 <= j < i ==>
            && versioned.items[versioned.order[j]] != []
            && plan[j] == Entry(versioned.order[j], versioned.items[versioned.order[j]][0].hosts, versioned.items[versioned.order[j]])
        {
          assert versioned.order[i] in versioned.order;
          var handlers := versioned.items[versioned.order[i]];
          plan := plan + [Entry(versioned.order[i], handlers[0].hosts, handlers)];
          i := i + 1;
        }
        assert Keys(plan) == versioned.order;
        forall j | 0 <= j < |plan|
          ensures plan[j].contracts == Sharing(accepted, plan[j].key) && plan[j].contracts != []
          ensures plan[j].hosts == plan[j].contracts[0].hosts
        {
          assert versioned.order[j] in versioned.order;
        }
        forall k | Sharing(accepted, k) != [] ensures k in Keys(plan) {
          assert k in versioned.items;
        }
      }
    }
  }

  /** One entry per verb and path declared, each holding exactly the contracts of its own under the hosts of the first. */
  ghost predicate IsDispatchPlan(plan: seq<Entry>, cs: seq<Contract>) {
    && Distinct(Keys(plan))
    && (forall i :: 0 <= i < |plan| ==> plan[i].contracts == Sharing(cs, plan[i].key) && plan[i].contracts != [])
    && (forall i :: 0 <= i < |plan| ==> plan[i].hosts == plan[i].contracts[0].hosts)
    && (forall k :: Sharing(cs, k) != [] ==> k in Keys(plan))
  }

  // ---------------------------------------------------------------- one contract more

  lemma KeysConcat(a: seq<Entry>, b: seq<Entry>)
    ensures Keys(a + b) == Keys(a) + Keys(b)
  {
  }

  lemma AddedKeys(cs: seq<Contract>, c: Contract, v: Versioning)
    ensures Planned(cs + [c], v) == Planned(cs, v) + EntriesFor(c, PathsOf(c, v))
    ensures Keys(Planned(cs + [c], v)) == Keys(Planned(cs, v)) + Keys(EntriesFor(c, PathsOf(c, v)))
  {
    assert (cs + [c])[..|cs|] == cs;
    KeysConcat(Planned(cs, v), EntriesFor(c, PathsOf(c, v)));
  }

  lemma {:induction false} PairedDistinct(c: Contract, paths: seq<string>)
    requires Distinct(paths)
    ensures Distinct(Keys(EntriesFor(c, paths)))
  {
    var ks := Keys(EntriesFor(c, paths));
    if paths != [] {
      PairedDistinct(c, paths[1..]);
      assert ks[1..] == Keys(EntriesFor(c, paths[1..]));
      assert forall i :: 0 <= i < |ks| ==> ks[i] == (c.verb, paths[i]);
      assert forall i :: 1 <= i < |paths| ==> paths[i] == paths[1..][i - 1];
    }
  }

  lemma PathsDistinct(c: Contract, v: Versioning)
    ensures Distinct(Keys(EntriesFor(c, PathsOf(c, v))))
  {
    if v.Uri? && !Neutral(c.versions) {
      DedupedDistinct(VersionedPaths(c.path, c.versions, v.prefix, v.default));
    }
    PairedDistinct(c, PathsOf(c, v));
  }

  lemma KeysPrefix(before: seq<Entry>, c: Contract, paths: seq<string>, i: nat)
    requires i < |paths|
    ensures before + EntriesFor(c, paths)[..i + 1] == before + EntriesFor(c, paths)[..i] + [Entry((c.verb, paths[i]), c.hosts, [c])]
    ensures Keys(before + EntriesFor(c, paths)[..i + 1]) == Keys(before + EntriesFor(c, paths)[..i]) + [(c.verb, paths[i])]
  {
  }

  /** A path refused now was claimed before this contract, since one contract claims no path twice. */
  lemma SeenAlready(before: seq<Entry>, c: Contract, paths: seq<string>, i: nat)
    requires i < |paths| && Distinct(Keys(EntriesFor(c, paths)))
    requires (c.verb, paths[i]) in Keys(before + EntriesFor(c, paths)[..i])
    ensures !Distinct(Keys(before) + Keys(EntriesFor(c, paths)))
  {
    var mine, key := Keys(EntriesFor(c, paths)), (c.verb, paths[i]);
    KeysConcat(before, EntriesFor(c, paths)[..i]);
    assert Keys(EntriesFor(c, paths)[..i]) == mine[..i];
    assert mine == mine[..i] + mine[i..] && mine[i..][0] == key;
    DistinctConcat(mine[..i], mine[i..]);
    assert key in Keys(before) && mine[i] == key;
    DistinctConcat(Keys(before), mine);
  }

  lemma SharingAppended(cs: seq<Contract>, c: Contract)
    ensures forall k :: Sharing(cs + [c], k) == Sharing(cs, k) + (if KeyOf(c) == k then [c] else [])
  {
    assert (cs + [c])[..|cs|] == cs;
  }

  lemma HeldStaysApart(cs: seq<Contract>, c: Contract, v: Versioning)
    requires v.ByRequest? && Acceptable(cs, v)
    requires forall j :: 0 <= j < |Sharing(cs, KeyOf(c))| ==> !VersionsOverlap(Sharing(cs, KeyOf(c))[j].versions, c.versions)
    ensures Acceptable(cs + [c], v)
  {
    SharingAppended(cs, c);
    forall k ensures PairwiseApart(Sharing(cs + [c], k)) {
      assert PairwiseApart(Sharing(cs, k));
      if k != KeyOf(c) {
        assert Sharing(cs, k) + [] == Sharing(cs, k);
      }
    }
  }

  // ---------------------------------------------------------------- compiling a list of contracts

  lemma {:induction false} AcceptableFront(cs: seq<Contract>, v: Versioning, n: nat)
    requires Acceptable(cs, v) && n <= |cs|
    ensures Acceptable(cs[..n], v)
    decreases |cs| - n
  {
    if n == |cs| {
      assert cs[..n] == cs;
    } else {
      AcceptableFront(cs, v, n + 1);
      var p, c := cs[..n], cs[n];
      assert cs[..n + 1] == p + [c];
      if v.ByRequest? {
        SharingAppended(p, c);
        forall k ensures PairwiseApart(Sharing(p, k)) {
          var a := Sharing(p, k);
          var b := Sharing(p + [c], k);
          assert PairwiseApart(b) && a == b[..|a|];
          assert forall i :: 0 <= i < |a| ==> a[i] == b[i];
        }
      } else {
        AddedKeys(p, c, v);
        DistinctConcat(Keys(Planned(p, v)), Keys(EntriesFor(c, PathsOf(c, v))));
      }
    }
  }

  /** Compiles the plan, or refuses: it is refused iff the contracts collide. */
  method CompileRoutePlan(cs: seq<Contract>, v: Versioning) returns (plan: Option<seq<Entry>>)
    ensures plan.Some? <==> (v.Unversioned? ==> ConflictFree(cs)) && Acceptable(cs, v)
    ensures plan.Some? && !v.ByRequest? ==> plan.value == Planned(cs, v) && Distinct(Keys(plan.value))
    ensures plan.Some? && v.ByRequest? ==> IsDispatchPlan(plan.value, cs)
  {
    hide Planned, Sharing, Distinct, ConflictFree;
    if v.Unversioned? {
      var valid := Validate(cs);
      if !valid {
        return None;
      }
    }
    var builder := new RoutePlanBuilder(v);
    var i := 0;
    while i < |cs|
      invariant i <= |cs|
      invariant builder.Valid() && fresh(builder) && builder.versioning == v && builder.accepted == cs[..i]
    {
      assert cs[..i] + [cs[i]] == cs[..i + 1];
      var ok := builder.Add(cs[i]);
      if !ok {
        if Acceptable(cs, v) {
          AcceptableFront(cs, v, i + 1);
          assert false;
        }
        return None;
      }
      i := i + 1;
    }
    assert cs[..i] == cs;
    var routes := builder.Build();
    return Some(routes);
  }

  // ---------------------------------------------------------------- what an accepted plan promises

  /** Two contracts of one verb claim no path in common. */
  predicate ClaimsApart(a: Contract, b: Contract, v: Versioning) {
    a.verb == b.verb ==> forall x :: x in PathsOf(a, v) ==> x !in PathsOf(b, v)
  }

  lemma EntryOfPath(c: Contract, paths: seq<string>, x: string)
    ensures x in paths <==> (c.verb, x) in Keys(EntriesFor(c, paths))
  {
    if x in paths {
      var m :| 0 <= m < |paths| && paths[m] == x;
      assert Keys(EntriesFor(c, paths))[m] == (c.verb, x);
    }
  }

  lemma {:induction false} ClaimedIffPlanned(cs: seq<Contract>, v: Versioning, k: RouteKey)
    ensures k in Keys(Planned(cs, v)) <==> exists i :: 0 <= i < |cs| && cs[i].verb == k.0 && k.1 in PathsOf(cs[i], v)
  {
    if cs != [] {
      var p, c := cs[..|cs| - 1], cs[|cs| - 1];
      assert cs == p + [c];
      AddedKeys(p, c, v);
      ClaimedIffPlanned(p, v, k);
      EntryOfPath(c, PathsOf(c, v), k.1);
      if exists i :: 0 <= i < |p| && p[i].verb == k.0 && k.1 in PathsOf(p[i], v) {
        var i :| 0 <= i < |p| && p[i].verb == k.0 && k.1 in PathsOf(p[i], v);
        assert cs[i] == p[i];
      }
    }
  }

  /** Without a dispatcher the contracts are accepted iff no two of them claim one verb and path. */
  lemma {:induction false} AcceptedIffApart(cs: seq<Contract>, v: Versioning)
    requires !v.ByRequest?
    ensures Acceptable(cs, v) <==> forall i, j :: 0 <= i < j < |cs| ==> ClaimsApart(cs[i], cs[j], v)
  {
    if cs != [] {
      var p, c := cs[..|cs| - 1], cs[|cs| - 1];
      hide Planned, PathsOf, Distinct;
      assert cs == p + [c];
      AcceptedIffApart(p, v);
      AddedKeys(p, c, v);
      PathsDistinct(c, v);
      var mine := Keys(EntriesFor(c, PathsOf(c, v)));
      DistinctConcat(Keys(Planned(p, v)), mine);
      if Acceptable(cs, v) {
        forall i | 0 <= i < |p| ensures ClaimsApart(p[i], c, v) {
          forall x | p[i].verb == c.verb && x in PathsOf(p[i], v) ensures x !in PathsOf(c, v) {
            ClaimedIffPlanned(p, v, (c.verb, x));
            EntryOfPath(c, PathsOf(c, v), x);
          }
        }
      } else if Acceptable(p, v) {
        var k :| k in Keys(Planned(p, v)) && k in mine;
        ClaimedIffPlanned(p, v, k);
        var i :| 0 <= i < |p| && p[i].verb == k.0 && k.1 in PathsOf(p[i], v);
        assert !ClaimsApart(cs[i], cs[|cs| - 1], v);
      } else {
        var i, j :| 0 <= i < j < |p| && !ClaimsApart(p[i], p[j], v);
        assert !ClaimsApart(cs[i], cs[j], v);
      }
    }
  }

  lemma UriClaims(c: Contract, prefix: string, default: Option<string>)
    ensures Neutral(c.versions) ==> c.path in UriPaths(c, prefix, default)
    ensures !Neutral(c.versions) ==>
      forall x :: x in c.versions ==> JoinPaths("/" + prefix + x, c.path) in UriPaths(c, prefix, default)
    ensures default.Some? && default.value in c.versions ==> c.path in UriPaths(c, prefix, default)
  {
    hide UriPaths, JoinPaths, Neutral;
    UriPathsExactly(c, prefix, default);
  }

  /**
   Under URI versioning an accepted plan never holds two contracts of one verb and path whose versions
   overlap, nor a neutral one beside one that serves the default version on the same bare path.
   */
  lemma UriSeparatesVersions(cs: seq<Contract>, prefix: string, default: Option<string>, i: nat, j: nat)
    requires Acceptable(cs, Uri(prefix, default)) && i < |cs| && j < |cs| && i != j
    requires KeyOf(cs[i]) == KeyOf(cs[j])
    ensures !VersionsOverlap(cs[i].versions, cs[j].versions)
    ensures default.Some? && Neutral(cs[i].versions) ==> !Neutral(cs[j].versions) && default.value !in cs[j].versions
  {
    var v := Uri(prefix, default);
    AcceptedIffApart(cs, v);
    var a, b := cs[i], cs[j];
    assert ClaimsApart(a, b, v) by {
      assert if i < j then ClaimsApart(a, b, v) else ClaimsApart(b, a, v);
    }
    UriClaims(a, prefix, default);
    UriClaims(b, prefix, default);
    assert a.verb == b.verb && a.path == b.path by {
      assert (a.verb, a.path) == (b.verb, b.path);
    }
    assert forall x :: x in UriPaths(a, prefix, default) ==> x !in UriPaths(b, prefix, default) by {
      assert PathsOf(a, v) == UriPaths(a, prefix, default) && PathsOf(b, v) == UriPaths(b, prefix, default);
    }
  }

  // ---------------------------------------------------------------- contracts in dispatchers

  lemma {:induction false} SharingIsExact(cs: seq<Contract>, k: RouteKey)
    ensures forall c :: c in Sharing(cs, k) <==> c in cs && KeyOf(c) == k
  {
    if cs != [] {
      SharingIsExact(cs[..|cs| - 1], k);
      assert cs == cs[..|cs| - 1] + [cs[|cs| - 1]];
    }
  }

  /** Each contract sits in exactly one dispatcher: the one of its verb and path. */
  lemma InExactlyOneDispatcher(plan: seq<Entry>, cs: seq<Contract>, c: Contract)
    requires IsDispatchPlan(plan, cs) && c in cs
    ensures exists i :: 0 <= i < |plan| && c in plan[i].contracts
    ensures forall i, j :: 0 <= i < |plan| && 0 <= j < |plan| && c in plan[i].contracts && c in plan[j].contracts ==> i == j
  {
    SharingIsExact(cs, KeyOf(c));
    assert c in Sharing(cs, KeyOf(c));
    var i :| 0 <= i < |Keys(plan)| && Keys(plan)[i] == KeyOf(c);
    assert c in plan[i].contracts;
    forall a, b | 0 <= a < |plan| && 0 <= b < |plan| && c in plan[a].contracts && c in plan[b].contracts ensures a == b {
      SharingIsExact(cs, plan[a].key);
      SharingIsExact(cs, plan[b].key);
      assert Keys(plan)[a] == Keys(plan)[b];
      DistinctIndices(Keys(plan), a, b);
    }
  }

  lemma {:induction false} DistinctIndices<K>(s: seq<K>, i: nat, j: nat)
    requires Distinct(s) && i < |s| && j < |s|
    ensures s[i] == s[j] ==> i == j
  {
    if i > 0 && j > 0 {
      DistinctIndices(s[1..], i - 1, j - 1);
    } else if i != j {
      assert s[1..][i + j - 1] in s[1..];
    }
  }

  /** With dispatchers the contracts are accepted iff no two of one verb and path overlap in version. */
  lemma {:induction false} ByRequestAcceptsIff(cs: seq<Contract>, default: Option<string>)
    ensures Acceptable(cs, ByRequest(default)) <==>
      forall i, j :: 0 <= i < j < |cs| && KeyOf(cs[i]) == KeyOf(cs[j]) ==> !VersionsOverlap(cs[i].versions, cs[j].versions)
  {
    if cs != [] {
      var p, c := cs[..|cs| - 1], cs[|cs| - 1];
      assert cs == p + [c];
      hide Acceptable, VersionsOverlap;
      ByRequestAcceptsIff(p, default);
      if Acceptable(p, ByRequest(default)) {
        HeldIff(p, c, default);
      } else {
        if Acceptable(cs, ByRequest(default)) {
          AcceptableFront(cs, ByRequest(default), |p|);
        }
        var i, j :| 0 <= i < j < |p| && KeyOf(p[i]) == KeyOf(p[j]) && VersionsOverlap(p[i].versions, p[j].versions);
        assert cs[i] == p[i] && cs[j] == p[j];
      }
    } else {
      assert forall k :: Sharing(cs, k) == [];
    }
  }

  /** One contract more is accepted iff none of its verb and path overlaps it in version. */
  lemma HeldIff(p: seq<Contract>, c: Contract, default: Option<string>)
    requires Acceptable(p, ByRequest(default))
    ensures Acceptable(p + [c], ByRequest(default)) <==>
      forall i :: 0 <= i < |p| && KeyOf(p[i]) == KeyOf(c) ==> !VersionsOverlap(p[i].versions, c.versions)
  {
    hide Sharing, VersionsOverlap;
    var held := Sharing(p, KeyOf(c));
    SharingAppended(p, c);
    SharingIsExact(p, KeyOf(c));
    if Acceptable(p + [c], ByRequest(default)) {
      assert PairwiseApart(held + [c]);
      forall i | 0 <= i < |p| && KeyOf(p[i]) == KeyOf(c) ensures !VersionsOverlap(p[i].versions, c.versions) {
        assert p[i] in held;
        var m :| 0 <= m < |held| && held[m] == p[i];
        assert (held + [c])[m] == p[i] && (held + [c])[|held|] == c;
      }
    }
    if forall i :: 0 <= i < |p| && KeyOf(p[i]) == KeyOf(c) ==> !VersionsOverlap(p[i].versions, c.versions) {
      forall j | 0 <= j < |held| ensures !VersionsOverlap(held[j].versions, c.versions) {
        assert held[j] in held;
      }
      HeldStaysApart(p, c, ByRequest(default));
    }
  }

  /** In an accepted dispatcher, at most one member is neutral and no version is declared twice. */
  lemma DispatcherMembersApart(cs: seq<Contract>, v: Versioning, k: RouteKey, i: nat, j: nat)
    requires v.ByRequest? && Acceptable(cs, v)
    requires i < j < |Sharing(cs, k)|
    ensures var a, b := Sharing(cs, k)[i].versions, Sharing(cs, k)[j].versions;
      && !(Neutral(a) && Neutral(b))
      && (!Neutral(a) && !Neutral(b) ==> forall x :: x in a ==> x !in b)
  {
    assert PairwiseApart(Sharing(cs, k));
    assert !VersionsOverlap(Sharing(cs, k)[i].versions, Sharing(cs, k)[j].versions);
  }

  /** Every contract is registered at the hosts it declares. */
  ghost predicate KeepsHosts(plan: seq<Entry>) {
    forall i, c :: 0 <= i < |plan| && c in plan[i].contracts ==> plan[i].hosts == c.hosts
  }

  /** Without a dispatcher every contract keeps its hosts. */
  lemma {:induction false} PlannedKeepsHosts(cs: seq<Contract>, v: Versioning)
    ensures KeepsHosts(Planned(cs, v))
  {
    if cs != [] {
      PlannedKeepsHosts(cs[..|cs| - 1], v);
    }
  }

  /** In dispatchers every contract keeps its hosts iff contracts of one verb and path declare the same ones. */
  lemma HostsKeptIff(plan: seq<Entry>, cs: seq<Contract>)
    requires IsDispatchPlan(plan, cs)
    ensures KeepsHosts(plan) <==> forall a, b :: a in cs && b in cs && KeyOf(a) == KeyOf(b) ==> a.hosts == b.hosts
  {
    forall i | 0 <= i < |plan| ensures forall c :: c in plan[i].contracts <==> c in cs && KeyOf(c) == plan[i].key {
      SharingIsExact(cs, plan[i].key);
    }
    forall a | a in cs ensures exists i :: 0 <= i < |plan| && plan[i].key == KeyOf(a) {
      InExactlyOneDispatcher(plan, cs, a);
    }
    if KeepsHosts(plan) {
      forall a, b | a in cs && b in cs && KeyOf(a) == KeyOf(b) ensures a.hosts == b.hosts {
        var i :| 0 <= i < |plan| && plan[i].key == KeyOf(a);
        assert a in plan[i].contracts && b in plan[i].contracts;
      }
    }
  }

  /** A second version declared for other hosts is accepted, and registered at the hosts of the first. */
  lemma SecondLosesItsHosts(a: Contract, b: Contract, default: Option<string>, plan: seq<Entry>)
    requires KeyOf(a) == KeyOf(b) && a.hosts != b.hosts && !VersionsOverlap(a.versions, b.versions)
    ensures ConflictFree([a, b]) && Acceptable([a, b], ByRequest(default))
    ensures IsDispatchPlan(plan, [a, b]) <==> plan == [Entry(KeyOf(a), a.hosts, [a, b])]
  {
    ByRequestAcceptsIff([a, b], default);
    PairOnly(a, b);
    hide Acceptable, ConflictFree, IsDispatchPlan, VersionsOverlap;
    if IsDispatchPlan(plan, [a, b]) {
      OneDispatcher(a, b, plan);
    }
    DispatcherOfTwo(a, b);
  }

  lemma OneDispatcher(a: Contract, b: Contract, plan: seq<Entry>)
    requires KeyOf(a) == KeyOf(b) && IsDispatchPlan(plan, [a, b])
    ensures plan == [Entry(KeyOf(a), a.hosts, [a, b])]
  {
    hide Distinct, Sharing, KeyOf;
    SharingOfTwo(a, b, KeyOf(a));
    assert KeyOf(a) in Keys(plan);
    forall i | 0 <= i < |plan| ensures plan[i] == Entry(KeyOf(a), a.hosts, [a, b]) {
      SharingOfTwo(a, b, plan[i].key);
    }
    DistinctIndices(Keys(plan), 0, |plan| - 1);
  }

  lemma DispatcherOfTwo(a: Contract, b: Contract)
    requires KeyOf(a) == KeyOf(b)
    ensures IsDispatchPlan([Entry(KeyOf(a), a.hosts, [a, b])], [a, b])
  {
    hide Sharing;
    var plan := [Entry(KeyOf(a), a.hosts, [a, b])];
    assert Keys(plan) == [KeyOf(a)] && Distinct([KeyOf(a)]);
    forall k ensures Sharing([a, b], k) == if k == KeyOf(a) then [a, b] else [] {
      SharingOfTwo(a, b, k);
    }
  }

  lemma SharingOfTwo(a: Contract, b: Contract, k: RouteKey)
    ensures Sharing([a, b], k) == (if KeyOf(a) == k then [a] else []) + (if KeyOf(b) == k then [b] else [])
  {
    SharingAppended([a], b);
    SharingAppended([], a);
    assert [a] + [b] == [a, b] && [] + [a] == [a];
  }

  // ---------------------------------------------------------------- dispatch

  predicate Serves(c: Contract, requested: Option<string>) {
    Neutral(c.versions) || (requested.Some? && requested.value in c.versions)
  }

  /** The first contract in order that is neutral or declares the requested version, or nothing (a 404). */
  method Dispatch(handlers: seq<Contract>, requested: Option<string>) returns (chosen: Option<Contract>)
    ensures chosen == Dispatched(handlers, requested)
  {
    var i := 0;
    while i < |handlers|
      invariant i <= |handlers|
      invariant forall j :: 0 <= j < i ==> !Serves(handlers[j], requested)
    {
      if Neutral(handlers[i].versions) || (requested.Some? && requested.value in handlers[i].versions) {
        FirstServing(handlers, requested, i);
        return Some(handlers[i]);
      }
      i := i + 1;
    }
    DispatchedIsServing(handlers, requested);
    return None;
  }

  function Dispatched(handlers: seq<Contract>, requested: Option<string>): Option<Contract> {
    if handlers == [] then None
    else if Serves(handlers[0], requested) then Some(handlers[0])
    else Dispatched(handlers[1..], requested)
  }

  lemma {:induction false} FirstServing(handlers: seq<Contract>, requested: Option<string>, i: nat)
    requires i < |handlers| && Serves(handlers[i], requested)
    requires forall j :: 0 <= j < i ==> !Serves(handlers[j], requested)
    ensures Dispatched(handlers, requested) == Some(handlers[i])
  {
    if i > 0 {
      FirstServing(handlers[1..], requested, i - 1);
    }
  }

  /** A request is answered iff some member declares its version or is neutral, and by such a member. */
  lemma {:induction false} DispatchedIsServing(handlers: seq<Contract>, requested: Option<string>)
    ensures Dispatched(handlers, requested).Some? <==> exists c :: c in handlers && Serves(c, requested)
    ensures Dispatched(handlers, requested).Some? ==>
      && Dispatched(handlers, requested).value in handlers
      && Serves(Dispatched(handlers, requested).value, requested)
  {
    if handlers != [] {
      DispatchedIsServing(handlers[1..], requested);
      assert handlers == [handlers[0]] + handlers[1..];
    }
  }

  /**
   The member a request is handed to is the first in order that declares no version, all of them, or the one
   that is asked for; and there is none iff no member does.
   */
  lemma {:induction false} DispatchedIsFirst(handlers: seq<Contract>, requested: Option<string>, i: nat)
    requires i < |handlers| ==> var own := handlers[i].versions;
      own == [] || VERSION_NEUTRAL in own || (requested.Some? && requested.value in own)
    requires i <= |handlers| && forall j :: 0 <= j < i ==> var own := handlers[j].versions;
      own != [] && VERSION_NEUTRAL !in own && (requested.Some? ==> requested.value !in own)
    ensures Dispatched(handlers, requested) == if i < |handlers| then Some(handlers[i]) else None
  {
    if i > 0 {
      DispatchedIsFirst(handlers[1..], requested, i - 1);
    }
  }

  lemma SharedVersionOverlaps(left: seq<string>, right: seq<string>, v: string)
    requires !Neutral(left) && !Neutral(right) && v in left && v in right
    ensures VersionsOverlap(left, right) && VersionsOverlap(right, left)
  {
  }

  /**
   Declaration order does not matter to a dispatcher without a neutral member: of any two accepted
   orders of the same members, each request gets the same answer.
   */
  lemma OrderIsImmaterial(a: seq<Contract>, b: seq<Contract>, requested: Option<string>)
    requires PairwiseApart(a) && (forall c :: c in a <==> c in b)
    requires forall c :: c in a ==> !Neutral(c.versions)
    ensures Dispatched(a, requested) == Dispatched(b, requested)
  {
    DispatchedIsServing(a, requested);
    DispatchedIsServing(b, requested);
    if Dispatched(a, requested).Some? {
      var x, y := Dispatched(a, requested).value, Dispatched(b, requested).value;
      var i :| 0 <= i < |a| && a[i] == x;
      var j :| 0 <= j < |a| && a[j] == y;
      SharedVersionOverlaps(x.versions, y.versions, requested.value);
      assert !(i < j) && !(j < i);
    }
  }

  /** A neutral member answers every request that reaches it: nothing declared after it is ever chosen. */
  lemma {:induction false} NothingAfterNeutral(before: seq<Contract>, neutral: Contract, after: seq<Contract>, requested: Option<string>)
    requires Neutral(neutral.versions)
    ensures Dispatched(before + [neutral] + after, requested) == Dispatched(before + [neutral], requested)
  {
    if before == [] {
      assert (before + [neutral] + after)[0] == neutral;
    } else {
      NothingAfterNeutral(before[1..], neutral, after, requested);
      assert (before + [neutral] + after)[1..] == before[1..] + [neutral] + after;
      assert (before + [neutral])[1..] == before[1..] + [neutral];
    }
  }

  lemma {:induction false} FrontFirst(front: seq<Contract>, back: seq<Contract>, requested: Option<string>)
    ensures Dispatched(front + back, requested) ==
      (if Dispatched(front, requested).Some? then Dispatched(front, requested) else Dispatched(back, requested))
  {
    if front == [] {
      assert front + back == back;
    } else {
      FrontFirst(front[1..], back, requested);
      assert (front + back)[1..] == front[1..] + back;
    }
  }

  /**
   When the place of a neutral member matters. Moved behind everything declared after it, it changes who
   serves a request iff no member before it serves that request and one after it does; and in an accepted
   dispatcher, wherever it stands, iff one after it does.
   */
  lemma NeutralLastServesSpecificFirst(before: seq<Contract>, neutral: Contract, after: seq<Contract>, requested: Option<string>)
    requires Neutral(neutral.versions) && forall c :: c in after ==> !Neutral(c.versions)
    ensures Dispatched(before + [neutral] + after, requested) ==
      (if Dispatched(before, requested).Some? then Dispatched(before, requested) else Some(neutral))
    ensures Dispatched(before + after + [neutral], requested) ==
      (if Dispatched(before + after, requested).Some? then Dispatched(before + after, requested) else Some(neutral))
    ensures Dispatched(before + [neutral] + after, requested) == Dispatched(before + after + [neutral], requested)
      <==> (exists c :: c in before && Serves(c, requested)) || forall c :: c in after ==> !Serves(c, requested)
  {
    NothingAfterNeutral(before, neutral, after, requested);
    FrontFirst(before, [neutral], requested);
    FrontFirst(before + after, [neutral], requested);
    FrontFirst(before, after, requested);
    DispatchedIsServing(before, requested);
    DispatchedIsServing(after, requested);
  }

  lemma NeutralPositionMattersIff(before: seq<Contract>, neutral: Contract, after: seq<Contract>, requested: Option<string>)
    requires Neutral(neutral.versions) && PairwiseApart(before + [neutral] + after)
    ensures Dispatched(before + [neutral] + after, requested) == Dispatched(before + after + [neutral], requested)
      <==> forall c :: c in after ==> !Serves(c, requested)
  {
    var all := before + [neutral] + after;
    forall c | c in after ensures !Neutral(c.versions) {
      var j :| 0 <= j < |after| && after[j] == c;
      assert all[|before|] == neutral && all[|before| + 1 + j] == c;
      assert !VersionsOverlap(all[|before|].versions, all[|before| + 1 + j].versions);
    }
    forall b, c | b in before && c in after ensures !(Serves(b, requested) && Serves(c, requested)) {
      var i :| 0 <= i < |before| && before[i] == b;
      var j :| 0 <= j < |after| && after[j] == c;
      assert all[i] == b && all[|before|] == neutral && all[|before| + 1 + j] == c;
      assert !VersionsOverlap(all[i].versions, all[|before|].versions);
      assert !VersionsOverlap(all[i].versions, all[|before| + 1 + j].versions);
    }
    NeutralLastServesSpecificFirst(before, neutral, after, requested);
  }

  // ---------------------------------------------------------------- what validation does not see

  /**
   Without versioning the plan tells contracts apart by verb and path alone. Of two that share both, a
   different host or a different version satisfies validation, and the plan refuses them all the same.
   */
  lemma ValidButRefusedIff(a: Contract, b: Contract)
    ensures ConflictFree([a, b]) && !Acceptable([a, b], Unversioned) <==>
      KeyOf(a) == KeyOf(b) && (a.hosts != b.hosts || !VersionsOverlap(a.versions, b.versions))
  {
    UnversionedAcceptsIff([a, b]);
    assert [a, b][0] == a && [a, b][1] == b;
    assert KeyOf(a) == KeyOf(b) ==> a.verb == b.verb && a.path == b.path by {
      assert KeyOf(a).0 == a.verb && KeyOf(b).0 == b.verb && KeyOf(a).1 == a.path && KeyOf(b).1 == b.path;
    }
    assert ConflictFree([a, b]) <==> !Conflict(a, b);
  }

  /** Without versioning a list is accepted iff no two contracts share verb and path. */
  lemma UnversionedAcceptsIff(cs: seq<Contract>)
    ensures Acceptable(cs, Unversioned) <==> forall i, j :: 0 <= i < j < |cs| ==> KeyOf(cs[i]) != KeyOf(cs[j])
  {
    AcceptedIffApart(cs, Unversioned);
    hide Acceptable;
    forall i, j | 0 <= i < j < |cs| ensures ClaimsApart(cs[i], cs[j], Unversioned) <==> KeyOf(cs[i]) != KeyOf(cs[j]) {
      var a, b := cs[i], cs[j];
      assert PathsOf(a, Unversioned) == [a.path] && PathsOf(b, Unversioned) == [b.path];
      assert a.path in [a.path];
      assert KeyOf(a).0 == a.verb && KeyOf(b).0 == b.verb && KeyOf(a).1 == a.path && KeyOf(b).1 == b.path;
    }
  }

  /** What validation lets through and the plan refuses: some two contracts of one verb and path, kept apart by host or version. */
  lemma UnversionedGap(cs: seq<Contract>)
    requires ConflictFree(cs)
    ensures !Acceptable(cs, Unversioned) <==> exists i, j :: 0 <= i < j < |cs| && KeyOf(cs[i]) == KeyOf(cs[j])
    ensures forall i, j :: 0 <= i < j < |cs| && KeyOf(cs[i]) == KeyOf(cs[j]) ==>
      cs[i].hosts != cs[j].hosts || !VersionsOverlap(cs[i].versions, cs[j].versions)
  {
    UnversionedAcceptsIff(cs);
    forall i, j | 0 <= i < j < |cs| && KeyOf(cs[i]) == KeyOf(cs[j])
      ensures cs[i].hosts != cs[j].hosts || !VersionsOverlap(cs[i].versions, cs[j].versions)
    {
      assert !Conflict(cs[i], cs[j]);
      assert KeyOf(cs[i]).0 == cs[i].verb && KeyOf(cs[i]).1 == cs[i].path;
    }
  }

  /**
   With versioning validation is not run. Where a request picks the version, the plan takes a pair that
   validation refuses iff the two paths differ and read the same to a router; and it refuses a pair that
   validation takes iff the two differ by host alone.
   */
  lemma ByRequestGapIff(a: Contract, b: Contract, default: Option<string>)
    ensures !ConflictFree([a, b]) && Acceptable([a, b], ByRequest(default)) <==> Conflict(a, b) && a.path != b.path
    ensures ConflictFree([a, b]) && !Acceptable([a, b], ByRequest(default)) <==>
      KeyOf(a) == KeyOf(b) && VersionsOverlap(a.versions, b.versions) && a.hosts != b.hosts
  {
    ByRequestAcceptsIff([a, b], default);
    hide Acceptable;
    PairOnly(a, b);
    SameKeyIff(a, b);
  }

  lemma PairOnly(a: Contract, b: Contract)
    ensures [a, b][0] == a && [a, b][1] == b
    ensures ConflictFree([a, b]) <==> !Conflict(a, b)
  {
    assert [a, b][0] == a && [a, b][1] == b;
  }

  lemma SameKeyIff(a: Contract, b: Contract)
    ensures KeyOf(a) == KeyOf(b) <==> a.verb == b.verb && a.path == b.path
  {
    assert KeyOf(a).0 == a.verb && KeyOf(b).0 == b.verb && KeyOf(a).1 == a.path && KeyOf(b).1 == b.path;
  }

  // ---------------------------------------------------------------- versions in paths

  /** A path from the root on, and versions that hold no slash and, behind the prefix, are something besides slashes. */
  ghost predicate WellWritten(c: Contract, prefix: string) {
    && c.path != "" && c.path[0] == '/'
    && forall v :: v in c.versions ==> '/' !in v && HasSegment(prefix + v)
  }

  /** The contract is served at its bare path. */
  predicate ClaimsBare(c: Contract, default: Option<string>) {
    Neutral(c.versions) || (default.Some? && default.value in c.versions)
  }

  /** The bare path of the one is the path of a version of the other. */
  ghost predicate BareMeets(a: Contract, b: Contract, prefix: string, default: Option<string>) {
    ClaimsBare(a, default) && !Neutral(b.versions) && exists w :: w in b.versions && a.path == JoinPaths("/" + prefix + w, b.path)
  }

  lemma SegmentHead(x: string, p: string)
    requires '/' !in x
    ensures x == "" ==> x + p == p
    ensures x != "" ==> (x + p)[0] == x[0] && x[0] != '/' && (x + p)[1..] == x[1..] + p
  {
    if x != "" {
      assert x[0] in x;
    }
  }

  lemma {:induction false} SameSegment(x: string, y: string, p: string, q: string)
    requires '/' !in x && '/' !in y && (p == "" || p[0] == '/') && (q == "" || q[0] == '/')
    requires x + p == y + q
    ensures x == y && p == q
  {
    SegmentHead(x, p);
    SegmentHead(y, q);
    if x != "" && y != "" {
      SameSegment(x[1..], y[1..], p, q);
      assert x == [x[0]] + x[1..] && y == [y[0]] + y[1..];
    }
  }

  function Below(path: string): string {
    if path == "/" then "" else path
  }

  lemma JoinedAt(segment: string, path: string)
    ensures JoinPaths("/" + segment, path) == "/" + (segment + Below(path))
  {
    assert "/" + segment + path == "/" + (segment + path) && segment + "" == segment;
  }

  /** Behind one prefix two versioned paths are one iff the versions run on into the paths alike. */
  lemma VersionPathIs(prefix: string, v: string, path: string)
    ensures JoinPaths("/" + prefix + v, path) == ("/" + prefix) + (v + Below(path))
  {
    assert "/" + prefix + v == "/" + (prefix + v);
    JoinedAt(prefix + v, path);
    assert "/" + ((prefix + v) + Below(path)) == ("/" + prefix) + (v + Below(path));
  }

  lemma VersionPathsSame(prefix: string, v: string, p: string, w: string, q: string)
    ensures JoinPaths("/" + prefix + v, p) == JoinPaths("/" + prefix + w, q) <==> v + Below(p) == w + Below(q)
  {
    hide JoinPaths, Below;
    VersionPathIs(prefix, v, p);
    VersionPathIs(prefix, w, q);
    var front, x, y := "/" + prefix, v + Below(p), w + Below(q);
    assert (front + x)[|front|..] == x && (front + y)[|front|..] == y;
  }

  /** A version of the one, followed by its path, reads as a version of the other followed by the other's path. */
  ghost predicate VersionsMeet(a: Contract, b: Contract) {
    !Neutral(a.versions) && !Neutral(b.versions) &&
    exists v, w :: v in a.versions && w in b.versions && v + Below(a.path) == w + Below(b.path)
  }

  /** Where two contracts claim one path by URI: two versions meet, both are bare, or one's bare path is in the other's. */
  ghost predicate UriMeets(a: Contract, b: Contract, prefix: string, default: Option<string>) {
    || VersionsMeet(a, b)
    || (a.path == b.path && ClaimsBare(a, default) && ClaimsBare(b, default))
    || BareMeets(a, b, prefix, default) || BareMeets(b, a, prefix, default)
  }

  /** Versions without a slash meet iff they are one version of one path. */
  lemma PlainVersionsMeetIff(a: Contract, b: Contract, prefix: string)
    requires WellWritten(a, prefix) && WellWritten(b, prefix)
    ensures VersionsMeet(a, b) <==> !Neutral(a.versions) && a.path == b.path && VersionsOverlap(a.versions, b.versions)
  {
    forall v, w | v in a.versions && w in b.versions
      ensures v + Below(a.path) == w + Below(b.path) <==> v == w && a.path == b.path
    {
      if v + Below(a.path) == w + Below(b.path) {
        SameSegment(v, w, Below(a.path), Below(b.path));
      }
    }
  }

  ghost predicate IsVersionPath(c: Contract, x: string, prefix: string) {
    !Neutral(c.versions) && exists v :: v in c.versions && x == JoinPaths("/" + prefix + v, c.path)
  }

  lemma ClaimedByUri(c: Contract, x: string, prefix: string, default: Option<string>)
    ensures x in UriPaths(c, prefix, default) <==> IsVersionPath(c, x, prefix) || (ClaimsBare(c, default) && x == c.path)
  {
    hide UriPaths, JoinPaths;
    UriPathsExactly(c, prefix, default);
  }

  lemma VersionPathsMeet(a: Contract, b: Contract, x: string, prefix: string)
    requires IsVersionPath(a, x, prefix) && IsVersionPath(b, x, prefix)
    ensures VersionsMeet(a, b)
  {
    var v :| v in a.versions && x == JoinPaths("/" + prefix + v, a.path);
    var w :| w in b.versions && x == JoinPaths("/" + prefix + w, b.path);
    VersionPathsSame(prefix, v, a.path, w, b.path);
  }

  /** Two contracts of one verb claim a path in common by URI iff they meet so, whatever their versions and the prefix hold. */
  lemma UriClaimsMeetIff(a: Contract, b: Contract, prefix: string, default: Option<string>)
    requires a.verb == b.verb
    ensures !ClaimsApart(a, b, Uri(prefix, default)) <==> UriMeets(a, b, prefix, default)
  {
    var v := Uri(prefix, default);
    assert PathsOf(a, v) == UriPaths(a, prefix, default) && PathsOf(b, v) == UriPaths(b, prefix, default);
    hide UriPaths, JoinPaths, IsVersionPath;
    forall x ensures x in PathsOf(a, v) <==> IsVersionPath(a, x, prefix) || (ClaimsBare(a, default) && x == a.path) {
      ClaimedByUri(a, x, prefix, default);
    }
    forall x ensures x in PathsOf(b, v) <==> IsVersionPath(b, x, prefix) || (ClaimsBare(b, default) && x == b.path) {
      ClaimedByUri(b, x, prefix, default);
    }
    if UriMeets(a, b, prefix, default) {
      MeetingIsClaimed(a, b, prefix, default);
    }
    if x :| x in PathsOf(a, v) && x in PathsOf(b, v) {
      BareMeetsIff(a, b, prefix, default);
      BareMeetsIff(b, a, prefix, default);
      if IsVersionPath(a, x, prefix) && IsVersionPath(b, x, prefix) {
        VersionPathsMeet(a, b, x, prefix);
      }
    }
  }

  lemma BareMeetsIff(a: Contract, b: Contract, prefix: string, default: Option<string>)
    ensures BareMeets(a, b, prefix, default) <==> ClaimsBare(a, default) && IsVersionPath(b, a.path, prefix)
  {
    hide JoinPaths;
  }

  lemma MeetingIsClaimed(a: Contract, b: Contract, prefix: string, default: Option<string>)
    requires UriMeets(a, b, prefix, default)
    ensures exists x :: x in UriPaths(a, prefix, default) && x in UriPaths(b, prefix, default)
  {
    hide UriPaths, JoinPaths;
    UriPathsExactly(a, prefix, default);
    UriPathsExactly(b, prefix, default);
    var mine, theirs := UriPaths(a, prefix, default), UriPaths(b, prefix, default);
    if a.path == b.path && ClaimsBare(a, default) && ClaimsBare(b, default) {
      assert a.path in mine && a.path in theirs;
    } else if BareMeets(a, b, prefix, default) {
      assert a.path in mine && a.path in theirs;
    } else if BareMeets(b, a, prefix, default) {
      assert b.path in mine && b.path in theirs;
    } else {
      var v, w :| v in a.versions && w in b.versions && v + Below(a.path) == w + Below(b.path);
      VersionPathsSame(prefix, v, a.path, w, b.path);
      var x := JoinPaths("/" + prefix + v, a.path);
      assert x in mine && x in theirs;
    }
  }

  /** A bare path that is a version's path of another contract is none a router takes for that contract's own. */
  lemma BareMeetsNoConflict(a: Contract, b: Contract, prefix: string, default: Option<string>)
    requires WellWritten(b, prefix) && BareMeets(a, b, prefix, default)
    ensures CanonicalPattern(a.path) != CanonicalPattern(b.path)
  {
    var w :| w in b.versions && a.path == JoinPaths("/" + prefix + w, b.path);
    assert "/" + prefix + w == "/" + (prefix + w);
    JoinedAt(prefix + w, b.path);
    SegmentMoreTells(prefix + w, Below(b.path));
  }

  /**
   Under URI versioning, whatever contracts and prefix: the plan takes a pair that validation refuses iff
   they conflict and do not meet, and refuses a pair that validation takes iff they are of one verb, meet
   and do not conflict.
   */
  lemma UriGap(a: Contract, b: Contract, prefix: string, default: Option<string>)
    ensures !ConflictFree([a, b]) && Acceptable([a, b], Uri(prefix, default)) <==> Conflict(a, b) && !UriMeets(a, b, prefix, default)
    ensures ConflictFree([a, b]) && !Acceptable([a, b], Uri(prefix, default)) <==>
      a.verb == b.verb && UriMeets(a, b, prefix, default) && !Conflict(a, b)
  {
    var v := Uri(prefix, default);
    AcceptedIffApart([a, b], v);
    hide Acceptable;
    PairOnly(a, b);
    assert a.verb != b.verb ==> ClaimsApart(a, b, v) && !Conflict(a, b);
    hide ClaimsApart, Conflict, UriMeets;
    if a.verb == b.verb {
      UriClaimsMeetIff(a, b, prefix, default);
    }
  }

  /**
   Of well-written contracts, the plan takes a pair that validation refuses iff the two paths differ and
   read the same to a router. It refuses a pair that validation takes iff they are of one verb and either
   of one path, differing by host alone or one neutral beside the default, or the bare path of one is the
   path of a version of the other.
   */
  lemma UriGapIff(a: Contract, b: Contract, prefix: string, default: Option<string>)
    requires WellWritten(a, prefix) && WellWritten(b, prefix)
    ensures !ConflictFree([a, b]) && Acceptable([a, b], Uri(prefix, default)) <==> Conflict(a, b) && a.path != b.path
    ensures ConflictFree([a, b]) && !Acceptable([a, b], Uri(prefix, default)) <==>
      && a.verb == b.verb && UriMeets(a, b, prefix, default)
      && !(a.path == b.path && a.hosts == b.hosts && VersionsOverlap(a.versions, b.versions))
  {
    UriGap(a, b, prefix, default);
    PlainVersionsMeetIff(a, b, prefix);
    OneNeutralBare(a, b, default);
    hide Acceptable, ConflictFree, VersionsOverlap, ClaimsBare, BareMeets, VersionsMeet, CanonicalPattern, WellWritten;
    if BareMeets(a, b, prefix, default) {
      BareMeetsNoConflict(a, b, prefix, default);
    }
    if BareMeets(b, a, prefix, default) {
      BareMeetsNoConflict(b, a, prefix, default);
    }
  }

  lemma OneNeutralBare(a: Contract, b: Contract, default: Option<string>)
    ensures VersionsOverlap(a.versions, b.versions) && Neutral(a.versions) ==> ClaimsBare(a, default) && ClaimsBare(b, default)
  {
  }

  /**
   A version that holds a slash can meet another: `v` followed by `s`, of the path `p`, and `v` of the
   path `s` followed by `p`. Validation takes the two, and the plan refuses them under every prefix.
   */
  lemma SlashedVersionMeets(verb: string, hosts: seq<string>, p: string, v: string, s: string, prefix: string, default: Option<string>)
    requires p != "/" && s != "" && s + p != "/" && v != VERSION_NEUTRAL && v + s != VERSION_NEUTRAL
    ensures var a, b := Contract(verb, p, [v + s], hosts, "A"), Contract(verb, s + p, [v], hosts, "B");
      ConflictFree([a, b]) && !Acceptable([a, b], Uri(prefix, default))
  {
    var a, b := Contract(verb, p, [v + s], hosts, "A"), Contract(verb, s + p, [v], hosts, "B");
    assert (v + s) + p == v + (s + p);
    assert a.versions[0] == v + s && b.versions[0] == v && |v + s| > |v|;
    assert VersionsMeet(a, b) by {
      assert v + s in a.versions && v in b.versions && (v + s) + Below(a.path) == v + Below(b.path);
    }
    assert !VersionsOverlap(a.versions, b.versions);
    UriGap(a, b, prefix, default);
  }

  /** Whatever the versioning, a taken list fails validation iff two of its paths differ and read the same to a router. */
  lemma VersionedGap(cs: seq<Contract>, v: Versioning)
    requires !v.Unversioned? && Acceptable(cs, v)
    ensures !ConflictFree(cs) <==> exists i, j :: 0 <= i < j < |cs| && Conflict(cs[i], cs[j]) && cs[i].path != cs[j].path
  {
    forall i, j | 0 <= i < j < |cs| && Conflict(cs[i], cs[j]) ensures cs[i].path != cs[j].path {
      SameKeyIff(cs[i], cs[j]);
      match v
      case Uri(prefix, default) =>
        if KeyOf(cs[i]) == KeyOf(cs[j]) {
          UriSeparatesVersions(cs, prefix, default, i, j);
        }
      case ByRequest(default) =>
        ByRequestAcceptsIff(cs, default);
    }
  }

  /** Two neutral contracts a router cannot tell apart are taken under every versioning, and refused only without any. */
  lemma NeutralLookalikesAreTaken(a: Contract, b: Contract, v: Versioning)
    requires Neutral(a.versions) && Neutral(b.versions) && Conflict(a, b) && a.path != b.path
    ensures Acceptable([a, b], v) && !ConflictFree([a, b])
  {
    PairOnly(a, b);
    SameKeyIff(a, b);
    if v.ByRequest? {
      ByRequestAcceptsIff([a, b], v.default);
    } else {
      AcceptedIffApart([a, b], v);
      assert PathsOf(a, v) == [a.path] && PathsOf(b, v) == [b.path];
      assert ClaimsApart(a, b, v);
    }
  }

  /** The same parameter under two names: one example of two such contracts. */
  lemma RenamedParameterIsTaken(v: Versioning)
    ensures var a, b := Contract("GET", "/{x}", [], [], "A"), Contract("GET", "/{y}", [], [], "B");
      Conflict(a, b) && Acceptable([a, b], v) && !ConflictFree([a, b])
  {
    var a, b := Contract("GET", "/{x}", [], [], "A"), Contract("GET", "/{y}", [], [], "B");
    OneParameter("{x}");
    OneParameter("{y}");
    assert "/" + "{x}" == "/{x}" && "/" + "{y}" == "/{y}";
    assert a.path[2] != b.path[2];
    NeutralLookalikesAreTaken(a, b, v);
  }

  predicate OneBraced(segment: string) {
    '/' !in segment && |segment| >= 2 && segment[0] == '{' && segment[1] != '*' && segment[|segment| - 1] == '}'
  }

  lemma OneParameter(segment: string)
    requires OneBraced(segment)
    ensures CanonicalPattern("/" + segment) == "/{}"
  {
    OneSegment(segment);
    RootPattern("/" + segment);
    hide CanonicalPattern, Segments, OneBraced;
    assert CanonicalSegments([segment]) == ["{}"] && Joined(["{}"]) == "{}";
  }

  lemma OneSegment(segment: string)
    requires OneBraced(segment)
    ensures Segments("/" + segment) == [segment] && CanonicalSegment(segment) == "{}"
  {
    SplitPlain(segment);
    hide Split;
    assert segment[0] in segment && segment[|segment| - 1] in segment;
    assert ("/" + segment)[1..] == segment;
    assert StripLeft(segment) == segment && StripRight(segment) == segment;
    assert StripLeft("/" + segment) == segment;
  }

  /** A contract that only differs by host passes validation, and is refused by the plan all the same. */
  lemma HostsDoNotSeparate(a: Contract, b: Contract)
    requires KeyOf(a) == KeyOf(b) && a.hosts != b.hosts
    ensures ConflictFree([a, b])
    ensures !Acceptable([a, b], Unversioned)
  {
    ValidButRefusedIff(a, b);
  }
}
