/**
 Route snapshots and their difference, read as a patch from one deployment's routes to another's.
 */
module RouteSnapshots {
  import opened Options
  import opened OrderedDict

  datatype Entry = Entry(moduleName: string, controller: string, handler: string,
                         name: string, verb: string, path: string, versions: seq<string>, hosts: seq<string>)

  datatype Dimension = Module | Name | Verb | Path | Versions | Hosts

  datatype Change =
    | Added(after: Entry)
    | Removed(before: Entry)
    | Changed(before: Entry, after: Entry, fields: seq<Dimension>)

  type Base = (string, string)

  /** What an entry goes by: its controller and handler, with the module where those are not enough. */
  datatype Identity = Plain(base: Base) | Qualified(moduleName: string, base: Base)

  function BaseOf(e: Entry): Base {
    (e.controller, e.handler)
  }

  function IdentityOf(e: Entry, duplicated: set<Base>): Identity {
    if BaseOf(e) in duplicated then Qualified(e.moduleName, BaseOf(e)) else Plain(BaseOf(e))
  }

  // ---------------------------------------------------------------- the entries a diff sees

  predicate Repeats(entries: seq<Entry>, b: Base) {
    exists i, j :: 0 <= i < j < |entries| && BaseOf(entries[i]) == b && BaseOf(entries[j]) == b
  }

  /** The controller and handler pairs that more than one entry has. */
  function Duplicated(entries: seq<Entry>): (r: set<Base>)
    ensures forall b :: b in r <==> Repeats(entries, b)
  {
    set i | 0 <= i < |entries| && Repeats(entries, BaseOf(entries[i])) :: BaseOf(entries[i])
  }

  lemma RepeatsAppended(entries: seq<Entry>, e: Entry, b: Base)
    ensures Repeats(entries + [e], b) <==>
      Repeats(entries, b) || (BaseOf(e) == b && exists i :: 0 <= i < |entries| && BaseOf(entries[i]) == b)
  {
    var all := entries + [e];
    if Repeats(entries, b) {
      var i, j :| 0 <= i < j < |entries| && BaseOf(entries[i]) == b && BaseOf(entries[j]) == b;
      assert BaseOf(all[i]) == b && BaseOf(all[j]) == b;
    }
    if i :| 0 <= i < |entries| && BaseOf(entries[i]) == b && BaseOf(e) == b {
      assert BaseOf(all[i]) == b && BaseOf(all[|entries|]) == b;
    }
  }

  lemma NothingRepeats()
    ensures forall b :: !Repeats([], b)
  {
  }

  method DuplicateIdentities(entries: seq<Entry>) returns (duplicated: set<Base>)
    ensures duplicated == Duplicated(entries)
  {
    hide Repeats;
    var counts: map<Base, nat> := map[];
    var n := 0;
    NothingRepeats();
    assert entries[..0] == [];
    while n < |entries|
      invariant n <= |entries|
      invariant forall b :: b in counts <==> exists i :: 0 <= i < n && BaseOf(entries[i]) == b
      invariant forall b :: b in counts ==> counts[b] >= 1 && (counts[b] > 1 <==> Repeats(entries[..n], b))
      invariant forall b :: Repeats(entries[..n], b) ==> b in counts
    {
      var b := BaseOf(entries[n]);
      assert entries[..n] + [entries[n]] == entries[..n + 1];
      forall x ensures Repeats(entries[..n + 1], x) <==> Repeats(entries[..n], x) || (b == x && x in counts) {
        RepeatsAppended(entries[..n], entries[n], x);
        if x in counts {
          var i :| 0 <= i < n && BaseOf(entries[i]) == x;
          assert entries[..n][i] == entries[i];
        }
      }
      counts := counts[b := (if b in counts then counts[b] else 0) + 1];
      n := n + 1;
    }
    assert entries[..n] == entries;
    duplicated := set b | b in counts && counts[b] > 1;
  }

  /** The entries by identity. Of two entries with one identity the later stands. */
  function ByIdentity(entries: seq<Entry>, duplicated: set<Base>): (r: map<Identity, Entry>)
    ensures forall id :: id in r ==> r[id] in entries && IdentityOf(r[id], duplicated) == id
    ensures forall e :: e in entries ==> IdentityOf(e, duplicated) in r
  {
    if entries == [] then map[]
    else
      var front, last := entries[..|entries| - 1], entries[|entries| - 1];
      assert entries == front + [last];
      ByIdentity(front, duplicated)[IdentityOf(last, duplicated) := last]
  }

  method IndexByIdentity(entries: seq<Entry>, duplicated: set<Base>) returns (index: map<Identity, Entry>)
    ensures index == ByIdentity(entries, duplicated)
  {
    index := map[];
    var n := 0;
    while n < |entries|
      invariant n <= |entries|
      invariant index == ByIdentity(entries[..n], duplicated)
    {
      assert entries[..n + 1][..n] == entries[..n];
      index := index[IdentityOf(entries[n], duplicated) := entries[n]];
      n := n + 1;
    }
    assert entries[..n] == entries;
  }

  // ---------------------------------------------------------------- the order of identities

  predicate TextBefore(a: string, b: string) {
    b != [] && (a == [] || a[0] < b[0] || (a[0] == b[0] && TextBefore(a[1..], b[1..])))
  }

  predicate TextsBefore(a: seq<string>, b: seq<string>) {
    b != [] && (a == [] || TextBefore(a[0], b[0]) || (a[0] == b[0] && TextsBefore(a[1..], b[1..])))
  }

  function Texts(id: Identity): seq<string> {
    match id
    case Plain(base) => [base.0, base.1]
    case Qualified(moduleName, base) => [moduleName, base.0, base.1]
  }

  predicate IdentityBefore(a: Identity, b: Identity) {
    TextsBefore(Texts(a), Texts(b))
  }

  lemma {:induction false} TextOrder(a: string, b: string, c: string)
    ensures a != b ==> TextBefore(a, b) || TextBefore(b, a)
    ensures !TextBefore(a, a)
    ensures TextBefore(a, b) && TextBefore(b, c) ==> TextBefore(a, c)
  {
    if a != [] && b != [] && c != [] {
      TextOrder(a[1..], b[1..], c[1..]);
      assert a == [a[0]] + a[1..] && b == [b[0]] + b[1..];
    } else if a != [] && b != [] {
      TextOrder(a[1..], b[1..], []);
      assert a == [a[0]] + a[1..] && b == [b[0]] + b[1..];
    } else if a != [] {
      TextOrder(a[1..], [], []);
    }
  }

  lemma {:induction false} TextsOrder(a: seq<string>, b: seq<string>, c: seq<string>)
    ensures a != b ==> TextsBefore(a, b) || TextsBefore(b, a)
    ensures !TextsBefore(a, a)
    ensures TextsBefore(a, b) && TextsBefore(b, c) ==> TextsBefore(a, c)
  {
    hide TextBefore;
    if a != [] && b != [] && c != [] {
      TextsOrder(a[1..], b[1..], c[1..]);
      TextOrder(a[0], b[0], c[0]);
      TextOrder(b[0], c[0], a[0]);
      assert a == [a[0]] + a[1..] && b == [b[0]] + b[1..];
    } else if a != [] && b != [] {
      TextsOrder(a[1..], b[1..], []);
      TextOrder(a[0], b[0], a[0]);
      assert a == [a[0]] + a[1..] && b == [b[0]] + b[1..];
    } else if a != [] {
      TextsOrder(a[1..], [], []);
      TextOrder(a[0], a[0], a[0]);
    }
  }

  lemma IdentityOrder(a: Identity, b: Identity, c: Identity)
    ensures a != b ==> IdentityBefore(a, b) || IdentityBefore(b, a)
    ensures !IdentityBefore(a, a)
    ensures IdentityBefore(a, b) && IdentityBefore(b, c) ==> IdentityBefore(a, c)
  {
    hide TextsBefore;
    TextsOrder(Texts(a), Texts(b), Texts(c));
    if Texts(a) == Texts(b) {
      assert |Texts(a)| == |Texts(b)|;
      var x, y := Texts(a), Texts(b);
      assert x[0] == y[0] && x[1] == y[1] && (|x| == 3 ==> x[2] == y[2]);
    }
  }

  method LeastIdentity(ids: set<Identity>) returns (least: Identity)
    requires ids != {}
    ensures least in ids && forall x :: x in ids && x != least ==> IdentityBefore(least, x)
  {
    hide IdentityBefore;
    least :| least in ids;
    var left := ids - {least};
    while left != {}
      invariant left <= ids && least in ids && least !in left
      invariant forall x :: x in ids - left && x != least ==> IdentityBefore(least, x)
      decreases |left|
    {
      var id :| id in left;
      left := left - {id};
      IdentityOrder(id, least, id);
      if IdentityBefore(id, least) {
        forall x | x in ids - left && x != id ensures IdentityBefore(id, x) {
          if x != least {
            IdentityOrder(id, least, x);
          }
        }
        least := id;
      }
    }
  }

  // ---------------------------------------------------------------- the difference

  function FieldsChanged(before: Entry, after: Entry): (r: seq<Dimension>)
    ensures BaseOf(before) == BaseOf(after) ==> (r == [] <==> before == after)
  {
    var r := With([], Module, before.moduleName != after.moduleName);
    var r := With(r, Name, before.name != after.name);
    var r := With(r, Verb, before.verb != after.verb);
    var r := With(r, Path, before.path != after.path);
    var r := With(r, Versions, before.versions != after.versions);
    With(r, Hosts, before.hosts != after.hosts)
  }

  function With(listed: seq<Dimension>, d: Dimension, differs: bool): seq<Dimension> {
    if differs then listed + [d] else listed
  }

  type Index = map<Identity, Entry>

  function ChangeAt(previous: Index, current: Index, id: Identity): Option<Change> {
    if id in previous && id in current then
      var fields := FieldsChanged(previous[id], current[id]);
      if fields == [] then None else Some(Changed(previous[id], current[id], fields))
    else if id in current then Some(Added(current[id]))
    else if id in previous then Some(Removed(previous[id]))
    else None
  }

  /** Exactly the changes between two indexes, each once. */
  ghost predicate IsDiff(diff: seq<Change>, previous: Index, current: Index) {
    && Distinct(diff)
    && forall c :: c in diff <==> exists id :: ChangeAt(previous, current, id) == Some(c)
  }

  predicate Indexed(index: Index, duplicated: set<Base>) {
    forall id :: id in index ==> IdentityOf(index[id], duplicated) == id
  }

  function EntryIn(c: Change): Entry {
    if c.Added? then c.after else c.before
  }

  lemma ChangeKnowsItsIdentity(previous: Index, current: Index, duplicated: set<Base>, id: Identity)
    requires Indexed(previous, duplicated) && Indexed(current, duplicated)
    ensures var c := ChangeAt(previous, current, id); c.Some? ==> IdentityOf(EntryIn(c.value), duplicated) == id
  {
  }

  /** Exactly the changes between two snapshots, the module told apart where either needs it. */
  ghost predicate IsRouteDiff(diff: seq<Change>, previous: seq<Entry>, current: seq<Entry>) {
    var duplicated := Duplicated(previous) + Duplicated(current);
    IsDiff(diff, ByIdentity(previous, duplicated), ByIdentity(current, duplicated))
  }

  /** The changes in the order of their identities. */
  ghost predicate InIdentityOrder(diff: seq<Change>, duplicated: set<Base>) {
    forall i, j :: 0 <= i < j < |diff| ==>
      IdentityBefore(IdentityOf(EntryIn(diff[i]), duplicated), IdentityOf(EntryIn(diff[j]), duplicated))
  }

  lemma ListedNext(diff: seq<Change>, c: Change, duplicated: set<Base>)
    requires InIdentityOrder(diff, duplicated) && Distinct(diff)
    requires forall x :: x in diff ==> IdentityBefore(IdentityOf(EntryIn(x), duplicated), IdentityOf(EntryIn(c), duplicated))
    ensures InIdentityOrder(diff + [c], duplicated) && Distinct(diff + [c])
  {
    hide Distinct, IdentityBefore;
    forall i | 0 <= i < |diff| ensures IdentityBefore(IdentityOf(EntryIn(diff[i]), duplicated), IdentityOf(EntryIn(c), duplicated)) {
      assert diff[i] in diff;
    }
    IdentityOrder(IdentityOf(EntryIn(c), duplicated), IdentityOf(EntryIn(c), duplicated), IdentityOf(EntryIn(c), duplicated));
    DistinctAppend(diff, c);
  }

  /** The difference of two snapshots, listed by identity. */
  method DiffRouteSnapshots(previous: seq<Entry>, current: seq<Entry>) returns (diff: seq<Change>)
    ensures IsRouteDiff(diff, previous, current)
    ensures InIdentityOrder(diff, Duplicated(previous) + Duplicated(current))
  {
    hide Distinct, FieldsChanged, ByIdentity, Repeats, Duplicated, IdentityOf, IdentityBefore, InIdentityOrder;
    var before := DuplicateIdentities(previous);
    var after := DuplicateIdentities(current);
    var duplicated := before + after;
    var p := IndexByIdentity(previous, duplicated);
    var c := IndexByIdentity(current, duplicated);
    diff := [];
    NothingListed(duplicated);
    var left := p.Keys + c.Keys;
    while left != {}
      invariant left <= p.Keys + c.Keys
      invariant Distinct(diff) && InIdentityOrder(diff, duplicated)
      invariant forall x :: x in diff ==> ChangeAt(p, c, IdentityOf(EntryIn(x), duplicated)) == Some(x)
      invariant forall x, id :: x in diff && id in left ==> IdentityBefore(IdentityOf(EntryIn(x), duplicated), id)
      invariant forall id :: id !in left && ChangeAt(p, c, id).Some? ==> ChangeAt(p, c, id).value in diff
      decreases |left|
    {
      var id := LeastIdentity(left);
      left := left - {id};
      ChangeKnowsItsIdentity(p, c, duplicated, id);
      if id !in p {
        ListedNext(diff, Added(c[id]), duplicated);
        diff := diff + [Added(c[id])];
      } else if id !in c {
        ListedNext(diff, Removed(p[id]), duplicated);
        diff := diff + [Removed(p[id])];
      } else {
        var fields := FieldsChanged(p[id], c[id]);
        if fields != [] {
          ListedNext(diff, Changed(p[id], c[id], fields), duplicated);
          diff := diff + [Changed(p[id], c[id], fields)];
        }
      }
    }
    assert forall id :: id !in left;
  }

  lemma NothingListed(duplicated: set<Base>)
    ensures Distinct<Change>([]) && InIdentityOrder([], duplicated)
  {
  }

  // ---------------------------------------------------------------- the difference as a patch

  function Befores(diff: seq<Change>): (r: set<Entry>) {
    set c | c in diff && !c.Added? :: c.before
  }

  function Afters(diff: seq<Change>): (r: set<Entry>) {
    set c | c in diff && !c.Removed? :: c.after
  }

  function Apply(diff: seq<Change>, entries: set<Entry>): set<Entry> {
    entries - Befores(diff) + Afters(diff)
  }

  /** The entries of a snapshot that a diff sees. */
  function Kept(entries: seq<Entry>, duplicated: set<Base>): set<Entry> {
    ByIdentity(entries, duplicated).Values
  }

  function Entries(entries: seq<Entry>): set<Entry> {
    set e | e in entries
  }

  lemma InValues(index: Index, duplicated: set<Base>, e: Entry)
    requires Indexed(index, duplicated)
    ensures e in index.Values <==> var id := IdentityOf(e, duplicated); id in index && index[id] == e
  {
  }

  lemma InBefores(diff: seq<Change>, p: Index, c: Index, duplicated: set<Base>, e: Entry)
    requires IsDiff(diff, p, c) && Indexed(p, duplicated) && Indexed(c, duplicated)
    ensures var id := IdentityOf(e, duplicated);
      e in Befores(diff) <==> id in p && p[id] == e && ChangeAt(p, c, id).Some?
  {
    hide FieldsChanged, Distinct;
    var id := IdentityOf(e, duplicated);
    if id in p && p[id] == e && ChangeAt(p, c, id).Some? {
      var x := ChangeAt(p, c, id).value;
      assert x in diff && x.before == e;
    }
    if e in Befores(diff) {
      var x :| x in diff && !x.Added? && x.before == e;
      var at :| ChangeAt(p, c, at) == Some(x);
      assert at == id;
    }
  }

  lemma InAfters(diff: seq<Change>, p: Index, c: Index, duplicated: set<Base>, e: Entry)
    requires IsDiff(diff, p, c) && Indexed(p, duplicated) && Indexed(c, duplicated)
    ensures var id := IdentityOf(e, duplicated);
      e in Afters(diff) <==> id in c && c[id] == e && ChangeAt(p, c, id).Some?
  {
    hide FieldsChanged, Distinct;
    var id := IdentityOf(e, duplicated);
    if id in c && c[id] == e && ChangeAt(p, c, id).Some? {
      var x := ChangeAt(p, c, id).value;
      assert x in diff && x.after == e;
    }
    if e in Afters(diff) {
      var x :| x in diff && !x.Removed? && x.after == e;
      var at :| ChangeAt(p, c, at) == Some(x);
      assert at == id;
    }
  }

  lemma SameBase(p: Index, c: Index, duplicated: set<Base>, id: Identity)
    requires Indexed(p, duplicated) && Indexed(c, duplicated) && id in p && id in c
    ensures BaseOf(p[id]) == BaseOf(c[id])
  {
    assert IdentityOf(p[id], duplicated) == id == IdentityOf(c[id], duplicated);
  }

  /** Applying the difference to the entries it was taken from gives the entries it was taken to. */
  lemma DiffIsPatch(diff: seq<Change>, p: Index, c: Index, duplicated: set<Base>)
    requires IsDiff(diff, p, c) && Indexed(p, duplicated) && Indexed(c, duplicated)
    ensures Apply(diff, p.Values) == c.Values
  {
    hide Distinct, IsDiff, IdentityOf;
    forall e ensures e in Apply(diff, p.Values) <==> e in c.Values {
      InValues(p, duplicated, e);
      InValues(c, duplicated, e);
      InBefores(diff, p, c, duplicated, e);
      InAfters(diff, p, c, duplicated, e);
      var id := IdentityOf(e, duplicated);
      if id in p && id in c {
        SameBase(p, c, duplicated, id);
      }
    }
  }

  /** There is nothing to report iff the entries are the same. */
  lemma EmptyIffSame(diff: seq<Change>, p: Index, c: Index, duplicated: set<Base>)
    requires IsDiff(diff, p, c) && Indexed(p, duplicated) && Indexed(c, duplicated)
    ensures diff == [] <==> p.Values == c.Values
  {
    hide Distinct;
    if diff == [] {
      DiffIsPatch(diff, p, c, duplicated);
    } else {
      var x := diff[0];
      assert x in diff;
      var id :| ChangeAt(p, c, id) == Some(x);
      ChangeKnowsItsIdentity(p, c, duplicated, id);
      if id in p && id in c {
        SameBase(p, c, duplicated, id);
        InValues(c, duplicated, p[id]);
        assert p[id] in p.Values;
      } else if id in p {
        InValues(c, duplicated, p[id]);
        assert p[id] in p.Values;
      } else {
        InValues(p, duplicated, c[id]);
        assert c[id] in c.Values;
      }
    }
  }

  function Inverse(c: Change): (r: Change)
    ensures r.Added? <==> c.Removed?
    ensures r.Removed? <==> c.Added?
  {
    match c
    case Added(after) => Removed(after)
    case Removed(before) => Added(before)
    case Changed(before, after, fields) => Changed(after, before, fields)
  }

  lemma InverseAt(p: Index, c: Index, id: Identity)
    ensures ChangeAt(c, p, id).Some? <==> ChangeAt(p, c, id).Some?
    ensures ChangeAt(p, c, id).Some? ==> ChangeAt(c, p, id).value == Inverse(ChangeAt(p, c, id).value)
  {
    if id in p && id in c {
      FieldsEitherWay(p[id], c[id]);
    }
  }

  lemma FieldsEitherWay(before: Entry, after: Entry)
    ensures FieldsChanged(before, after) == FieldsChanged(after, before)
  {
  }

  /** Taken the other way round, the difference holds the inverse of every change and nothing else. */
  lemma SwappingInverts(diff: seq<Change>, back: seq<Change>, p: Index, c: Index)
    requires IsDiff(diff, p, c) && IsDiff(back, c, p)
    ensures forall x :: x in back <==> Inverse(x) in diff
  {
    hide Distinct, ChangeAt;
    forall x ensures x in back <==> Inverse(x) in diff {
      if x in back {
        var id :| ChangeAt(c, p, id) == Some(x);
        InverseAt(c, p, id);
      }
      if Inverse(x) in diff {
        var id :| ChangeAt(p, c, id) == Some(Inverse(x));
        InverseAt(p, c, id);
      }
    }
  }

  /** The same of snapshots: the difference from `b` to `a` inverts the difference from `a` to `b`. */
  lemma RouteDiffInverts(a: seq<Entry>, b: seq<Entry>, diff: seq<Change>, back: seq<Change>)
    ensures IsRouteDiff(diff, a, b) && IsRouteDiff(back, b, a) ==>
      |diff| == |back| && forall x :: x in back <==> Inverse(x) in diff
  {
    hide IsDiff, ByIdentity, Duplicated;
    if IsRouteDiff(diff, a, b) && IsRouteDiff(back, b, a) {
      var duplicated := Duplicated(a) + Duplicated(b);
      assert Duplicated(b) + Duplicated(a) == duplicated;
      SwappingInverts(diff, back, ByIdentity(a, duplicated), ByIdentity(b, duplicated));
      SameSize(diff, back, ByIdentity(a, duplicated), ByIdentity(b, duplicated));
    }
  }

  lemma SameSize(diff: seq<Change>, back: seq<Change>, p: Index, c: Index)
    requires IsDiff(diff, p, c) && IsDiff(back, c, p)
    ensures |diff| == |back|
  {
    SwappingInverts(diff, back, p, c);
    hide Distinct;
    var there, here := Inverses(diff), set x | x in back;
    forall x ensures x in there <==> x in back {
      if x in there {
        var y :| y in diff && Inverse(y) == x;
        assert Inverse(x) == y;
      }
      if x in back {
        assert Inverse(Inverse(x)) == x;
      }
    }
    DistinctSize(back, here);
    InversesSize(diff);
    assert there == here;
  }

  function Inverses(diff: seq<Change>): set<Change> {
    set x | x in diff :: Inverse(x)
  }

  lemma {:induction false} InversesSize(diff: seq<Change>)
    requires Distinct(diff)
    ensures |Inverses(diff)| == |diff|
  {
    if diff != [] {
      InversesSize(diff[1..]);
      assert diff == [diff[0]] + diff[1..];
      assert Inverses(diff) == Inverses(diff[1..]) + {Inverse(diff[0])};
      forall y | y in diff[1..] ensures Inverse(y) != Inverse(diff[0]) {
        assert Inverse(Inverse(y)) == y && Inverse(Inverse(diff[0])) == diff[0];
      }
    }
  }

  // ---------------------------------------------------------------- what the diff does not see

  /** No two different entries share module, controller and handler. */
  predicate Unambiguous(entries: seq<Entry>) {
    forall a, b :: a in entries && b in entries && a.moduleName == b.moduleName && BaseOf(a) == BaseOf(b) ==> a == b
  }

  lemma SharedIdentity(entries: seq<Entry>, duplicated: set<Base>, a: Entry, b: Entry)
    requires forall x :: Repeats(entries, x) ==> x in duplicated
    requires a in entries && b in entries && a != b
    ensures IdentityOf(a, duplicated) == IdentityOf(b, duplicated) <==> a.moduleName == b.moduleName && BaseOf(a) == BaseOf(b)
  {
    if BaseOf(a) == BaseOf(b) {
      var i :| 0 <= i < |entries| && entries[i] == a;
      var j :| 0 <= j < |entries| && entries[j] == b;
      var low, high := if i < j then i else j, if i < j then j else i;
      assert BaseOf(entries[low]) == BaseOf(a) && BaseOf(entries[high]) == BaseOf(a);
      assert Repeats(entries, BaseOf(a));
    }
  }

  /** A diff sees the whole of a snapshot iff no two different entries of it share module, controller and handler. */
  lemma KeptWholeIff(entries: seq<Entry>, duplicated: set<Base>)
    requires forall x :: Repeats(entries, x) ==> x in duplicated
    ensures Kept(entries, duplicated) == Entries(entries) <==> Unambiguous(entries)
  {
    hide ByIdentity, Repeats;
    var index := ByIdentity(entries, duplicated);
    assert index.Values <= Entries(entries);
    if Unambiguous(entries) {
      forall e | e in entries ensures e in index.Values {
        var id := IdentityOf(e, duplicated);
        if index[id] != e {
          SharedIdentity(entries, duplicated, e, index[id]);
        }
      }
    } else {
      var a, b :| a in entries && b in entries && a.moduleName == b.moduleName && BaseOf(a) == BaseOf(b) && a != b;
      SharedIdentity(entries, duplicated, a, b);
      assert a in Entries(entries) && b in Entries(entries);
      InValues(index, duplicated, a);
      InValues(index, duplicated, b);
    }
  }

  /** The entries of a snapshot that a diff does not see, an entry behind them having their identity. */
  function Unseen(entries: seq<Entry>, duplicated: set<Base>): set<Entry> {
    Entries(entries) - Kept(entries, duplicated)
  }

  /** The entries the difference takes away are among those it sees. */
  lemma BeforesAreKept(previous: seq<Entry>, current: seq<Entry>, diff: seq<Change>)
    ensures IsRouteDiff(diff, previous, current) ==> Befores(diff) <= Kept(previous, Duplicated(previous) + Duplicated(current))
  {
    var duplicated := Duplicated(previous) + Duplicated(current);
    var p, c := ByIdentity(previous, duplicated), ByIdentity(current, duplicated);
    hide IsDiff, ByIdentity;
    if IsRouteDiff(diff, previous, current) {
      forall e | e in Befores(diff) ensures e in p.Values {
        InBefores(diff, p, c, duplicated, e);
        InValues(p, duplicated, e);
      }
    }
  }

  /**
   When the difference is a patch, for any two snapshots: iff the entries it does not see are the same in
   both, those that the second snapshot shows put aside. It is empty iff it sees the same entries in both.
   */
  lemma RouteDiffIsPatchIff(previous: seq<Entry>, current: seq<Entry>, diff: seq<Change>)
    ensures var duplicated := Duplicated(previous) + Duplicated(current);
      IsRouteDiff(diff, previous, current) ==>
        && (Apply(diff, Entries(previous)) == Entries(current) <==>
          Unseen(previous, duplicated) - Kept(current, duplicated) == Unseen(current, duplicated))
        && (diff == [] <==> Kept(previous, duplicated) == Kept(current, duplicated))
  {
    var duplicated := Duplicated(previous) + Duplicated(current);
    var p, c := ByIdentity(previous, duplicated), ByIdentity(current, duplicated);
    hide IsDiff, ByIdentity;
    if IsRouteDiff(diff, previous, current) {
      DiffIsPatch(diff, p, c, duplicated);
      EmptyIffSame(diff, p, c, duplicated);
      BeforesAreKept(previous, current, diff);
      PatchedWhole(diff, Entries(previous), Kept(previous, duplicated), Entries(current), Kept(current, duplicated));
    }
  }

  lemma PatchedWhole(diff: seq<Change>, from: set<Entry>, seen: set<Entry>, to: set<Entry>, wanted: set<Entry>)
    requires seen <= from && wanted <= to && Befores(diff) <= seen && Apply(diff, seen) == wanted
    ensures Apply(diff, from) == to <==> from - seen - wanted == to - wanted
  {
    hide Befores, Afters;
    var unseen := from - seen;
    assert Apply(diff, from) == unseen + wanted by {
      assert from == seen + unseen;
    }
    assert unseen + wanted == (unseen - wanted) + wanted && to == (to - wanted) + wanted;
  }

  /** Between unambiguous snapshots the difference is a patch, empty iff they hold the same routes. */
  lemma RouteDiffIsPatch(previous: seq<Entry>, current: seq<Entry>, diff: seq<Change>)
    requires Unambiguous(previous) && Unambiguous(current)
    ensures IsRouteDiff(diff, previous, current) ==>
      && Apply(diff, Entries(previous)) == Entries(current)
      && (diff == [] <==> Entries(previous) == Entries(current))
  {
    hide Apply, IsDiff, Unambiguous, Repeats, ByIdentity, Duplicated;
    if IsRouteDiff(diff, previous, current) {
      var duplicated := Duplicated(previous) + Duplicated(current);
      KeptWholeIff(previous, duplicated);
      KeptWholeIff(current, duplicated);
      RouteDiffIsPatchIff(previous, current, diff);
      assert Unseen(previous, duplicated) - Kept(current, duplicated) == Unseen(current, duplicated);
    }
  }

  /**
   Any two different entries of one module, controller and handler: dropping the first of them is a
   change the difference does not report.
   */
  lemma AmbiguousEntryIsLost(a: Entry, b: Entry, diff: seq<Change>)
    requires a != b && a.moduleName == b.moduleName && BaseOf(a) == BaseOf(b)
    requires IsRouteDiff(diff, [a, b], [b])
    ensures diff == [] && Entries([a, b]) != Entries([b])
  {
    var duplicated := Duplicated([a, b]) + Duplicated([b]);
    assert [a, b][..1] == [a] && [a][..0] == [] && [b][..0] == [];
    assert ByIdentity([a, b], duplicated) == ByIdentity([b], duplicated);
    EmptyIffSame(diff, ByIdentity([a, b], duplicated), ByIdentity([b], duplicated), duplicated);
    assert a in Entries([a, b]) && a !in Entries([b]);
  }

  // ---------------------------------------------------------------- a difference, read off two snapshots

  /** Two entries go by one identity: one controller and handler, and one module where that pair is repeated. */
  predicate SameIdentity(a: Entry, b: Entry, repeated: set<Base>) {
    a.controller == b.controller && a.handler == b.handler &&
    ((a.controller, a.handler) in repeated ==> a.moduleName == b.moduleName)
  }

  /** The entry is the last of its identity. */
  ghost predicate StandsIn(entries: seq<Entry>, e: Entry, repeated: set<Base>) {
    exists i :: 0 <= i < |entries| && entries[i] == e && forall j :: i < j < |entries| ==> !SameIdentity(entries[j], e, repeated)
  }

  lemma SameIdentityIff(a: Entry, b: Entry, repeated: set<Base>)
    ensures IdentityOf(a, repeated) == IdentityOf(b, repeated) <==> SameIdentity(a, b, repeated)
  {
    assert BaseOf(a).0 == a.controller && BaseOf(a).1 == a.handler;
    assert BaseOf(b).0 == b.controller && BaseOf(b).1 == b.handler;
  }

  lemma StandsAppended(front: seq<Entry>, last: Entry, e: Entry, repeated: set<Base>)
    ensures StandsIn(front + [last], e, repeated) <==> last == e || (StandsIn(front, e, repeated) && !SameIdentity(last, e, repeated))
  {
    hide SameIdentity;
    SameIdentityIff(e, e, repeated);
    var entries := front + [last];
    assert entries[|front|] == last;
    if last != e && StandsIn(entries, e, repeated) {
      var i :| 0 <= i < |entries| && entries[i] == e && forall j :: i < j < |entries| ==> !SameIdentity(entries[j], e, repeated);
      assert front[i] == e;
      assert forall j :: i < j < |front| ==> front[j] == entries[j];
    }
    if StandsIn(front, e, repeated) && !SameIdentity(last, e, repeated) {
      var i :| 0 <= i < |front| && front[i] == e && forall j :: i < j < |front| ==> !SameIdentity(front[j], e, repeated);
      assert entries[i] == e;
    }
  }

  lemma {:induction false} StandsIffIndexed(entries: seq<Entry>, e: Entry, repeated: set<Base>)
    ensures StandsIn(entries, e, repeated) <==>
      var index, id := ByIdentity(entries, repeated), IdentityOf(e, repeated); id in index && index[id] == e
    ensures IdentityOf(e, repeated) in ByIdentity(entries, repeated) <==> exists x :: x in entries && SameIdentity(x, e, repeated)
  {
    if entries != [] {
      var front, last := entries[..|entries| - 1], entries[|entries| - 1];
      assert entries == front + [last];
      hide IdentityOf, SameIdentity, StandsIn;
      StandsIffIndexed(front, e, repeated);
      StandsAppended(front, last, e, repeated);
      SameIdentityIff(last, e, repeated);
    }
  }

  /** The controller and handler pairs that repeat in one of two snapshots. */
  ghost predicate AreRepeated(repeated: set<Base>, previous: seq<Entry>, current: seq<Entry>) {
    forall controller, handler :: (controller, handler) in repeated <==>
      HasTwo(previous, controller, handler) || HasTwo(current, controller, handler)
  }

  ghost predicate HasTwo(entries: seq<Entry>, controller: string, handler: string) {
    exists i, j :: 0 <= i < j < |entries|
      && entries[i].controller == entries[j].controller == controller && entries[i].handler == entries[j].handler == handler
  }

  lemma RepeatedAre(previous: seq<Entry>, current: seq<Entry>)
    ensures AreRepeated(Duplicated(previous) + Duplicated(current), previous, current)
  {
    forall entries: seq<Entry>, controller, handler ensures HasTwo(entries, controller, handler) <==> Repeats(entries, (controller, handler)) {
      if i, j :| 0 <= i < j < |entries| && BaseOf(entries[i]) == (controller, handler) == BaseOf(entries[j]) {
        assert entries[i].controller == controller && entries[j].controller == controller;
        assert entries[i].handler == handler && entries[j].handler == handler;
      }
      if i, j :| 0 <= i < j < |entries| && entries[i].controller == entries[j].controller == controller && entries[i].handler == entries[j].handler == handler {
        assert BaseOf(entries[i]) == (controller, handler) && BaseOf(entries[j]) == (controller, handler);
      }
    }
  }

  /** Fields listed in order, from one position to another. */
  predicate Listed(r: seq<Dimension>, from: nat, to: nat) {
    && (forall i :: 0 <= i < |r| ==> from <= Position(r[i]) < to)
    && (forall i, j :: 0 <= i < j < |r| ==> Position(r[i]) < Position(r[j]))
  }

  lemma ListedOneMore(r: seq<Dimension>, d: Dimension, differs: bool)
    requires Listed(r, 0, Position(d))
    ensures Listed(With(r, d, differs), 0, Position(d) + 1)
    ensures forall x :: x in With(r, d, differs) <==> x in r || (x == d && differs)
  {
  }

  /** Which fields of a change are listed: those that differ, in the order a snapshot lists them. */
  lemma FieldsAre(before: Entry, after: Entry)
    ensures var r := FieldsChanged(before, after);
      && (Module in r <==> before.moduleName != after.moduleName) && (Name in r <==> before.name != after.name)
      && (Verb in r <==> before.verb != after.verb) && (Path in r <==> before.path != after.path)
      && (Versions in r <==> before.versions != after.versions) && (Hosts in r <==> before.hosts != after.hosts)
      && Listed(r, 0, 6)
  {
    hide Listed, With;
    var a := With([], Module, before.moduleName != after.moduleName);
    var b := With(a, Name, before.name != after.name);
    var c := With(b, Verb, before.verb != after.verb);
    var d := With(c, Path, before.path != after.path);
    var e := With(d, Versions, before.versions != after.versions);
    EmptyListed();
    ListedOneMore([], Module, before.moduleName != after.moduleName);
    ListedOneMore(a, Name, before.name != after.name);
    ListedOneMore(b, Verb, before.verb != after.verb);
    ListedOneMore(c, Path, before.path != after.path);
    ListedOneMore(d, Versions, before.versions != after.versions);
    ListedOneMore(e, Hosts, before.hosts != after.hosts);
  }

  lemma EmptyListed()
    ensures Listed([], 0, 0)
  {
  }

  function Position(d: Dimension): nat {
    match d
    case Module => 0
    case Name => 1
    case Verb => 2
    case Path => 3
    case Versions => 4
    case Hosts => 5
  }

  /**
   Exactly what a difference reports. An entry is added iff it stands in the second snapshot and nothing of its
   identity is in the first; removed iff the other way round; and a pair is changed iff both stand, in the one
   and in the other, go by one identity and are not the same.
   */
  lemma DiffReports(diff: seq<Change>, previous: seq<Entry>, current: seq<Entry>, repeated: set<Base>, before: Entry, after: Entry)
    requires repeated == Duplicated(previous) + Duplicated(current)
    ensures IsRouteDiff(diff, previous, current) ==>
      && (Added(after) in diff <==> StandsIn(current, after, repeated) && !exists x :: x in previous && SameIdentity(x, after, repeated))
      && (Removed(before) in diff <==> StandsIn(previous, before, repeated) && !exists x :: x in current && SameIdentity(x, before, repeated))
      && (Changed(before, after, FieldsChanged(before, after)) in diff <==>
        && StandsIn(previous, before, repeated) && StandsIn(current, after, repeated)
        && SameIdentity(before, after, repeated) && before != after)
      && AreRepeated(repeated, previous, current)
  {
    RepeatedAre(previous, current);
    StandsIffIndexed(previous, before, repeated);
    StandsIffIndexed(previous, after, repeated);
    StandsIffIndexed(current, before, repeated);
    StandsIffIndexed(current, after, repeated);
    SameIdentityIff(before, after, repeated);
    if IsRouteDiff(diff, previous, current) {
      ReportedAt(diff, previous, current, repeated, before, after);
    }
  }

  lemma ReportedAt(diff: seq<Change>, previous: seq<Entry>, current: seq<Entry>, repeated: set<Base>, before: Entry, after: Entry)
    requires repeated == Duplicated(previous) + Duplicated(current)
    requires IsDiff(diff, ByIdentity(previous, repeated), ByIdentity(current, repeated))
    ensures var p, c := ByIdentity(previous, repeated), ByIdentity(current, repeated);
      && (Added(after) in diff <==> var id := IdentityOf(after, repeated); id in c && c[id] == after && id !in p)
      && (Removed(before) in diff <==> var id := IdentityOf(before, repeated); id in p && p[id] == before && id !in c)
      && (Changed(before, after, FieldsChanged(before, after)) in diff <==>
        var id := IdentityOf(before, repeated);
        id == IdentityOf(after, repeated) && id in p && p[id] == before && id in c && c[id] == after && before != after)
  {
    hide ByIdentity, Duplicated;
    var p, c := ByIdentity(previous, repeated), ByIdentity(current, repeated);
    AddedAt(diff, p, c, repeated, after);
    RemovedAt(diff, p, c, repeated, before);
    ChangedAt(diff, p, c, repeated, before, after);
    hide IsDiff, IdentityOf, FieldsChanged;
  }

  lemma AddedAt(diff: seq<Change>, p: Index, c: Index, repeated: set<Base>, after: Entry)
    requires IsDiff(diff, p, c) && Indexed(p, repeated) && Indexed(c, repeated)
    ensures Added(after) in diff <==> var id := IdentityOf(after, repeated); id in c && c[id] == after && id !in p
  {
    hide Distinct, IdentityOf, FieldsChanged;
    var id := IdentityOf(after, repeated);
    if id in c && c[id] == after && id !in p {
      assert ChangeAt(p, c, id) == Some(Added(after));
    }
  }

  lemma RemovedAt(diff: seq<Change>, p: Index, c: Index, repeated: set<Base>, before: Entry)
    requires IsDiff(diff, p, c) && Indexed(p, repeated) && Indexed(c, repeated)
    ensures Removed(before) in diff <==> var id := IdentityOf(before, repeated); id in p && p[id] == before && id !in c
  {
    hide Distinct, IdentityOf, FieldsChanged;
    var id := IdentityOf(before, repeated);
    if id in p && p[id] == before && id !in c {
      assert ChangeAt(p, c, id) == Some(Removed(before));
    }
  }

  lemma ChangedAt(diff: seq<Change>, p: Index, c: Index, repeated: set<Base>, before: Entry, after: Entry)
    requires IsDiff(diff, p, c) && Indexed(p, repeated) && Indexed(c, repeated)
    ensures Changed(before, after, FieldsChanged(before, after)) in diff <==>
      var id := IdentityOf(before, repeated);
      id == IdentityOf(after, repeated) && id in p && p[id] == before && id in c && c[id] == after && before != after
  {
    var id, fields := IdentityOf(before, repeated), FieldsChanged(before, after);
    if id == IdentityOf(after, repeated) {
      assert BaseOf(before) == BaseOf(after);
    }
    FieldsAre(before, before);
    hide Distinct, IdentityOf, FieldsChanged, BaseOf;
    if id == IdentityOf(after, repeated) && id in p && p[id] == before && id in c && c[id] == after && before != after {
      assert ChangeAt(p, c, id) == Some(Changed(before, after, fields));
    }
    if Changed(before, after, fields) in diff {
      var at :| ChangeAt(p, c, at) == Some(Changed(before, after, fields));
      assert at == id && fields != [];
      SameFieldsNone(before);
    }
  }

  lemma SameFieldsNone(e: Entry)
    ensures FieldsChanged(e, e) == []
  {
  }

  /** One text is before another iff it is the beginning of it, or has the lesser character where they first differ. */
  lemma {:induction false} TextBeforeIff(a: string, b: string)
    ensures TextBefore(a, b) <==> a < b || exists k :: FirstDiffer(a, b, k) && a[k] < b[k]
  {
    if a != [] && b != [] {
      TextBeforeIff(a[1..], b[1..]);
      assert a == [a[0]] + a[1..] && b == [b[0]] + b[1..];
      if a[0] == b[0] {
        if k :| FirstDiffer(a[1..], b[1..], k) && a[1..][k] < b[1..][k] {
          assert FirstDiffer(a, b, k + 1);
        }
        if k :| FirstDiffer(a, b, k) && a[k] < b[k] {
          assert k > 0 && FirstDiffer(a[1..], b[1..], k - 1);
        }
      } else if a[0] < b[0] {
        assert FirstDiffer(a, b, 0);
      }
    }
  }

  predicate FirstDiffer<T(==)>(a: seq<T>, b: seq<T>, k: int) {
    0 <= k < |a| && k < |b| && a[k] != b[k] && forall i :: 0 <= i < k ==> a[i] == b[i]
  }

  /** Changes are listed by controller and then by handler, and where both need the module, by it first. */
  lemma IdentityBeforeIff(a: Entry, b: Entry, repeated: set<Base>)
    ensures (a.controller, a.handler) !in repeated && (b.controller, b.handler) !in repeated ==>
      (IdentityBefore(IdentityOf(a, repeated), IdentityOf(b, repeated)) <==>
        TextBefore(a.controller, b.controller) || (a.controller == b.controller && TextBefore(a.handler, b.handler)))
    ensures (a.controller, a.handler) in repeated && (b.controller, b.handler) in repeated ==>
      (IdentityBefore(IdentityOf(a, repeated), IdentityOf(b, repeated)) <==>
        || TextBefore(a.moduleName, b.moduleName)
        || (a.moduleName == b.moduleName && TextBefore(a.controller, b.controller))
        || (a.moduleName == b.moduleName && a.controller == b.controller && TextBefore(a.handler, b.handler)))
  {
    hide TextBefore;
    TextsOfThree(a.moduleName, a.controller, a.handler, b.moduleName, b.controller, b.handler);
  }

  lemma TextsStep(a: string, rest: seq<string>, x: string, other: seq<string>)
    ensures TextsBefore([a] + rest, [x] + other) <==> TextBefore(a, x) || (a == x && TextsBefore(rest, other))
  {
    assert ([a] + rest)[1..] == rest && ([x] + other)[1..] == other;
  }

  lemma TextsOfTwo(b: string, c: string, y: string, z: string)
    ensures TextsBefore([b, c], [y, z]) <==> TextBefore(b, y) || (b == y && TextBefore(c, z))
  {
    assert !TextsBefore([], []);
    hide TextBefore, TextsBefore;
    TextsStep(c, [], z, []);
    TextsStep(b, [c], y, [z]);
    assert [b] + [c] == [b, c] && [y] + [z] == [y, z] && [c] + [] == [c] && [z] + [] == [z];
  }

  lemma TextsOfThree(a: string, b: string, c: string, x: string, y: string, z: string)
    ensures TextsBefore([a, b, c], [x, y, z]) <==>
      TextBefore(a, x) || (a == x && TextBefore(b, y)) || (a == x && b == y && TextBefore(c, z))
    ensures TextsBefore([b, c], [y, z]) <==> TextBefore(b, y) || (b == y && TextBefore(c, z))
  {
    hide TextBefore, TextsBefore;
    TextsOfTwo(b, c, y, z);
    TextsStep(a, [b, c], x, [y, z]);
    assert [a] + [b, c] == [a, b, c] && [x] + [y, z] == [x, y, z];
  }
}
