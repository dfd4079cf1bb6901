/**
 What a caller is answered: the refusal of a whole body, when it is the root-only one, and that every
 fault it names is located exactly once.
 */
module BodyRefusals {
  import opened BodyBinding
  import opened BodyFaults
  import opened BodyTypes
  import opened Options

  datatype Reply =
    | Bound(value: BodyTypes.Bound)
    | ConversionRefused
    | WrongType(wanted: Type)
    | Faulty(mismatch: Mismatch)

  /** The whole body being of the wrong type, when that is the only problem found. */
  function RootMismatch(m: Mismatch): Option<Mistype> {
    if m.missing != [] || m.unexpected != [] || |m.mistyped| != 1 then None
    else if m.mistyped[0].path == [] then Some(m.mistyped[0])
    else None
  }

  method BindBodyValue(p: Program, v: Json, t: Type) returns (r: Reply)
    ensures r.Bound? <==> Conforms(p, t, v)
    ensures r.Bound? ==> r.value == Build(p, t, v)
    ensures r.ConversionRefused? <==> Raises(p, t, v)
    ensures r.WrongType? <==> !Raises(p, t, v) && MisfitsAtRoot(p, t, v)
    ensures r.WrongType? ==> r.wanted == Locations(p, t, v, [])[0].declared
    ensures r.Faulty? ==> r.mismatch == AllFaults(p, Locations(p, t, v, [])) && r.mismatch.Found()
  {
    var o := BindBodyField(p, v, t, []);
    if o.Raised? {
      RaisingDoesNotConform(p, t, v);
      return ConversionRefused;
    }
    RootOnlyIffMisfit(p, t, v);
    if !o.mismatch.Found() {
      return Bound(o.value);
    }
    var root := RootMismatch(o.mismatch);
    if root.Some? {
      return WrongType(root.value.wanted);
    }
    return Faulty(o.mismatch);
  }

  /** The value sent is not of the declared type at all, so that nothing inside it was looked at. */
  predicate MisfitsAtRoot(p: Program, t: Type, v: Json) {
    LocalFaults(p, Locations(p, t, v, [])[0]).mistyped != []
  }

  // ---------------------------------------------------------------- where locations are

  ghost predicate Below(path: Path, places: seq<Location>) {
    forall i :: 0 <= i < |places| ==> |path| < |places[i].path| && path == places[i].path[..|path|]
  }

  lemma {:induction false} FirstIsRoot(p: Program, t: Type, v: Json, path: Path)
    ensures var places := Locations(p, t, v, path);
      places != [] && places[0].path == path && places[0].value == v && Below(path, places[1..])
    decreases v, t, Width(v) + 1
  {
    if t.UnionType? && Transparent(p, t.members, v) {
      assert SoleMember(t.members).value in t.members;
      FirstIsRoot(p, SoleMember(t.members).value, v, path);
    } else {
      InsideIsBelow(p, t, v, path, Width(v));
      assert Locations(p, t, v, path)[1..] == Inside(p, t, v, path, Width(v));
    }
  }

  lemma {:induction false} InsideIsBelow(p: Program, t: Type, v: Json, path: Path, n: nat)
    requires n <= Width(v)
    ensures Below(path, Inside(p, t, v, path, n))
    decreases v, t, n
  {
    if n > 0 {
      InsideIsBelow(p, t, v, path, n - 1);
      match Child(p, t, v, n - 1)
      case None =>
      case Some((step, declared, value)) =>
        var places := Locations(p, declared, value, path + [step]);
        FirstIsRoot(p, declared, value, path + [step]);
        BelowChild(path, step, places);
    }
  }

  lemma BelowChild(path: Path, step: Step, places: seq<Location>)
    requires places != [] && places[0].path == path + [step] && Below(path + [step], places[1..])
    ensures Below(path, places)
    ensures forall i :: 0 <= i < |places| ==> |path| < |places[i].path| && places[i].path[|path|] == step
  {
    forall i | 0 <= i < |places|
      ensures |path| < |places[i].path| && path == places[i].path[..|path|] && places[i].path[|path|] == step {
      if i > 0 {
        assert places[i] == places[1..][i - 1];
        var q := places[i].path;
        assert q[..|path|] == q[..|path| + 1][..|path|] == path;
        assert q[|path|] == q[..|path| + 1][|path|];
      }
    }
  }

  // ---------------------------------------------------------------- the root-only refusal

  lemma MistypedHere(p: Program, at: Location)
    ensures forall m :: m in LocalFaults(p, at).mistyped ==> m.path == at.path
  {
  }

  lemma {:induction false} MistypedSomewhere(p: Program, places: seq<Location>, k: nat) returns (i: nat)
    requires k < |AllFaults(p, places).mistyped|
    ensures i < |places| && AllFaults(p, places).mistyped[k] in LocalFaults(p, places[i]).mistyped
    ensures AllFaults(p, places).mistyped[k].path == places[i].path
  {
    MistypedHere(p, places[0]);
    hide LocalFaults;
    var here := LocalFaults(p, places[0]).mistyped;
    assert AllFaults(p, places).mistyped == here + AllFaults(p, places[1..]).mistyped;
    if k < |here| {
      i := 0;
      assert AllFaults(p, places).mistyped[k] == here[k];
    } else {
      var j := MistypedSomewhere(p, places[1..], k - |here|);
      i := j + 1;
    }
  }

  lemma MisfitHidesInside(p: Program, at: Location)
    requires LocalFaults(p, at).mistyped != []
    ensures LocalFaults(p, at) == Mistyped(at.path, at.declared)
    ensures forall i :: 0 <= i < Width(at.value) ==> Child(p, at.declared, at.value, i) == None
  {
  }

  lemma {:induction false} MisfitIsAlone(p: Program, t: Type, v: Json, path: Path)
    requires LocalFaults(p, Locations(p, t, v, path)[0]).mistyped != []
    ensures |Locations(p, t, v, path)| == 1
    decreases t
  {
    if t.UnionType? && Transparent(p, t.members, v) {
      assert SoleMember(t.members).value in t.members;
      MisfitIsAlone(p, SoleMember(t.members).value, v, path);
    } else {
      MisfitHidesInside(p, Location(path, v, t));
      InsideNothing(p, t, v, path, Width(v));
    }
  }

  /** The root-only refusal is given iff the one fault of the body is its own type. */
  lemma RootOnlyIffMisfit(p: Program, t: Type, v: Json)
    ensures RootMismatch(Faults(p, t, v, [])).Some? <==> MisfitsAtRoot(p, t, v)
    ensures MisfitsAtRoot(p, t, v) ==> RootMismatch(Faults(p, t, v, [])).value.wanted == Locations(p, t, v, [])[0].declared
  {
    var places := Locations(p, t, v, []);
    FirstIsRoot(p, t, v, []);
    if MisfitsAtRoot(p, t, v) {
      MisfitIsAlone(p, t, v, []);
      MisfitHidesInside(p, places[0]);
      assert places[1..] == [] && AllFaults(p, places[1..]) == NO_MISMATCH;
      MergeAssociative(LocalFaults(p, places[0]), NO_MISMATCH, NO_MISMATCH);
      assert Faults(p, t, v, []) == Mistyped([], places[0].declared);
    } else if RootMismatch(Faults(p, t, v, [])).Some? {
      var i := MistypedSomewhere(p, places, 0);
    }
  }

  // ---------------------------------------------------------------- each place once

  /** A decoded object names each key once, at every depth. */
  predicate Decoded(v: Json) {
    match v
    case Arr(items) => forall i :: 0 <= i < |items| ==> Decoded(items[i])
    case Obj(entries) =>
      && (forall i, j :: 0 <= i < j < |entries| ==> entries[i].key != entries[j].key)
      && (forall i :: 0 <= i < |entries| ==> Decoded(entries[i].value))
    case _ => true
  }

  /** The value a path leads to. */
  function ValueAt(v: Json, path: Path): Option<Json>
    decreases |path|
  {
    if path == [] then Some(v)
    else
      match path[0]
      case Item(i) => if v.Arr? && i < |v.items| then ValueAt(v.items[i], path[1..]) else None
      case Key(k) => if v.Obj? && Names(v.entries, k) then ValueAt(Lookup(v.entries, k), path[1..]) else None
      case Field(k) => if v.Obj? && Names(v.entries, k) then ValueAt(Lookup(v.entries, k), path[1..]) else None
  }

  function Lookup(entries: seq<Entry>, key: string): Json
    requires Names(entries, key)
  {
    if entries[0].key == key then entries[0].value
    else
      assert Names(entries[1..], key) by {
        var i :| 0 <= i < |entries| && entries[i].key == key;
        assert entries[1..][i - 1].key == key;
      }
      Lookup(entries[1..], key)
  }

  lemma {:induction false} LookupFinds(entries: seq<Entry>, i: nat)
    requires i < |entries| && forall j, k :: 0 <= j < k < |entries| ==> entries[j].key != entries[k].key
    ensures Names(entries, entries[i].key) && Lookup(entries, entries[i].key) == entries[i].value
  {
    if i > 0 {
      assert entries[0].key != entries[i].key;
      LookupFinds(entries[1..], i - 1);
    }
  }

  ghost predicate Apart(places: seq<Location>) {
    forall i, j :: 0 <= i < j < |places| ==> places[i].path != places[j].path
  }

  /** Every place stands under the path that leads to it from the root, and no two share one. */
  ghost predicate Located(v: Json, path: Path, places: seq<Location>) {
    forall i :: 0 <= i < |places| ==>
      |path| <= |places[i].path| && ValueAt(v, places[i].path[|path|..]) == Some(places[i].value)
  }

  lemma {:induction false} PlacesAreLocated(p: Program, t: Type, v: Json, path: Path)
    requires Decoded(v)
    ensures Located(v, path, Locations(p, t, v, path)) && Apart(Locations(p, t, v, path))
    decreases v, t, Width(v) + 1
  {
    FirstIsRoot(p, t, v, path);
    if t.UnionType? && Transparent(p, t.members, v) {
      assert SoleMember(t.members).value in t.members;
      PlacesAreLocated(p, SoleMember(t.members).value, v, path);
    } else {
      InsideIsLocated(p, t, v, path, Width(v));
      InsideIsBelow(p, t, v, path, Width(v));
    }
  }

  lemma {:induction false} StepOf(p: Program, t: Type, v: Json, path: Path, n: nat, i: nat) returns (k: nat)
    requires n <= Width(v) && i < |Inside(p, t, v, path, n)|
    ensures k < n && Child(p, t, v, k).Some?
    ensures |path| < |Inside(p, t, v, path, n)[i].path| && Inside(p, t, v, path, n)[i].path[|path|] == Child(p, t, v, k).value.0
    decreases n
  {
    var before := Inside(p, t, v, path, n - 1);
    if i < |before| {
      k := StepOf(p, t, v, path, n - 1, i);
    } else {
      k := n - 1;
      var (step, declared, value) := Child(p, t, v, k).value;
      FirstIsRoot(p, declared, value, path + [step]);
      BelowChild(path, step, Locations(p, declared, value, path + [step]));
    }
  }

  lemma ChildStepsDiffer(p: Program, t: Type, v: Json, i: nat, j: nat)
    requires Decoded(v) && i < j < Width(v) && Child(p, t, v, i).Some? && Child(p, t, v, j).Some?
    ensures Child(p, t, v, i).value.0 != Child(p, t, v, j).value.0
  {
  }

  lemma ChildIsThere(p: Program, t: Type, v: Json, i: nat, rest: Path)
    requires Decoded(v) && i < Width(v) && Child(p, t, v, i).Some?
    ensures Decoded(Child(p, t, v, i).value.2)
    ensures ValueAt(v, [Child(p, t, v, i).value.0] + rest) == ValueAt(Child(p, t, v, i).value.2, rest)
  {
    if v.Obj? {
      LookupFinds(v.entries, i);
    }
    assert ([Child(p, t, v, i).value.0] + rest)[1..] == rest;
  }

  /** The places inside one child are located, each once, and apart from those inside the earlier children. */
  lemma {:induction false} ChildPlaces(p: Program, t: Type, v: Json, path: Path, n: nat, step: Step, declared: Type, value: Json)
    requires Decoded(v) && n < Width(v) && Child(p, t, v, n) == Some((step, declared, value))
    ensures var before, places := Inside(p, t, v, path, n), Locations(p, declared, value, path + [step]);
      && Located(v, path, places) && Apart(places)
      && forall i, j :: 0 <= i < |before| && 0 <= j < |places| ==> before[i].path != places[j].path
    decreases v, t, n
  {
    var places := Locations(p, declared, value, path + [step]);
    hide Locations, Located, Apart, Decoded, ValueAt, Inside, Conforms, Raises, Below;
    ChildIsThere(p, t, v, n, []);
    PlacesAreLocated(p, declared, value, path + [step]);
    FirstIsRoot(p, declared, value, path + [step]);
    BelowChild(path, step, places);
    hide Child;
    ChildPlacesLocated(p, t, v, path, n, places);
    ChildPlacesSeparate(p, t, v, path, n, places);
  }

  lemma {:induction false} InsideIsLocated(p: Program, t: Type, v: Json, path: Path, n: nat)
    requires Decoded(v) && n <= Width(v)
    ensures Located(v, path, Inside(p, t, v, path, n)) && Apart(Inside(p, t, v, path, n))
    decreases v, t, n
  {
    if n > 0 {
      hide Locations, Located, Apart, Decoded, Child, Conforms, Raises;
      InsideIsLocated(p, t, v, path, n - 1);
      var before := Inside(p, t, v, path, n - 1);
      match Child(p, t, v, n - 1)
      case None =>
        assert Inside(p, t, v, path, n) == before;
      case Some((step, declared, value)) =>
        var places := Locations(p, declared, value, path + [step]);
        ChildPlaces(p, t, v, path, n - 1, step, declared, value);
        ApartConcat(before, places);
        LocatedConcat(v, path, before, places);
        assert Inside(p, t, v, path, n) == before + places;
    }
  }

  /** No place inside one child shares a path with a place inside an earlier one. */
  lemma ChildPlacesSeparate(p: Program, t: Type, v: Json, path: Path, n: nat, places: seq<Location>)
    requires Decoded(v) && n < Width(v) && Child(p, t, v, n).Some?
    requires forall j :: 0 <= j < |places| ==> |path| < |places[j].path| && places[j].path[|path|] == Child(p, t, v, n).value.0
    ensures var before := Inside(p, t, v, path, n);
      forall i, j :: 0 <= i < |before| && 0 <= j < |places| ==> before[i].path != places[j].path
  {
    hide Decoded, Child, Inside;
    var before := Inside(p, t, v, path, n);
    forall i, j | 0 <= i < |before| && 0 <= j < |places| ensures before[i].path != places[j].path {
      var k := StepOf(p, t, v, path, n, i);
      ChildStepsDiffer(p, t, v, k, n);
    }
  }

  lemma ChildPlacesLocated(p: Program, t: Type, v: Json, path: Path, n: nat, places: seq<Location>)
    requires Decoded(v) && n < Width(v) && Child(p, t, v, n).Some?
    requires Located(Child(p, t, v, n).value.2, path + [Child(p, t, v, n).value.0], places)
    requires forall i :: 0 <= i < |places| ==> |path| < |places[i].path| && places[i].path[|path|] == Child(p, t, v, n).value.0
    ensures Located(v, path, places)
  {
    var step := Child(p, t, v, n).value.0;
    forall i | 0 <= i < |places|
      ensures ValueAt(v, places[i].path[|path|..]) == Some(places[i].value) {
      var q := places[i].path;
      assert q[|path|..] == [step] + q[|path| + 1..];
      ChildIsThere(p, t, v, n, q[|path| + 1..]);
    }
  }

  lemma ApartConcat(a: seq<Location>, b: seq<Location>)
    requires Apart(a) && Apart(b)
    requires forall i, j :: 0 <= i < |a| && 0 <= j < |b| ==> a[i].path != b[j].path
    ensures Apart(a + b)
  {
  }

  lemma LocatedConcat(v: Json, path: Path, a: seq<Location>, b: seq<Location>)
    requires Located(v, path, a) && Located(v, path, b)
    ensures Located(v, path, a + b)
  {
  }

  // ---------------------------------------------------------------- reached by walking

  /** What a value is looked at as: a failed union with one real member is looked at as that member. */
  function LookedAtAs(p: Program, t: Type, v: Json): Type {
    if t.UnionType? && Transparent(p, t.members, v) then
      assert SoleMember(t.members).value in t.members;
      LookedAtAs(p, SoleMember(t.members).value, v)
    else t
  }

  /** One step into a value, and what the declared type says is there. */
  function StepInto(p: Program, t: Type, v: Json, step: Step): Option<(Type, Json)> {
    match step
    case Item(i) => if t.ListType? && v.Arr? && i < |v.items| then Some((ItemType(t), v.items[i])) else None
    case Key(k) => if t.DictType? && v.Obj? && Names(v.entries, k) then Some((ValueType(t), Lookup(v.entries, k))) else None
    case Field(k) =>
      if t.Class? && v.Obj? && Names(v.entries, k) && Hint(p.classes(t.name), k).Some?
      then Some((Hint(p.classes(t.name), k).value, Lookup(v.entries, k)))
      else None
  }

  /** Where a path leads, in the value and in the declared type at once. */
  function Walked(p: Program, t: Type, v: Json, path: Path): Option<(Type, Json)>
    decreases |path|
  {
    var at := LookedAtAs(p, t, v);
    if path == [] then Some((at, v))
    else
      match StepInto(p, at, v, path[0])
      case None => None
      case Some((declared, value)) => Walked(p, declared, value, path[1..])
  }

  lemma ChildIsStep(p: Program, t: Type, v: Json, k: nat)
    requires Decoded(v) && k < Width(v) && Child(p, t, v, k).Some?
    ensures var (step, declared, value) := Child(p, t, v, k).value; StepInto(p, t, v, step) == Some((declared, value))
  {
    if v.Obj? {
      LookupFinds(v.entries, k);
    }
  }

  lemma StepIsChild(p: Program, t: Type, v: Json, step: Step) returns (k: nat)
    requires Decoded(v) && StepInto(p, t, v, step).Some?
    ensures k < Width(v) && Child(p, t, v, k) == Some((step, StepInto(p, t, v, step).value.0, StepInto(p, t, v, step).value.1))
  {
    if step.Item? {
      k := step.index;
    } else {
      var name := if step.Key? then step.key else step.name;
      k :| 0 <= k < |v.entries| && v.entries[k].key == name;
      LookupFinds(v.entries, k);
    }
  }

  lemma {:induction false} InsideSomeChild(p: Program, t: Type, v: Json, path: Path, n: nat, at: Location) returns (k: nat)
    requires n <= Width(v) && at in Inside(p, t, v, path, n)
    ensures k < n && Child(p, t, v, k).Some?
    ensures var (step, declared, value) := Child(p, t, v, k).value; at in Locations(p, declared, value, path + [step])
    decreases n
  {
    if at in Inside(p, t, v, path, n - 1) {
      k := InsideSomeChild(p, t, v, path, n - 1, at);
    } else {
      k := n - 1;
    }
  }

  lemma {:induction false} ChildIsInside(p: Program, t: Type, v: Json, path: Path, n: nat, k: nat, at: Location)
    requires k < n <= Width(v) && Child(p, t, v, k).Some?
    requires var (step, declared, value) := Child(p, t, v, k).value; at in Locations(p, declared, value, path + [step])
    ensures at in Inside(p, t, v, path, n)
    decreases n
  {
    if k < n - 1 {
      ChildIsInside(p, t, v, path, n - 1, k, at);
    }
  }

  lemma {:induction false} StartsWith(p: Program, t: Type, v: Json, path: Path, at: Location)
    requires at in Locations(p, t, v, path)
    ensures |path| <= |at.path| && at.path == path + at.path[|path|..]
  {
    FirstIsRoot(p, t, v, path);
    var places := Locations(p, t, v, path);
    assert places == [places[0]] + places[1..];
  }

  /** A place is reached iff walking its path, through value and declared type together, arrives at it. */
  lemma {:induction false} ReachedIffWalked(p: Program, t: Type, v: Json, path: Path, q: Path, declared: Type, value: Json)
    requires Decoded(v)
    ensures Location(path + q, value, declared) in Locations(p, t, v, path) <==> Walked(p, t, v, q) == Some((declared, value))
    decreases v, t
  {
    var at := Location(path + q, value, declared);
    if t.UnionType? && Transparent(p, t.members, v) {
      assert SoleMember(t.members).value in t.members;
      ReachedIffWalked(p, SoleMember(t.members).value, v, path, q, declared, value);
    } else if q == [] {
      InsideIsBelow(p, t, v, path, Width(v));
      assert path + q == path;
    } else {
      assert |at.path| > |path|;
      if at in Locations(p, t, v, path) {
        WalkReached(p, t, v, path, q, at);
      }
      if Walked(p, t, v, q) == Some((declared, value)) {
        ReachWalked(p, t, v, path, q, at);
      }
    }
  }

  lemma {:induction false} WalkReached(p: Program, t: Type, v: Json, path: Path, q: Path, at: Location)
    requires Decoded(v) && q != [] && at.path == path + q && !(t.UnionType? && Transparent(p, t.members, v))
    requires at in Inside(p, t, v, path, Width(v))
    ensures Walked(p, t, v, q) == Some((at.declared, at.value))
    decreases v, t, 0
  {
    var k := InsideSomeChild(p, t, v, path, Width(v), at);
    var (step, d, x) := Child(p, t, v, k).value;
    ChildIsThere(p, t, v, k, []);
    StartsWith(p, d, x, path + [step], at);
    assert at.path[|path|] == step == q[0];
    assert (path + [step]) + q[1..] == path + q;
    ReachedIffWalked(p, d, x, path + [step], q[1..], at.declared, at.value);
    ChildIsStep(p, t, v, k);
  }

  lemma {:induction false} ReachWalked(p: Program, t: Type, v: Json, path: Path, q: Path, at: Location)
    requires Decoded(v) && q != [] && at.path == path + q && !(t.UnionType? && Transparent(p, t.members, v))
    requires Walked(p, t, v, q) == Some((at.declared, at.value))
    ensures at in Inside(p, t, v, path, Width(v))
    decreases v, t, 0
  {
    var k := StepIsChild(p, t, v, q[0]);
    var (step, d, x) := Child(p, t, v, k).value;
    ChildIsThere(p, t, v, k, []);
    assert (path + [step]) + q[1..] == path + q;
    ReachedIffWalked(p, d, x, path + [step], q[1..], at.declared, at.value);
    ChildIsInside(p, t, v, path, Width(v), k, at);
  }

  // ---------------------------------------------------------------- each fault once

  predicate NoRepeat(paths: seq<Path>) {
    forall i, j :: 0 <= i < j < |paths| ==> paths[i] != paths[j]
  }

  function PathsOf(entries: seq<Mistype>): (r: seq<Path>)
    ensures |r| == |entries| && forall i :: 0 <= i < |r| ==> r[i] == entries[i].path
  {
    seq(|entries|, i requires 0 <= i < |entries| => entries[i].path)
  }

  ghost predicate NamesNoPathTwice(m: Mismatch) {
    NoRepeat(m.missing) && NoRepeat(m.unexpected) && NoRepeat(PathsOf(m.mistyped))
  }

  /** A constructor's parameters have different names. */
  predicate DistinctNames(ps: seq<Parameter>) {
    forall i, j :: 0 <= i < j < |ps| ==> ps[i].name != ps[j].name
  }

  predicate Under(path: Path, q: Path) {
    |q| == |path| + 1 && q[..|path|] == path
  }

  lemma NoRepeatConcat(a: seq<Path>, b: seq<Path>)
    requires NoRepeat(a) && NoRepeat(b) && forall q :: q in a ==> q !in b
    ensures NoRepeat(a + b)
  {
    forall i, j | 0 <= i < j < |a + b| ensures (a + b)[i] != (a + b)[j] {
      if i < |a| <= j {
        assert a[i] in a && b[j - |a|] in b;
      }
    }
  }

  lemma {:induction false} MissingOnce(ps: seq<Parameter>, entries: seq<Entry>, path: Path)
    requires DistinctNames(ps)
    ensures var r := MissingFields(ps, entries, path);
      NoRepeat(r) && forall q :: q in r ==> Under(path, q) && exists i :: 0 <= i < |ps| && q == path + [Field(ps[i].name)]
  {
    if ps != [] {
      MissingOnce(ps[1..], entries, path);
      var head := path + [Field(ps[0].name)];
      var rest := MissingFields(ps[1..], entries, path);
      forall q | q in rest ensures q != head && exists i :: 0 <= i < |ps| && q == path + [Field(ps[i].name)] {
        var i :| 0 <= i < |ps[1..]| && q == path + [Field(ps[1..][i].name)];
        assert ps[i + 1].name != ps[0].name && q[|path|] == Field(ps[i + 1].name) && head[|path|] == Field(ps[0].name);
      }
      assert Under(path, head);
      NoRepeatConcat([head], rest);
      NoRepeatConcat([], rest);
      assert [] + rest == rest;
    }
  }

  lemma {:induction false} UnexpectedOnce(d: Declaration, entries: seq<Entry>, path: Path)
    requires forall i, j :: 0 <= i < j < |entries| ==> entries[i].key != entries[j].key
    ensures var r := UnexpectedFields(d, entries, path);
      NoRepeat(r) && forall q :: q in r ==> Under(path, q) && exists i :: 0 <= i < |entries| && q == path + [Field(entries[i].key)]
  {
    if entries != [] {
      UnexpectedOnce(d, entries[1..], path);
      var head := path + [Field(entries[0].key)];
      var rest := UnexpectedFields(d, entries[1..], path);
      forall q | q in rest ensures q != head && exists i :: 0 <= i < |entries| && q == path + [Field(entries[i].key)] {
        var i :| 0 <= i < |entries[1..]| && q == path + [Field(entries[1..][i].key)];
        assert entries[i + 1].key != entries[0].key && q[|path|] == Field(entries[i + 1].key) && head[|path|] == Field(entries[0].key);
      }
      assert Under(path, head);
      NoRepeatConcat([head], rest);
      NoRepeatConcat([], rest);
      assert [] + rest == rest;
    }
  }

  /** One place names no path twice, and every path it names is its own or one step below it. */
  lemma LocalOnce(p: Program, at: Location)
    requires Decoded(at.value) && forall c :: DistinctNames(p.classes(c).parameters)
    ensures var m := LocalFaults(p, at);
      && NamesNoPathTwice(m)
      && (forall q :: q in m.missing || q in m.unexpected ==> Under(at.path, q))
      && (forall q :: q in PathsOf(m.mistyped) ==> q == at.path)
  {
    if at.declared.Class? && at.value.Obj? {
      MissingOnce(p.classes(at.declared.name).parameters, at.value.entries, at.path);
      UnexpectedOnce(p.classes(at.declared.name), at.value.entries, at.path);
    }
  }

  /** Every path a list of places names is that of one of them, or one step below. */
  ghost predicate NamedBy(m: Mismatch, places: seq<Location>) {
    && (forall q :: q in m.missing || q in m.unexpected ==> exists i :: 0 <= i < |places| && Under(places[i].path, q))
    && (forall q :: q in PathsOf(m.mistyped) ==> exists i :: 0 <= i < |places| && q == places[i].path)
  }

  lemma MergedOnce(here: Mismatch, at: Location, rest: Mismatch, places: seq<Location>)
    requires NamesNoPathTwice(here) && NamesNoPathTwice(rest) && NamedBy(rest, places)
    requires forall q :: q in here.missing || q in here.unexpected ==> Under(at.path, q)
    requires forall q :: q in PathsOf(here.mistyped) ==> q == at.path
    requires forall i :: 0 <= i < |places| ==> places[i].path != at.path
    ensures NamesNoPathTwice(here.MergedWith(rest)) && NamedBy(here.MergedWith(rest), [at] + places)
  {
    hide NoRepeat;
    var m, all := here.MergedWith(rest), [at] + places;
    NoRepeatConcat(here.missing, rest.missing);
    NoRepeatConcat(here.unexpected, rest.unexpected);
    assert PathsOf(m.mistyped) == PathsOf(here.mistyped) + PathsOf(rest.mistyped);
    NoRepeatConcat(PathsOf(here.mistyped), PathsOf(rest.mistyped));
    forall q | q in m.missing || q in m.unexpected ensures exists i :: 0 <= i < |all| && Under(all[i].path, q) {
      if q in here.missing || q in here.unexpected {
        assert Under(all[0].path, q);
      } else {
        var i :| 0 <= i < |places| && Under(places[i].path, q);
        assert Under(all[i + 1].path, q);
      }
    }
    forall q | q in PathsOf(m.mistyped) ensures exists i :: 0 <= i < |all| && q == all[i].path {
      if q in PathsOf(here.mistyped) {
        assert q == all[0].path;
      } else {
        var i :| 0 <= i < |places| && q == places[i].path;
        assert q == all[i + 1].path;
      }
    }
  }

  lemma {:induction false} AllOnce(p: Program, places: seq<Location>)
    requires Apart(places) && (forall i :: 0 <= i < |places| ==> Decoded(places[i].value))
    requires forall c :: DistinctNames(p.classes(c).parameters)
    ensures NamesNoPathTwice(AllFaults(p, places)) && NamedBy(AllFaults(p, places), places)
  {
    if places != [] {
      hide LocalFaults, Decoded, NamesNoPathTwice, NamedBy, DistinctNames;
      AllOnce(p, places[1..]);
      LocalOnce(p, places[0]);
      MergedOnce(LocalFaults(p, places[0]), places[0], AllFaults(p, places[1..]), places[1..]);
      assert places == [places[0]] + places[1..];
    }
  }

  lemma {:induction false} DecodedInside(v: Json, path: Path)
    requires Decoded(v) && ValueAt(v, path).Some?
    ensures Decoded(ValueAt(v, path).value)
    decreases |path|
  {
    if path != [] {
      match path[0]
      case Item(i) => DecodedInside(v.items[i], path[1..]);
      case Key(k) => DecodedEntry(v, k, path);
      case Field(k) => DecodedEntry(v, k, path);
    }
  }

  lemma {:induction false} DecodedEntry(v: Json, k: string, path: Path)
    requires Decoded(v) && v.Obj? && Names(v.entries, k) && path != []
    requires ValueAt(v, path) == ValueAt(Lookup(v.entries, k), path[1..]) && ValueAt(v, path).Some?
    ensures Decoded(ValueAt(v, path).value)
    decreases |path|, 0
  {
    var i :| 0 <= i < |v.entries| && v.entries[i].key == k;
    LookupFinds(v.entries, i);
    DecodedInside(v.entries[i].value, path[1..]);
  }

  /**
   Fault completeness. Unless a conversion refuses the body first, the faults of one refusal are
   exactly the local faults of every place the declared type reaches, in order. A place is reached iff
   walking its path through the body and the declared type arrives there; no two places share a path;
   and no path is named twice as missing, as unexpected or as mistyped.
   */
  lemma RefusalIsComplete(p: Program, t: Type, v: Json)
    requires Decoded(v) && !Raises(p, t, v)
    ensures AllFaults(p, Locations(p, t, v, [])).Found() <==> !Conforms(p, t, v)
    ensures Located(v, [], Locations(p, t, v, [])) && Apart(Locations(p, t, v, []))
    ensures forall q, declared, value ::
      Location(q, value, declared) in Locations(p, t, v, []) <==> Walked(p, t, v, q) == Some((declared, value))
    ensures (forall c :: DistinctNames(p.classes(c).parameters)) ==> NamesNoPathTwice(AllFaults(p, Locations(p, t, v, [])))
  {
    var places := Locations(p, t, v, []);
    hide Locations, Conforms, Raises, AllFaults, NamesNoPathTwice, Walked, DistinctNames;
    FaultFreeIffConforms(p, t, v, []);
    PlacesAreLocated(p, t, v, []);
    forall q, declared, value
      ensures Location(q, value, declared) in places <==> Walked(p, t, v, q) == Some((declared, value))
    {
      ReachedIffWalked(p, t, v, [], q, declared, value);
      assert [] + q == q;
    }
    if forall c :: DistinctNames(p.classes(c).parameters) {
      forall i | 0 <= i < |places| ensures Decoded(places[i].value) {
        DecodedInside(v, places[i].path[0..]);
      }
      AllOnce(p, places);
    }
  }

  // ---------------------------------------------------------------- exactly what is named

  lemma {:induction false} MissingIff(ps: seq<Parameter>, entries: seq<Entry>, path: Path, q: Path)
    ensures q in MissingFields(ps, entries, path) <==>
      exists name :: name in RequiredOf(ps) && name !in KeysOf(entries) && q == path + [Field(name)]
  {
    if ps != [] {
      MissingIff(ps[1..], entries, path, q);
      KeysAreNamed(entries, ps[0].name);
      assert ps == [ps[0]] + ps[1..];
      assert RequiredOf(ps) == RequiredOf(ps[1..]) + if ps[0].required then {ps[0].name} else {};
      hide RequiredOf, KeysOf;
    }
  }

  lemma KeysAreNamed(entries: seq<Entry>, key: string)
    ensures key in KeysOf(entries) <==> Names(entries, key)
  {
    if Names(entries, key) {
      var i :| 0 <= i < |entries| && entries[i].key == key;
      assert entries[i] in entries;
    }
  }

  lemma NamesAreDeclared(d: Declaration, key: string)
    ensures key in NamesOf(d.parameters) <==> Declares(d, key)
  {
    if Declares(d, key) {
      var i :| 0 <= i < |d.parameters| && d.parameters[i].name == key;
      assert d.parameters[i] in d.parameters;
    }
  }

  lemma {:induction false} UnexpectedIff(d: Declaration, entries: seq<Entry>, path: Path, q: Path)
    ensures q in UnexpectedFields(d, entries, path) <==>
      exists name :: name in KeysOf(entries) && name !in NamesOf(d.parameters) && q == path + [Field(name)]
  {
    if entries != [] {
      UnexpectedIff(d, entries[1..], path, q);
      NamesAreDeclared(d, entries[0].key);
      assert entries == [entries[0]] + entries[1..];
      assert KeysOf(entries) == KeysOf(entries[1..]) + {entries[0].key};
      hide NamesOf, KeysOf;
    }
  }

  /** The value is not of the declared type, whatever is inside it. */
  predicate MisfitsOutside(p: Program, declared: Type, value: Json) {
    match declared
    case Any => false
    case NoneType => !value.Null?
    case ScalarType(_) => !Conforms(p, declared, value)
    case ListType(_) => !value.Arr?
    case DictType(_) => !value.Obj?
    case UnionType(_) => !Conforms(p, declared, value)
    case Class(_) => !value.Obj?
    case Other(_) => false
  }

  /** A class looked at as an object, its declaration readable. */
  predicate LooksAtFields(p: Program, declared: Type, value: Json) {
    declared.Class? && value.Obj? && p.classes(declared.name).readable
  }

  /** The name is required there, and not sent. */
  predicate IsMissing(p: Program, declared: Type, value: Json, name: string) {
    LooksAtFields(p, declared, value) && name in RequiredOf(p.classes(declared.name).parameters) && name !in KeysOf(value.entries)
  }

  /** The name is sent there, is not declared, and surplus is not collected. */
  predicate IsUnexpected(p: Program, declared: Type, value: Json, name: string) {
    LooksAtFields(p, declared, value) && !p.classes(declared.name).collectsSurplus
    && name in KeysOf(value.entries) && name !in NamesOf(p.classes(declared.name).parameters)
  }

  lemma LocallyNamed(p: Program, at: Location, q: Path)
    ensures q in LocalFaults(p, at).missing <==> exists name :: IsMissing(p, at.declared, at.value, name) && q == at.path + [Field(name)]
    ensures q in LocalFaults(p, at).unexpected <==> exists name :: IsUnexpected(p, at.declared, at.value, name) && q == at.path + [Field(name)]
    ensures forall wanted :: Mistype(q, wanted) in LocalFaults(p, at).mistyped <==>
      MisfitsOutside(p, at.declared, at.value) && q == at.path && wanted == at.declared
  {
    if LooksAtFields(p, at.declared, at.value) {
      var d := p.classes(at.declared.name);
      MissingIff(d.parameters, at.value.entries, at.path, q);
      UnexpectedIff(d, at.value.entries, at.path, q);
      hide KeysOf, NamesOf, RequiredOf, MissingFields, UnexpectedFields;
    }
  }

  lemma {:induction false} NamedSomewhere(p: Program, places: seq<Location>, q: Path, wanted: Type)
    ensures q in AllFaults(p, places).missing <==> exists at :: at in places && q in LocalFaults(p, at).missing
    ensures q in AllFaults(p, places).unexpected <==> exists at :: at in places && q in LocalFaults(p, at).unexpected
    ensures Mistype(q, wanted) in AllFaults(p, places).mistyped <==>
      exists at :: at in places && Mistype(q, wanted) in LocalFaults(p, at).mistyped
  {
    if places != [] {
      hide LocalFaults;
      NamedSomewhere(p, places[1..], q, wanted);
      assert places == [places[0]] + places[1..];
    }
  }

  /** Walking the path to its last name arrives at an object that lacks the name, and at a class that requires it. */
  predicate MissingAt(p: Program, t: Type, v: Json, q: Path) {
    q != [] && q[|q| - 1].Field? &&
    match Walked(p, t, v, q[..|q| - 1])
    case None => false
    case Some((declared, value)) => IsMissing(p, declared, value, q[|q| - 1].name)
  }

  predicate UnexpectedAt(p: Program, t: Type, v: Json, q: Path) {
    q != [] && q[|q| - 1].Field? &&
    match Walked(p, t, v, q[..|q| - 1])
    case None => false
    case Some((declared, value)) => IsUnexpected(p, declared, value, q[|q| - 1].name)
  }

  lemma PlaceOf(p: Program, t: Type, v: Json, at: Location)
    requires Decoded(v)
    ensures at in Locations(p, t, v, []) <==> Walked(p, t, v, at.path) == Some((at.declared, at.value))
  {
    ReachedIffWalked(p, t, v, [], at.path, at.declared, at.value);
    assert [] + at.path == at.path;
  }

  lemma MissingAtIff(p: Program, t: Type, v: Json, q: Path)
    requires Decoded(v)
    ensures q in Faults(p, t, v, []).missing <==> MissingAt(p, t, v, q)
  {
    var places := Locations(p, t, v, []);
    hide Locations, LocalFaults, AllFaults, Walked, IsMissing, Decoded;
    NamedSomewhere(p, places, q, Any);
    if at :| at in places && q in LocalFaults(p, at).missing {
      PlaceOf(p, t, v, at);
      LocallyNamed(p, at, q);
      assert q[..|q| - 1] == at.path;
    }
    if MissingAt(p, t, v, q) {
      var at := Location(q[..|q| - 1], Walked(p, t, v, q[..|q| - 1]).value.1, Walked(p, t, v, q[..|q| - 1]).value.0);
      PlaceOf(p, t, v, at);
      LocallyNamed(p, at, q);
      assert q == at.path + [Field(q[|q| - 1].name)];
    }
  }

  lemma UnexpectedAtIff(p: Program, t: Type, v: Json, q: Path)
    requires Decoded(v)
    ensures q in Faults(p, t, v, []).unexpected <==> UnexpectedAt(p, t, v, q)
  {
    var places := Locations(p, t, v, []);
    hide Locations, LocalFaults, AllFaults, Walked, IsUnexpected, Decoded;
    NamedSomewhere(p, places, q, Any);
    if at :| at in places && q in LocalFaults(p, at).unexpected {
      PlaceOf(p, t, v, at);
      LocallyNamed(p, at, q);
      assert q[..|q| - 1] == at.path;
    }
    if UnexpectedAt(p, t, v, q) {
      var at := Location(q[..|q| - 1], Walked(p, t, v, q[..|q| - 1]).value.1, Walked(p, t, v, q[..|q| - 1]).value.0);
      PlaceOf(p, t, v, at);
      LocallyNamed(p, at, q);
      assert q == at.path + [Field(q[|q| - 1].name)];
    }
  }

  predicate MistypedAt(p: Program, t: Type, v: Json, q: Path, wanted: Type) {
    match Walked(p, t, v, q)
    case None => false
    case Some((declared, value)) => wanted == declared && MisfitsOutside(p, declared, value)
  }

  lemma LocallyMistyped(p: Program, at: Location, q: Path, wanted: Type)
    ensures Mistype(q, wanted) in LocalFaults(p, at).mistyped <==>
      MisfitsOutside(p, at.declared, at.value) && q == at.path && wanted == at.declared
  {
    LocallyNamed(p, at, q);
  }

  lemma MistypedAtIff(p: Program, t: Type, v: Json, q: Path, wanted: Type)
    requires Decoded(v)
    ensures Mistype(q, wanted) in Faults(p, t, v, []).mistyped <==> MistypedAt(p, t, v, q, wanted)
  {
    NamedSomewhere(p, Locations(p, t, v, []), q, wanted);
    MistypedSomewhereIff(p, t, v, q, wanted);
  }

  lemma MistypedSomewhereIff(p: Program, t: Type, v: Json, q: Path, wanted: Type)
    requires Decoded(v)
    ensures (exists at :: at in Locations(p, t, v, []) && Mistype(q, wanted) in LocalFaults(p, at).mistyped) <==> MistypedAt(p, t, v, q, wanted)
  {
    var places := Locations(p, t, v, []);
    hide Locations, LocalFaults, Walked, MisfitsOutside, Decoded;
    if at :| at in places && Mistype(q, wanted) in LocalFaults(p, at).mistyped {
      PlaceOf(p, t, v, at);
      LocallyMistyped(p, at, q, wanted);
    }
    if Walked(p, t, v, q).Some? {
      var at := Location(q, Walked(p, t, v, q).value.1, Walked(p, t, v, q).value.0);
      PlaceOf(p, t, v, at);
      LocallyMistyped(p, at, q, wanted);
    }
  }

  /**
   Exactly what a refusal names, read off the body and the declared type: a path is missing iff the class
   looked at where it starts requires its last name and the object there does not hold it; unexpected iff the
   object holds the name and the class, collecting no surplus, does not declare it; and mistyped, the type
   wanted being the declared one, iff walking the path arrives at a value that is not of that type at all.
   */
  lemma RefusalNames(p: Program, t: Type, v: Json, q: Path, wanted: Type)
    requires Decoded(v)
    ensures q in Faults(p, t, v, []).missing <==> MissingAt(p, t, v, q)
    ensures q in Faults(p, t, v, []).unexpected <==> UnexpectedAt(p, t, v, q)
    ensures Mistype(q, wanted) in Faults(p, t, v, []).mistyped <==> MistypedAt(p, t, v, q, wanted)
  {
    MissingAtIff(p, t, v, q);
    UnexpectedAtIff(p, t, v, q);
    MistypedAtIff(p, t, v, q, wanted);
    hide Faults, Walked, MisfitsOutside, Decoded, MissingAt, UnexpectedAt;
  }
}
