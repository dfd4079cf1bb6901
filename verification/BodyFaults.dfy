/**
 What one refusal of a body must name: the faults of every place inside it that a declared type
 reaches, each under the path that locates it.
 */
module BodyFaults {
  import opened BodyTypes
  import opened Options

  datatype Step = Field(name: string) | Item(index: nat) | Key(key: string)

  type Path = seq<Step>

  datatype Mistype = Mistype(path: Path, wanted: Type)

  datatype Mismatch = Mismatch(missing: seq<Path>, unexpected: seq<Path>, mistyped: seq<Mistype>) {
    predicate Found() {
      missing != [] || unexpected != [] || mistyped != []
    }

    function MergedWith(other: Mismatch): Mismatch {
      Mismatch(missing + other.missing, unexpected + other.unexpected, mistyped + other.mistyped)
    }
  }

  const NO_MISMATCH := Mismatch([], [], [])

  function Mistyped(path: Path, wanted: Type): Mismatch {
    Mismatch([], [], [Mistype(path, wanted)])
  }

  // ---------------------------------------------------------------- the shape of one object

  function MissingFields(ps: seq<Parameter>, entries: seq<Entry>, path: Path): seq<Path> {
    if ps == [] then []
    else
      (if ps[0].required && !Names(entries, ps[0].name) then [path + [Field(ps[0].name)]] else [])
      + MissingFields(ps[1..], entries, path)
  }

  function UnexpectedFields(d: Declaration, entries: seq<Entry>, path: Path): seq<Path> {
    if entries == [] then []
    else
      (if !Declares(d, entries[0].key) then [path + [Field(entries[0].key)]] else [])
      + UnexpectedFields(d, entries[1..], path)
  }

  function ShapeMismatch(d: Declaration, entries: seq<Entry>, path: Path): Mismatch {
    if !d.readable then NO_MISMATCH
    else
      Mismatch(
        MissingFields(d.parameters, entries, path),
        if d.collectsSurplus then [] else UnexpectedFields(d, entries, path),
        [])
  }

  lemma {:induction false} MissingIffUnnamed(ps: seq<Parameter>, entries: seq<Entry>, path: Path)
    ensures MissingFields(ps, entries, path) == [] <==>
      forall i :: 0 <= i < |ps| && ps[i].required ==> Names(entries, ps[i].name)
  {
    if ps != [] {
      MissingIffUnnamed(ps[1..], entries, path);
      assert ps == [ps[0]] + ps[1..];
    }
  }

  lemma {:induction false} UnexpectedIffUndeclared(d: Declaration, entries: seq<Entry>, path: Path)
    ensures UnexpectedFields(d, entries, path) == [] <==>
      forall i :: 0 <= i < |entries| ==> Declares(d, entries[i].key)
  {
    if entries != [] {
      UnexpectedIffUndeclared(d, entries[1..], path);
      assert entries == [entries[0]] + entries[1..];
    }
  }

  lemma ShapeFaultFree(d: Declaration, entries: seq<Entry>, path: Path)
    ensures !ShapeMismatch(d, entries, path).Found() <==> ShapeFits(d, entries)
  {
    MissingIffUnnamed(d.parameters, entries, path);
    UnexpectedIffUndeclared(d, entries, path);
  }

  // ---------------------------------------------------------------- locations

  /** A place inside a body: where it is, what the caller sent there, and what was declared for it. */
  datatype Location = Location(path: Path, value: Json, declared: Type)

  /** The only member of a union besides `None`, if there is exactly one. */
  function SoleMember(ms: seq<Type>): Option<Type> {
    var others := Others(ms);
    if |others| == 1 then Some(others[0]) else None
  }

  function Others(ms: seq<Type>): (r: seq<Type>)
    ensures forall t :: t in r <==> t in ms && t != NoneType
  {
    if ms == [] then []
    else
      assert ms == [ms[0]] + ms[1..];
      (if ms[0] == NoneType then [] else [ms[0]]) + Others(ms[1..])
  }

  /** A failed union says what its one real member found, unless that member refused in its own words. */
  predicate Transparent(p: Program, ms: seq<Type>, v: Json) {
    !v.Null? && !Conforms(p, UnionType(ms), v) && SoleMember(ms).Some? && !Raises(p, SoleMember(ms).value, v)
  }

  function Width(v: Json): nat {
    if v.Arr? then |v.items| else if v.Obj? then |v.entries| else 0
  }

  /** The children a declared type reaches inside a value, with the step that leads to each. */
  function Child(p: Program, t: Type, v: Json, i: nat): (c: Option<(Step, Type, Json)>)
    requires i < Width(v)
    ensures c.Some? ==> c.value.2 < v
  {
    match t
    case ListType(_) => if v.Arr? then Some((Item(i), ItemType(t), v.items[i])) else None
    case DictType(_) => if v.Obj? then Some((Key(v.entries[i].key), ValueType(t), v.entries[i].value)) else None
    case Class(c) =>
      if v.Obj? && Hint(p.classes(c), v.entries[i].key).Some?
      then Some((Field(v.entries[i].key), Hint(p.classes(c), v.entries[i].key).value, v.entries[i].value))
      else None
    case _ => None
  }

  /** Every place a declared type reaches, each before the places inside it. */
  function Locations(p: Program, t: Type, v: Json, path: Path): (places: seq<Location>)
    ensures places != []
    decreases v, t, Width(v) + 1
  {
    if t.UnionType? && Transparent(p, t.members, v) then
      assert SoleMember(t.members).value in t.members;
      Locations(p, SoleMember(t.members).value, v, path)
    else [Location(path, v, t)] + Inside(p, t, v, path, Width(v))
  }

  function Inside(p: Program, t: Type, v: Json, path: Path, n: nat): seq<Location>
    requires n <= Width(v)
    decreases v, t, n
  {
    if n == 0 then []
    else
      Inside(p, t, v, path, n - 1) +
      match Child(p, t, v, n - 1)
      case None => []
      case Some((step, declared, value)) => Locations(p, declared, value, path + [step])
  }

  /** What is wrong at one place, looking no deeper. */
  function LocalFaults(p: Program, at: Location): Mismatch {
    match at.declared
    case Any => NO_MISMATCH
    case Other(_) => NO_MISMATCH
    case NoneType => if at.value.Null? then NO_MISMATCH else Mistyped(at.path, at.declared)
    case ScalarType(s) => if FitsScalar(s, at.value) then NO_MISMATCH else Mistyped(at.path, at.declared)
    case ListType(_) => if at.value.Arr? then NO_MISMATCH else Mistyped(at.path, at.declared)
    case DictType(_) => if at.value.Obj? then NO_MISMATCH else Mistyped(at.path, at.declared)
    case UnionType(_) => if Conforms(p, at.declared, at.value) then NO_MISMATCH else Mistyped(at.path, at.declared)
    case Class(c) =>
      if at.value.Obj? then ShapeMismatch(p.classes(c), at.value.entries, at.path) else Mistyped(at.path, at.declared)
  }

  function AllFaults(p: Program, places: seq<Location>): Mismatch {
    if places == [] then NO_MISMATCH
    else LocalFaults(p, places[0]).MergedWith(AllFaults(p, places[1..]))
  }

  lemma MergeAssociative(a: Mismatch, b: Mismatch, c: Mismatch)
    ensures a.MergedWith(b).MergedWith(c) == a.MergedWith(b.MergedWith(c))
    ensures a.MergedWith(NO_MISMATCH) == a == NO_MISMATCH.MergedWith(a)
  {
  }

  lemma {:induction false} AllFaultsConcat(p: Program, a: seq<Location>, b: seq<Location>)
    ensures AllFaults(p, a + b) == AllFaults(p, a).MergedWith(AllFaults(p, b))
  {
    hide LocalFaults;
    if a == [] {
      assert a + b == b;
      MergeAssociative(AllFaults(p, b), NO_MISMATCH, NO_MISMATCH);
    } else {
      assert (a + b)[0] == a[0] && (a + b)[1..] == a[1..] + b;
      AllFaultsConcat(p, a[1..], b);
      MergeAssociative(LocalFaults(p, a[0]), AllFaults(p, a[1..]), AllFaults(p, b));
    }
  }

  // ---------------------------------------------------------------- no fault means a fit

  /** The faults a refusal of the whole value names. */
  function Faults(p: Program, t: Type, v: Json, path: Path): Mismatch {
    AllFaults(p, Locations(p, t, v, path))
  }

  lemma {:induction false} FaultsUnfold(p: Program, t: Type, v: Json, path: Path, n: nat)
    requires n < Width(v)
    ensures AllFaults(p, Inside(p, t, v, path, n + 1)) ==
      match Child(p, t, v, n)
      case None => AllFaults(p, Inside(p, t, v, path, n))
      case Some((step, declared, value)) =>
        AllFaults(p, Inside(p, t, v, path, n)).MergedWith(Faults(p, declared, value, path + [step]))
  {
    match Child(p, t, v, n)
    case None =>
      assert Inside(p, t, v, path, n) + [] == Inside(p, t, v, path, n);
      assert Inside(p, t, v, path, n + 1) == Inside(p, t, v, path, n);
    case Some((step, declared, value)) =>
      AllFaultsConcat(p, Inside(p, t, v, path, n), Locations(p, declared, value, path + [step]));
  }

  lemma FaultsAtRoot(p: Program, t: Type, v: Json, path: Path)
    requires !(t.UnionType? && Transparent(p, t.members, v))
    ensures Faults(p, t, v, path) ==
      LocalFaults(p, Location(path, v, t)).MergedWith(AllFaults(p, Inside(p, t, v, path, Width(v))))
  {
    var root, inside := [Location(path, v, t)], Inside(p, t, v, path, Width(v));
    AllFaultsConcat(p, root, inside);
    MergeAssociative(LocalFaults(p, root[0]), NO_MISMATCH, NO_MISMATCH);
    assert root[1..] == [];
  }

  predicate ChildConforms(p: Program, t: Type, v: Json, i: nat)
    requires i < Width(v)
  {
    match Child(p, t, v, i)
    case None => true
    case Some((_, declared, value)) => Conforms(p, declared, value)
  }

  predicate ChildRaises(p: Program, t: Type, v: Json, i: nat)
    requires i < Width(v)
  {
    match Child(p, t, v, i)
    case None => false
    case Some((_, declared, value)) => Raises(p, declared, value)
  }

  lemma RaisesByChild(p: Program, t: Type, v: Json)
    requires !t.Other?
    ensures Raises(p, t, v) <==> exists i :: 0 <= i < Width(v) && ChildRaises(p, t, v, i)
  {
    if Raises(p, t, v) {
      match t
      case ListType(_) =>
        var i :| 0 <= i < |v.items| && Raises(p, ItemType(t), v.items[i]);
        assert ChildRaises(p, t, v, i);
      case DictType(_) =>
        var i :| 0 <= i < |v.entries| && Raises(p, ValueType(t), v.entries[i].value);
        assert ChildRaises(p, t, v, i);
      case Class(c) =>
        var i :| 0 <= i < |v.entries| && Hint(p.classes(c), v.entries[i].key).Some? &&
          Raises(p, Hint(p.classes(c), v.entries[i].key).value, v.entries[i].value);
        assert ChildRaises(p, t, v, i);
    }
  }

  lemma ConformsByChildren(p: Program, t: Type, v: Json)
    requires !t.Other? && !(t.UnionType? && Transparent(p, t.members, v))
    ensures Conforms(p, t, v) <==>
      !LocalFaults(p, Location([], v, t)).Found() && forall i :: 0 <= i < Width(v) ==> ChildConforms(p, t, v, i)
  {
    if t.Class? && v.Obj? {
      ShapeFaultFree(p.classes(t.name), v.entries, []);
    }
    if Conforms(p, t, v) {
      forall i | 0 <= i < Width(v) ensures ChildConforms(p, t, v, i) {
      }
    } else if !LocalFaults(p, Location([], v, t)).Found() {
      match t
      case ListType(_) =>
        var i :| 0 <= i < |v.items| && !Conforms(p, ItemType(t), v.items[i]);
        assert !ChildConforms(p, t, v, i);
      case DictType(_) =>
        var i :| 0 <= i < |v.entries| && !Conforms(p, ValueType(t), v.entries[i].value);
        assert !ChildConforms(p, t, v, i);
      case Class(c) =>
        var i :| 0 <= i < |v.entries| && Hint(p.classes(c), v.entries[i].key).Some? &&
          !Conforms(p, Hint(p.classes(c), v.entries[i].key).value, v.entries[i].value);
        assert !ChildConforms(p, t, v, i);
    }
  }

  lemma {:induction false} RaisingDoesNotConform(p: Program, t: Type, v: Json)
    requires Raises(p, t, v)
    ensures !Conforms(p, t, v)
    decreases v, t
  {
    if !t.Other? {
      RaisesByChild(p, t, v);
      var i :| 0 <= i < Width(v) && ChildRaises(p, t, v, i);
      RaisingDoesNotConform(p, Child(p, t, v, i).value.1, Child(p, t, v, i).value.2);
      assert !ChildConforms(p, t, v, i);
      ConformsByChildren(p, t, v);
    }
  }

  lemma LocalFaultsElsewhere(p: Program, at: Location, path: Path)
    ensures LocalFaults(p, at).Found() <==> LocalFaults(p, at.(path := path)).Found()
  {
    if at.declared.Class? && at.value.Obj? {
      ShapeFaultFree(p.classes(at.declared.name), at.value.entries, at.path);
      ShapeFaultFree(p.classes(at.declared.name), at.value.entries, path);
    }
  }

  /** Unless a conversion refuses first, a body has no fault iff it is of the declared type. */
  lemma {:induction false} FaultFreeIffConforms(p: Program, t: Type, v: Json, path: Path)
    requires !Raises(p, t, v)
    ensures !Faults(p, t, v, path).Found() <==> Conforms(p, t, v)
    decreases v, t, Width(v) + 1
  {
    if t.UnionType? && Transparent(p, t.members, v) {
      var m := SoleMember(t.members).value;
      assert m in t.members;
      FaultFreeIffConforms(p, m, v, path);
    } else if t.Other? {
      FaultsAtRoot(p, t, v, path);
      InsideNothing(p, t, v, path, Width(v));
    } else {
      RaisesByChild(p, t, v);
      ConformsByChildren(p, t, v);
      FaultsAtRoot(p, t, v, path);
      InsideFaultFree(p, t, v, path, Width(v));
      LocalFaultsElsewhere(p, Location(path, v, t), []);
    }
  }

  lemma {:induction false} InsideNothing(p: Program, t: Type, v: Json, path: Path, n: nat)
    requires n <= Width(v) && forall i :: 0 <= i < n ==> Child(p, t, v, i) == None
    ensures Inside(p, t, v, path, n) == []
  {
    if n > 0 {
      InsideNothing(p, t, v, path, n - 1);
    }
  }

  lemma FoundEither(a: Mismatch, b: Mismatch)
    ensures a.MergedWith(b).Found() <==> a.Found() || b.Found()
  {
  }

  lemma {:induction false} OneChildMore(p: Program, t: Type, v: Json, path: Path, n: nat)
    requires n < Width(v) && !ChildRaises(p, t, v, n)
    ensures AllFaults(p, Inside(p, t, v, path, n + 1)).Found() <==>
      AllFaults(p, Inside(p, t, v, path, n)).Found() || !ChildConforms(p, t, v, n)
    decreases v, t, n
  {
    hide Conforms, Raises, Child, Locations, LocalFaults, Inside, AllFaults;
    FaultsUnfold(p, t, v, path, n);
    match Child(p, t, v, n)
    case None =>
    case Some((step, declared, value)) =>
      FaultFreeIffConforms(p, declared, value, path + [step]);
      FoundEither(AllFaults(p, Inside(p, t, v, path, n)), Faults(p, declared, value, path + [step]));
  }

  lemma NothingInside(p: Program, t: Type, v: Json, path: Path)
    ensures !AllFaults(p, Inside(p, t, v, path, 0)).Found()
  {
  }

  lemma {:induction false} InsideFaultFree(p: Program, t: Type, v: Json, path: Path, n: nat)
    requires n <= Width(v) && forall i :: 0 <= i < n ==> !ChildRaises(p, t, v, i)
    ensures !AllFaults(p, Inside(p, t, v, path, n)).Found() <==> forall i :: 0 <= i < n ==> ChildConforms(p, t, v, i)
    decreases v, t, n
  {
    NothingInside(p, t, v, path);
    hide ChildConforms, ChildRaises, Inside, AllFaults, Conforms, Raises, Child, Locations, LocalFaults;
    if n > 0 {
      InsideFaultFree(p, t, v, path, n - 1);
      OneChildMore(p, t, v, path, n - 1);
    }
  }

  // ---------------------------------------------------------------- unions and conversions, read off

  /** The member at `k` is the only one besides `None`. */
  predicate AllElseNone(ms: seq<Type>, k: int) {
    0 <= k < |ms| && ms[k] != NoneType && forall i :: 0 <= i < |ms| && i != k ==> ms[i] == NoneType
  }

  lemma {:induction false} OthersOfNone(ms: seq<Type>)
    ensures Others(ms) == [] <==> forall i :: 0 <= i < |ms| ==> ms[i] == NoneType
  {
    if ms != [] {
      OthersOfNone(ms[1..]);
      assert ms == [ms[0]] + ms[1..];
    }
  }

  lemma {:induction false} SoleMemberIff(ms: seq<Type>)
    ensures |Others(ms)| == 1 <==> exists k :: AllElseNone(ms, k)
    ensures forall k :: AllElseNone(ms, k) ==> SoleMember(ms) == Some(ms[k])
    ensures SoleMember(ms).Some? ==> exists k :: AllElseNone(ms, k)
  {
    if ms != [] {
      SoleMemberIff(ms[1..]);
      OthersOfNone(ms[1..]);
      assert ms == [ms[0]] + ms[1..];
      if ms[0] == NoneType {
        if k :| AllElseNone(ms[1..], k) {
          assert AllElseNone(ms, k + 1);
        }
        forall k | AllElseNone(ms, k) ensures AllElseNone(ms[1..], k - 1) && SoleMember(ms) == Some(ms[k]) {
          assert ms[1..][k - 1] == ms[k];
        }
      } else {
        if Others(ms[1..]) == [] {
          assert AllElseNone(ms, 0);
        }
        forall k | AllElseNone(ms, k) ensures k == 0 && Others(ms[1..]) == [] {
          assert forall i :: 0 <= i < |ms[1..]| ==> ms[1..][i] == ms[i + 1];
        }
      }
    }
  }

  /**
   What a union that does not take a value says: what its only real member says of it, unless that refuses in
   its own words; and otherwise, the value being null included, that the value is not of the union.
   */
  lemma UnionFaults(p: Program, ms: seq<Type>, v: Json, path: Path)
    requires !Conforms(p, UnionType(ms), v)
    ensures forall k :: AllElseNone(ms, k) && !v.Null? && !Raises(p, ms[k], v) ==> Faults(p, UnionType(ms), v, path) == Faults(p, ms[k], v, path)
    ensures v.Null? || (forall k :: AllElseNone(ms, k) ==> Raises(p, ms[k], v)) ==>
      Faults(p, UnionType(ms), v, path) == Mismatch([], [], [Mistype(path, UnionType(ms))])
  {
    SoleMemberIff(ms);
    if !Transparent(p, ms, v) {
      FaultsAtRoot(p, UnionType(ms), v, path);
      InsideNothing(p, UnionType(ms), v, path, Width(v));
      MergeAssociative(Mistyped(path, UnionType(ms)), NO_MISMATCH, NO_MISMATCH);
    }
  }

  /** A place a conversion refuses. */
  predicate Refuses(p: Program, at: Location) {
    at.declared.Other? && !p.converts(at.declared.name, at.value)
  }

  /** A body is refused by a conversion iff some place the declared type reaches is one its conversion refuses. */
  lemma {:induction false} RaisesIff(p: Program, t: Type, v: Json, path: Path)
    ensures Raises(p, t, v) <==> exists at :: at in Locations(p, t, v, path) && Refuses(p, at)
    decreases v, t, Width(v) + 1
  {
    if t.UnionType? && Transparent(p, t.members, v) {
      assert SoleMember(t.members).value in t.members;
      RaisesIff(p, SoleMember(t.members).value, v, path);
    } else {
      InsideRaisesIff(p, t, v, path, Width(v));
      var root := Location(path, v, t);
      if t.Other? {
        assert root in Locations(p, t, v, path);
        InsideNothing(p, t, v, path, Width(v));
      } else {
        RaisesByChild(p, t, v);
        assert !Refuses(p, root);
      }
      assert forall at :: at in Locations(p, t, v, path) <==> at == root || at in Inside(p, t, v, path, Width(v));
    }
  }

  lemma {:induction false} InsideRaisesIff(p: Program, t: Type, v: Json, path: Path, n: nat)
    requires n <= Width(v)
    ensures (exists at :: at in Inside(p, t, v, path, n) && Refuses(p, at)) <==> exists i :: 0 <= i < n && ChildRaises(p, t, v, i)
    decreases v, t, n
  {
    if n > 0 {
      hide Raises, Locations, Conforms, Child, Refuses;
      InsideRaisesIff(p, t, v, path, n - 1);
      match Child(p, t, v, n - 1)
      case None =>
        assert Inside(p, t, v, path, n) == Inside(p, t, v, path, n - 1);
        assert !ChildRaises(p, t, v, n - 1);
      case Some((step, declared, value)) =>
        RaisesIff(p, declared, value, path + [step]);
        assert Inside(p, t, v, path, n) == Inside(p, t, v, path, n - 1) + Locations(p, declared, value, path + [step]);
        assert ChildRaises(p, t, v, n - 1) <==> Raises(p, declared, value);
    }
  }
}
