/**
 The body binder as it runs: mutually recursive, looping over arrays, objects and fields, collecting
 every mismatch it meets. Each method is held to the declarative relations, not to a copy of itself.
 */
module BodyBinding {
  import opened BodyFaults
  import opened BodyTypes
  import opened Options

  /** What binding one value came to: a conversion refused, or a value and every mismatch found. */
  datatype Outcome = Raised | Done(value: Bound, mismatch: Mismatch)

  /** The outcome the declared type and the value call for. */
  ghost predicate Answers(p: Program, t: Type, v: Json, at: Path, o: Outcome) {
    && (o.Raised? <==> Raises(p, t, v))
    && (o.Done? ==>
      && o.mismatch == Faults(p, t, v, at)
      && (Conforms(p, t, v) <==> !o.mismatch.Found())
      && (Conforms(p, t, v) ==> o.value == Build(p, t, v)))
  }

  method BindBodyField(p: Program, v: Json, t: Type, at: Path) returns (o: Outcome)
    ensures Answers(p, t, v, at, o)
    decreases v, t, 2
  {
    match t
    case UnionType(_) => o := BindBodyUnion(p, v, t, at);
    case ListType(_) => o := BindBodyList(p, v, t, at);
    case DictType(_) => o := BindBodyDict(p, v, t, at);
    case Class(_) => o := BindBodyDataclass(p, v, t, at);
    case _ =>
      match t {
        case Any => o := Done(Raw(v), NO_MISMATCH);
        case NoneType => o := Done(Raw(v), if v.Null? then NO_MISMATCH else Mistyped(at, t));
        case ScalarType(s) => o := Done(Raw(v), if FitsScalar(s, v) then NO_MISMATCH else Mistyped(at, t));
        case Other(n) => o := if p.converts(n, v) then Done(Converted(n, v), NO_MISMATCH) else Raised;
      }
      InsideNothing(p, t, v, at, Width(v));
      FaultsAtRoot(p, t, v, at);
      MergeAssociative(LocalFaults(p, Location(at, v, t)), NO_MISMATCH, NO_MISMATCH);
  }

  /** What the relations say of a union, one level deep. */
  lemma UnfoldUnion(p: Program, t: Type, v: Json, at: Path)
    requires t.UnionType?
    ensures !Raises(p, t, v) && AllFaults(p, Inside(p, t, v, at, Width(v))) == NO_MISMATCH
    ensures v.Null? ==> (Conforms(p, t, v) <==> NoneType in t.members)
    ensures v.Null? && NoneType in t.members ==> Build(p, t, v) == Raw(v)
    ensures !v.Null? ==>
      (Conforms(p, t, v) <==> exists i :: 0 <= i < |t.members| && t.members[i] != NoneType && Conforms(p, t.members[i], v))
    ensures !v.Null? && Conforms(p, t, v) ==> Build(p, t, v) == Build(p, t.members[FirstFit(p, t.members, v)], v)
  {
    InsideNothing(p, t, v, at, Width(v));
  }

  lemma FaultsOfSoleMember(p: Program, t: Type, v: Json, at: Path)
    requires t.UnionType? && Transparent(p, t.members, v)
    ensures Faults(p, t, v, at) == Faults(p, SoleMember(t.members).value, v, at)
  {
  }

  /** Takes the first member of a union that the value already fits. */
  method BindBodyUnion(p: Program, v: Json, t: Type, at: Path) returns (o: Outcome)
    requires t.UnionType?
    ensures Answers(p, t, v, at, o)
    decreases v, t, 0
  {
    hide Conforms, Raises, Build, Inside, Locations, AllFaults;
    UnfoldUnion(p, t, v, at);
    MergeAssociative(LocalFaults(p, Location(at, v, t)), NO_MISMATCH, NO_MISMATCH);
    if v.Null? {
      FaultsAtRoot(p, t, v, at);
      return Done(Raw(v), if NoneType in t.members then NO_MISMATCH else Mistyped(at, t));
    }
    var members := Others(t.members);
    var soleMismatch := None;
    var i := 0;
    while i < |members|
      invariant i <= |members|
      invariant forall j :: 0 <= j < i ==> !Conforms(p, members[j], v)
      invariant |members| == 1 && i == 1 && !Raises(p, members[0], v) ==> soleMismatch == Some(Faults(p, members[0], v, at))
      invariant soleMismatch.Some? ==> |members| == 1 && i == 1 && !Raises(p, members[0], v)
    {
      assert members[i] in t.members;
      o := BindBodyField(p, v, members[i], at);
      if o.Done? {
        if !o.mismatch.Found() {
          FirstFitsAmongOthers(p, t.members, v, i);
          FaultsAtRoot(p, t, v, at);
          return Done(o.value, NO_MISMATCH);
        }
        if |members| == 1 {
          soleMismatch := Some(o.mismatch);
        }
      } else {
        RaisingDoesNotConform(p, members[i], v);
      }
      i := i + 1;
    }
    NoneFits(p, t.members, v);
    if soleMismatch.Some? {
      FaultFreeIffConforms(p, members[0], v, at);
      FaultsOfSoleMember(p, t, v, at);
      return Done(Raw(v), soleMismatch.value);
    }
    FaultsAtRoot(p, t, v, at);
    return Done(Raw(v), Mistyped(at, t));
  }

  lemma {:induction false} FirstFitsAmongOthers(p: Program, ms: seq<Type>, v: Json, i: nat)
    requires i < |Others(ms)| && Conforms(p, Others(ms)[i], v)
    requires forall j :: 0 <= j < i ==> !Conforms(p, Others(ms)[j], v)
    ensures exists k :: 0 <= k < |ms| && ms[k] != NoneType && Conforms(p, ms[k], v)
    ensures ms[FirstFit(p, ms, v)] == Others(ms)[i]
  {
    hide Conforms;
    var rest := Others(ms[1..]);
    if ms[0] != NoneType {
      assert Others(ms) == [ms[0]] + rest;
      assert i == 0 ==> Conforms(p, ms[0], v);
      assert i > 0 ==> !Conforms(p, Others(ms)[0], v);
      if i > 0 {
        forall j | 0 <= j < i - 1 ensures !Conforms(p, rest[j], v) {
          assert Others(ms)[j + 1] == rest[j];
        }
        FirstFitsAmongOthers(p, ms[1..], v, i - 1);
      }
    } else {
      assert Others(ms) == rest;
      FirstFitsAmongOthers(p, ms[1..], v, i);
    }
  }

  lemma NoneFits(p: Program, ms: seq<Type>, v: Json)
    requires !v.Null? && forall j :: 0 <= j < |Others(ms)| ==> !Conforms(p, Others(ms)[j], v)
    ensures !Conforms(p, UnionType(ms), v)
  {
    forall k | 0 <= k < |ms| && ms[k] != NoneType ensures !Conforms(p, ms[k], v) {
      assert ms[k] in Others(ms);
    }
  }

  /** What the relations say of an array type, one level deep. */
  lemma UnfoldArray(p: Program, t: Type, v: Json, at: Path)
    requires t.ListType?
    ensures Conforms(p, t, v) <==> v.Arr? && forall i :: 0 <= i < |v.items| ==> Conforms(p, ItemType(t), v.items[i])
    ensures Raises(p, t, v) <==> v.Arr? && exists i :: 0 <= i < |v.items| && Raises(p, ItemType(t), v.items[i])
    ensures Conforms(p, t, v) ==>
      && Build(p, t, v).List? && |Build(p, t, v).items| == |v.items|
      && forall i :: 0 <= i < |v.items| ==> Build(p, t, v).items[i] == Build(p, ItemType(t), v.items[i])
    ensures AllFaults(p, Inside(p, t, v, at, 0)) == NO_MISMATCH
    ensures !v.Arr? ==> AllFaults(p, Inside(p, t, v, at, Width(v))) == NO_MISMATCH
  {
    if !v.Arr? {
      InsideNothing(p, t, v, at, Width(v));
    }
  }

  /** Binds every element of an array to the element type. */
  method BindBodyList(p: Program, v: Json, t: Type, at: Path) returns (o: Outcome)
    requires t.ListType?
    ensures Answers(p, t, v, at, o)
    decreases v, t, 0
  {
    hide Conforms, Raises, Build, Inside, Locations, AllFaults;
    UnfoldArray(p, t, v, at);
    FaultsAtRoot(p, t, v, at);
    if !v.Arr? {
      return Done(Raw(v), Mistyped(at, t));
    }
    var bound, mismatch := [], NO_MISMATCH;
    var i := 0;
    while i < |v.items|
      invariant i <= |v.items| && |bound| == i
      invariant mismatch == AllFaults(p, Inside(p, t, v, at, i))
      invariant forall j :: 0 <= j < i ==> !Raises(p, ItemType(t), v.items[j])
      invariant !mismatch.Found() <==> forall j :: 0 <= j < i ==> Conforms(p, ItemType(t), v.items[j])
      invariant forall j :: 0 <= j < i && Conforms(p, ItemType(t), v.items[j]) ==> bound[j] == Build(p, ItemType(t), v.items[j])
    {
      var item := BindBodyField(p, v.items[i], ItemType(t), at + [Item(i)]);
      if item.Raised? {
        return Raised;
      }
      FaultsUnfold(p, t, v, at, i);
      bound := bound + [item.value];
      mismatch := mismatch.MergedWith(item.mismatch);
      i := i + 1;
    }
    MergeAssociative(mismatch, NO_MISMATCH, NO_MISMATCH);
    assert Conforms(p, t, v) ==> bound == Build(p, t, v).items;
    o := Done(List(bound), mismatch);
  }

  lemma UnfoldObject(p: Program, t: Type, v: Json, at: Path)
    requires t.DictType?
    ensures Conforms(p, t, v) <==> v.Obj? && forall i :: 0 <= i < |v.entries| ==> Conforms(p, ValueType(t), v.entries[i].value)
    ensures Raises(p, t, v) <==> v.Obj? && exists i :: 0 <= i < |v.entries| && Raises(p, ValueType(t), v.entries[i].value)
    ensures Conforms(p, t, v) ==>
      && Build(p, t, v).Dict? && |Build(p, t, v).entries| == |v.entries|
      && forall i :: 0 <= i < |v.entries| ==>
        Build(p, t, v).entries[i] == BoundEntry(v.entries[i].key, Build(p, ValueType(t), v.entries[i].value))
    ensures AllFaults(p, Inside(p, t, v, at, 0)) == NO_MISMATCH
    ensures !v.Obj? ==> AllFaults(p, Inside(p, t, v, at, Width(v))) == NO_MISMATCH
  {
    if !v.Obj? {
      InsideNothing(p, t, v, at, Width(v));
    }
  }

  /** Binds every value of an object to the value type; the keys are left alone. */
  method BindBodyDict(p: Program, v: Json, t: Type, at: Path) returns (o: Outcome)
    requires t.DictType?
    ensures Answers(p, t, v, at, o)
    decreases v, t, 0
  {
    hide Conforms, Raises, Build, Inside, Locations, AllFaults;
    UnfoldObject(p, t, v, at);
    FaultsAtRoot(p, t, v, at);
    if !v.Obj? {
      return Done(Raw(v), Mistyped(at, t));
    }
    var bound, mismatch := [], NO_MISMATCH;
    var i := 0;
    while i < |v.entries|
      invariant i <= |v.entries| && |bound| == i
      invariant mismatch == AllFaults(p, Inside(p, t, v, at, i))
      invariant forall j :: 0 <= j < i ==> !Raises(p, ValueType(t), v.entries[j].value)
      invariant !mismatch.Found() <==> forall j :: 0 <= j < i ==> Conforms(p, ValueType(t), v.entries[j].value)
      invariant forall j :: 0 <= j < i && Conforms(p, ValueType(t), v.entries[j].value) ==>
        bound[j] == BoundEntry(v.entries[j].key, Build(p, ValueType(t), v.entries[j].value))
    {
      var entry := BindBodyField(p, v.entries[i].value, ValueType(t), at + [Key(v.entries[i].key)]);
      if entry.Raised? {
        return Raised;
      }
      FaultsUnfold(p, t, v, at, i);
      bound := bound + [BoundEntry(v.entries[i].key, entry.value)];
      mismatch := mismatch.MergedWith(entry.mismatch);
      i := i + 1;
    }
    MergeAssociative(mismatch, NO_MISMATCH, NO_MISMATCH);
    assert Conforms(p, t, v) ==> bound == Build(p, t, v).entries;
    return Done(Dict(bound), mismatch);
  }

  /** Builds a declared object, comparing its shape and then every field a type is declared for. */
  method BindBodyDataclass(p: Program, v: Json, t: Type, at: Path) returns (o: Outcome)
    requires t.Class?
    ensures Answers(p, t, v, at, o)
    decreases v, t, 1
  {
    hide Conforms, Raises, Build, Inside, Locations, AllFaults, FieldConforms, BoundField, ShapeFits, ShapeMismatch;
    UnfoldInstance(p, t, v, at);
    FaultsAtRoot(p, t, v, at);
    if !v.Obj? {
      return Done(Raw(v), Mistyped(at, t));
    }
    var d := p.classes(t.name);
    var shape := ShapeMismatch(d, v.entries, at);
    ShapeFaultFree(d, v.entries, at);
    var fields := BindDeclaredFields(p, v, t, at);
    if fields.Raised? {
      return Raised;
    }
    var mismatch := shape.MergedWith(fields.mismatch);
    if mismatch.Found() {
      return Done(Raw(v), mismatch);
    }
    assert fields.value.entries == Build(p, t, v).entries;
    return Done(Instance(t.name, fields.value.entries), NO_MISMATCH);
  }

  /** The keywords of one object, each bound to its declared type if it has one. */
  function BoundField(p: Program, t: Type, e: Entry): BoundEntry
    requires t.Class?
    requires Hint(p.classes(t.name), e.key).Some? ==> Conforms(p, Hint(p.classes(t.name), e.key).value, e.value)
  {
    BoundEntry(e.key,
      match Hint(p.classes(t.name), e.key)
      case None => Raw(e.value)
      case Some(h) => Build(p, h, e.value))
  }

  predicate FieldConforms(p: Program, t: Type, e: Entry)
    requires t.Class?
  {
    Hint(p.classes(t.name), e.key).Some? ==> Conforms(p, Hint(p.classes(t.name), e.key).value, e.value)
  }

  predicate FieldRaises(p: Program, t: Type, e: Entry)
    requires t.Class?
  {
    Hint(p.classes(t.name), e.key).Some? && Raises(p, Hint(p.classes(t.name), e.key).value, e.value)
  }

  lemma UnfoldFields(p: Program, t: Type, v: Json, at: Path)
    requires t.Class? && v.Obj?
    ensures Raises(p, t, v) <==> exists i :: 0 <= i < |v.entries| && FieldRaises(p, t, v.entries[i])
    ensures AllFaults(p, Inside(p, t, v, at, 0)) == NO_MISMATCH
  {
    if Raises(p, t, v) {
      RaisesByChild(p, t, v);
      var i :| 0 <= i < Width(v) && ChildRaises(p, t, v, i);
      assert FieldRaises(p, t, v.entries[i]);
    }
  }

  /** What the relations say of a declared object, one level deep. */
  lemma UnfoldInstance(p: Program, t: Type, v: Json, at: Path)
    requires t.Class?
    ensures Conforms(p, t, v) <==>
      v.Obj? && ShapeFits(p.classes(t.name), v.entries) && forall i :: 0 <= i < |v.entries| ==> FieldConforms(p, t, v.entries[i])
    ensures Conforms(p, t, v) ==>
      && Build(p, t, v).Instance? && Build(p, t, v).class_ == t.name && |Build(p, t, v).entries| == |v.entries|
      && forall i :: 0 <= i < |v.entries| ==> Build(p, t, v).entries[i] == BoundField(p, t, v.entries[i])
    ensures !v.Obj? ==> !Raises(p, t, v) && AllFaults(p, Inside(p, t, v, at, Width(v))) == NO_MISMATCH
  {
    if !v.Obj? {
      InsideNothing(p, t, v, at, Width(v));
    }
  }

  method BindDeclaredFields(p: Program, v: Json, t: Type, at: Path) returns (o: Outcome)
    requires t.Class? && v.Obj?
    ensures o.Raised? <==> Raises(p, t, v)
    ensures o.Done? ==> o.value.Dict? && |o.value.entries| == |v.entries|
    ensures o.Done? ==> o.mismatch == AllFaults(p, Inside(p, t, v, at, Width(v)))
    ensures o.Done? ==> (!o.mismatch.Found() <==> forall j :: 0 <= j < |v.entries| ==> FieldConforms(p, t, v.entries[j]))
    ensures o.Done? ==> forall j :: 0 <= j < |v.entries| && FieldConforms(p, t, v.entries[j]) ==>
      o.value.entries[j] == BoundField(p, t, v.entries[j])
    decreases v, t, 0
  {
    hide Conforms, Raises, Build, Inside, Locations, AllFaults;
    UnfoldFields(p, t, v, at);
    var d := p.classes(t.name);
    var bound := seq(|v.entries|, j requires 0 <= j < |v.entries| => BoundEntry(v.entries[j].key, Raw(v.entries[j].value)));
    var mismatch := NO_MISMATCH;
    var i := 0;
    while i < |v.entries|
      invariant i <= |v.entries| == |bound|
      invariant mismatch == AllFaults(p, Inside(p, t, v, at, i))
      invariant forall j :: 0 <= j < i ==> !FieldRaises(p, t, v.entries[j])
      invariant !mismatch.Found() <==> forall j :: 0 <= j < i ==> FieldConforms(p, t, v.entries[j])
      invariant forall j :: 0 <= j < i && FieldConforms(p, t, v.entries[j]) ==> bound[j] == BoundField(p, t, v.entries[j])
      invariant forall j :: i <= j < |bound| ==> bound[j] == BoundEntry(v.entries[j].key, Raw(v.entries[j].value))
    {
      FaultsUnfold(p, t, v, at, i);
      var hint := Hint(d, v.entries[i].key);
      if hint.Some? {
        var field := BindBodyField(p, v.entries[i].value, hint.value, at + [Field(v.entries[i].key)]);
        if field.Raised? {
          assert FieldRaises(p, t, v.entries[i]);
          return Raised;
        }
        bound := bound[i := BoundEntry(v.entries[i].key, field.value)];
        mismatch := mismatch.MergedWith(field.mismatch);
      }
      i := i + 1;
    }
    return Done(Dict(bound), mismatch);
  }
}
