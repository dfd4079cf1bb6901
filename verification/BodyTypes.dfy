/**
 JSON bodies, the types a handler may declare for them, and what it means for one to fit the other.
 Nothing here follows the binder: `Conforms`, `Build` and `Locations` are what it is held to.
 */
module BodyTypes {
  import opened Options

  datatype Json =
    | Null
    | Bool(b: bool)
    | Int(n: int)
    | Float(x: real)
    | Str(s: string)
    | Arr(items: seq<Json>)
    | Obj(entries: seq<Entry>)

  datatype Entry = Entry(key: string, value: Json)

  datatype Scalar = BoolScalar | IntScalar | FloatScalar | StrScalar

  /** A declared type. A bare `list` or `dict` carries no arguments. */
  datatype Type =
    | Any
    | NoneType
    | ScalarType(scalar: Scalar)
    | ListType(args: seq<Type>)
    | DictType(args: seq<Type>)
    | UnionType(members: seq<Type>)
    | Class(name: string)
    | Other(name: string)

  /** A keyword parameter of a constructor; one carrying any default is not required. */
  datatype Parameter = Parameter(name: string, required: bool)

  /** What can be read off a dataclass; `hints` is `None` when its annotations cannot be resolved. */
  datatype Declaration = Declaration(
    readable: bool,
    parameters: seq<Parameter>,
    collectsSurplus: bool,
    hints: Option<map<string, Type>>)

  /** The classes a type may name, and which values a type JSON cannot carry can be built from. */
  datatype Program = Program(classes: string -> Declaration, converts: (string, Json) -> bool)

  /** A handler argument as bound. An instance holds the keywords its constructor was given. */
  datatype Bound =
    | Raw(json: Json)
    | List(items: seq<Bound>)
    | Dict(entries: seq<BoundEntry>)
    | Instance(class_: string, entries: seq<BoundEntry>)
    | Converted(name: string, json: Json)

  datatype BoundEntry = BoundEntry(key: string, value: Bound)

  // ---------------------------------------------------------------- typing

  /** `true` is no number, and a whole number serves as a float. */
  predicate FitsScalar(scalar: Scalar, v: Json) {
    match scalar
    case BoolScalar => v.Bool?
    case IntScalar => v.Int?
    case FloatScalar => v.Float? || v.Int?
    case StrScalar => v.Str?
  }

  function ItemType(t: Type): Type
    requires t.ListType?
  {
    if t.args == [] then Any else t.args[0]
  }

  function ValueType(t: Type): Type
    requires t.DictType?
  {
    if |t.args| == 2 then t.args[1] else Any
  }

  /** The type a class declares for a field, if it declares one that can be read. */
  function Hint(d: Declaration, field: string): Option<Type> {
    if d.hints.Some? && field in d.hints.value then Some(d.hints.value[field]) else None
  }

  predicate Names(entries: seq<Entry>, key: string) {
    exists i :: 0 <= i < |entries| && entries[i].key == key
  }

  predicate Declares(d: Declaration, key: string) {
    exists i :: 0 <= i < |d.parameters| && d.parameters[i].name == key
  }

  /** The keys are ones the constructor takes, and include every one it requires. */
  predicate ShapeFits(d: Declaration, entries: seq<Entry>) {
    d.readable ==>
      && (forall i :: 0 <= i < |d.parameters| && d.parameters[i].required ==> Names(entries, d.parameters[i].name))
      && (d.collectsSurplus || forall i :: 0 <= i < |entries| ==> Declares(d, entries[i].key))
  }

  /** The declarative typing relation: what it is for a value to be of a declared type. */
  predicate Conforms(p: Program, t: Type, v: Json)
    decreases v, t
  {
    match t
    case Any => true
    case NoneType => v.Null?
    case ScalarType(s) => FitsScalar(s, v)
    case ListType(_) => v.Arr? && forall i :: 0 <= i < |v.items| ==> Conforms(p, ItemType(t), v.items[i])
    case DictType(_) => v.Obj? && forall i :: 0 <= i < |v.entries| ==> Conforms(p, ValueType(t), v.entries[i].value)
    case UnionType(ms) =>
      if v.Null? then NoneType in ms
      else exists i :: 0 <= i < |ms| && ms[i] != NoneType && Conforms(p, ms[i], v)
    case Class(c) =>
      && v.Obj?
      && ShapeFits(p.classes(c), v.entries)
      && forall i :: 0 <= i < |v.entries| && Hint(p.classes(c), v.entries[i].key).Some? ==>
        Conforms(p, Hint(p.classes(c), v.entries[i].key).value, v.entries[i].value)
    case Other(n) => p.converts(n, v)
  }

  /** A conversion somewhere inside refuses the value in its own words, outside of any union. */
  predicate Raises(p: Program, t: Type, v: Json)
    decreases v, t
  {
    match t
    case ListType(_) => v.Arr? && exists i :: 0 <= i < |v.items| && Raises(p, ItemType(t), v.items[i])
    case DictType(_) => v.Obj? && exists i :: 0 <= i < |v.entries| && Raises(p, ValueType(t), v.entries[i].value)
    case Class(c) =>
      && v.Obj?
      && exists i :: (
        && 0 <= i < |v.entries|
        && Hint(p.classes(c), v.entries[i].key).Some?
        && Raises(p, Hint(p.classes(c), v.entries[i].key).value, v.entries[i].value))
    case Other(n) => !p.converts(n, v)
    case _ => false
  }

  // ---------------------------------------------------------------- the value built

  /** The first member, other than `None`, that the value is of. */
  function FirstFit(p: Program, ms: seq<Type>, v: Json): (k: nat)
    requires exists i :: 0 <= i < |ms| && ms[i] != NoneType && Conforms(p, ms[i], v)
    ensures k < |ms| && ms[k] != NoneType && Conforms(p, ms[k], v)
    ensures forall j :: 0 <= j < k && ms[j] != NoneType ==> !Conforms(p, ms[j], v)
  {
    if ms[0] != NoneType && Conforms(p, ms[0], v) then 0
    else
      assert exists i :: 0 <= i < |ms[1..]| && ms[1..][i] != NoneType && Conforms(p, ms[1..][i], v) by {
        var i :| 0 <= i < |ms| && ms[i] != NoneType && Conforms(p, ms[i], v);
        assert ms[1..][i - 1] == ms[i];
      }
      1 + FirstFit(p, ms[1..], v)
  }

  function Build(p: Program, t: Type, v: Json): Bound
    requires Conforms(p, t, v)
    decreases v, t
  {
    match t
    case ListType(_) => List(seq(|v.items|, i requires 0 <= i < |v.items| => Build(p, ItemType(t), v.items[i])))
    case DictType(_) =>
      Dict(seq(|v.entries|, i requires 0 <= i < |v.entries| =>
        BoundEntry(v.entries[i].key, Build(p, ValueType(t), v.entries[i].value))))
    case UnionType(ms) => if v.Null? then Raw(Null) else Build(p, ms[FirstFit(p, ms, v)], v)
    case Class(c) =>
      Instance(c, seq(|v.entries|, i requires 0 <= i < |v.entries| =>
        BoundEntry(v.entries[i].key,
          match Hint(p.classes(c), v.entries[i].key)
          case None => Raw(v.entries[i].value)
          case Some(h) => Build(p, h, v.entries[i].value))))
    case Other(n) => Converted(n, v)
    case _ => Raw(v)
  }

  /** What a bound value says in JSON, the fields its constructor defaulted left out. */
  function Erase(b: Bound): Json {
    match b
    case Raw(j) => j
    case List(items) => Arr(seq(|items|, i requires 0 <= i < |items| => Erase(items[i])))
    case Dict(entries) => Obj(EraseEntries(entries))
    case Instance(_, entries) => Obj(EraseEntries(entries))
    case Converted(_, j) => j
  }

  function EraseEntries(entries: seq<BoundEntry>): (r: seq<Entry>)
    ensures |r| == |entries|
    ensures forall i :: 0 <= i < |r| ==> r[i] == Entry(entries[i].key, Erase(entries[i].value))
  {
    seq(|entries|, i requires 0 <= i < |entries| => Entry(entries[i].key, Erase(entries[i].value)))
  }

  /** A bound value is of a declared type: what a handler may rely on when it reads its argument. */
  predicate HasType(p: Program, t: Type, b: Bound)
    decreases b, t
  {
    match t
    case Any => b.Raw?
    case NoneType => b == Raw(Null)
    case ScalarType(s) => b.Raw? && FitsScalar(s, b.json)
    case ListType(_) => b.List? && forall i :: 0 <= i < |b.items| ==> HasType(p, ItemType(t), b.items[i])
    case DictType(_) => b.Dict? && forall i :: 0 <= i < |b.entries| ==> HasType(p, ValueType(t), b.entries[i].value)
    case UnionType(ms) => exists i :: 0 <= i < |ms| && HasType(p, ms[i], b) && (Erase(b).Null? ==> ms[i] == NoneType)
    case Class(c) =>
      b.Instance? && b.class_ == c &&
      (forall i :: 0 <= i < |b.entries| ==>
        match Hint(p.classes(c), b.entries[i].key)
        case None => b.entries[i].value.Raw?
        case Some(h) => HasType(p, h, b.entries[i].value)) &&
      (p.classes(c).readable ==>
        && (forall k :: 0 <= k < |p.classes(c).parameters| && p.classes(c).parameters[k].required ==>
          exists i :: 0 <= i < |b.entries| && b.entries[i].key == p.classes(c).parameters[k].name)
        && (p.classes(c).collectsSurplus || forall i :: 0 <= i < |b.entries| ==> Declares(p.classes(c), b.entries[i].key)))
    case Other(n) => b.Converted? && b.name == n && p.converts(n, b.json)
  }

  /** Binding loses nothing: erased back to JSON, what was built is what was sent. */
  lemma {:induction false} RoundTrip(p: Program, t: Type, v: Json)
    requires Conforms(p, t, v)
    ensures Erase(Build(p, t, v)) == v
    decreases v, t
  {
    match t
    case ListType(_) =>
      forall i | 0 <= i < |v.items| ensures Erase(Build(p, ItemType(t), v.items[i])) == v.items[i] {
        RoundTrip(p, ItemType(t), v.items[i]);
      }
      assert Erase(Build(p, t, v)).items == v.items;
    case DictType(_) =>
      forall i | 0 <= i < |v.entries| ensures Erase(Build(p, ValueType(t), v.entries[i].value)) == v.entries[i].value {
        RoundTrip(p, ValueType(t), v.entries[i].value);
      }
      assert Erase(Build(p, t, v)).entries == v.entries;
    case UnionType(ms) =>
      if !v.Null? {
        RoundTrip(p, ms[FirstFit(p, ms, v)], v);
      }
    case Class(c) =>
      var b := Build(p, t, v);
      forall i | 0 <= i < |v.entries| ensures EraseEntries(b.entries)[i] == v.entries[i] {
        if Hint(p.classes(c), v.entries[i].key).Some? {
          RoundTrip(p, Hint(p.classes(c), v.entries[i].key).value, v.entries[i].value);
        }
      }
      assert EraseEntries(b.entries) == v.entries;
    case _ =>
  }

  /** What is built is of the declared type, at every depth. */
  lemma {:induction false} BuiltHasType(p: Program, t: Type, v: Json)
    requires Conforms(p, t, v)
    ensures HasType(p, t, Build(p, t, v))
    decreases v, t
  {
    var b := Build(p, t, v);
    match t
    case ListType(_) =>
      forall i | 0 <= i < |b.items| ensures HasType(p, ItemType(t), b.items[i]) {
        BuiltHasType(p, ItemType(t), v.items[i]);
      }
    case DictType(_) =>
      forall i | 0 <= i < |b.entries| ensures HasType(p, ValueType(t), b.entries[i].value) {
        BuiltHasType(p, ValueType(t), v.entries[i].value);
      }
    case UnionType(ms) =>
      if v.Null? {
        var i :| 0 <= i < |ms| && ms[i] == NoneType;
        assert HasType(p, ms[i], b);
      } else {
        BuiltHasType(p, ms[FirstFit(p, ms, v)], v);
        RoundTrip(p, t, v);
      }
    case Class(c) =>
      forall i | 0 <= i < |b.entries| && Hint(p.classes(c), b.entries[i].key).Some?
        ensures HasType(p, Hint(p.classes(c), b.entries[i].key).value, b.entries[i].value) {
        BuiltHasType(p, Hint(p.classes(c), v.entries[i].key).value, v.entries[i].value);
      }
      forall k | p.classes(c).readable && 0 <= k < |p.classes(c).parameters| && p.classes(c).parameters[k].required
        ensures exists i :: 0 <= i < |b.entries| && b.entries[i].key == p.classes(c).parameters[k].name {
        var i :| 0 <= i < |v.entries| && v.entries[i].key == p.classes(c).parameters[k].name;
        assert b.entries[i].key == v.entries[i].key;
      }
    case _ =>
  }

  /** Whatever is of the declared type says something in JSON that conforms to it. */
  lemma {:induction false} ErasedConforms(p: Program, t: Type, b: Bound)
    requires HasType(p, t, b)
    ensures Conforms(p, t, Erase(b))
    decreases b, t
  {
    var v := Erase(b);
    match t
    case ListType(_) =>
      forall i | 0 <= i < |b.items| ensures Conforms(p, ItemType(t), Erase(b.items[i])) {
        ErasedConforms(p, ItemType(t), b.items[i]);
      }
    case DictType(_) =>
      assert v == Obj(EraseEntries(b.entries));
      forall i | 0 <= i < |b.entries| ensures Conforms(p, ValueType(t), Erase(b.entries[i].value)) {
        ErasedConforms(p, ValueType(t), b.entries[i].value);
      }
    case UnionType(ms) =>
      var i :| 0 <= i < |ms| && HasType(p, ms[i], b) && (v.Null? ==> ms[i] == NoneType);
      ErasedConforms(p, ms[i], b);
    case Class(c) =>
      assert v == Obj(EraseEntries(b.entries));
      forall i | 0 <= i < |b.entries| && Hint(p.classes(c), b.entries[i].key).Some?
        ensures Conforms(p, Hint(p.classes(c), b.entries[i].key).value, Erase(b.entries[i].value)) {
        ErasedConforms(p, Hint(p.classes(c), b.entries[i].key).value, b.entries[i].value);
      }
      forall k | p.classes(c).readable && 0 <= k < |p.classes(c).parameters| && p.classes(c).parameters[k].required
        ensures Names(v.entries, p.classes(c).parameters[k].name) {
        var i :| 0 <= i < |b.entries| && b.entries[i].key == p.classes(c).parameters[k].name;
        assert v.entries[i].key == b.entries[i].key;
      }
    case _ =>
  }

  /** A JSON value conforms to a type iff some value of the type says it: what is built, for one. */
  lemma ConformsIffSaid(p: Program, t: Type, v: Json)
    ensures Conforms(p, t, v) <==> exists b :: HasType(p, t, b) && Erase(b) == v
  {
    if Conforms(p, t, v) {
      BuiltHasType(p, t, v);
      RoundTrip(p, t, v);
    }
    if b :| HasType(p, t, b) && Erase(b) == v {
      ErasedConforms(p, t, b);
    }
  }

  /** The one place the relation is narrower than its members: a union that does not list `None` refuses null. */
  lemma UnionGap(p: Program, ms: seq<Type>, v: Json)
    ensures (exists i :: 0 <= i < |ms| && Conforms(p, ms[i], v)) && !Conforms(p, UnionType(ms), v) <==>
      v.Null? && NoneType !in ms && exists i :: 0 <= i < |ms| && Conforms(p, ms[i], Null)
  {
    if !v.Null? && exists i :: 0 <= i < |ms| && Conforms(p, ms[i], v) {
      var i :| 0 <= i < |ms| && Conforms(p, ms[i], v);
      assert ms[i] != NoneType;
    }
  }

  // ---------------------------------------------------------------- what declared types take

  /** A scalar takes the JSON value it names and no other, but that a float takes a whole number. */
  lemma ScalarsTake(p: Program, v: Json)
    ensures Conforms(p, ScalarType(BoolScalar), v) <==> v.Bool?
    ensures Conforms(p, ScalarType(IntScalar), v) <==> v.Int?
    ensures Conforms(p, ScalarType(FloatScalar), v) <==> v.Float? || v.Int?
    ensures Conforms(p, ScalarType(StrScalar), v) <==> v.Str?
    ensures Conforms(p, NoneType, v) <==> v.Null?
    ensures Conforms(p, Any, v)
  {
  }

  /**
   A list takes arrays, of its first argument if it has any; a dict takes objects, of values of its second
   argument if it has two.
   */
  lemma CollectionsTake(p: Program, args: seq<Type>, v: Json)
    ensures args == [] ==> (Conforms(p, ListType(args), v) <==> v.Arr?)
    ensures args != [] ==> (Conforms(p, ListType(args), v) <==> v.Arr? && forall x :: x in v.items ==> Conforms(p, args[0], x))
    ensures |args| != 2 ==> (Conforms(p, DictType(args), v) <==> v.Obj?)
    ensures |args| == 2 ==> (Conforms(p, DictType(args), v) <==> v.Obj? && forall e :: e in v.entries ==> Conforms(p, args[1], e.value))
  {
    if v.Arr? && !Conforms(p, ListType(args), v) {
      var i :| 0 <= i < |v.items| && !Conforms(p, ItemType(ListType(args)), v.items[i]);
      assert v.items[i] in v.items;
    }
    if v.Obj? && !Conforms(p, DictType(args), v) {
      var i :| 0 <= i < |v.entries| && !Conforms(p, ValueType(DictType(args)), v.entries[i].value);
      assert v.entries[i] in v.entries;
    }
  }

  /** A union takes null iff it lists `None`, and anything else iff another of its members does. */
  lemma UnionsTake(p: Program, ms: seq<Type>, v: Json)
    ensures v.Null? ==> (Conforms(p, UnionType(ms), v) <==> NoneType in ms)
    ensures !v.Null? ==> (Conforms(p, UnionType(ms), v) <==> exists m :: m in ms && Conforms(p, m, v))
  {
    if m :| m in ms && !v.Null? && Conforms(p, m, v) {
      var i :| 0 <= i < |ms| && ms[i] == m;
      assert ms[i] != NoneType;
    }
  }

  function KeysOf(entries: seq<Entry>): set<string> {
    set e | e in entries :: e.key
  }

  function NamesOf(ps: seq<Parameter>): set<string> {
    set q | q in ps :: q.name
  }

  function RequiredOf(ps: seq<Parameter>): set<string> {
    set q | q in ps && q.required :: q.name
  }

  /**
   A class takes an object that names every required parameter of its constructor and, unless surplus is
   collected, only its parameters, whose values are of the types the class declares for them; of a class whose
   constructor cannot be read, any object with such values.
   */
  lemma ClassesTake(p: Program, c: string, v: Json)
    ensures Conforms(p, Class(c), v) <==>
      && v.Obj?
      && (p.classes(c).readable ==> RequiredOf(p.classes(c).parameters) <= KeysOf(v.entries))
      && (p.classes(c).readable && !p.classes(c).collectsSurplus ==> KeysOf(v.entries) <= NamesOf(p.classes(c).parameters))
      && (p.classes(c).hints.Some? ==> forall e :: e in v.entries && e.key in p.classes(c).hints.value ==>
        Conforms(p, p.classes(c).hints.value[e.key], e.value))
  {
    if v.Obj? {
      var d := p.classes(c);
      if d.readable {
        ShapeOf(d, v.entries);
      }
      HintsOf(p, c, v);
      hide Hint, KeysOf, NamesOf, RequiredOf;
    }
  }

  ghost predicate HintsFit(p: Program, c: string, entries: seq<Entry>) {
    forall i :: 0 <= i < |entries| && Hint(p.classes(c), entries[i].key).Some? ==>
      Conforms(p, Hint(p.classes(c), entries[i].key).value, entries[i].value)
  }

  lemma HintsOf(p: Program, c: string, v: Json)
    requires v.Obj?
    ensures HintsFit(p, c, v.entries) <==>
      (p.classes(c).hints.Some? ==> forall e :: e in v.entries && e.key in p.classes(c).hints.value ==>
        Conforms(p, p.classes(c).hints.value[e.key], e.value))
  {
    hide Conforms;
    if !HintsFit(p, c, v.entries) {
      var i :| 0 <= i < |v.entries| && Hint(p.classes(c), v.entries[i].key).Some?
        && !Conforms(p, Hint(p.classes(c), v.entries[i].key).value, v.entries[i].value);
      assert v.entries[i] in v.entries;
    }
  }

  lemma ShapeOf(d: Declaration, entries: seq<Entry>)
    requires d.readable
    ensures ShapeFits(d, entries) <==>
      RequiredOf(d.parameters) <= KeysOf(entries) && (d.collectsSurplus || KeysOf(entries) <= NamesOf(d.parameters))
  {
    forall key ensures key in KeysOf(entries) <==> Names(entries, key) {
      if Names(entries, key) {
        var i :| 0 <= i < |entries| && entries[i].key == key;
        assert entries[i] in entries;
      }
    }
    forall key ensures key in NamesOf(d.parameters) <==> Declares(d, key) {
      if Declares(d, key) {
        var i :| 0 <= i < |d.parameters| && d.parameters[i].name == key;
        assert d.parameters[i] in d.parameters;
      }
    }
    if RequiredOf(d.parameters) <= KeysOf(entries) {
      forall i | 0 <= i < |d.parameters| && d.parameters[i].required ensures Names(entries, d.parameters[i].name) {
        assert d.parameters[i] in d.parameters && d.parameters[i].name in RequiredOf(d.parameters);
      }
    }
    if KeysOf(entries) <= NamesOf(d.parameters) {
      forall i | 0 <= i < |entries| ensures Declares(d, entries[i].key) {
        assert entries[i] in entries && entries[i].key in KeysOf(entries);
      }
    }
  }
}
