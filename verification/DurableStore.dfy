/**
 The durable store shared by every request in flight, and the undoing of what a refused request
 cached in it while its guards were deciding. What its middleware cached before that is not undone.

 The store keeps two keys apart by the type of the token they carry; the set a request's writes are
 attributed in does not. `alike` says which slots of the store that set takes for one key.
 */
module DurableStore {
  import opened OrderedDict
  import opened Options

  type Request = nat

  /** One atomic step of some request. A route that declares no guard never begins to be decided. */
  datatype Event<K, I> =
    | Begin(request: Request)
    | Write(request: Request, key: K, instance: I)
    | Admit(request: Request)
    | Refuse(request: Request)
    | Fail(request: Request)

  type Steps<K, I> = Trail<Event<K, I>>

  /** The store, and for each request being decided the keys attributed to it, one of each alike. */
  datatype State<K, I, C> = State(store: map<K, I>, created: map<Request, map<C, K>>)

  /** Adding a key to the attributed ones: an alike key already there stays in its place. */
  function Attributed<K, C>(keys: map<C, K>, k: K, alike: K -> C): map<C, K> {
    if alike(k) in keys then keys else keys[alike(k) := k]
  }

  function Next<K, I, C>(s: State<K, I, C>, e: Event<K, I>, alike: K -> C): State<K, I, C> {
    match e
    case Begin(r) => State(s.store, s.created[r := map[]])
    case Write(r, k, i) =>
      State(s.store[k := i], if r in s.created then s.created[r := Attributed(s.created[r], k, alike)] else s.created)
    case Admit(r) => State(s.store, s.created - {r})
    case Refuse(r) => State(if r in s.created then s.store - s.created[r].Values else s.store, s.created - {r})
    case Fail(r) => State(s.store, s.created - {r})
  }

  class AttributedStore<K(==), I, C(==)> {
    const alike: K -> C
    var store: map<K, I>
    var created: map<Request, map<C, K>>

    function Now(): State<K, I, C>
      reads this
    {
      State(store, created)
    }

    constructor (alike: K -> C)
      ensures Now() == State(map[], map[]) && this.alike == alike
    {
      this.alike := alike;
      store, created := map[], map[];
    }

    method BeginDeciding(r: Request)
      modifies this
      ensures Now() == Next(old(Now()), Begin(r), alike)
    {
      created := created[r := map[]];
    }

    method SetItem(r: Request, key: K, instance: I)
      modifies this
      ensures Now() == Next(old(Now()), Write(r, key, instance), alike)
    {
      if r in created {
        if alike(key) !in created[r] {
          created := created[r := created[r][alike(key) := key]];
        } else {
          assert created == created[r := created[r]];
        }
      }
      store := store[key := instance];
    }

    method AdmitRequest(r: Request)
      modifies this
      ensures Now() == Next(old(Now()), Admit(r), alike)
    {
      created := created - {r};
    }

    /** Any failure that is not a refusal: what was cached stays. */
    method FailDeciding(r: Request)
      modifies this
      ensures Now() == Next(old(Now()), Fail(r), alike)
    {
      created := created - {r};
    }

    method RefuseRequest(r: Request)
      modifies this
      ensures Now() == Next(old(Now()), Refuse(r), alike)
    {
      if r in created {
        EvictDurablePartitions(created[r].Values);
      }
      created := created - {r};
    }

    method EvictDurablePartitions(keys: set<K>)
      modifies this`store
      ensures store == old(store) - keys
    {
      var left := keys;
      while left != {}
        invariant left <= keys
        invariant store == old(store) - (keys - left)
      {
        var key :| key in left;
        store := store - {key};
        left := left - {key};
      }
      assert keys - left == keys;
    }
  }

  // ---------------------------------------------------------------- runs

  function Run<K, I, C>(h: Steps<K, I>, alike: K -> C): State<K, I, C> {
    match h
    case Start => State(map[], map[])
    case Then(p, e) => Next(Run(p, alike), e, alike)
  }

  predicate Seen<K, I>(h: Steps<K, I>, r: Request) {
    h.Then? && (h.latest.request == r || Seen(h.earlier, r))
  }

  /** Being decided, after `h`. */
  predicate Deciding<K, I>(h: Steps<K, I>, r: Request) {
    h.Then? &&
    if h.latest.request == r && !h.latest.Write? then h.latest.Begin? else Deciding(h.earlier, r)
  }

  /**
   A request is decided once it began to be, and by one decision at a time. It may write before that, as
   its middleware does, and begin again, as when a middleware runs the rest of the route once more.
   */
  predicate Possible<K(==), I>(h: Steps<K, I>) {
    match h
    case Start => true
    case Then(p, e) =>
      Possible(p) &&
      match e
      case Begin(r) => !Deciding(p, r)
      case Write(_, _, _) => true
      case _ => Deciding(p, e.request)
  }

  lemma {:induction false} DecidingIsCreated<K, I, C>(h: Steps<K, I>, r: Request, alike: K -> C)
    ensures Deciding(h, r) <==> r in Run(h, alike).created
  {
    if h.Then? {
      DecidingIsCreated(h.earlier, r, alike);
    }
  }

  // ---------------------------------------------------------------- attribution

  /** The keys a request wrote since it began to be decided. */
  function WrittenBy<K, I>(h: Steps<K, I>, r: Request): set<K> {
    match h
    case Start => {}
    case Then(p, e) =>
      if e.request != r then WrittenBy(p, r)
      else if e.Write? then WrittenBy(p, r) + {e.key}
      else if e.Begin? then {}
      else WrittenBy(p, r)
  }

  /** What a request is held to: of the keys it wrote that are alike, the first. */
  predicate HeldTo<K(==), I, C(==)>(h: Steps<K, I>, r: Request, k: K, alike: K -> C) {
    match h
    case Start => false
    case Then(p, e) =>
      if e.request != r then HeldTo(p, r, k, alike)
      else if e.Write? then HeldTo(p, r, k, alike) || (e.key == k && forall x :: x in WrittenBy(p, r) ==> alike(x) != alike(k))
      else !e.Begin? && HeldTo(p, r, k, alike)
  }

  /** No two different keys of a set are alike. */
  predicate NoTwins<K(==), C(==)>(keys: set<K>, alike: K -> C) {
    forall a, b :: a in keys && b in keys && alike(a) == alike(b) ==> a == b
  }

  /** The runtime holds against a request being decided, under each class of alike keys, the first one written. */
  lemma {:induction false} CreatedIsHeldTo<K(!new), I, C>(h: Steps<K, I>, r: Request, alike: K -> C)
    requires Possible(h) && Deciding(h, r)
    ensures var s := Run(h, alike);
      && r in s.created
      && (forall k :: HeldTo(h, r, k, alike) ==> k in WrittenBy(h, r) && alike(k) in s.created[r] && s.created[r][alike(k)] == k)
      && (forall k :: k in WrittenBy(h, r) ==> alike(k) in s.created[r])
      && (forall c :: c in s.created[r] ==> alike(s.created[r][c]) == c && HeldTo(h, r, s.created[r][c], alike))
  {
    DecidingIsCreated(h, r, alike);
    var p, e := h.earlier, h.latest;
    if e != Begin(r) {
      CreatedIsHeldTo(p, r, alike);
    }
  }

  lemma HeldValues<K(!new), I, C>(h: Steps<K, I>, r: Request, alike: K -> C)
    requires Possible(h) && Deciding(h, r)
    ensures r in Run(h, alike).created && forall k :: k in Run(h, alike).created[r].Values <==> HeldTo(h, r, k, alike)
  {
    CreatedIsHeldTo(h, r, alike);
    hide Run, HeldTo, Possible, Deciding, WrittenBy;
  }

  lemma RefusedStore<K(!new), I, C>(h: Steps<K, I>, r: Request, alike: K -> C)
    requires Possible(h) && Deciding(h, r)
    ensures Run(Then(h, Refuse(r)), alike).store == map k | k in Run(h, alike).store && !HeldTo(h, r, k, alike) :: Run(h, alike).store[k]
  {
    HeldValues(h, r, alike);
    hide HeldTo, Possible, Deciding;
  }

  /**
   What a refusal removes: the first written of each class of alike keys. It is every key the request
   wrote since it began, and no other, iff no two different ones among them are alike.
   */
  lemma RemovesExactlyItsOwn<K(!new), I, C>(h: Steps<K, I>, r: Request, alike: K -> C)
    requires Possible(h) && Deciding(h, r)
    ensures r in Run(h, alike).created && Run(h, alike).created[r].Values <= WrittenBy(h, r)
    ensures Run(Then(h, Refuse(r)), alike).store == Run(h, alike).store - Run(h, alike).created[r].Values
    ensures Run(h, alike).created[r].Values == WrittenBy(h, r) <==> NoTwins(WrittenBy(h, r), alike)
    ensures NoTwins(WrittenBy(h, r), alike) ==> Run(Then(h, Refuse(r)), alike).store == Run(h, alike).store - WrittenBy(h, r)
  {
    CreatedIsHeldTo(h, r, alike);
    var keys, held := WrittenBy(h, r), Run(h, alike).created[r];
    if NoTwins(keys, alike) {
      forall k | k in keys ensures k in held.Values {
        assert held[alike(k)] in keys;
      }
    }
    if held.Values == keys {
      forall a, b | a in keys && b in keys && alike(a) == alike(b) ensures a == b {
        assert held[alike(a)] == a && held[alike(b)] == b;
      }
    }
  }

  /** Decided, and not begun again. */
  predicate Settled<K, I>(h: Steps<K, I>, r: Request) {
    h.Then? && h.latest != Begin(r) &&
    ((h.latest.request == r && !h.latest.Write?) || Settled(h.earlier, r))
  }

  /** Once admitted a request is held to nothing: none of its writes is ever attributed, so none is undone for its sake. */
  lemma {:induction false} AdmittedStaysAdmitted<K, I, C>(h: Steps<K, I>, r: Request, alike: K -> C)
    requires Possible(h) && Settled(h, r)
    ensures Seen(h, r) && !Deciding(h, r) && r !in Run(h, alike).created
  {
    if Settled(h.earlier, r) {
      AdmittedStaysAdmitted(h.earlier, r, alike);
    }
    DecidingIsCreated(h, r, alike);
    DecidingIsCreated(h.earlier, r, alike);
  }

  // ---------------------------------------------------------------- the store, exactly

  /** What the store would hold had requests written nothing before they were refused, nor those in `undone`. */
  function Erased<K, I>(h: Steps<K, I>, undone: set<Request>): map<K, I> {
    match h
    case Start => map[]
    case Then(p, Begin(_)) => Erased(p, undone)
    case Then(p, Write(r, k, i)) => if r in undone then Erased(p, undone) else Erased(p, undone)[k := i]
    case Then(p, Refuse(r)) => Erased(p, undone + {r})
    case Then(p, _) => Erased(p, undone)
  }

  /** The last write of a key that no refusal is held to, and who made it. `undone` are the refused held to it. */
  function LastStanding<K(==), I, C(==)>(h: Steps<K, I>, k: K, undone: set<Request>, alike: K -> C): Option<(Request, I)> {
    match h
    case Start => None
    case Then(p, Begin(r)) => LastStanding(p, k, undone - {r}, alike)
    case Then(p, Write(r, key, i)) => if key == k && r !in undone then Some((r, i)) else LastStanding(p, k, undone, alike)
    case Then(p, Refuse(r)) => LastStanding(p, k, if HeldTo(p, r, k, alike) then undone + {r} else undone, alike)
    case Then(p, _) => LastStanding(p, k, undone, alike)
  }

  /** A refusal evicted the key after the last write of it that no refusal is held to. */
  predicate Lost<K(==), I, C(==)>(h: Steps<K, I>, k: K, undone: set<Request>, evicted: bool, alike: K -> C) {
    match h
    case Start => false
    case Then(p, Begin(r)) => Lost(p, k, undone - {r}, evicted, alike)
    case Then(p, Write(r, key, _)) => if key == k && r !in undone then evicted else Lost(p, k, undone, evicted, alike)
    case Then(p, Refuse(r)) =>
      Lost(p, k, if HeldTo(p, r, k, alike) then undone + {r} else undone, evicted || HeldTo(p, r, k, alike), alike)
    case Then(p, _) => Lost(p, k, undone, evicted, alike)
  }

  /** That write was made by a request since refused, which was not held to it. */
  predicate Stranded<K(==), I, C(==)>(h: Steps<K, I>, k: K, undone: set<Request>, refused: set<Request>, alike: K -> C) {
    match h
    case Start => false
    case Then(p, Begin(r)) => Stranded(p, k, undone - {r}, refused, alike)
    case Then(p, Write(r, key, _)) => if key == k && r !in undone then r in refused else Stranded(p, k, undone, refused, alike)
    case Then(p, Refuse(r)) => Stranded(p, k, if HeldTo(p, r, k, alike) then undone + {r} else undone, refused + {r}, alike)
    case Then(p, _) => Stranded(p, k, undone, refused, alike)
  }

  lemma {:induction false} EvictedIsLost<K, I, C>(h: Steps<K, I>, k: K, undone: set<Request>, alike: K -> C)
    ensures Lost(h, k, undone, true, alike) <==> LastStanding(h, k, undone, alike).Some?
  {
    hide HeldTo;
    match h
    case Start =>
    case Then(p, Begin(r)) => EvictedIsLost(p, k, undone - {r}, alike);
    case Then(p, Write(r, key, _)) => EvictedIsLost(p, k, undone, alike);
    case Then(p, Refuse(r)) => EvictedIsLost(p, k, if HeldTo(p, r, k, alike) then undone + {r} else undone, alike);
    case Then(p, _) => EvictedIsLost(p, k, undone, alike);
  }

  /** The store agrees with the history at every key. */
  lemma {:induction false} AgreesAt<K(!new), I, C>(h: Steps<K, I>, k: K, alike: K -> C)
    requires Possible(h)
    ensures k in Run(h, alike).store <==> LastStanding(h, k, {}, alike).Some? && !Lost(h, k, {}, false, alike)
    ensures k in Run(h, alike).store ==> Run(h, alike).store[k] == LastStanding(h, k, {}, alike).value.1
  {
    hide HeldTo;
    match h
    case Start =>
    case Then(p, Begin(r)) =>
      AgreesAt(p, k, alike);
      assert {} - {r} == {};
    case Then(p, Write(r, key, _)) => AgreesAt(p, k, alike);
    case Then(p, Refuse(r)) =>
      RefusedStore(p, r, alike);
      if HeldTo(p, r, k, alike) {
        EvictedIsLost(p, k, {} + {r}, alike);
      } else {
        AgreesAt(p, k, alike);
      }
    case Then(p, _) => AgreesAt(p, k, alike);
  }

  /**
   Exactly what refusals do to the store, over every interleaving: it holds at each key the last write
   no refusal is held to, less the keys a refusal evicted after that write.
   */
  lemma RefusalExactly<K(!new), I, C>(h: Steps<K, I>, alike: K -> C)
    requires Possible(h)
    ensures forall k :: k in Run(h, alike).store <==> LastStanding(h, k, {}, alike).Some? && !Lost(h, k, {}, false, alike)
    ensures forall k :: k in Run(h, alike).store ==> Run(h, alike).store[k] == LastStanding(h, k, {}, alike).value.1
  {
    forall k ensures k in Run(h, alike).store <==> LastStanding(h, k, {}, alike).Some? && !Lost(h, k, {}, false, alike) {
      AgreesAt(h, k, alike);
    }
    forall k | k in Run(h, alike).store ensures Run(h, alike).store[k] == LastStanding(h, k, {}, alike).value.1 {
      AgreesAt(h, k, alike);
    }
  }

  /** Unless it is stranded, the last standing write is that of the run without the refused requests' writes. */
  lemma {:induction false} StandsAsErased<K, I, C>(h: Steps<K, I>, k: K, undone: set<Request>, refused: set<Request>, alike: K -> C)
    requires undone <= refused && !Stranded(h, k, undone, refused, alike)
    ensures var w := LastStanding(h, k, undone, alike);
      && (k in Erased(h, refused) <==> w.Some?)
      && (w.Some? ==> Erased(h, refused)[k] == w.value.1)
  {
    hide HeldTo;
    match h
    case Start =>
    case Then(p, Begin(r)) => StandsAsErased(p, k, undone - {r}, refused, alike);
    case Then(p, Write(r, key, _)) =>
      if !(key == k && r !in undone) {
        StandsAsErased(p, k, undone, refused, alike);
      }
    case Then(p, Refuse(r)) =>
      StandsAsErased(p, k, if HeldTo(p, r, k, alike) then undone + {r} else undone, refused + {r}, alike);
    case Then(p, _) => StandsAsErased(p, k, undone, refused, alike);
  }

  /**
   The condition at one key: a write left behind by a refusal is gone again with nothing under it, or what
   is under it is the same instance; and a write nobody undid was not evicted from under its writer.
   */
  predicate ErasedAt<K(==), I(==), C(==)>(h: Steps<K, I>, k: K, alike: K -> C) {
    var without, lost := Erased(h, {}), Lost(h, k, {}, false, alike);
    if Stranded(h, k, {}, {}, alike) then
      if lost then k !in without
      else k in without && LastStanding(h, k, {}, alike).Some? && without[k] == LastStanding(h, k, {}, alike).value.1
    else k in without ==> !lost
  }

  lemma {:induction false} StrandedStands<K, I, C>(h: Steps<K, I>, k: K, undone: set<Request>, refused: set<Request>, alike: K -> C)
    requires Stranded(h, k, undone, refused, alike)
    ensures LastStanding(h, k, undone, alike).Some?
  {
    hide HeldTo;
    match h
    case Start =>
    case Then(p, Begin(r)) => StrandedStands(p, k, undone - {r}, refused, alike);
    case Then(p, Write(r, key, _)) =>
      if !(key == k && r !in undone) {
        StrandedStands(p, k, undone, refused, alike);
      }
    case Then(p, Refuse(r)) =>
      StrandedStands(p, k, if HeldTo(p, r, k, alike) then undone + {r} else undone, refused + {r}, alike);
    case Then(p, _) => StrandedStands(p, k, undone, refused, alike);
  }

  predicate SameAt<K(==), I(==)>(a: map<K, I>, b: map<K, I>, k: K) {
    (k in a <==> k in b) && (k in a && k in b ==> a[k] == b[k])
  }

  lemma ErasedAtKey<K(!new), I, C>(h: Steps<K, I>, k: K, alike: K -> C)
    requires Possible(h)
    ensures SameAt(Run(h, alike).store, Erased(h, {}), k) <==> ErasedAt(h, k, alike)
  {
    hide Run, Lost, LastStanding, Stranded, Erased, Possible;
    AgreesAt(h, k, alike);
    if Stranded(h, k, {}, {}, alike) {
      StrandedStands(h, k, {}, {}, alike);
    } else {
      StandsAsErased(h, k, {}, {}, alike);
    }
  }

  lemma SameEverywhere<K(!new), I>(a: map<K, I>, b: map<K, I>)
    ensures a == b <==> forall k :: SameAt(a, b, k)
  {
    if forall k :: SameAt(a, b, k) {
      forall k | k in a ensures k in b && a[k] == b[k] {
        assert SameAt(a, b, k);
      }
      forall k | k in b ensures k in a {
        assert SameAt(a, b, k);
      }
    }
  }

  /** Refusal is erasure iff the condition holds at every key. */
  lemma RefusalErasesIff<K(!new), I, C>(h: Steps<K, I>, alike: K -> C)
    requires Possible(h)
    ensures Run(h, alike).store == Erased(h, {}) <==> forall k :: ErasedAt(h, k, alike)
  {
    SameEverywhere(Run(h, alike).store, Erased(h, {}));
    hide Run, Erased, SameAt, ErasedAt, Possible;
    forall k ensures SameAt(Run(h, alike).store, Erased(h, {}), k) <==> ErasedAt(h, k, alike) {
      ErasedAtKey(h, k, alike);
    }
  }

  // ---------------------------------------------------------------- distinct writers

  /** No key is written by two different requests. */
  predicate Owned<K, I>(h: Steps<K, I>, owner: K -> Request) {
    match h
    case Start => true
    case Then(p, e) => Owned(p, owner) && (e.Write? ==> e.request == owner(e.key))
  }

  lemma {:induction false} HeldIsOwned<K, I, C>(h: Steps<K, I>, owner: K -> Request, r: Request, k: K, alike: K -> C)
    requires Owned(h, owner) && HeldTo(h, r, k, alike)
    ensures owner(k) == r
  {
    if HeldTo(h.earlier, r, k, alike) {
      HeldIsOwned(h.earlier, owner, r, k, alike);
    }
  }

  /** Only its own writer's refusal evicts a key, and that leaves the write it was not held to stranded. */
  lemma {:induction false} LostIsStranded<K, I, C>(h: Steps<K, I>, owner: K -> Request, k: K,
      undone: set<Request>, refused: set<Request>, evicted: bool, alike: K -> C)
    requires Owned(h, owner) && (evicted ==> owner(k) in refused) && Lost(h, k, undone, evicted, alike)
    ensures Stranded(h, k, undone, refused, alike)
  {
    hide HeldTo;
    match h
    case Then(p, Begin(r)) => LostIsStranded(p, owner, k, undone - {r}, refused, evicted, alike);
    case Then(p, Write(r, key, _)) =>
      if !(key == k && r !in undone) {
        LostIsStranded(p, owner, k, undone, refused, evicted, alike);
      }
    case Then(p, Refuse(r)) =>
      var held := HeldTo(p, r, k, alike);
      if held {
        HeldIsOwned(p, owner, r, k, alike);
      }
      LostIsStranded(p, owner, k, if held then undone + {r} else undone, refused + {r}, evicted || held, alike);
    case Then(p, _) => LostIsStranded(p, owner, k, undone, refused, evicted, alike);
  }

  /** The only writer of a key having been refused, the run without its writes never held the key. */
  lemma {:induction false} RefusedWroteNothing<K, I>(h: Steps<K, I>, owner: K -> Request, k: K, refused: set<Request>)
    requires Owned(h, owner) && owner(k) in refused
    ensures k !in Erased(h, refused)
  {
    match h
    case Start =>
    case Then(p, Refuse(r)) => RefusedWroteNothing(p, owner, k, refused + {r});
    case Then(p, _) => RefusedWroteNothing(p, owner, k, refused);
  }

  lemma {:induction false} StrandedIsOnlyThere<K, I, C>(h: Steps<K, I>, owner: K -> Request, k: K, undone: set<Request>, refused: set<Request>, alike: K -> C)
    requires Owned(h, owner) && undone <= refused && Stranded(h, k, undone, refused, alike)
    ensures k !in Erased(h, refused)
  {
    hide HeldTo;
    match h
    case Then(p, Begin(r)) => StrandedIsOnlyThere(p, owner, k, undone - {r}, refused, alike);
    case Then(p, Write(r, key, _)) =>
      if key == k && r !in undone {
        RefusedWroteNothing(h, owner, k, refused);
      } else {
        StrandedIsOnlyThere(p, owner, k, undone, refused, alike);
      }
    case Then(p, Refuse(r)) =>
      StrandedIsOnlyThere(p, owner, k, if HeldTo(p, r, k, alike) then undone + {r} else undone, refused + {r}, alike);
    case Then(p, _) => StrandedIsOnlyThere(p, owner, k, undone, refused, alike);
  }

  /** A refused request's write stands, the request not being held to it, and no refusal evicted the key since. */
  predicate LeftBehind<K(==), I, C(==)>(h: Steps<K, I>, k: K, alike: K -> C) {
    Stranded(h, k, {}, {}, alike) && !Lost(h, k, {}, false, alike)
  }

  /** With no key written by two requests, refusal is erasure iff no refused request's write is left behind. */
  lemma RefusalIsErasure<K(!new), I, C>(h: Steps<K, I>, owner: K -> Request, alike: K -> C)
    requires Possible(h) && Owned(h, owner)
    ensures Run(h, alike).store == Erased(h, {}) <==> forall k :: !LeftBehind(h, k, alike)
  {
    RefusalErasesIff(h, alike);
    hide Run, Erased, Possible, Owned, Stranded, Lost, LastStanding;
    forall k ensures ErasedAt(h, k, alike) <==> !LeftBehind(h, k, alike) {
      if Lost(h, k, {}, false, alike) {
        LostIsStranded(h, owner, k, {}, {}, false, alike);
      }
      if Stranded(h, k, {}, {}, alike) {
        StrandedIsOnlyThere(h, owner, k, {}, {}, alike);
      }
    }
  }

  // ---------------------------------------------------------------- what a refusal reaches

  /** Every key a request wrote, before it began to be decided or since. */
  function EverWritten<K, I>(h: Steps<K, I>, r: Request): set<K> {
    match h
    case Start => {}
    case Then(p, e) => EverWritten(p, r) + if e.Write? && e.request == r then {e.key} else {}
  }

  predicate Refused<K, I>(h: Steps<K, I>, r: Request) {
    h.Then? && (h.latest == Refuse(r) || Refused(h.earlier, r))
  }

  /** A refused request writes nothing more. */
  predicate Quiet<K, I>(h: Steps<K, I>) {
    h.Then? ==> Quiet(h.earlier) && (h.latest.Write? ==> !Refused(h.earlier, h.latest.request))
  }

  /** A refusal of `r` now reaches all it wrote: nothing before it began that it did not write again, and no twins since. */
  predicate Reached<K(==), I, C(==)>(h: Steps<K, I>, r: Request, alike: K -> C) {
    EverWritten(h, r) <= WrittenBy(h, r) && NoTwins(WrittenBy(h, r), alike)
  }

  /** Whenever a request was refused for the first time, the refusal reached all it wrote. */
  predicate AllReached<K(==), I, C(==)>(h: Steps<K, I>, alike: K -> C) {
    match h
    case Start => true
    case Then(p, Refuse(r)) => AllReached(p, alike) && (Refused(p, r) || Reached(p, r, alike))
    case Then(p, _) => AllReached(p, alike)
  }

  lemma {:induction false} WrittenEver<K, I>(h: Steps<K, I>, r: Request)
    ensures WrittenBy(h, r) <= EverWritten(h, r)
  {
    if h.Then? {
      WrittenEver(h.earlier, r);
    }
  }

  /** What a refusal reaches is what it is held to: all it wrote, or some key is out of its reach. */
  lemma ReachedIff<K(!new), I, C>(h: Steps<K, I>, r: Request, alike: K -> C)
    requires Possible(h) && Deciding(h, r)
    ensures Reached(h, r, alike) <==> forall k :: k in EverWritten(h, r) ==> HeldTo(h, r, k, alike)
  {
    CreatedIsHeldTo(h, r, alike);
    WrittenEver(h, r);
    var keys, held := WrittenBy(h, r), Run(h, alike).created[r];
    hide HeldTo, Run, Possible, Deciding, WrittenBy, EverWritten;
    if Reached(h, r, alike) {
      forall k | k in keys ensures HeldTo(h, r, k, alike) {
        assert held[alike(k)] in keys;
      }
    }
  }

  lemma {:induction false} EverIsOwned<K, I>(h: Steps<K, I>, owner: K -> Request, r: Request, k: K)
    requires Owned(h, owner) && k in EverWritten(h, r)
    ensures owner(k) == r
  {
    if k in EverWritten(h.earlier, r) {
      EverIsOwned(h.earlier, owner, r, k);
    }
  }

  /** Where every refusal reached all there was, a write that is stranded was evicted all the same. */
  lemma {:induction false} StrandedIsLost<K(!new), I, C>(h: Steps<K, I>, owner: K -> Request, k: K,
      undone: set<Request>, refused: set<Request>, evicted: bool, alike: K -> C)
    requires Possible(h) && Owned(h, owner) && Quiet(h) && AllReached(h, alike)
    requires owner(k) in refused && !Refused(h, owner(k)) ==> evicted || k !in EverWritten(h, owner(k))
    requires Stranded(h, k, undone, refused, alike)
    ensures Lost(h, k, undone, evicted, alike)
  {
    match h
    case Then(p, Begin(r)) => StrandedIsLost(p, owner, k, undone - {r}, refused, evicted, alike);
    case Then(p, Write(r, key, _)) =>
      if !(key == k && r !in undone) {
        StrandedIsLost(p, owner, k, undone, refused, evicted, alike);
      }
    case Then(p, Refuse(r)) =>
      ReachedIff(p, r, alike);
      hide HeldTo, Reached, Deciding;
      var held := HeldTo(p, r, k, alike);
      StrandedIsLost(p, owner, k, if held then undone + {r} else undone, refused + {r}, evicted || held, alike);
    case Then(p, _) => StrandedIsLost(p, owner, k, undone, refused, evicted, alike);
  }

  /** A request that was refused wrote nothing since it began again, so it is held to nothing. */
  lemma {:induction false} RefusedHoldsNothing<K, I, C>(h: Steps<K, I>, r: Request, k: K, alike: K -> C)
    requires Possible(h) && Quiet(h) && Refused(h, r) && Deciding(h, r)
    ensures !HeldTo(h, r, k, alike)
  {
    if h.latest != Begin(r) {
      RefusedHoldsNothing(h.earlier, r, k, alike);
    }
  }

  /** The last write of a key by a request since refused: it is stranded, and evicted only if it was already. */
  lemma {:induction false} LastWriteStands<K, I, C>(h: Steps<K, I>, owner: K -> Request, k: K,
      undone: set<Request>, refused: set<Request>, alike: K -> C)
    requires Possible(h) && Owned(h, owner) && !Refused(h, owner(k))
    requires k in EverWritten(h, owner(k)) && owner(k) in refused && owner(k) !in undone
    ensures Stranded(h, k, undone, refused, alike) && !Lost(h, k, undone, false, alike)
  {
    match h
    case Then(p, Begin(r)) => LastWriteStands(p, owner, k, undone - {r}, refused, alike);
    case Then(p, Write(r, key, _)) =>
      if key != k {
        LastWriteStands(p, owner, k, undone, refused, alike);
      }
    case Then(p, Refuse(r)) =>
      if HeldTo(p, r, k, alike) {
        HeldIsOwned(p, owner, r, k, alike);
      }
      hide HeldTo;
      LastWriteStands(p, owner, k, undone, refused + {r}, alike);
    case Then(p, _) => LastWriteStands(p, owner, k, undone, refused, alike);
  }

  /** What one refusal left behind stays so: its writer is quiet, and nobody else's refusal touches it. */
  lemma {:induction false} StaysBehind<K, I, C>(h: Steps<K, I>, owner: K -> Request, k: K,
      undone: set<Request>, refused: set<Request>, alike: K -> C)
    requires Possible(h) && Owned(h, owner) && Quiet(h) && Refused(h, owner(k)) && owner(k) !in undone
    requires LeftBehindBy(h, owner(k), k, alike)
    ensures Stranded(h, k, undone, refused, alike) && !Lost(h, k, undone, false, alike)
  {
    match h
    case Then(p, Begin(r)) => StaysBehind(p, owner, k, undone - {r}, refused, alike);
    case Then(p, Write(r, key, _)) => StaysBehind(p, owner, k, undone, refused, alike);
    case Then(p, Refuse(r)) =>
      if HeldTo(p, r, k, alike) {
        HeldIsOwned(p, owner, r, k, alike);
      }
      if Refused(p, owner(k)) {
        if r == owner(k) {
          RefusedHoldsNothing(p, r, k, alike);
        }
        hide HeldTo;
        StaysBehind(p, owner, k, undone, refused + {r}, alike);
      } else {
        hide HeldTo;
        LastWriteStands(p, owner, k, undone, refused + {r}, alike);
      }
    case Then(p, _) => StaysBehind(p, owner, k, undone, refused, alike);
  }

  /** The first refusal of `r` was not held to a key it had written. */
  predicate LeftBehindBy<K(==), I, C(==)>(h: Steps<K, I>, r: Request, k: K, alike: K -> C) {
    h.Then? &&
    if h.latest == Refuse(r) && !Refused(h.earlier, r) then k in EverWritten(h.earlier, r) && !HeldTo(h.earlier, r, k, alike)
    else LeftBehindBy(h.earlier, r, k, alike)
  }

  lemma {:induction false} SomethingOutOfReach<K(!new), I, C>(h: Steps<K, I>, alike: K -> C) returns (r: Request, k: K)
    requires Possible(h) && !AllReached(h, alike)
    ensures Refused(h, r) && LeftBehindBy(h, r, k, alike)
    ensures k in EverWritten(h, r)
  {
    var p := h.earlier;
    if !AllReached(p, alike) {
      r, k := SomethingOutOfReach(p, alike);
    } else {
      r := h.latest.request;
      ReachedIff(p, r, alike);
      k :| k in EverWritten(p, r) && !HeldTo(p, r, k, alike);
    }
  }

  /**
   Where no key is written by two requests and a refused one writes nothing more, refusal is erasure iff
   every first refusal reached all its request wrote: no key before it began to be decided that it did
   not write again, and no two different ones since that are alike.
   */
  lemma ErasesIffAllReached<K(!new), I, C>(h: Steps<K, I>, owner: K -> Request, alike: K -> C)
    requires Possible(h) && Owned(h, owner) && Quiet(h)
    ensures Run(h, alike).store == Erased(h, {}) <==> AllReached(h, alike)
  {
    RefusalIsErasure(h, owner, alike);
    hide Run, Erased, Possible, Owned, Quiet, Stranded, Lost, AllReached, Refused, LeftBehindBy;
    if AllReached(h, alike) {
      forall k ensures !LeftBehind(h, k, alike) {
        if Stranded(h, k, {}, {}, alike) {
          StrandedIsLost(h, owner, k, {}, {}, false, alike);
        }
      }
    } else {
      var r, k := SomethingOutOfReach(h, alike);
      EverIsOwned(h, owner, r, k);
      StaysBehind(h, owner, k, {}, {}, alike);
      assert LeftBehind(h, k, alike);
    }
  }

  /** What a request's middleware cached before its guards refused it is left behind. */
  lemma MiddlewareStaysBehind<K, I, C>(r: Request, k: K, i: I, alike: K -> C) returns (h: Steps<K, I>)
    ensures Possible(h) && Owned(h, (key: K) => r) && Quiet(h) && Refused(h, r)
    ensures Run(h, alike).store == map[k := i] && Erased(h, {}) == map[]
  {
    var owner := (key: K) => r;
    var h1 := Then(Start, Write(r, k, i));
    var h2 := Then(h1, Begin(r));
    h := Then(h2, Refuse(r));
    assert Possible(h1) && Owned(h1, owner) && Quiet(h1);
    assert Possible(h2) && Owned(h2, owner) && Quiet(h2) && Deciding(h2, r);
    assert Run(h1, alike) == State(map[k := i], map[]);
    assert Run(h2, alike) == State(map[k := i], map[r := map[]]);
    var none: map<C, K> := map[];
    assert none.Values == {};
    assert Alone(h1, r);
    assert Alone(h2, r);
    AloneLeavesNothing(h2, r, {} + {r});
  }

  /** Of a run in which only `r` takes steps, nothing remains without its writes. */
  lemma {:induction false} AloneLeavesNothing<K, I>(h: Steps<K, I>, r: Request, undone: set<Request>)
    requires Alone(h, r) && r in undone
    ensures Erased(h, undone) == map[]
  {
    match h
    case Start =>
    case Then(p, Refuse(_)) => AloneLeavesNothing(p, r, undone + {r});
    case Then(p, _) => AloneLeavesNothing(p, r, undone);
  }

  predicate Alone<K, I>(h: Steps<K, I>, r: Request) {
    h.Then? ==> h.latest.request == r && Alone(h.earlier, r)
  }

  /** A request that wrote two keys alike and was refused leaves the second behind. */
  lemma TwinStaysBehind<K, I, C>(a: K, b: K, i: I, j: I, owner: K -> Request, alike: K -> C) returns (h: Steps<K, I>)
    requires a != b && alike(a) == alike(b) && owner(a) == owner(b)
    ensures Possible(h) && Owned(h, owner) && Refused(h, owner(a))
    ensures Run(h, alike).store == map[b := j] && Erased(h, {}) == map[]
  {
    var r, c := owner(a), alike(a);
    var h1 := Then(Start, Begin(r));
    var h2 := Then(h1, Write(r, a, i));
    var h3 := Then(h2, Write(r, b, j));
    h := Then(h3, Refuse(r));
    assert Possible(h1) && Deciding(h1, r) && Owned(h1, owner);
    assert Possible(h2) && Deciding(h2, r) && Owned(h2, owner);
    assert Possible(h3) && Deciding(h3, r) && Owned(h3, owner);
    assert Run(h1, alike) == State(map[], map[r := map[]]);
    assert Run(h2, alike) == State(map[a := i], map[r := map[c := a]]);
    assert Run(h3, alike) == State(map[a := i, b := j], map[r := map[c := a]]);
    assert map[c := a].Values == {a};
    assert Alone(h1, r);
    assert Alone(h2, r);
    assert Alone(h3, r);
    AloneLeavesNothing(h3, r, {} + {r});
  }

  /** Two requests writing one key: the refusal of the first takes the second's partition with it. */
  lemma SharedKeyLoses() returns (h: Steps<int, string>)
    ensures Possible(h) && Run(h, (k: int) => k).store == map[] && Erased(h, {}) == map[7 := "served"]
  {
    var same := (k: int) => k;
    var h1 := Then(Start, Begin(1));
    var h2 := Then(h1, Write(1, 7, "refused"));
    var h3 := Then(h2, Write(2, 7, "served"));
    h := Then(h3, Refuse(1));
    assert Run(h1, same) == State(map[], map[1 := map[]]);
    assert Run(h2, same) == State(map[7 := "refused"], map[1 := map[7 := 7]]);
    assert Run(h3, same) == State(map[7 := "served"], map[1 := map[7 := 7]]);
    assert map[7 := 7].Values == {7};
    assert {} + {1} == {1};
    assert Erased(h3, {1}) == Erased(h2, {1})[7 := "served"];
  }
}
