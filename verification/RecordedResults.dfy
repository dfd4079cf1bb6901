/**
 The bounded, timed store behind `Cache` and `Idempotent`: what it holds after any history of
 recordings and look-ups, and exactly when it answers.
 */
module RecordedResults {
  import opened Options
  import opened OrderedDict

  /** One handler result held for replay, and the moment it stops being answerable. */
  datatype Recorded<+V> = Recorded(value: V, expiresAt: real)

  type Entries<K(!new), V> = Dict<K, Recorded<V>>

  predicate Answerable<K(!new), V>(d: Entries<K, V>, k: K, now: real) {
    k in d.items && d.items[k].expiresAt > now
  }

  function Answered<K(!new), V>(d: Entries<K, V>, k: K, now: real): Option<Recorded<V>> {
    if Answerable(d, k, now) then Some(d.items[k]) else None
  }

  /** An expired entry is forgotten when it is asked for. */
  function Asked<K(!new), V>(d: Entries<K, V>, k: K, now: real): (r: Entries<K, V>)
    requires d.Valid()
    ensures r.Valid()
  {
    if k in d.items && !Answerable(d, k, now) then d.Delete(k) else d
  }

  /** Nothing has expired at the front and the limit is kept. */
  predicate Settled<K(!new), V>(d: Entries<K, V>, now: real, limit: nat) {
    d.order == [] || (|d.order| <= limit && Answerable(d, d.order[0], now))
  }

  function DropStale<K(!new), V>(d: Entries<K, V>, now: real, limit: nat): (r: Entries<K, V>)
    requires d.Valid()
    ensures r.Valid() && Settled(r, now, limit)
    decreases |d.order|
  {
    if Settled(d, now, limit) then d else DropStale(d.PopFirst(), now, limit)
  }

  /** The store after a recording, before anything is dropped. */
  function Placed<K(!new), V>(d: Entries<K, V>, k: K, r: Recorded<V>): (p: Entries<K, V>)
    requires d.Valid()
    ensures p.Valid()
  {
    d.Put(k, r).MoveToEnd(k)
  }

  function Kept<K(!new), V>(d: Entries<K, V>, k: K, v: V, now: real, ttl: real, limit: nat): (r: Entries<K, V>)
    requires d.Valid()
    ensures r.Valid()
  {
    DropStale(Placed(d, k, Recorded(v, now + ttl)), now, limit)
  }

  class ResultStore<K(!new, ==), V> {
    const limit: nat
    var entries: Entries<K, V>

    ghost predicate Valid()
      reads this
    {
      entries.Valid() && entries.Size() <= limit
    }

    constructor (limit: nat)
      ensures Valid() && this.limit == limit && entries == Empty()
    {
      this.limit := limit;
      entries := Empty();
    }

    method Answer(key: K, now: real) returns (answer: Option<Recorded<V>>)
      requires Valid()
      modifies this
      ensures Valid()
      ensures entries == Asked(old(entries), key, now)
      ensures answer == Answered(old(entries), key, now)
    {
      WithoutElements(entries.order, key);
      if key !in entries.items {
        return None;
      }
      var entry := entries.items[key];
      if entry.expiresAt <= now {
        entries := entries.Delete(key);
        return None;
      }
      return Some(entry);
    }

    method Record(key: K, value: V, now: real, ttl: real)
      requires Valid()
      modifies this
      ensures Valid()
      ensures entries == Kept(old(entries), key, value, now, ttl, limit)
    {
      entries := entries.Put(key, Recorded(value, now + ttl));
      entries := entries.MoveToEnd(key);
      ghost var placed := entries;
      while entries.order != []
        invariant entries.Valid()
        invariant DropStale(entries, now, limit) == DropStale(placed, now, limit)
        decreases |entries.order|
      {
        var oldest := entries.items[entries.order[0]];
        if entries.Size() <= limit && oldest.expiresAt > now {
          return;
        }
        entries := entries.PopFirst();
      }
    }
  }

  // ---------------------------------------------------------------- histories

  /** What happened to one store, in the order its lock was taken. */
  datatype Event<K, V> =
    | Record(key: K, value: V, now: real, ttl: real)
    | Look(key: K, now: real)

  type History<K, V> = Trail<Event<K, V>>

  function Run<K(!new), V>(h: History<K, V>, limit: nat): (d: Entries<K, V>)
    ensures d.Valid()
  {
    match h
    case Start => Empty()
    case Then(p, Record(k, v, now, ttl)) => Kept(Run(p, limit), k, v, now, ttl, limit)
    case Then(p, Look(k, now)) => Asked(Run(p, limit), k, now)
  }

  /** The keys recorded so far, look-ups left out. */
  function Written<K, V>(h: History<K, V>): Trail<K> {
    match h
    case Start => Start
    case Then(p, e) => if e.Record? then Then(Written(p), e.key) else Written(p)
  }

  /** The recording a key was last given. */
  function LastRecord<K(==), V>(h: History<K, V>, k: K): Option<Event<K, V>> {
    match h
    case Start => None
    case Then(p, e) => if e.Record? && e.key == k then Some(e) else LastRecord(p, k)
  }

  /** Clock readings do not step back in the order the lock was taken. */
  predicate Ordered<K, V>(h: History<K, V>) {
    match h
    case Start => true
    case Then(p, e) => Ordered(p) && (p.Then? ==> p.latest.now <= e.now)
  }

  predicate Before<K, V>(h: History<K, V>, now: real) {
    h.Then? ==> h.latest.now <= now
  }

  predicate OneTtl<K, V>(h: History<K, V>, ttl: real) {
    match h
    case Start => true
    case Then(p, e) => (e.Record? ==> e.ttl == ttl) && OneTtl(p, ttl)
  }

  lemma {:induction false} OneTtlIff<K(!new), V(!new)>(h: History<K, V>, ttl: real)
    ensures OneTtl(h, ttl) <==> forall e: Event<K, V> :: Occurs(h, e) && e.Record? ==> e.ttl == ttl
  {
    if h.Then? {
      OneTtlIff(h.earlier, ttl);
      assert Occurs(h, h.latest);
      assert forall e: Event<K, V> :: Occurs(h, e) <==> e == h.latest || Occurs(h.earlier, e);
    }
  }

  /** The last recording of `k` has not expired. */
  predicate Fresh<K(!new, ==), V>(h: History<K, V>, k: K, now: real) {
    LastRecord(h, k).Some? && LastRecord(h, k).value.Record? && now < Expiry(LastRecord(h, k).value)
  }

  function Expiry<K, V>(e: Event<K, V>): real
    requires e.Record?
  {
    e.now + e.ttl
  }

  /** The other keys recorded since `k` last was. */
  function OthersSince<K(!new, ==), V>(h: History<K, V>, k: K): set<K> {
    Since(Written(h), k)
  }

  // ---------------------------------------------------------------- what is held

  /** Every held entry is its key's last recording, whatever the ttls and the clock. */
  ghost predicate Sound<K(!new), V>(d: Entries<K, V>, h: History<K, V>) {
    forall k :: k in d.items ==> IsLastRecord(d.items[k], h, k)
  }

  predicate IsLastRecord<K(==), V(==)>(r: Recorded<V>, h: History<K, V>, k: K) {
    match LastRecord(h, k)
    case Some(Record(_, v, now, ttl)) => r == Recorded(v, now + ttl)
    case _ => false
  }

  /** Whatever stands behind an entry was recorded after it. */
  ghost predicate InOrder<K(!new), V>(order: seq<K>, h: History<K, V>) {
    order == [] || ((forall x :: x in order[1..] ==> x in OthersSince(h, order[0])) && InOrder(order[1..], h))
  }

  lemma {:induction false} DropStaleSubset<K(!new), V>(d: Entries<K, V>, h: History<K, V>, now: real, limit: nat)
    requires d.Valid() && InOrder(d.order, h)
    ensures var r := DropStale(d, now, limit);
      && InOrder(r.order, h) && |r.order| <= limit
      && (forall k :: k in r.items ==> k in d.items && r.items[k] == d.items[k])
    decreases |d.order|
  {
    if !Settled(d, now, limit) {
      DropStaleSubset(d.PopFirst(), h, now, limit);
    }
  }

  lemma {:induction false} InOrderWithout<K(!new), V>(order: seq<K>, h: History<K, V>, k: K)
    requires InOrder(order, h)
    ensures InOrder(Without(order, k), h)
  {
    if order != [] {
      InOrderWithout(order[1..], h, k);
      WithoutElements(order[1..], k);
    }
  }

  lemma {:induction false} InOrderPlaced<K(!new), V>(order: seq<K>, h: History<K, V>, e: Event<K, V>)
    requires InOrder(order, h) && e.Record? && e.key !in order
    ensures InOrder(order + [e.key], Then(h, e))
  {
    if order == [] {
      assert order + [e.key] == [e.key];
    } else {
      InOrderPlaced(order[1..], h, e);
      assert (order + [e.key])[1..] == order[1..] + [e.key];
    }
  }

  function Entry<K, V>(e: Event<K, V>): Recorded<V>
    requires e.Record?
  {
    Recorded(e.value, e.now + e.ttl)
  }

  lemma PlacedInOrder<K(!new), V>(d: Entries<K, V>, h: History<K, V>, e: Event<K, V>)
    requires d.Valid() && InOrder(d.order, h) && e.Record?
    ensures InOrder(Placed(d, e.key, Entry(e)).order, Then(h, e))
  {
    PutLast(d, e.key, Entry(e));
    InOrderWithout(d.order, h, e.key);
    WithoutElements(d.order, e.key);
    InOrderPlaced(Without(d.order, e.key), h, e);
  }

  lemma PlacedSound<K(!new), V>(d: Entries<K, V>, h: History<K, V>, e: Event<K, V>)
    requires d.Valid() && Sound(d, h) && e.Record?
    ensures Sound(Placed(d, e.key, Entry(e)), Then(h, e))
  {
  }

  ghost predicate Holding<K(!new), V>(d: Entries<K, V>, h: History<K, V>, limit: nat) {
    Sound(d, h) && InOrder(d.order, h) && d.Size() <= limit
  }

  lemma KeptHolds<K(!new), V>(d: Entries<K, V>, p: History<K, V>, e: Event<K, V>, limit: nat)
    requires d.Valid() && e.Record? && Holding(d, p, limit)
    ensures Holding(Kept(d, e.key, e.value, e.now, e.ttl, limit), Then(p, e), limit)
  {
    hide InOrder, Placed, IsLastRecord, DropStale;
    var h := Then(p, e);
    PlacedInOrder(d, p, e);
    DropStaleSubset(Placed(d, e.key, Entry(e)), h, e.now, limit);
    PlacedSound(d, p, e);
  }

  lemma AskedHolds<K(!new), V>(d: Entries<K, V>, p: History<K, V>, e: Event<K, V>, limit: nat)
    requires d.Valid() && e.Look? && Holding(d, p, limit)
    ensures Holding(Asked(d, e.key, e.now), Then(p, e), limit)
  {
    InOrderWithout(d.order, p, e.key);
    WithoutElements(d.order, e.key);
    SameOrder(Asked(d, e.key, e.now).order, p, Then(p, e));
    hide InOrder, Without;
  }

  /** Soundness, order and the size bound, over every history, whatever the ttls and the clock. */
  lemma {:induction false} Holds<K(!new), V>(h: History<K, V>, limit: nat)
    ensures Sound(Run(h, limit), h)
    ensures InOrder(Run(h, limit).order, h)
    ensures Run(h, limit).Size() <= limit
  {
    if h.Then? {
      Holds(h.earlier, limit);
      hide Kept, Asked, Sound, InOrder;
      if h.latest.Record? {
        KeptHolds(Run(h.earlier, limit), h.earlier, h.latest, limit);
      } else {
        AskedHolds(Run(h.earlier, limit), h.earlier, h.latest, limit);
      }
    }
  }

  lemma {:induction false} SameOrder<K(!new), V>(order: seq<K>, p: History<K, V>, h: History<K, V>)
    requires InOrder(order, p) && Written(p) == Written(h)
    ensures InOrder(order, h)
  {
    if order != [] {
      SameOrder(order[1..], p, h);
    }
  }

  // ---------------------------------------------------------------- when the store answers

  /**
   The keys that stand behind `k` while it is held: those recorded since, less those a look-up found
   expired and forgot.
   */
  function Crowd<K(!new, ==), V>(h: History<K, V>, k: K): set<K> {
    match h
    case Start => {}
    case Then(p, Record(x, _, _, _)) => if x == k then {} else Crowd(p, k) + {x}
    case Then(p, Look(x, now)) => if Fresh(p, x, now) then Crowd(p, k) else Crowd(p, k) - {x}
  }

  /** At no moment since `k` was last recorded did `limit` keys stand behind it. */
  predicate NeverCrowded<K(!new, ==), V>(h: History<K, V>, k: K, limit: nat) {
    match h
    case Start => limit >= 1
    case Then(p, e) => if e.Record? && e.key == k then limit >= 1 else NeverCrowded(p, k, limit) && |Crowd(h, k)| < limit
  }

  /** What stands behind a key. */
  function After<K(==)>(order: seq<K>, k: K): seq<K> {
    if order == [] then [] else if order[0] == k then order[1..] else After(order[1..], k)
  }

  lemma {:induction false} AfterElements<K>(order: seq<K>, k: K)
    requires Distinct(order)
    ensures Distinct(After(order, k)) && k !in After(order, k) && forall x :: x in After(order, k) ==> x in order
    ensures k in order ==> |After(order, k)| < |order|
  {
    if order != [] {
      AfterElements(order[1..], k);
      assert order == [order[0]] + order[1..];
    }
  }

  lemma {:induction false} AfterWithout<K>(order: seq<K>, k: K, x: K)
    requires x != k
    ensures After(Without(order, x), k) == Without(After(order, k), x)
  {
    if order != [] && order[0] != k {
      AfterWithout(order[1..], k, x);
    }
  }

  lemma {:induction false} AfterAppended<K>(order: seq<K>, k: K, x: K)
    ensures k in order ==> After(order + [x], k) == After(order, k) + [x]
    ensures k !in order && x == k ==> After(order + [x], k) == []
  {
    if order != [] {
      assert (order + [x])[1..] == order[1..] + [x];
      assert order == [order[0]] + order[1..];
      AfterAppended(order[1..], k, x);
    }
  }

  /** An unexpired key survives the dropping iff fewer than `limit` keys stand behind it, and they stay. */
  lemma {:induction false} DropStaleExactly<K(!new), V>(d: Entries<K, V>, k: K, now: real, limit: nat)
    requires d.Valid() && Answerable(d, k, now)
    ensures var r := DropStale(d, now, limit);
      && (k in r.items <==> |After(d.order, k)| < limit)
      && (k in r.items ==> After(r.order, k) == After(d.order, k))
    decreases |d.order|
  {
    AfterElements(d.order, k);
    if !Settled(d, now, limit) {
      if d.order[0] == k {
        StaysDropped(d.PopFirst(), k, now, limit);
      } else {
        DropStaleExactly(d.PopFirst(), k, now, limit);
      }
    }
  }

  lemma {:induction false} StaysDropped<K(!new), V>(d: Entries<K, V>, k: K, now: real, limit: nat)
    requires d.Valid() && k !in d.items
    ensures k !in DropStale(d, now, limit).items
    decreases |d.order|
  {
    if !Settled(d, now, limit) {
      StaysDropped(d.PopFirst(), k, now, limit);
    }
  }

  /** A store as one unexpired key sees it: held unless it was ever crowded out, with its crowd behind it. */
  ghost predicate Placing<K(!new), V>(d: Entries<K, V>, h: History<K, V>, k: K, limit: nat) {
    && (k in d.items <==> NeverCrowded(h, k, limit))
    && (k in d.items ==> forall x :: x in After(d.order, k) <==> x in Crowd(h, k))
  }

  lemma PlacedAfter<K(!new), V>(d: Entries<K, V>, x: K, r: Recorded<V>, k: K)
    requires d.Valid()
    ensures var placed := Placed(d, x, r);
      && placed.items == d.items[x := r]
      && (x == k ==> After(placed.order, k) == [])
      && (x != k && k in d.items ==>
        After(placed.order, k) == Without(After(d.order, k), x) + [x] && forall y :: y in After(placed.order, k) <==> y in After(d.order, k) || y == x)
  {
    hide After, Distinct;
    WithoutElements(d.order, x);
    PutLast(d, x, r);
    AfterAppended(Without(d.order, x), k, x);
    if x != k && k in d.items {
      assert k in d.order;
      AfterWithout(d.order, k, x);
      WithoutElements(After(d.order, k), x);
    }
    hide Without;
  }

  lemma RecordsItself<K(!new), V>(d: Entries<K, V>, p: History<K, V>, e: Event<K, V>, limit: nat)
    requires d.Valid() && e.Record? && e.ttl > 0.0
    ensures Placing(Kept(d, e.key, e.value, e.now, e.ttl, limit), Then(p, e), e.key, limit)
  {
    hide After, Placed, DropStale, Distinct;
    PlacedAfter(d, e.key, Entry(e), e.key);
    DropStaleExactly(Placed(d, e.key, Entry(e)), e.key, e.now, limit);
  }

  lemma RecordsAnother<K(!new), V>(d: Entries<K, V>, p: History<K, V>, e: Event<K, V>, k: K, limit: nat)
    requires d.Valid() && e.Record? && e.key != k && Placing(d, p, k, limit)
    requires k in d.items ==> Answerable(d, k, e.now)
    ensures Placing(Kept(d, e.key, e.value, e.now, e.ttl, limit), Then(p, e), k, limit)
  {
    hide After, Placed, DropStale, Distinct, Without;
    var placed := Placed(d, e.key, Entry(e));
    PlacedAfter(d, e.key, Entry(e), k);
    if k in d.items {
      AfterDistinct(placed, k);
      DistinctSize(After(placed.order, k), Crowd(Then(p, e), k));
      DropStaleExactly(placed, k, e.now, limit);
    } else {
      StaysDropped(placed, k, e.now, limit);
    }
  }

  lemma AfterDistinct<K(!new), V>(d: Entries<K, V>, k: K)
    requires d.Valid()
    ensures Distinct(After(d.order, k))
  {
    AfterElements(d.order, k);
  }

  lemma AskedAfter<K(!new), V>(d: Entries<K, V>, x: K, now: real, k: K)
    requires d.Valid() && k in d.items && Answerable(d, k, now)
    ensures var r := Asked(d, x, now);
      && k in r.items
      && forall y :: y in After(r.order, k) <==> y in After(d.order, k) && (x in d.items && !Answerable(d, x, now) ==> y != x)
  {
    hide After, Distinct;
    if x != k {
      AfterWithout(d.order, k, x);
      WithoutElements(After(d.order, k), x);
    }
  }

  lemma BehindIsHeld<K(!new), V>(d: Entries<K, V>, k: K)
    requires d.Valid()
    ensures forall x :: x in After(d.order, k) ==> x in d.items
  {
    AfterElements(d.order, k);
  }

  lemma AsksPlacing<K(!new), V>(d: Entries<K, V>, p: History<K, V>, e: Event<K, V>, k: K, limit: nat)
    requires d.Valid() && e.Look? && Placing(d, p, k, limit) && Sound(d, p)
    requires k in d.items ==> Answerable(d, k, e.now)
    ensures Placing(Asked(d, e.key, e.now), Then(p, e), k, limit)
  {
    if k in d.items {
      hide After, Distinct, Without, Asked;
      CrowdWithin(p, k, limit);
      SubsetSize(Crowd(Then(p, e), k), Crowd(p, k));
      AskedAfter(d, e.key, e.now, k);
      BehindIsHeld(d, k);
      assert e.key in d.items ==> IsLastRecord(d.items[e.key], p, e.key);
    }
  }

  lemma CrowdWithin<K(!new), V>(h: History<K, V>, k: K, limit: nat)
    requires NeverCrowded(h, k, limit)
    ensures |Crowd(h, k)| < limit
  {
  }

  /** While the last recording of a key is unexpired, the store places it as its history says. */
  lemma {:induction false} PlacesExactly<K(!new), V>(h: History<K, V>, k: K, now: real, limit: nat)
    requires Ordered(h) && Before(h, now) && Fresh(h, k, now)
    ensures Placing(Run(h, limit), h, k, limit)
  {
    var p, e := h.earlier, h.latest;
    var d := Run(p, limit);
    if e.Record? && e.key == k {
      RecordsItself(d, p, e, limit);
    } else {
      PlacesExactly(p, k, e.now, limit);
      Holds(p, limit);
      assert k in d.items ==> Answerable(d, k, e.now);
      if e.Record? {
        RecordsAnother(d, p, e, k, limit);
      } else {
        AsksPlacing(d, p, e, k, limit);
      }
    }
  }

  /**
   Exact retention, whatever mixture of ttls is recorded. With readings in lock order, a key is answered
   iff its last recording has not expired and at no moment since did `limit` keys stand behind it; and
   the answer is that recording.
   */
  lemma AnswersIff<K(!new), V>(h: History<K, V>, k: K, now: real, limit: nat)
    requires Ordered(h) && Before(h, now)
    ensures Answered(Run(h, limit), k, now).Some? <==> Fresh(h, k, now) && NeverCrowded(h, k, limit)
    ensures Answered(Run(h, limit), k, now).Some? ==> IsLastRecord(Answered(Run(h, limit), k, now).value, h, k)
  {
    Holds(h, limit);
    if Fresh(h, k, now) {
      PlacesExactly(h, k, now, limit);
    }
  }

  // ---------------------------------------------------------------- counting recordings only

  /** Forgetting expired keys only ever thins a crowd, so counting recordings is on the safe side. */
  lemma {:induction false} FewRecordedNeverCrowd<K(!new), V>(h: History<K, V>, k: K, limit: nat)
    requires |OthersSince(h, k)| < limit
    ensures Crowd(h, k) <= OthersSince(h, k) && NeverCrowded(h, k, limit)
  {
    if h.Then? && !(h.latest.Record? && h.latest.key == k) {
      SubsetSize(OthersSince(h.earlier, k), OthersSince(h, k));
      FewRecordedNeverCrowd(h.earlier, k, limit);
      SubsetSize(Crowd(h, k), OthersSince(h, k));
    }
  }

  /**
   Whatever mixture of ttls is recorded, a recording that has not expired is held until `limit`
   distinct other keys have been recorded since.
   */
  lemma Survives<K(!new), V>(h: History<K, V>, k: K, now: real, limit: nat)
    requires Ordered(h) && Before(h, now) && Fresh(h, k, now) && |OthersSince(h, k)| < limit
    ensures Answerable(Run(h, limit), k, now)
  {
    FewRecordedNeverCrowd(h, k, limit);
    AnswersIff(h, k, now, limit);
  }

  lemma {:induction false} LaterRecord<K(!new), V>(h: History<K, V>, a: K, b: K)
    requires Ordered(h) && b in OthersSince(h, a) && LastRecord(h, a).Some? && LastRecord(h, a).value.Record?
    ensures LastRecord(h, b).Some? && LastRecord(h, b).value.Record?
    ensures LastRecord(h, a).value.now <= LastRecord(h, b).value.now <= h.latest.now
  {
    if h.latest.Record? && h.latest.key == b {
      RecordBefore(h, a);
    } else {
      LaterRecord(h.earlier, a, b);
    }
  }

  lemma {:induction false} RecordBefore<K(!new), V>(h: History<K, V>, k: K)
    requires Ordered(h) && LastRecord(h, k).Some?
    ensures LastRecord(h, k).value.Record? && LastRecord(h, k).value.now <= h.latest.now
    ensures LastRecord(h, k).value.key == k
  {
    if !(h.latest.Record? && h.latest.key == k) {
      RecordBefore(h.earlier, k);
    }
  }

  lemma {:induction false} TtlOf<K(!new), V>(h: History<K, V>, k: K, ttl: real)
    requires OneTtl(h, ttl) && LastRecord(h, k).Some? && LastRecord(h, k).value.Record?
    ensures LastRecord(h, k).value.ttl == ttl
  {
    if !(h.latest.Record? && h.latest.key == k) {
      TtlOf(h.earlier, k, ttl);
    }
  }

  /** Under one ttl a key recorded later expires later: none is forgotten from behind an unexpired one. */
  lemma {:induction false} CrowdIsOthers<K(!new), V>(h: History<K, V>, k: K, now: real, ttl: real)
    requires Ordered(h) && Before(h, now) && OneTtl(h, ttl) && Fresh(h, k, now)
    ensures Crowd(h, k) == OthersSince(h, k)
  {
    var p, e := h.earlier, h.latest;
    if !(e.Record? && e.key == k) {
      CrowdIsOthers(p, k, e.now, ttl);
      if e.Look? && e.key in OthersSince(p, k) {
        LaterRecord(p, k, e.key);
        TtlOf(p, k, ttl);
        TtlOf(p, e.key, ttl);
      }
    }
  }

  /** Under one ttl, an unexpired entry with `limit` distinct keys recorded since is not held. */
  lemma Displaced<K(!new), V>(h: History<K, V>, k: K, now: real, limit: nat, ttl: real)
    requires Ordered(h) && Before(h, now) && OneTtl(h, ttl) && Fresh(h, k, now)
    requires limit <= |OthersSince(h, k)|
    ensures k !in Run(h, limit).items
  {
    PlacesExactly(h, k, now, limit);
    CrowdIsOthers(h, k, now, ttl);
    if NeverCrowded(h, k, limit) {
      CrowdWithin(h, k, limit);
    }
  }

  /**
   Exact retention. With one ttl and readings in lock order, a key is answered iff its last recording
   has not expired and fewer than `limit` distinct other keys were recorded since; and the answer is
   that recording.
   */
  lemma AnswersExactly<K(!new), V>(h: History<K, V>, k: K, now: real, limit: nat, ttl: real)
    requires Ordered(h) && Before(h, now) && OneTtl(h, ttl)
    ensures Answered(Run(h, limit), k, now).Some? <==> Fresh(h, k, now) && |OthersSince(h, k)| < limit
    ensures Answered(Run(h, limit), k, now).Some? ==> IsLastRecord(Answered(Run(h, limit), k, now).value, h, k)
  {
    AnswersIff(h, k, now, limit);
    if Fresh(h, k, now) {
      CrowdIsOthers(h, k, now, ttl);
      if |OthersSince(h, k)| < limit {
        FewRecordedNeverCrowd(h, k, limit);
      }
      if NeverCrowded(h, k, limit) {
        CrowdWithin(h, k, limit);
      }
    }
  }

  ghost predicate Sorted<K(!new), V>(d: Entries<K, V>)
    requires d.Valid()
  {
    forall i, j :: 0 <= i < j < |d.order| ==>
      d.order[i] in d.items && d.order[j] in d.items && d.items[d.order[i]].expiresAt <= d.items[d.order[j]].expiresAt
  }

  lemma {:induction false} OrderMeansLater<K(!new), V>(order: seq<K>, h: History<K, V>, i: nat, j: nat)
    requires InOrder(order, h) && i < j < |order|
    ensures order[j] in OthersSince(h, order[i])
  {
    if i == 0 {
      assert order[j] == order[1..][j - 1];
    } else {
      OrderMeansLater(order[1..], h, i - 1, j - 1);
    }
  }

  /** Under one ttl the entries stand in expiry order, so a recording leaves nothing expired behind. */
  lemma SortedByExpiry<K(!new), V>(h: History<K, V>, limit: nat, ttl: real)
    requires Ordered(h) && OneTtl(h, ttl)
    ensures Sorted(Run(h, limit))
    ensures h.Then? && h.latest.Record? ==> forall k :: k in Run(h, limit).items ==> Run(h, limit).items[k].expiresAt > h.latest.now
  {
    var d := Run(h, limit);
    Holds(h, limit);
    forall i, j | 0 <= i < j < |d.order|
      ensures d.order[i] in d.items && d.order[j] in d.items && d.items[d.order[i]].expiresAt <= d.items[d.order[j]].expiresAt
    {
      assert d.order[i] in d.order && d.order[j] in d.order;
      OrderMeansLater(d.order, h, i, j);
      LaterRecord(h, d.order[i], d.order[j]);
      TtlOf(h, d.order[i], ttl);
      TtlOf(h, d.order[j], ttl);
    }
    if h.Then? && h.latest.Record? {
      assert Settled(d, h.latest.now, limit);
      forall k | k in d.items ensures d.items[k].expiresAt > h.latest.now {
        assert k in d.order;
        var j :| 0 <= j < |d.order| && d.order[j] == k;
      }
    }
  }

  /**
   With mixed ttls counting recordings is not exact: a key can outlive `limit` distinct later
   recordings, once one of them has expired and been forgotten. `AnswersIff` is exact all the same.
   */
  lemma MixedTtlsOutlive() returns (h: History<int, string>)
    ensures Ordered(h) && Before(h, 6.0) && !(exists ttl :: OneTtl(h, ttl))
    ensures |OthersSince(h, 0)| == 2
    ensures Answerable(Run(h, 2), 0, 6.0)
  {
    var h1 := Then(Start, Record(0, "a", 0.0, 100.0));
    var h2 := Then(h1, Record(1, "b", 1.0, 1.0));
    var h3 := Then(h2, Look(1, 5.0));
    h := Then(h3, Record(2, "c", 5.0, 100.0));
    OutlivingKeys(h1, h2, h3, h);
    OutlivingRun(h1, h2, h3);
    hide OneTtl, OthersSince, Run;
  }

  lemma OutlivingKeys(h1: History<int, string>, h2: History<int, string>, h3: History<int, string>, h: History<int, string>)
    requires h1 == Then(Start, Record(0, "a", 0.0, 100.0)) && h2 == Then(h1, Record(1, "b", 1.0, 1.0))
    requires h3 == Then(h2, Look(1, 5.0)) && h == Then(h3, Record(2, "c", 5.0, 100.0))
    ensures Ordered(h) && Before(h, 6.0) && |OthersSince(h, 0)| == 2 && forall ttl :: !OneTtl(h, ttl)
  {
    assert Ordered(h1);
    assert Ordered(h2);
    assert Ordered(h3);
    assert OthersSince(h2, 0) == {1};
    assert OthersSince(h3, 0) == {1};
    assert OthersSince(h, 0) == {1, 2};
    forall ttl ensures !OneTtl(h, ttl) {
      assert OneTtl(h, ttl) ==> OneTtl(h3, ttl);
      assert OneTtl(h3, ttl) ==> OneTtl(h2, ttl);
    }
  }

  lemma AskedExpired(a: Recorded<string>, b: Recorded<string>, now: real)
    requires b.expiresAt <= now
    ensures Asked(Dict([0, 1], map[0 := a, 1 := b]), 1, now) == Dict([0], map[0 := a])
  {
    assert Without([0, 1], 1) == [0];
  }

  lemma OutlivingRun(h1: History<int, string>, h2: History<int, string>, h3: History<int, string>)
    requires h1 == Then(Start, Record(0, "a", 0.0, 100.0))
    requires h2 == Then(h1, Record(1, "b", 1.0, 1.0)) && h3 == Then(h2, Look(1, 5.0))
    ensures Run(Then(h3, Record(2, "c", 5.0, 100.0)), 2) == Dict([0, 2], map[0 := Recorded("a", 100.0), 2 := Recorded("c", 105.0)])
  {
    hide Kept, Asked, Without;
    var a, b, c := Recorded("a", 100.0), Recorded("b", 2.0), Recorded("c", 105.0);
    KeptLast(Empty(), 0, "a", 0.0, 100.0, 2);
    assert Run(h1, 2) == Dict([0], map[0 := a]);
    KeptLast(Dict([0], map[0 := a]), 1, "b", 1.0, 1.0, 2);
    assert Run(h2, 2) == Dict([0, 1], map[0 := a, 1 := b]);
    AskedExpired(a, b, 5.0);
    assert Run(h3, 2) == Dict([0], map[0 := a]);
    KeptLast(Dict([0], map[0 := a]), 2, "c", 5.0, 100.0, 2);
  }

  /** A new key recorded with room to spare and nothing expired in front stands last. */
  lemma KeptLast<K(!new), V>(d: Entries<K, V>, k: K, v: V, now: real, ttl: real, limit: nat)
    requires d.Valid() && k !in d.order && |d.order| < limit && ttl > 0.0
    requires d.order == [] || Answerable(d, d.order[0], now)
    ensures Kept(d, k, v, now, ttl, limit) == Dict(d.order + [k], d.items[k := Recorded(v, now + ttl)])
  {
    PutLast(d, k, Recorded(v, now + ttl));
    WithoutElements(d.order, k);
  }
}
