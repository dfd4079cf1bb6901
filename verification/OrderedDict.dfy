/**
 The insertion-ordered dictionary the in-memory stores are built on, and the vocabulary their
 histories are described with: which keys of a history are the most recent ones, and how many
 distinct other keys came after a key's last occurrence.
 */
module OrderedDict {

  datatype Dict<K(!new, ==), V> = Dict(order: seq<K>, items: map<K, V>) {

    ghost predicate Valid() {
      && Distinct(order)
      && (forall k :: k in order <==> k in items)
    }

    function Size(): nat {
      |order|
    }

    /** Assignment to a key: a held key keeps its place, a new one goes to the end. */
    function Put(k: K, v: V): (d: Dict<K, V>)
      requires Valid()
      ensures d.Valid() && d.items == items[k := v] && order <= d.order
    {
      DistinctConcat(order, [k]);
      Dict(if k in items then order else order + [k], items[k := v])
    }

    function MoveToEnd(k: K): (d: Dict<K, V>)
      requires Valid() && k in items
      ensures d.Valid() && d.items == items && d.order == Without(order, k) + [k]
    {
      WithoutElements(order, k);
      DistinctConcat(Without(order, k), [k]);
      Dict(Without(order, k) + [k], items)
    }

    function Delete(k: K): (d: Dict<K, V>)
      requires Valid()
      ensures d.Valid() && d.items == items - {k} && d.order == Without(order, k)
    {
      WithoutElements(order, k);
      Dict(Without(order, k), items - {k})
    }

    function PopFirst(): (d: Dict<K, V>)
      requires Valid() && order != []
      ensures d.Valid() && d.order == order[1..] && d.items == items - {order[0]}
    {
      assert order == [order[0]] + order[1..];
      Dict(order[1..], items - {order[0]})
    }

    /** Only the newest `n` entries, the way popping the first until `n` are left gets there. */
    function Newest(n: nat): (d: Dict<K, V>)
      requires Valid()
      ensures d.Valid() && d.order == Last(n, order)
      ensures forall k :: k in d.items ==> k in items && d.items[k] == items[k]
    {
      var kept := Last(n, order);
      LastElements(n, order);
      Dict(kept, map k | k in items && k in kept :: items[k])
    }
  }

  function Empty<K(!new), V>(): (d: Dict<K, V>)
    ensures d.Valid() && d.Size() == 0
  {
    Dict([], map[])
  }

  predicate Distinct<K(==)>(s: seq<K>) {
    s == [] || (s[0] !in s[1..] && Distinct(s[1..]))
  }

  function Without<K(==)>(s: seq<K>, k: K): seq<K> {
    if s == [] then []
    else if s[0] == k then Without(s[1..], k)
    else [s[0]] + Without(s[1..], k)
  }

  function Last<K>(n: nat, s: seq<K>): (r: seq<K>)
    ensures |r| == if |s| <= n then |s| else n
  {
    if |s| <= n then s else Last(n, s[1..])
  }

  lemma {:induction false} LastIsSuffix<K>(n: nat, s: seq<K>)
    requires |s| > n
    ensures Last(n, s) == s[|s| - n..]
  {
    if |s| > n + 1 {
      LastIsSuffix(n, s[1..]);
      assert s[1..][|s[1..]| - n..] == s[|s| - n..];
    }
  }

  lemma {:induction false} LastElements<K>(n: nat, s: seq<K>)
    ensures forall k :: k in Last(n, s) ==> k in s
    ensures Distinct(s) ==> Distinct(Last(n, s))
    ensures s != [] && n >= 1 ==> Last(n, s)[|Last(n, s)| - 1] == s[|s| - 1]
  {
    if |s| > n {
      LastElements(n, s[1..]);
      assert s == [s[0]] + s[1..];
    }
  }

  lemma {:induction false} WithoutElements<K>(s: seq<K>, k: K)
    ensures forall x :: x in Without(s, k) <==> x in s && x != k
    ensures Distinct(s) ==> Distinct(Without(s, k))
    ensures |Without(s, k)| <= |s|
    ensures k !in s ==> Without(s, k) == s
    ensures Distinct(s) && k in s ==> |Without(s, k)| == |s| - 1
  {
    if s == [] {
    } else {
      WithoutElements(s[1..], k);
      assert s == [s[0]] + s[1..];
    }
  }

  lemma {:induction false} DistinctConcat<K>(a: seq<K>, b: seq<K>)
    ensures Distinct(a + b) <==> Distinct(a) && Distinct(b) && (forall x :: x in a ==> x !in b)
  {
    if a == [] {
      assert a + b == b;
    } else {
      DistinctConcat(a[1..], b);
      assert (a + b)[1..] == a[1..] + b;
      assert a == [a[0]] + a[1..];
    }
  }

  lemma WithoutStep<K>(s: seq<K>, k: K)
    requires s != []
    ensures Without(s, k) == (if s[0] == k then [] else [s[0]]) + Without(s[1..], k)
  {
  }

  lemma {:induction false} WithoutConcat<K>(a: seq<K>, b: seq<K>, k: K)
    ensures Without(a + b, k) == Without(a, k) + Without(b, k)
  {
    if a == [] {
      assert a + b == b;
    } else {
      hide Without;
      WithoutConcat(a[1..], b, k);
      assert (a + b)[1..] == a[1..] + b && (a + b)[0] == a[0];
      WithoutStep(a, k);
      WithoutStep(a + b, k);
    }
  }

  /** A key assigned and moved to the end stands last, whether or not it was held before. */
  lemma PutLast<K(!new), V>(d: Dict<K, V>, k: K, v: V)
    requires d.Valid()
    ensures d.Put(k, v).MoveToEnd(k).order == Without(d.order, k) + [k]
  {
    WithoutConcat(d.order, [k], k);
    assert Without([k], k) == [];
    assert Without(d.order, k) + [] == Without(d.order, k);
  }

  lemma DistinctAppend<K>(s: seq<K>, x: K)
    requires Distinct(s) && x !in s
    ensures Distinct(s + [x])
  {
    DistinctConcat(s, [x]);
  }

  /** Moving a key to the end and then dropping the oldest may be done on an already trimmed order. */
  lemma TrimmedTouch<K>(n: nat, s: seq<K>, k: K)
    requires n >= 1 && Distinct(s)
    ensures Last(n, Without(Last(n, s), k) + [k]) == Last(n, Without(s, k) + [k])
  {
    if |s| > n {
      var a, b := s[..|s| - n], s[|s| - n..];
      assert s == a + b;
      assert n <= |Without(b, k) + [k]| by {
        DistinctConcat(a, b);
        WithoutElements(b, k);
      }
      WithoutConcat(a, b, k);
      LastIsSuffix(n, s);
      LastOfConcat(n, Without(a, k), Without(b, k) + [k]);
      assert Without(a, k) + Without(b, k) + [k] == Without(a, k) + (Without(b, k) + [k]);
    }
  }

  lemma {:induction false} LastOfConcat<K>(n: nat, a: seq<K>, b: seq<K>)
    requires n <= |b|
    ensures Last(n, a + b) == Last(n, b)
  {
    if a == [] {
      assert a + b == b;
    } else {
      LastOfConcat(n, a[1..], b);
      assert (a + b)[1..] == a[1..] + b;
    }
  }

  // ---------------------------------------------------------------- histories

  /** Everything that happened so far, the latest outermost. */
  datatype Trail<+E> = Start | Then(earlier: Trail<E>, latest: E)

  /** The distinct keys of a history, ordered by their last occurrence. */
  function Recent<K(==)>(h: Trail<K>): seq<K> {
    match h
    case Start => []
    case Then(p, k) => Without(Recent(p), k) + [k]
  }

  predicate Occurs<K(==)>(h: Trail<K>, k: K) {
    h.Then? && (h.latest == k || Occurs(h.earlier, k))
  }

  /** The other keys that occur after the last occurrence of `k`. */
  function Since<K(==)>(h: Trail<K>, k: K): set<K> {
    if h.Start? || h.latest == k then {} else Since(h.earlier, k) + {h.latest}
  }

  lemma {:induction false} RecentElements<K>(h: Trail<K>)
    ensures Distinct(Recent(h))
    ensures forall k :: k in Recent(h) <==> Occurs(h, k)
  {
    if h.Then? {
      RecentElements(h.earlier);
      WithoutElements(Recent(h.earlier), h.latest);
      DistinctConcat(Without(Recent(h.earlier), h.latest), [h.latest]);
    }
  }

  /** Everything behind `k` in the order of last occurrence came after `k`, and nothing else did. */
  lemma {:induction false} BehindIsSince<K>(h: Trail<K>, k: K) returns (before: seq<K>, behind: seq<K>)
    requires Occurs(h, k)
    ensures Recent(h) == before + [k] + behind
    ensures forall x :: x in behind <==> x in Since(h, k)
  {
    var p, c := h.earlier, h.latest;
    if c == k {
      before, behind := Without(Recent(p), k), [];
      assert Recent(h) == before + [k] + behind;
    } else {
      var b, a := BehindIsSince(p, k);
      before, behind := Without(b, c), Without(a, c) + [c];
      WithoutMiddle(b, k, a, c);
      assert Recent(h) == before + [k] + behind;
      WithoutElements(a, c);
    }
  }

  lemma WithoutMiddle<K>(b: seq<K>, k: K, a: seq<K>, c: K)
    requires k != c
    ensures Without(b + [k] + a, c) == Without(b, c) + [k] + Without(a, c)
  {
    WithoutConcat(b + [k], a, c);
    WithoutConcat(b, [k], c);
  }

  lemma {:induction false} DistinctSize<K>(s: seq<K>, elements: set<K>)
    requires Distinct(s)
    requires forall x :: x in s <==> x in elements
    ensures |s| == |elements|
  {
    if s == [] {
      assert elements == {};
    } else {
      assert s == [s[0]] + s[1..];
      DistinctSize(s[1..], elements - {s[0]});
    }
  }

  /** A key is among the `n` most recent distinct ones iff fewer than `n` distinct others followed it. */
  lemma AmongNewest<K>(n: nat, h: Trail<K>, k: K)
    ensures k in Last(n, Recent(h)) <==> Occurs(h, k) && |Since(h, k)| < n
  {
    var r := Recent(h);
    RecentElements(h);
    LastElements(n, r);
    if Occurs(h, k) {
      var before, behind := BehindIsSince(h, k);
      DistinctConcat(before + [k], behind);
      DistinctConcat(before, [k]);
      DistinctSize(behind, Since(h, k));
      if |behind| < n {
        LastOfConcat(|behind| + 1, before, [k] + behind);
        assert r == before + ([k] + behind);
        LastOfLast(|behind| + 1, n, r);
        LastElements(|behind| + 1, Last(n, r));
        assert ([k] + behind)[0] == k;
        assert k in Last(|behind| + 1, Last(n, r));
      } else {
        LastOfConcat(n, before + [k], behind);
        LastElements(n, behind);
      }
    }
  }

  lemma {:induction false} LastOfLast<K>(m: nat, n: nat, s: seq<K>)
    requires m <= n
    ensures Last(m, Last(n, s)) == Last(m, s)
  {
    if |s| > n {
      LastOfLast(m, n, s[1..]);
    }
  }

  lemma {:induction false} SubsetSize<K>(a: set<K>, b: set<K>)
    requires a <= b
    ensures |a| <= |b|
  {
    if a != {} {
      var x :| x in a;
      SubsetSize(a - {x}, b - {x});
    }
  }
}
