/**
 * Pure counting over the storage of a multiset: a map from element to
 * multiplicity in which an absent key counts 0, its reading as a Dafny
 * `multiset`, and the order in which the map's keys were inserted.
 */
module Bags {

  /** `@hash[x]`: the stored count, 0 for an absent key. */
  function Mult<T>(m: map<T, nat>, x: T): nat {
    if x in m then m[x] else 0
  }

  /** `a - b` truncated at 0. */
  function Monus(a: nat, b: nat): nat {
    if a > b then a - b else 0
  }

  function Max(a: nat, b: nat): nat {
    if a < b then b else a
  }

  function Min(a: nat, b: nat): nat {
    if a < b then a else b
  }

  /** `(a - b).abs` */
  function Dist(a: nat, b: nat): nat {
    if a < b then b - a else a - b
  }

  /** The storage invariant: no key is stored with a count below 1. */
  ghost predicate Positive<T>(m: map<T, nat>) {
    forall x :: x in m ==> m[x] >= 1
  }

  ghost predicate Distinct<T>(s: seq<T>) {
    forall x | x in multiset(s) :: multiset(s)[x] == 1
  }

  /** Appending `y` keeps a list free of repeats exactly when `y` is new to it. */
  lemma DistinctSnoc<T>(s: seq<T>, y: T)
    ensures Distinct(s + [y]) <==> Distinct(s) && y !in s
  {
    assert multiset(s + [y]) == multiset(s) + multiset{y};
    if Distinct(s + [y]) {
      forall x | x in multiset(s) ensures multiset(s)[x] == 1 {
        assert multiset(s + [y])[x] >= multiset(s)[x];
      }
      assert multiset(s + [y])[y] == multiset(s)[y] + 1;
    }
  }

  /** Prepending `y` keeps a list free of repeats exactly when `y` is new to it. */
  lemma DistinctCons<T>(y: T, s: seq<T>)
    ensures Distinct([y] + s) <==> Distinct(s) && y !in s
  {
    assert multiset([y] + s) == multiset{y} + multiset(s);
    if Distinct([y] + s) {
      forall x | x in multiset(s) ensures multiset(s)[x] == 1 {
        assert multiset([y] + s)[x] >= multiset(s)[x];
      }
      assert multiset([y] + s)[y] == multiset(s)[y] + 1;
    }
  }

  /** A prefix of a list without repeats has none. */
  lemma DistinctTake<T>(s: seq<T>, i: nat)
    requires Distinct(s) && i <= |s|
    ensures Distinct(s[..i])
  {
    assert s == s[..i] + s[i..];
    assert multiset(s) == multiset(s[..i]) + multiset(s[i..]);
    forall x | x in multiset(s[..i]) ensures multiset(s[..i])[x] == 1 {
      assert multiset(s)[x] >= multiset(s[..i])[x];
    }
  }

  /** `b` is the multiset that `m` counts. */
  ghost predicate Counts<T(!new)>(b: multiset<T>, m: map<T, nat>) {
    forall x :: b[x] == Mult(m, x)
  }

  /** `s` lists the keys of `m`, each exactly once. */
  ghost predicate KeyOrder<T>(m: map<T, nat>, s: seq<T>) {
    && Distinct(s)
    && (forall x :: x in m ==> x in s)
    && (forall x :: x in s ==> x in m)
  }

  // ---------------------------------------------------------------------
  // Regrouping steps, kept apart so that loops do not redo them pointwise

  lemma UnionRegroup<T>(a: multiset<T>, b: multiset<T>, c: multiset<T>)
    ensures (a + b) + c == a + (b + c)
  {
    Extensional((a + b) + c, a + (b + c));
  }

  lemma AppendRegroup<T>(a: seq<T>, b: seq<T>, c: seq<T>)
    ensures (a + b) + c == a + (b + c)
  {
  }

  lemma TakeSnoc<T>(s: seq<T>, i: nat)
    requires i < |s|
    ensures s[..i + 1] == s[..i] + [s[i]]
  {
  }

  lemma NoCopies<T>(b: multiset<T>, x: T)
    ensures b + multiset{}[x := 0] == b
    ensures b - multiset{}[x := 0] == b
  {
    Extensional(b + multiset{}[x := 0], b);
    Extensional(b - multiset{}[x := 0], b);
  }

  lemma OneCopy<T>(x: T)
    ensures multiset{}[x := 1] == multiset{x}
  {
    Extensional(multiset{}[x := 1], multiset{x});
  }

  /** Intersecting with one more occurrence of `x`. */
  lemma IntersectOccurrence<T>(a: multiset<T>, b: multiset<T>, x: T)
    ensures a * (b + multiset{x}) == a * b + (if b[x] < a[x] then multiset{x} else multiset{})
  {
    Extensional(a * (b + multiset{x}), a * b + (if b[x] < a[x] then multiset{x} else multiset{}));
  }

  // ---------------------------------------------------------------------
  // The abstract value of a count map

  /** Multisets are equal when they agree on every multiplicity. */
  lemma Extensional<T>(a: multiset<T>, b: multiset<T>)
    requires forall x :: a[x] == b[x]
    ensures a == b
  {
  }

  /** The multiset a count map stands for. */
  ghost function Bag<T>(m: map<T, nat>): multiset<T>
    decreases m.Keys
  {
    if m == map[] then multiset{}
    else
      assert m.Keys != {};
      var k :| k in m;
      Bag(m - {k})[k := m[k]]
  }

  /** Every element occurs in `Bag(m)` exactly `Mult(m, x)` times. */
  lemma {:induction false} BagAt<T>(m: map<T, nat>)
    ensures forall x :: Bag(m)[x] == Mult(m, x)
    decreases m.Keys
  {
    if m != map[] {
      forall k | k in m
        ensures forall x :: Bag(m - {k})[x] == Mult(m - {k}, x)
      {
        BagAt(m - {k});
      }
    }
  }

  /** Because no zero is ever stored, agreeing counts means equal storage. */
  lemma MultInjective<T>(a: map<T, nat>, b: map<T, nat>)
    requires Positive(a) && Positive(b)
    requires forall x :: Mult(a, x) == Mult(b, x)
    ensures a == b
  {
    forall x ensures x in a <==> x in b {
      assert Mult(a, x) == Mult(b, x);
    }
    assert a.Keys == b.Keys;
    forall x | x in a ensures a[x] == b[x] {
      assert Mult(a, x) == Mult(b, x);
    }
  }

  /** For storage without zeros, equal storage and equal bags coincide. */
  lemma StorageEquality<T>(a: map<T, nat>, b: map<T, nat>, A: multiset<T>, B: multiset<T>)
    requires Positive(a) && Positive(b)
    requires forall x :: A[x] == Mult(a, x)
    requires forall x :: B[x] == Mult(b, x)
    ensures a == b <==> A == B
  {
    if A == B {
      MultInjective(a, b);
    }
    if a == b {
      Extensional(A, B);
    }
  }

  // ---------------------------------------------------------------------
  // The two ways `@hash[x]` is written

  /** `@hash[x] = @hash[x] + c` when `c > 0`; a zero count leaves the storage alone. */
  function Raised<T>(m: map<T, nat>, x: T, c: nat): map<T, nat> {
    if c == 0 then m else m[x := Mult(m, x) + c]
  }

  /** Raising a count by `c >= 1`: a new key goes to the end of the order. */
  lemma RaiseStep<T(!new)>(m: map<T, nat>, s: seq<T>, b: multiset<T>, x: T, c: nat)
    requires Positive(m) && KeyOrder(m, s) && Counts(b, m)
    requires c >= 1
    ensures Positive(Raised(m, x, c))
    ensures KeyOrder(Raised(m, x, c), s + (if x in m then [] else [x]))
    ensures Counts(b + multiset{}[x := c], Raised(m, x, c))
  {
    var m', s' := Raised(m, x, c), s + (if x in m then [] else [x]);
    assert forall y :: y in s' ==> y in s || y == x;
    forall y | y in m' ensures y in s' {
      if y != x { assert y in s; }
    }
    if x !in m {
      DistinctSnoc(s, x);
    }
  }

  /** `@hash[x] = @hash[x] - c`, then `@hash.delete(x)` when that is below 1. */
  function Lowered<T>(m: map<T, nat>, x: T, c: nat): map<T, nat> {
    if Mult(m, x) - c < 1 then m - {x} else m[x := Mult(m, x) - c]
  }

  lemma LowerStep<T(!new)>(m: map<T, nat>, s: seq<T>, b: multiset<T>, x: T, c: nat)
    requires Positive(m) && KeyOrder(m, s) && Counts(b, m)
    ensures Positive(Lowered(m, x, c))
    ensures KeyOrder(Lowered(m, x, c), Surviving(s, Lowered(m, x, c)))
    ensures Counts(b - multiset{}[x := c], Lowered(m, x, c))
    ensures Lowered(m, x, c).Keys <= m.Keys
    ensures x in Lowered(m, x, c) ==> Surviving(s, Lowered(m, x, c)) == s
  {
    var m' := Lowered(m, x, c);
    SurvivingMembers(s, m');
    if x in m' {
      SurvivingAll(s, m');
    }
  }

  // ---------------------------------------------------------------------
  // The storage after a walk over a sequence of writes

  /** `merge(other : Multiset)`: `src`'s count of each key of `keys` added, in turn. */
  function RaiseAll<T>(m: map<T, nat>, src: map<T, nat>, keys: seq<T>): map<T, nat> {
    if keys == [] then m
    else Raised(RaiseAll(m, src, keys[..|keys| - 1]), keys[|keys| - 1], Mult(src, keys[|keys| - 1]))
  }

  /** `subtract(elems)`: one copy fewer of each element, in turn. */
  function LowerEach<T>(m: map<T, nat>, elems: seq<T>): map<T, nat> {
    if elems == [] then m
    else Lowered(LowerEach(m, elems[..|elems| - 1]), elems[|elems| - 1], 1)
  }

  /** `subtract(other : Multiset)`: `src`'s count of each key of `keys` removed, in turn. */
  function LowerAll<T>(m: map<T, nat>, src: map<T, nat>, keys: seq<T>): map<T, nat> {
    if keys == [] then m
    else Lowered(LowerAll(m, src, keys[..|keys| - 1]), keys[|keys| - 1], Mult(src, keys[|keys| - 1]))
  }

  /** `&(other : Multiset)`: each key of `keys` with the smaller of its counts in `o` and `m`. */
  function Meet<T>(m: map<T, nat>, o: map<T, nat>, keys: seq<T>): map<T, nat> {
    if keys == [] then map[]
    else
      var x := keys[|keys| - 1];
      Raised(Meet(m, o, keys[..|keys| - 1]), x, Min(Mult(o, x), Mult(m, x)))
  }

  /** One more write: the walk over `keys[..i + 1]` is the walk over `keys[..i]`, then `keys[i]`. */
  lemma RaiseAllStep<T>(m: map<T, nat>, src: map<T, nat>, keys: seq<T>, i: nat)
    requires i < |keys| && keys[i] in src
    ensures RaiseAll(m, src, keys[..i + 1]) == Raised(RaiseAll(m, src, keys[..i]), keys[i], src[keys[i]])
  {
    assert keys[..i + 1][..i] == keys[..i];
  }

  lemma LowerEachStep<T>(m: map<T, nat>, elems: seq<T>, i: nat)
    requires i < |elems|
    ensures LowerEach(m, elems[..i + 1]) == Lowered(LowerEach(m, elems[..i]), elems[i], 1)
  {
    assert elems[..i + 1][..i] == elems[..i];
  }

  lemma LowerAllStep<T>(m: map<T, nat>, src: map<T, nat>, keys: seq<T>, i: nat)
    requires i < |keys| && keys[i] in src
    ensures LowerAll(m, src, keys[..i + 1]) == Lowered(LowerAll(m, src, keys[..i]), keys[i], src[keys[i]])
  {
    assert keys[..i + 1][..i] == keys[..i];
  }

  lemma MeetStep<T>(m: map<T, nat>, o: map<T, nat>, keys: seq<T>, i: nat)
    requires i < |keys| && keys[i] in m
    ensures Meet(m, o, keys[..i + 1]) == Raised(Meet(m, o, keys[..i]), keys[i], Min(Mult(o, keys[i]), m[keys[i]]))
  {
    assert keys[..i + 1][..i] == keys[..i];
  }

  /** What each walk leaves stored, count by count. */
  lemma {:induction false} RaiseAllMult<T>(m: map<T, nat>, src: map<T, nat>, keys: seq<T>, y: T)
    requires Distinct(keys)
    ensures Mult(RaiseAll(m, src, keys), y) == Mult(m, y) + (if y in keys then Mult(src, y) else 0)
  {
    if keys != [] {
      var init, x := keys[..|keys| - 1], keys[|keys| - 1];
      assert keys == init + [x];
      DistinctSnoc(init, x);
      RaiseAllMult(m, src, init, y);
    }
  }

  lemma {:induction false} LowerEachMult<T>(m: map<T, nat>, elems: seq<T>, y: T)
    ensures Mult(LowerEach(m, elems), y) == Monus(Mult(m, y), multiset(elems)[y])
  {
    if elems != [] {
      var init, x := elems[..|elems| - 1], elems[|elems| - 1];
      assert elems == init + [x];
      LowerEachMult(m, init, y);
    }
  }

  lemma {:induction false} LowerAllMult<T>(m: map<T, nat>, src: map<T, nat>, keys: seq<T>, y: T)
    requires Distinct(keys)
    ensures Mult(LowerAll(m, src, keys), y) == Monus(Mult(m, y), if y in keys then Mult(src, y) else 0)
  {
    if keys != [] {
      var init, x := keys[..|keys| - 1], keys[|keys| - 1];
      assert keys == init + [x];
      DistinctSnoc(init, x);
      LowerAllMult(m, src, init, y);
    }
  }

  lemma {:induction false} MeetMult<T>(m: map<T, nat>, o: map<T, nat>, keys: seq<T>, y: T)
    requires Distinct(keys)
    ensures Mult(Meet(m, o, keys), y) == if y in keys then Min(Mult(o, y), Mult(m, y)) else 0
  {
    if keys != [] {
      var init, x := keys[..|keys| - 1], keys[|keys| - 1];
      assert keys == init + [x];
      DistinctSnoc(init, x);
      MeetMult(m, o, init, y);
    }
  }

  /** Before a walk reaches a key of a distinct sequence, it has not touched that key. */
  lemma RaiseAllHas<T>(m: map<T, nat>, src: map<T, nat>, keys: seq<T>, i: nat)
    requires Distinct(keys) && i < |keys|
    ensures keys[i] !in keys[..i]
    ensures Mult(RaiseAll(m, src, keys[..i]), keys[i]) == Mult(m, keys[i])
  {
    DistinctAt(keys, i);
    RaiseAllMult(m, src, keys[..i], keys[i]);
  }

  lemma MeetHas<T>(m: map<T, nat>, o: map<T, nat>, keys: seq<T>, i: nat)
    requires Distinct(keys) && i < |keys|
    ensures Mult(Meet(m, o, keys[..i]), keys[i]) == 0
  {
    DistinctAt(keys, i);
    MeetMult(m, o, keys[..i], keys[i]);
  }

  /** The walks store exactly the bag operations they implement. */
  lemma RaiseAllCounts<T(!new)>(m: map<T, nat>, b: multiset<T>, src: map<T, nat>, bs: multiset<T>, keys: seq<T>)
    requires Counts(b, m) && Counts(bs, src) && KeyOrder(src, keys)
    ensures Counts(b + bs, RaiseAll(m, src, keys))
  {
    forall y ensures (b + bs)[y] == Mult(RaiseAll(m, src, keys), y) {
      RaiseAllMult(m, src, keys, y);
      assert b[y] == Mult(m, y) && bs[y] == Mult(src, y);
    }
  }

  lemma LowerAllCounts<T(!new)>(m: map<T, nat>, b: multiset<T>, src: map<T, nat>, bs: multiset<T>, keys: seq<T>)
    requires Counts(b, m) && Counts(bs, src) && KeyOrder(src, keys)
    ensures Counts(b - bs, LowerAll(m, src, keys))
  {
    forall y ensures (b - bs)[y] == Mult(LowerAll(m, src, keys), y) {
      LowerAllMult(m, src, keys, y);
      assert b[y] == Mult(m, y) && bs[y] == Mult(src, y);
    }
  }

  lemma LowerEachCounts<T(!new)>(m: map<T, nat>, b: multiset<T>, elems: seq<T>)
    requires Counts(b, m)
    ensures Counts(b - multiset(elems), LowerEach(m, elems))
  {
    forall y ensures (b - multiset(elems))[y] == Mult(LowerEach(m, elems), y) {
      LowerEachMult(m, elems, y);
      assert b[y] == Mult(m, y);
    }
  }

  lemma MeetCounts<T(!new)>(m: map<T, nat>, b: multiset<T>, o: map<T, nat>, bo: multiset<T>, keys: seq<T>)
    requires Counts(b, m) && Counts(bo, o) && KeyOrder(m, keys)
    ensures Counts(b * bo, Meet(m, o, keys))
  {
    forall y ensures (b * bo)[y] == Mult(Meet(m, o, keys), y) {
      MeetMult(m, o, keys, y);
      assert b[y] == Mult(m, y) && bo[y] == Mult(o, y);
    }
  }

  /** A multiset is determined by the storage that counts it. */
  lemma CountsUnique<T(!new)>(a: multiset<T>, b: multiset<T>, m: map<T, nat>)
    requires Counts(a, m) && Counts(b, m)
    ensures a == b
  {
    forall x ensures a[x] == b[x] {
      assert a[x] == Mult(m, x);
    }
    Extensional(a, b);
  }

  /** A sub-bag is no larger, and a sub-bag of the same size is the whole bag. */
  lemma SubBagSize<T>(a: multiset<T>, b: multiset<T>)
    ensures a <= b ==> |a| <= |b|
    ensures a <= b && |a| == |b| ==> a == b
  {
    if a <= b {
      Extensional(b, a + (b - a));
      assert |b| == |a| + |b - a|;
    }
  }

  /** A set seen as a bag holds each member once. */
  lemma {:induction false} SetBag<T>(s: set<T>)
    ensures |multiset(s)| == |s|
  {
    if s != {} {
      var y :| y in s;
      SetBag(s - {y});
      assert multiset(s) == multiset(s - {y}) + multiset{y};
    }
  }

  /** Two stored bags share an element exactly when their hashes share a key. */
  lemma SharedKey<T(!new)>(m1: map<T, nat>, b1: multiset<T>, m2: map<T, nat>, b2: multiset<T>)
    requires Positive(m1) && Counts(b1, m1) && Positive(m2) && Counts(b2, m2)
    ensures (exists o :: o in m1 && o in m2) <==> !(b1 !! b2)
  {
    if exists o :: o in m1 && o in m2 {
      var o :| o in m1 && o in m2;
      assert b1[o] == Mult(m1, o) && b2[o] == Mult(m2, o);
    }
    if !(b1 !! b2) {
      var o :| o in b1 && o in b2;
      assert b1[o] == Mult(m1, o) && b2[o] == Mult(m2, o);
    }
  }

  // ---------------------------------------------------------------------
  // Sizes and the flattened element sequence

  /** `@hash.values.sum`, summed over the keys in `keys`. */
  function SumCounts<T>(m: map<T, nat>, keys: seq<T>): nat {
    if keys == [] then 0 else Mult(m, keys[0]) + SumCounts(m, keys[1..])
  }

  /** `n.times { yield x }` */
  function Repeat<T>(x: T, n: nat): (r: seq<T>)
    ensures |r| == n
    ensures multiset(r) == multiset{}[x := n]
  {
    if n == 0 then [] else [x] + Repeat(x, n - 1)
  }

  /** Every key in `keys`, each repeated by its count (the `each` traversal). */
  function Flatten<T>(m: map<T, nat>, keys: seq<T>): (r: seq<T>)
    ensures |r| == SumCounts(m, keys)
  {
    if keys == [] then [] else Repeat(keys[0], Mult(m, keys[0])) + Flatten(m, keys[1..])
  }

  lemma {:induction false} FlattenSnoc<T>(m: map<T, nat>, keys: seq<T>, x: T)
    ensures Flatten(m, keys + [x]) == Flatten(m, keys) + Repeat(x, Mult(m, x))
  {
    if keys == [] {
      assert keys + [x] == [x];
      assert Flatten(m, [x]) == Repeat(x, Mult(m, x)) + Flatten(m, []);
    } else {
      assert (keys + [x])[0] == keys[0];
      assert (keys + [x])[1..] == keys[1..] + [x];
      FlattenSnoc(m, keys[1..], x);
    }
  }

  lemma {:induction false} FlattenCounts<T>(m: map<T, nat>, keys: seq<T>)
    requires Distinct(keys)
    ensures forall x :: multiset(Flatten(m, keys))[x] == if x in keys then Mult(m, x) else 0
  {
    if keys != [] {
      var k := keys[0];
      assert keys == [k] + keys[1..];
      DistinctCons(k, keys[1..]);
      FlattenCounts(m, keys[1..]);
      assert Flatten(m, keys) == Repeat(k, Mult(m, k)) + Flatten(m, keys[1..]);
      forall x ensures multiset(Flatten(m, keys))[x] == if x in keys then Mult(m, x) else 0 {
        assert x in keys <==> x == k || x in keys[1..];
      }
    }
  }

  /**
   * Flattening the storage along its key order yields exactly the multiset
   * `b` that the storage counts.
   */
  lemma FlattenIs<T>(m: map<T, nat>, keys: seq<T>, b: multiset<T>)
    requires KeyOrder(m, keys)
    requires forall x :: b[x] == Mult(m, x)
    ensures multiset(Flatten(m, keys)) == b
    ensures SumCounts(m, keys) == |b|
  {
    FlattenCounts(m, keys);
    forall x ensures multiset(Flatten(m, keys))[x] == b[x] {
      assert x in keys <==> x in m;
    }
    Extensional(multiset(Flatten(m, keys)), b);
  }

  /**
   * Equal size and every member of `s` stored: that is exactly the stored
   * bag being `s`, every count 1.
   */
  lemma StoredSet<T(!new)>(m: map<T, nat>, keys: seq<T>, b: multiset<T>, s: set<T>)
    requires Positive(m) && KeyOrder(m, keys) && Counts(b, m)
    ensures (SumCounts(m, keys) == |s| && forall o :: o in s ==> o in m) <==> b == multiset(s)
  {
    FlattenIs(m, keys, b);
    SetBag(s);
    if SumCounts(m, keys) == |s| && forall o :: o in s ==> o in m {
      forall x ensures multiset(s)[x] <= b[x] {
        assert b[x] == Mult(m, x);
      }
      SubBagSize(multiset(s), b);
    }
    if b == multiset(s) {
      forall o | o in s ensures o in m {
        assert b[o] == Mult(m, o);
      }
    }
  }

  // ---------------------------------------------------------------------
  // Scaling: `@hash.merge!(@hash) { |_, v| sf * v }`

  function ScaleMap<T>(m: map<T, nat>, sf: nat): (r: map<T, nat>)
    ensures r.Keys == m.Keys
    ensures forall x :: x in r ==> r[x] == sf * m[x]
    ensures sf >= 1 && Positive(m) ==> Positive(r)
  {
    map x | x in m :: sf * m[x]
  }

  lemma {:induction false} ScaleSum<T>(m: map<T, nat>, keys: seq<T>, sf: nat)
    ensures SumCounts(ScaleMap(m, sf), keys) == sf * SumCounts(m, keys)
  {
    if keys != [] {
      ScaleSum(m, keys[1..], sf);
      calc {
        SumCounts(ScaleMap(m, sf), keys);
        Mult(ScaleMap(m, sf), keys[0]) + SumCounts(ScaleMap(m, sf), keys[1..]);
        sf * Mult(m, keys[0]) + sf * SumCounts(m, keys[1..]);
        sf * (Mult(m, keys[0]) + SumCounts(m, keys[1..]));
      }
    }
  }

  // ---------------------------------------------------------------------
  // Union (`|`) and symmetric difference (`^`), per element max and |a - b|

  function UnionMap<T>(a: map<T, nat>, b: map<T, nat>): (r: map<T, nat>)
    ensures Positive(a) && Positive(b) ==> Positive(r)
  {
    map x | x in a.Keys + b.Keys :: Max(Mult(a, x), Mult(b, x))
  }

  function SymDiffMap<T>(a: map<T, nat>, b: map<T, nat>): (r: map<T, nat>)
    ensures Positive(r)
  {
    map x | x in a.Keys + b.Keys && Mult(a, x) != Mult(b, x) :: Dist(Mult(a, x), Mult(b, x))
  }

  /** The union holds each element max(a, b) times, that is a + (b - a). */
  lemma UnionBag<T>(a: map<T, nat>, b: map<T, nat>)
    ensures Bag(UnionMap(a, b)) == Bag(a) + (Bag(b) - Bag(a))
    ensures Bag(a) <= Bag(UnionMap(a, b)) && Bag(b) <= Bag(UnionMap(a, b))
  {
    BagAt(a);
    BagAt(b);
    var u := UnionMap(a, b);
    BagAt(u);
    forall x ensures Bag(u)[x] == (Bag(a) + (Bag(b) - Bag(a)))[x] {
      assert Mult(u, x) == Max(Mult(a, x), Mult(b, x));
    }
    Extensional(Bag(u), Bag(a) + (Bag(b) - Bag(a)));
  }

  /** The symmetric difference is what each side has in excess of the other. */
  lemma SymDiffBag<T>(a: map<T, nat>, b: map<T, nat>)
    ensures Bag(SymDiffMap(a, b)) == (Bag(a) - Bag(b)) + (Bag(b) - Bag(a))
  {
    BagAt(a);
    BagAt(b);
    var d := SymDiffMap(a, b);
    BagAt(d);
    forall x ensures Bag(d)[x] == ((Bag(a) - Bag(b)) + (Bag(b) - Bag(a)))[x] {
      assert Mult(d, x) == Dist(Mult(a, x), Mult(b, x));
    }
    Extensional(Bag(d), (Bag(a) - Bag(b)) + (Bag(b) - Bag(a)));
  }

  /** `|` is commutative and idempotent. */
  lemma UnionLaws<T>(a: map<T, nat>, b: map<T, nat>)
    requires Positive(a)
    ensures UnionMap(a, b) == UnionMap(b, a)
    ensures UnionMap(a, a) == a
  {
    assert UnionMap(a, a).Keys == a.Keys;
  }

  /** `^` is commutative, and a multiset's symmetric difference with itself is empty. */
  lemma SymDiffLaws<T>(a: map<T, nat>, b: map<T, nat>)
    ensures SymDiffMap(a, b) == SymDiffMap(b, a)
    ensures SymDiffMap(a, a) == map[]
  {
    assert SymDiffMap(a, a).Keys == {};
  }

  // ---------------------------------------------------------------------
  // Insertion order of the keys

  /** The elements of `s` that are keys of `m`, in the order of `s`. */
  function Surviving<T>(s: seq<T>, m: map<T, nat>): seq<T> {
    if s == [] then []
    else if s[|s| - 1] in m then Surviving(s[..|s| - 1], m) + [s[|s| - 1]]
    else Surviving(s[..|s| - 1], m)
  }

  /** The first occurrence of each element of `s` that is not in `known`, in order. */
  function NewKeys<T>(s: seq<T>, known: set<T>): seq<T> {
    if s == [] then []
    else if s[|s| - 1] in known || s[|s| - 1] in s[..|s| - 1] then NewKeys(s[..|s| - 1], known)
    else NewKeys(s[..|s| - 1], known) + [s[|s| - 1]]
  }

  lemma {:induction false} SurvivingSnoc<T>(s: seq<T>, y: T, m: map<T, nat>)
    ensures Surviving(s + [y], m) == Surviving(s, m) + (if y in m then [y] else [])
  {
    assert (s + [y])[..|s|] == s;
  }

  lemma {:induction false} NewKeysSnoc<T>(s: seq<T>, y: T, known: set<T>)
    ensures NewKeys(s + [y], known) == NewKeys(s, known) + (if y in known || y in s then [] else [y])
  {
    assert (s + [y])[..|s|] == s;
  }

  /** `Surviving` keeps exactly the listed keys of `m`, without introducing repeats. */
  lemma {:induction false} SurvivingMembers<T>(s: seq<T>, m: map<T, nat>)
    ensures forall y :: y in Surviving(s, m) <==> y in s && y in m
    ensures Distinct(s) ==> Distinct(Surviving(s, m))
  {
    if s != [] {
      var init, y := s[..|s| - 1], s[|s| - 1];
      assert s == init + [y];
      SurvivingMembers(init, m);
      DistinctSnoc(init, y);
      if y in m {
        DistinctSnoc(Surviving(init, m), y);
      }
    }
  }

  /** `NewKeys` lists each element of `s` outside `known` once. */
  lemma {:induction false} NewKeysMembers<T>(s: seq<T>, known: set<T>)
    ensures forall y :: y in NewKeys(s, known) <==> y in s && y !in known
    ensures Distinct(NewKeys(s, known))
  {
    if s != [] {
      var init, y := s[..|s| - 1], s[|s| - 1];
      assert s == init + [y];
      NewKeysMembers(init, known);
      if !(y in known || y in init) {
        DistinctSnoc(NewKeys(init, known), y);
      }
    }
  }

  lemma {:induction false} SurvivingAll<T>(s: seq<T>, m: map<T, nat>)
    requires forall y :: y in s ==> y in m
    ensures Surviving(s, m) == s
  {
    if s != [] {
      SurvivingAll(s[..|s| - 1], m);
      assert s == s[..|s| - 1] + [s[|s| - 1]];
    }
  }

  lemma {:induction false} SurvivingTwice<T>(s: seq<T>, m1: map<T, nat>, m2: map<T, nat>)
    requires m2.Keys <= m1.Keys
    ensures Surviving(Surviving(s, m1), m2) == Surviving(s, m2)
  {
    if s != [] {
      var init, y := s[..|s| - 1], s[|s| - 1];
      SurvivingTwice(init, m1, m2);
      if y in m1 {
        SurvivingSnoc(Surviving(init, m1), y, m2);
      }
    }
  }

  /** A list without repeats, with nothing known beforehand, is all new. */
  lemma {:induction false} NewKeysDistinct<T>(s: seq<T>)
    requires Distinct(s)
    ensures NewKeys(s, {}) == s
  {
    if s != [] {
      var init, y := s[..|s| - 1], s[|s| - 1];
      assert s == init + [y];
      DistinctSnoc(init, y);
      NewKeysDistinct(init);
    }
  }

  // ---------------------------------------------------------------------
  // One round of the loops that walk a sequence or a key order

  /** Entry `i` of a list without repeats does not occur before `i`. */
  lemma DistinctAt<T>(s: seq<T>, i: nat)
    requires Distinct(s) && i < |s|
    ensures Distinct(s[..i]) && s[i] !in s[..i]
  {
    DistinctTake(s, i + 1);
    assert s[..i + 1] == s[..i] + [s[i]];
    DistinctSnoc(s[..i], s[i]);
  }

  /** For stored counts, membership of the key and a positive count agree. */
  lemma KeyIff<T(!new)>(m: map<T, nat>, b: multiset<T>, x: T)
    requires Positive(m) && Counts(b, m)
    ensures x in m <==> b[x] > 0
  {
    assert b[x] == Mult(m, x);
  }

  /** One more element of `elems` goes to the key order when it is new. */
  lemma NewKeysStep<T>(s0: seq<T>, elems: seq<T>, i: nat, known: set<T>, add: bool)
    requires i < |elems|
    requires add <==> elems[i] !in known && elems[i] !in elems[..i]
    ensures (s0 + NewKeys(elems[..i], known)) + (if add then [elems[i]] else []) == s0 + NewKeys(elems[..i + 1], known)
  {
    TakeSnoc(elems, i);
    NewKeysSnoc(elems[..i], elems[i], known);
    AppendRegroup(s0, NewKeys(elems[..i], known), if add then [elems[i]] else []);
  }

  /** One more listed element survives when it is a key. */
  lemma SurvivingStep<T>(s: seq<T>, i: nat, m: map<T, nat>, add: bool)
    requires i < |s|
    requires add <==> s[i] in m
    ensures Surviving(s[..i], m) + (if add then [s[i]] else []) == Surviving(s[..i + 1], m)
  {
    TakeSnoc(s, i);
    SurvivingSnoc(s[..i], s[i], m);
  }

  /** One more element of `elems` survives among the new keys when it is a key and new. */
  lemma SurvivingNewKeysStep<T>(elems: seq<T>, i: nat, m: map<T, nat>, add: bool)
    requires i < |elems|
    requires add <==> elems[i] in m && elems[i] !in elems[..i]
    ensures Surviving(NewKeys(elems[..i], {}), m) + (if add then [elems[i]] else []) == Surviving(NewKeys(elems[..i + 1], {}), m)
  {
    TakeSnoc(elems, i);
    NewKeysSnoc(elems[..i], elems[i], {});
    SurvivingSnoc(NewKeys(elems[..i], {}), elems[i], m);
  }

  /** One more element of `elems` intersected with `a`. */
  lemma IntersectSeqStep<T>(a: multiset<T>, elems: seq<T>, i: nat)
    requires i < |elems|
    ensures a * multiset(elems[..i + 1]) == a * multiset(elems[..i]) + (if multiset(elems[..i])[elems[i]] < a[elems[i]] then multiset{elems[i]} else multiset{})
  {
    TakeSnoc(elems, i);
    IntersectOccurrence(a, multiset(elems[..i]), elems[i]);
  }
}
