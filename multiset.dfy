/**
 * The `Multiset(T)` struct: a bag stored as a hash from element to
 * multiplicity. `hash` is `@hash`; `order` is the order in which the hash's
 * keys were inserted, which is the order `uniq` and `each` report.
 */
module Multisets {
  import opened Bags
  import opened Errors

  class Multiset<T(==,!new)> {
    var hash: map<T, nat>
    var order: seq<T>
    /** The bag this object holds. */
    ghost var Contents: multiset<T>

    /**
     * No key is stored with a count below 1, `order` lists the keys once
     * each, and `hash` counts exactly `Contents`.
     */
    ghost predicate Valid()
      reads this
    {
      Positive(hash) && KeyOrder(hash, order) && Counts(Contents, hash)
    }

    /** `Multiset(T).new`: an empty multiset. */
    constructor ()
      ensures Valid()
      ensures hash == map[] && order == []
      ensures Contents == multiset{}
    {
      hash := map[];
      order := [];
      Contents := multiset{};
    }

    /** `Multiset.new(enumerable)`, that is `Multiset(T).new.merge(enumerable)`. */
    constructor FromSeq(elems: seq<T>)
      ensures Valid()
      ensures Contents == multiset(elems)
      ensures order == NewKeys(elems, {})
    {
      hash := map[];
      order := [];
      Contents := multiset{};
      new;
      assert hash.Keys == {};
      MergeSeq(elems);
      assert multiset{} + multiset(elems) == multiset(elems);
    }

    // -------------------------------------------------------------------
    // Mutators

    /** `add(object)` and its alias `<<`: one more copy of `x`. */
    method AddOne(x: T)
      requires Valid()
      modifies this
      ensures Valid()
      ensures hash == Raised(old(hash), x, 1)
      ensures Contents == old(Contents) + multiset{x}
      ensures order == old(order) + (if x in old(hash) then [] else [x])
    {
      RaiseStep(hash, order, Contents, x, 1);
      OneCopy(x);
      order := order + (if x in hash then [] else [x]);
      hash := hash[x := Mult(hash, x) + 1];
      Contents := Contents + multiset{x};
    }

    /** `add(object, count)`: `count` more copies of `x`; a negative count raises. */
    method Add(x: T, count: int) returns (r: Outcome)
      requires Valid()
      modifies this
      ensures Valid()
      ensures r == if count < 0 then ArgumentError(NegativeCount) else Ok
      ensures count < 0 ==> hash == old(hash) && Contents == old(Contents)
      ensures count >= 0 ==> hash == Raised(old(hash), x, count)
      ensures count >= 0 ==> Contents == old(Contents) + multiset{}[x := count]
      ensures order == old(order) + (if count > 0 && x !in old(hash) then [x] else [])
    {
      if count < 0 {
        return ArgumentError(NegativeCount);
      }
      if count > 0 {
        RaiseStep(hash, order, Contents, x, count);
        order := order + (if x in hash then [] else [x]);
        hash := hash[x := Mult(hash, x) + count];
        Contents := Contents + multiset{}[x := count];
      } else {
        NoCopies(Contents, x);
      }
      r := Ok;
    }

    /** `delete(object)`: one copy fewer of `x`; the key goes when its count drops below 1. */
    method DeleteOne(x: T)
      requires Valid()
      modifies this
      ensures Valid()
      ensures hash == Lowered(old(hash), x, 1)
      ensures Contents == old(Contents) - multiset{x}
      ensures hash.Keys <= old(hash).Keys
      ensures order == Surviving(old(order), hash)
    {
      LowerStep(hash, order, Contents, x, 1);
      OneCopy(x);
      hash := Lowered(hash, x, 1);
      if x !in hash {
        order := Surviving(order, hash);
      }
      Contents := Contents - multiset{x};
    }

    /**
     * `delete(object, count)`: `count` copies fewer of `x`, never below 0;
     * a negative count raises before anything changes.
     */
    method Delete(x: T, count: int) returns (r: Outcome)
      requires Valid()
      modifies this
      ensures Valid()
      ensures r == if count < 0 then ArgumentError(NegativeCount) else Ok
      ensures count < 0 ==> hash == old(hash) && Contents == old(Contents)
      ensures count >= 0 ==> hash == Lowered(old(hash), x, count)
      ensures count >= 0 ==> Contents == old(Contents) - multiset{}[x := count]
      ensures hash.Keys <= old(hash).Keys
      ensures order == Surviving(old(order), hash)
    {
      if count < 0 {
        SurvivingAll(order, hash);
        return ArgumentError(NegativeCount);
      }
      LowerStep(hash, order, Contents, x, count);
      hash := Lowered(hash, x, count);
      if x !in hash {
        order := Surviving(order, hash);
      }
      Contents := Contents - multiset{}[x := count];
      r := Ok;
    }

    /** `merge(elems)`: `add` each element of the sequence in turn. */
    method MergeSeq(elems: seq<T>)
      requires Valid()
      modifies this
      ensures Valid()
      ensures Contents == old(Contents) + multiset(elems)
      ensures order == old(order) + NewKeys(elems, old(hash).Keys)
    {
      ghost var m0, s0, b0 := hash, order, Contents;
      var i := 0;
      while i < |elems|
        invariant 0 <= i <= |elems|
        invariant Valid()
        invariant Contents == b0 + multiset(elems[..i])
        invariant order == s0 + NewKeys(elems[..i], m0.Keys)
      {
        MergeSeqStep(m0, b0, s0, elems, i, hash, order, Contents);
        AddOne(elems[i]);
        i := i + 1;
      }
      assert elems[..i] == elems;
    }

    /**
     * `merge(other : Multiset)`: add `other`'s count of each of its elements,
     * walking `other`'s keys in their order.
     */
    method Merge(other: Multiset<T>)
      requires Valid() && other.Valid()
      modifies this
      ensures Valid()
      ensures Contents == old(Contents) + old(other.Contents)
      ensures order == old(order) + NewKeys(old(other.order), old(hash).Keys)
    {
      var src, keys := other.hash, other.order;
      ghost var m0, s0, b0, bs := hash, order, Contents, other.Contents;
      var i := 0;
      while i < |keys|
        invariant 0 <= i <= |keys|
        invariant Valid()
        invariant hash == RaiseAll(m0, src, keys[..i])
        invariant order == s0 + NewKeys(keys[..i], m0.Keys)
      {
        var x := keys[i];
        RaiseAllStep(m0, src, keys, i);
        RaiseAllHas(m0, src, keys, i);
        NewKeysStep(s0, keys, i, m0.Keys, x !in hash);
        var _ := Add(x, src[x]);
        i := i + 1;
      }
      assert keys[..i] == keys;
      RaiseAllCounts(m0, b0, src, bs, keys);
      CountsUnique(Contents, b0 + bs, hash);
    }

    /** `subtract(other : Enumerable)`: `delete` each element of the sequence in turn. */
    method SubtractSeq(elems: seq<T>)
      requires Valid()
      modifies this
      ensures Valid()
      ensures Contents == old(Contents) - multiset(elems)
      ensures order == Surviving(old(order), hash)
    {
      SurvivingAll(order, hash);
      ghost var m0, s0, b0 := hash, order, Contents;
      var i := 0;
      while i < |elems|
        invariant 0 <= i <= |elems|
        invariant Valid()
        invariant hash == LowerEach(m0, elems[..i])
        invariant order == Surviving(s0, hash)
      {
        ghost var before := hash;
        LowerEachStep(m0, elems, i);
        DeleteOne(elems[i]);
        SurvivingTwice(s0, before, hash);
        i := i + 1;
      }
      assert elems[..i] == elems;
      LowerEachCounts(m0, b0, elems);
      CountsUnique(Contents, b0 - multiset(elems), hash);
    }

    /**
     * `subtract(other : Multiset)`: `delete(elem, count)` for each entry of
     * `other`, walking its keys in their order.
     */
    method Subtract(other: Multiset<T>)
      requires Valid() && other.Valid()
      modifies this
      ensures Valid()
      ensures Contents == old(Contents) - old(other.Contents)
      ensures order == Surviving(old(order), hash)
    {
      var src, keys := other.hash, other.order;
      ghost var m0, s0, b0, bs := hash, order, Contents, other.Contents;
      SurvivingAll(order, hash);
      var i := 0;
      while i < |keys|
        invariant 0 <= i <= |keys|
        invariant Valid()
        invariant hash == LowerAll(m0, src, keys[..i])
        invariant order == Surviving(s0, hash)
      {
        var x := keys[i];
        ghost var before := hash;
        LowerAllStep(m0, src, keys, i);
        var _ := Delete(x, src[x]);
        SurvivingTwice(s0, before, hash);
        i := i + 1;
      }
      assert keys[..i] == keys;
      LowerAllCounts(m0, b0, src, bs, keys);
      CountsUnique(Contents, b0 - bs, hash);
    }

    /** `clear`: remove every element. */
    method Clear()
      modifies this
      ensures Valid()
      ensures hash == map[] && order == []
      ensures Contents == multiset{}
    {
      hash := map[];
      order := [];
      Contents := multiset{};
    }

    /**
     * `*(sf)`: multiply every count by `sf`. A negative factor raises before
     * anything changes; 0 clears.
     */
    method Scale(sf: int) returns (r: Outcome)
      requires Valid()
      modifies this
      ensures Valid()
      ensures r == if sf < 0 then ArgumentError(NegativeArgument) else Ok
      ensures sf < 0 ==> hash == old(hash) && order == old(order) && Contents == old(Contents)
      ensures sf == 0 ==> Contents == multiset{} && order == []
      ensures sf > 0 ==> hash.Keys == old(hash).Keys && order == old(order)
      ensures sf >= 0 ==> forall x :: Contents[x] == sf * old(Contents)[x]
      ensures sf >= 0 ==> Size() == sf * old(Size())
    {
      if sf < 0 {
        return ArgumentError(NegativeArgument);
      }
      if sf == 0 {
        Clear();
      } else {
        ScaleSum(hash, order, sf);
        hash := ScaleMap(hash, sf);
        BagAt(hash);
        Contents := Bag(hash);
      }
      r := Ok;
    }

    // -------------------------------------------------------------------
    // Operations that build a new multiset

    /** `dup`, that is `Multiset(T).new.merge(self)`: an equal, unaliased copy. */
    method Dup() returns (d: Multiset<T>)
      requires Valid()
      ensures fresh(d) && d.Valid()
      ensures d.hash == hash && d.order == order
      ensures d.Contents == Contents
    {
      d := new Multiset();
      assert d.hash.Keys == {};
      d.Merge(this);
      NewKeysDistinct(order);
      assert multiset{} + Contents == Contents;
      MultInjective(d.hash, hash);
    }

    /** `+(other : Multiset)`, that is `dup.merge(other)`. */
    method Plus(other: Multiset<T>) returns (n: Multiset<T>)
      requires Valid() && other.Valid()
      ensures fresh(n) && n.Valid()
      ensures n.Contents == Contents + other.Contents
      ensures n.order == order + NewKeys(other.order, hash.Keys)
    {
      n := Dup();
      n.Merge(other);
    }

    /** `+(other)` with a plain sequence, that is `dup.merge(elems)`. */
    method PlusSeq(elems: seq<T>) returns (n: Multiset<T>)
      requires Valid()
      ensures fresh(n) && n.Valid()
      ensures n.Contents == Contents + multiset(elems)
      ensures n.order == order + NewKeys(elems, hash.Keys)
    {
      n := Dup();
      n.MergeSeq(elems);
    }

    /** `-(other : Multiset)`, that is `dup.subtract(other)`. */
    method Minus(other: Multiset<T>) returns (n: Multiset<T>)
      requires Valid() && other.Valid()
      ensures fresh(n) && n.Valid()
      ensures n.Contents == Contents - other.Contents
      ensures n.order == Surviving(order, n.hash)
    {
      n := Dup();
      n.Subtract(other);
    }

    /** `-(other)` with a plain sequence, that is `dup.subtract(elems)`. */
    method MinusSeq(elems: seq<T>) returns (n: Multiset<T>)
      requires Valid()
      ensures fresh(n) && n.Valid()
      ensures n.Contents == Contents - multiset(elems)
      ensures n.order == Surviving(order, n.hash)
    {
      n := Dup();
      n.SubtractSeq(elems);
    }

    /** `&(other : Multiset)`: for each own entry, add the smaller of the two counts. */
    method Intersect(other: Multiset<T>) returns (n: Multiset<T>)
      requires Valid() && other.Valid()
      ensures fresh(n) && n.Valid()
      ensures n.Contents == Contents * other.Contents
      ensures n.order == Surviving(order, other.hash)
    {
      n := new Multiset();
      var i := 0;
      while i < |order|
        invariant 0 <= i <= |order|
        invariant fresh(n) && n.Valid()
        invariant n.hash == Meet(hash, other.hash, order[..i])
        invariant n.order == Surviving(order[..i], other.hash)
      {
        var x := order[i];
        var count := hash[x];
        var oc := other.Multiplicity(x);
        MeetStep(hash, other.hash, order, i);
        MeetHas(hash, other.hash, order, i);
        SurvivingStep(order, i, other.hash, Min(oc, count) > 0 && x !in n.hash);
        var _ := n.Add(x, Min(oc, count));
        i := i + 1;
      }
      assert order[..i] == order;
      MeetCounts(hash, Contents, other.hash, other.Contents, order);
      CountsUnique(n.Contents, Contents * other.Contents, n.hash);
    }

    /**
     * `&(other : Enumerable)`: walk the sequence and add one copy of an
     * element while the copies so far are fewer than its count in `self`.
     */
    method IntersectSeq(elems: seq<T>) returns (n: Multiset<T>)
      requires Valid()
      ensures fresh(n) && n.Valid()
      ensures n.Contents == Contents * multiset(elems)
      ensures n.order == Surviving(NewKeys(elems, {}), hash)
    {
      n := new Multiset();
      var i := 0;
      while i < |elems|
        invariant 0 <= i <= |elems|
        invariant fresh(n) && n.Valid()
        invariant n.Contents == Contents * multiset(elems[..i])
        invariant n.order == Surviving(NewKeys(elems[..i], {}), hash)
      {
        var x := elems[i];
        var count := Multiplicity(x);
        KeyIff(n.hash, n.Contents, x);
        KeyIff(hash, Contents, x);
        IntersectSeqStep(Contents, elems, i);
        if count > 0 && n.Multiplicity(x) < count {
          SurvivingNewKeysStep(elems, i, hash, x !in n.hash);
          n.AddOne(x);
        } else {
          SurvivingNewKeysStep(elems, i, hash, false);
        }
        i := i + 1;
      }
      assert elems[..i] == elems;
    }

    // -------------------------------------------------------------------
    // Queries

    /** `multiplicity(object)`: `@hash[object]`. */
    function Multiplicity(x: T): (n: nat)
      reads this
      requires Valid()
      ensures n == Contents[x]
    {
      Mult(hash, x)
    }

    /** `includes?(object)`: `@hash.has_key?(object)`. */
    function Includes(x: T): (r: bool)
      reads this
      requires Valid()
      ensures r <==> x in Contents
    {
      x in hash
    }

    /** `size`: `@hash.values.sum`. */
    function Size(): (n: nat)
      reads this
      requires Valid()
      ensures n == |Contents|
    {
      FlattenIs(hash, order, Contents);
      SumCounts(hash, order)
    }

    /** `empty?`: `@hash.empty?`. */
    function IsEmpty(): (r: bool)
      reads this
      requires Valid()
      ensures r <==> Contents == multiset{}
      ensures r <==> Size() == 0
    {
      assert hash != map[] ==> Contents != multiset{} by {
        if hash != map[] {
          var k :| k in hash;
          assert Contents[k] >= 1;
        }
      }
      |hash| == 0
    }

    /** `uniq`: `@hash.keys`, each distinct element once, in insertion order. */
    function Uniq(): (r: seq<T>)
      reads this
      requires Valid()
      ensures Distinct(r)
      ensures forall x :: x in r ==> x in Contents
      ensures forall x :: x in Contents ==> x in r
    {
      order
    }

    /** `each`: every element, repeated by its multiplicity, keys in insertion order. */
    function Elements(): (r: seq<T>)
      reads this
      requires Valid()
      ensures multiset(r) == Contents
      ensures |r| == Size()
    {
      FlattenIs(hash, order, Contents);
      Flatten(hash, order)
    }

    /** `==(other : Multiset)`: `same?(other) || @hash == other.@hash`. */
    function Equals(other: Multiset<T>): (r: bool)
      reads this, other
      requires Valid() && other.Valid()
      ensures r <==> Contents == other.Contents
    {
      StorageEquality(hash, other.hash, Contents, other.Contents);
      this == other || hash == other.hash
    }

    /**
     * `==(other : Set)`: equal sizes and every member of the set included.
     * This holds exactly when the multiset is the set, every count being 1.
     */
    function EqualsSet(s: set<T>): (r: bool)
      reads this
      requires Valid()
      ensures r <==> Contents == multiset(s)
    {
      StoredSet(hash, order, Contents, s);
      Size() == |s| && forall o :: o in s ==> o in hash
    }

    /** `intersects?(other)`: some element of the side with fewer keys is in the other. */
    function Intersects(other: Multiset<T>): (r: bool)
      reads this, other
      requires Valid() && other.Valid()
      ensures r <==> !(Contents !! other.Contents)
    {
      SharedKey(hash, Contents, other.hash, other.Contents);
      if |hash| < |other.hash| then
        exists o :: o in hash && o in other.hash
      else
        exists o :: o in other.hash && o in hash
    }

    /** `subset?(other)`: no element has a higher count here than in `other`. */
    function IsSubset(other: Multiset<T>): (r: bool)
      reads this, other
      requires Valid() && other.Valid()
      ensures r <==> Contents <= other.Contents
    {
      SubBagSize(Contents, other.Contents);
      if Size() > other.Size() then false
      else forall o :: o in hash ==> hash[o] <= Mult(other.hash, o)
    }

    /** `superset?(other)`: the mirror image of `subset?`. */
    function IsSuperset(other: Multiset<T>): (r: bool)
      reads this, other
      requires Valid() && other.Valid()
      ensures r <==> other.Contents <= Contents
    {
      SubBagSize(other.Contents, Contents);
      if Size() < other.Size() then false
      else forall o :: o in other.hash ==> Mult(hash, o) >= other.hash[o]
    }

    /** `proper_subset?(other)`: a subset of strictly smaller size. */
    function IsProperSubset(other: Multiset<T>): (r: bool)
      reads this, other
      requires Valid() && other.Valid()
      ensures r <==> Contents < other.Contents
    {
      SubBagSize(Contents, other.Contents);
      if Size() >= other.Size() then false
      else forall o :: o in hash ==> hash[o] <= Mult(other.hash, o)
    }

    /** `proper_superset?(other)`: a superset of strictly larger size. */
    function IsProperSuperset(other: Multiset<T>): (r: bool)
      reads this, other
      requires Valid() && other.Valid()
      ensures r <==> other.Contents < Contents
    {
      SubBagSize(other.Contents, Contents);
      if Size() <= other.Size() then false
      else forall o :: o in other.hash ==> Mult(hash, o) >= other.hash[o]
    }
  }

  /** Mutual `subset?` means the two hashes are equal, hence `==`. */
  lemma SubsetAntisymmetric<T(!new)>(a: Multiset<T>, b: Multiset<T>)
    requires a.Valid() && b.Valid()
    requires a.IsSubset(b) && b.IsSubset(a)
    ensures a.hash == b.hash
    ensures a.Equals(b)
  {
    StorageEquality(a.hash, b.hash, a.Contents, b.Contents);
  }

  // ---------------------------------------------------------------------
  // One round of each loop, stated over the stored values

  /** One round of `merge(elems)`: `elems[i]` is added. */
  lemma MergeSeqStep<T(!new)>(m0: map<T, nat>, b0: multiset<T>, s0: seq<T>, elems: seq<T>, i: nat,
                              m: map<T, nat>, s: seq<T>, b: multiset<T>)
    requires i < |elems|
    requires Positive(m0) && Counts(b0, m0) && Positive(m) && Counts(b, m)
    requires b == b0 + multiset(elems[..i])
    requires s == s0 + NewKeys(elems[..i], m0.Keys)
    ensures b + multiset{elems[i]} == b0 + multiset(elems[..i + 1])
    ensures s + (if elems[i] in m then [] else [elems[i]]) == s0 + NewKeys(elems[..i + 1], m0.Keys)
  {
    var x := elems[i];
    assert x in m <==> x in m0 || x in elems[..i] by {
      assert b[x] == b0[x] + multiset(elems[..i])[x];
    }
    TakeSnoc(elems, i);
    UnionRegroup(b0, multiset(elems[..i]), multiset{x});
    NewKeysSnoc(elems[..i], x, m0.Keys);
    AppendRegroup(s0, NewKeys(elems[..i], m0.Keys), if x in m then [] else [x]);
  }
}
