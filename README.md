# Multiset(T), modelled in Dafny

This project models the `Multiset(T)` struct of the Crystal library
`multiset.cr` (version 0.3.0). A multiset is a bag, a collection in which
each distinct element carries a multiplicity of at least 1. The struct keeps
the bag in a single `@hash : Hash(T, Int32)`. A key that is absent reads as
count 0. Every operation is counting arithmetic on that hash.

The model has three modules:

- `Errors`: the one error the struct raises. `ArgumentError` is raised for a
  negative count given to `add` or `delete`, and for a negative factor given
  to `*`. Its two message texts are constants here.
- `Bags`: pure functions and lemmas over the storage.
  - A `map<T, nat>` stands for `@hash`, with `Mult` reading an absent key
    as 0.
  - `Counts` ties a storage to the Dafny `multiset` it stands for.
  - `KeyOrder` ties a storage to the insertion order of its keys.
  - `Raised` and `Lowered` are the two ways a count is written. `Raised` is
    `@hash[x] + c`. `Lowered` is `@hash[x] - c`, then deleting the key below
    1.
  - `RaiseAll`, `LowerEach`, `LowerAll` and `Meet` are the storages left
    after the loops of `merge`, `subtract` and `&`.
  - `Flatten` is the `each` traversal.
  - `UnionMap` and `SymDiffMap` are the per-element combinations of `|`
    and `^`.
- `Multisets`: the struct itself, as the class `Multiset<T>`.
  - `hash` is `@hash`.
  - `order` is the insertion order that a Crystal `Hash` keeps for its keys.
    This is the order in which `uniq` and `each` report elements.
  - The ghost field `Contents` is the bag that the object holds.
  - `Valid()` says three things: no key is stored with a count below 1,
    `order` lists every key exactly once, and `hash` counts exactly
    `Contents`.
  - Mutators change the object in place. The operations that build a new
    multiset (`dup`, `+`, `-`, `&`) return a fresh object.
  - Queries are functions.

Every mutator states two things: the storage it leaves, and the bag
operation this amounts to. For example, `subtract(other : Multiset)` leaves
`Contents == old(Contents) - old(other.Contents)`. That is the truncated
per-element difference.

The loops of `merge`, `subtract` and `&` are verified against the storage
functions of `Bags`. The lemmas `RaiseAllCounts`, `LowerAllCounts`,
`LowerEachCounts` and `MeetCounts` then show that those storages count the
sum, the truncated difference and the minimum.

All methods are embedded, with their bodies, in the library's documentation
index `search-index.js`, and all of it is on line 1. Every citation below
therefore reads `search-index.js:1`.

About `&(other : Enumerable)`: the operation is sometimes described as
treating the sequence as a set of candidates, so that each element
contributes its full count in the receiver. The code works differently. It
walks the sequence and adds one copy of an element while fewer copies than
the receiver's count have been added. The result is therefore the minimum of
the receiver's count and the number of occurrences in the sequence. The model
follows the code: `IntersectSeq` ensures `Contents * multiset(elems)`.

## Model

| member | source | states |
|---|---|---|
| Multisets.Multiset.constructor | search-index.js:1 | `Multiset(T).new` holds the empty bag, with no keys and an empty key order |
| Multisets.Multiset.FromSeq | search-index.js:1 | `new(enumerable)` holds exactly the elements of the sequence, with their numbers of occurrences; keys are ordered by first occurrence |
| Multisets.Multiset.AddOne | search-index.js:1 | `add(object)` / `<<` adds one copy of `x`; the storage becomes `@hash[x] + 1`; a new key goes to the end of the order; every stored count stays at least 1 |
| Multisets.Multiset.Add | search-index.js:1 | `add(object, count)`: a negative count gives `ArgumentError("attempt to add negative count")` and nothing changes; otherwise the bag gains `count` copies of `x` and nothing else; count 0 creates no key |
| Multisets.Multiset.DeleteOne | search-index.js:1 | `delete(object)` removes one copy of `x` (none if absent); a count that falls below 1 removes the key from the hash and from the order; no key is added |
| Multisets.Multiset.Delete | search-index.js:1 | `delete(object, count)`: a negative count raises with nothing changed; otherwise the count becomes `max(old - count, 0)`, the key goes when that is below 1, and other elements and the order of surviving keys are unchanged |
| Multisets.Multiset.MergeSeq | search-index.js:1 | `merge(elems)` adds every occurrence in the sequence; keys new to the hash are appended in order of first occurrence |
| Multisets.Multiset.Merge | search-index.js:1 | `merge(other : Multiset)` yields the bag sum of both; `other`'s new keys are appended in `other`'s order |
| Multisets.Multiset.SubtractSeq | search-index.js:1 | `subtract(other : Enumerable)` removes one copy per occurrence, never going below 0; surviving keys keep their order |
| Multisets.Multiset.Subtract | search-index.js:1 | `subtract(other : Multiset)` yields the per-element truncated difference; surviving keys keep their order |
| Multisets.Multiset.Clear | search-index.js:1 | `clear` leaves the empty bag, with no keys |
| Multisets.Multiset.Scale | search-index.js:1 | `*(sf)`: a negative factor gives `ArgumentError("negative argument")` with nothing changed; 0 empties the bag; a positive factor multiplies every count, keeps keys and order, and multiplies `size` by `sf` |
| Multisets.Multiset.Dup | search-index.js:1 | `dup` returns a fresh object with the same storage, key order and bag |
| Multisets.Multiset.Plus | search-index.js:1 | `+(other : Multiset)` returns a fresh bag sum and changes neither operand |
| Multisets.Multiset.PlusSeq | search-index.js:1 | `+(other : Enumerable)` returns a fresh multiset holding the receiver plus every occurrence in the sequence |
| Multisets.Multiset.Minus | search-index.js:1 | `-(other : Multiset)` returns a fresh truncated difference; the receiver is unchanged |
| Multisets.Multiset.MinusSeq | search-index.js:1 | `-(other : Enumerable)` returns a fresh multiset: the receiver with one copy removed per occurrence |
| Multisets.Multiset.Intersect | search-index.js:1 | `&(other : Multiset)` returns a fresh per-element minimum; its keys are the receiver's keys found in `other`, in the receiver's order |
| Multisets.Multiset.IntersectSeq | search-index.js:1 | `&(other : Enumerable)` returns a fresh bag holding the minimum of the receiver's count and the number of occurrences in the sequence |
| Multisets.Multiset.Multiplicity | search-index.js:1 | `multiplicity(object)` is the number of copies in the bag, 0 when absent |
| Multisets.Multiset.Includes | search-index.js:1 | `includes?(object)` holds exactly when the bag has a copy of the object |
| Multisets.Multiset.Size | search-index.js:1 | `size`, the sum of the stored counts, is the number of elements with repeats |
| Multisets.Multiset.IsEmpty | search-index.js:1 | `empty?`, meaning no keys, holds exactly when the bag is empty, which is exactly when `size` is 0 |
| Multisets.Multiset.Uniq | search-index.js:1 | `uniq` lists every element of the bag exactly once |
| Multisets.Multiset.Elements | search-index.js:1 | `each` yields exactly the bag's elements, each as often as its multiplicity; `size` of them in all |
| Multisets.Multiset.Equals | search-index.js:1 | `==(other : Multiset)`, meaning identity or equal hashes, holds exactly when the two bags are equal |
| Multisets.Multiset.EqualsSet | search-index.js:1 | `==(other : Set)`, meaning equal size and every set member included, holds exactly when the bag is the set: each member once and nothing else |
| Multisets.Multiset.Intersects | search-index.js:1 | `intersects?(other)` holds exactly when the two bags share an element, whichever side is walked |
| Multisets.Multiset.IsSubset | search-index.js:1 | `subset?(other)` holds exactly when no element has more copies here than in `other`; the size check is only a shortcut |
| Multisets.Multiset.IsSuperset | search-index.js:1 | `superset?(other)` holds exactly when `other` is a sub-bag of the receiver |
| Multisets.Multiset.IsProperSubset | search-index.js:1 | `proper_subset?(other)` holds exactly when the receiver is a strict sub-bag of `other` |
| Multisets.Multiset.IsProperSuperset | search-index.js:1 | `proper_superset?(other)` holds exactly when `other` is a strict sub-bag of the receiver |
| Multisets.SubsetAntisymmetric | search-index.js:1 | mutual `subset?` forces equal hashes, hence `==` |
| Bags.SubBagSize | search-index.js:1 | a sub-bag is never larger, so `subset?`'s early `size > other.size` return agrees with the per-element test |
| Bags.StorageEquality | search-index.js:1 | for storage without zero counts, equal hashes and equal bags coincide, so `@hash ==` decides bag equality |
| Bags.StoredSet | search-index.js:1 | equal size plus every set member stored is exactly "the bag is the set" |
| Bags.SharedKey | search-index.js:1 | two hashes share a key exactly when their bags share an element |
| Bags.SetBag | search-index.js:1 | a set read as a bag has as many elements as the set, which is the `other.size` that `==(Set)` compares against |
| Bags.RaiseStep | search-index.js:1 | raising a count by at least 1 keeps every count at least 1, appends a new key to the order, and adds the copies to the bag |
| Bags.LowerStep | search-index.js:1 | lowering a count, with removal below 1, keeps every count at least 1, drops only that key from the order, removes the copies (truncated at 0) and adds no key |
| Bags.RaiseAllMult | search-index.js:1 | after `merge(other : Multiset)`'s walk, each element is stored with its old count plus `other`'s count |
| Bags.LowerEachMult | search-index.js:1 | after `subtract(elems)`'s walk, each count is the old count minus the element's occurrences, truncated at 0 |
| Bags.LowerAllMult | search-index.js:1 | after `subtract(other : Multiset)`'s walk, each count is the old count minus `other`'s count, truncated at 0 |
| Bags.MeetMult | search-index.js:1 | after `&(other : Multiset)`'s walk, each of the receiver's keys holds the smaller of the two counts and nothing else is stored |
| Bags.RaiseAllCounts | search-index.js:1 | the storage `merge(other : Multiset)` leaves counts the bag sum |
| Bags.LowerAllCounts | search-index.js:1 | the storage `subtract(other : Multiset)` leaves counts the truncated bag difference |
| Bags.LowerEachCounts | search-index.js:1 | the storage `subtract(elems)` leaves counts the bag minus the sequence's occurrences |
| Bags.MeetCounts | search-index.js:1 | the storage `&(other : Multiset)` leaves counts the bag intersection |
| Bags.CountsUnique | search-index.js:1 | a storage counts only one bag, so the bag a mutator leaves is determined by its hash |
| Bags.FlattenIs | search-index.js:1 | the `each` traversal along the key order yields exactly the stored bag, and `@hash.values.sum` is its size |
| Bags.ScaleSum | search-index.js:1 | multiplying every count by `sf` multiplies the sum of counts, that is `size`, by `sf` |
| Bags.UnionMap | search-index.js:1 | `|`'s per-element maximum stores no zero count when neither operand does |
| Bags.SymDiffMap | search-index.js:1 | `^`'s per-element absolute difference stores no zero count |
| Bags.UnionBag | search-index.js:1 | `|` holds `max(a, b)` copies of each element, that is `a + (b - a)`, and contains both operands |
| Bags.SymDiffBag | search-index.js:1 | `^` holds what each side has in excess of the other: `(a - b) + (b - a)` |
| Bags.UnionLaws | search-index.js:1 | `|` is commutative, and a multiset's union with itself is itself |
| Bags.SymDiffLaws | search-index.js:1 | `^` is commutative, and a multiset's symmetric difference with itself is empty |
| Bags.SurvivingMembers | search-index.js:1 | after deletions the key order keeps exactly the surviving keys, without repeats |
| Bags.NewKeysMembers | search-index.js:1 | the keys a merge appends are exactly the new elements, each once |
| Bags.NewKeysDistinct | search-index.js:1 | merging a repeat-free key order into an empty multiset reproduces that order, which is why `dup` keeps the order |

## Left out

- `Int32` counts: counts are unbounded `nat`s, so the `OverflowError` that Crystal raises when a count or `size` passes `Int32::MAX` is not modelled.
- `new(initial_capacity)`: the capacity hint, `allocate` and the `GC.add_finalizer` call only manage memory and have no effect on the contents.
- `to_s`, `inspect` and `hash(hasher)` write to an `IO` or feed the host's hasher; they are not modelled.
- `multiplicity(object : U) forall U` returns 0 for an object of a foreign type. The `elem.is_a?(T)` filter in `&(other : Enumerable)` skips such objects. Dafny's element type is fixed, so neither case can arise.
- `|` and `^` call `union_merge`, and `union_merge` is not part of this model. Only the per-element combination blocks, maximum and absolute difference, are modelled, as the pure maps `UnionMap` and `SymDiffMap`. The key order of their results and their method form are not modelled.
- `MultiEntryIterator`, the lazy iterator behind `each`, is not part of this model. `each` is modelled by the flattened sequence `Elements`.
- Mutators return `self` for chaining. Here they return nothing, or an `Outcome` when they can raise.
- Multisets.Multiset.Merge: the loop walks a copy of `other`'s hash and key order taken at entry, so `ms.merge(ms)` doubles every count. Crystal's behaviour when a hash is modified while it is being iterated is not modelled.
- Multisets.Multiset.Subtract: walks a copy of `other`'s storage taken at entry, for the same reason as `Merge`.
- `any?`/`all?` are Crystal `Enumerable` calls. They appear in the model only as quantifiers over the keys they walk.
- Elements are compared with Dafny equality. Crystal's `==`/`hash` contract for user-defined keys is taken to be a lawful equality.
