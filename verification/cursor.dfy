/** The forward iterator of `varbit::vector<T>`. Besides the logical index it
    carries a bit cursor (word, offset) so that stepping costs an addition and a
    carry instead of a multiplication, a division and a remainder. */
module Cursor {
  import opened Bits
  import opened Stream
  import opened Varbit

  /** An iterator over a given vector (the vector is the argument of the
      operations below): index i and the cursor of element i's first bit. */
  datatype Iterator = Iterator(index: nat, word: nat, offset: nat)

  /** The cursor points at the first bit of element `index`. */
  predicate InSync(v: Vector, it: Iterator)
    requires 1 <= v.width <= WordBits(v.block)
  {
    && it.word * WordBits(v.block) + it.offset == Start(v, it.index)
    && it.offset < WordBits(v.block)
  }

  /** `iterator(v, i)`; `iterator(v)` is `At(v, 0)` and the end sentinel is
      `At(v, v.size)`. The cursor is computed from the index. */
  function At(v: Vector, i: nat): (it: Iterator)
    requires Valid(v)
    ensures InSync(v, it) && it.index == i
  {
    Iterator(i, WordOf(v, i), OffsetOf(v, i))
  }

  /** Iterators compare by index (both range over the same vector). */
  predicate SamePosition(a: Iterator, b: Iterator)
  {
    a.index == b.index
  }

  /** Moves whole words out of the offset until it is below B. */
  function Carry(word: nat, offset: nat, b: nat): (r: (nat, nat))
    requires 0 < b
    ensures r.0 * b + r.1 == word * b + offset
    ensures r.1 < b
    decreases offset
  {
    if offset < b then (word, offset)
    else
      var r := Carry(word + 1, offset - b, b);
      assert (word + 1) * b == word * b + b;
      r
  }

  /** `++it`: the offset advances by w and carries into the word index. */
  function Next(v: Vector, it: Iterator): (r: Iterator)
    requires Valid(v) && InSync(v, it)
    ensures InSync(v, r) && r.index == it.index + 1
  {
    var c := Carry(it.word, it.offset + v.width, WordBits(v.block));
    StartNext(v, it.index);
    Iterator(it.index + 1, c.0, c.1)
  }

  /** A cursor in sync with index i is the one computed from i. */
  lemma InSyncIsAt(v: Vector, it: Iterator)
    requires Valid(v) && InSync(v, it)
    ensures it.word == WordOf(v, it.index) && it.offset == OffsetOf(v, it.index)
  {
    DivModUnique(Start(v, it.index), WordBits(v.block), it.word, it.offset);
  }

  /** In-sync iterators over one vector are equal exactly when their indices
      are, so comparing indices compares whole cursors. */
  lemma SamePositionIsEquality(v: Vector, a: Iterator, b: Iterator)
    requires Valid(v) && InSync(v, a) && InSync(v, b)
    ensures SamePosition(a, b) <==> a == b
  {
    InSyncIsAt(v, a);
    InSyncIsAt(v, b);
  }

  /** Stepping the cursor lands where computing it from the next index does. */
  lemma NextIsAt(v: Vector, it: Iterator)
    requires Valid(v) && InSync(v, it)
    ensures Next(v, it) == At(v, it.index + 1)
  {
    InSyncIsAt(v, Next(v, it));
  }

  /** `*it`: the element read straight from the cursor; it is `v[it.index]`. */
  function Deref(v: Vector, it: Iterator): (r: nat)
    requires Valid(v) && InSync(v, it) && it.index < v.size
    ensures r == Get(v, it.index)
  {
    InSyncIsAt(v, it);
    ElementInBuffer(v, it.index);
    Extract(v.words, WordBits(v.block), v.width, it.word, it.offset)
  }
}
