/** The behaviour the vector's test suite pins down, stated over the model:
    construction bounds, push_back then reading back, size and capacity,
    masking to the element width and overwriting by indexed assignment. The
    sequence operations below are the suite's loops; the scenario lemmas
    instantiate them with the suite's own values. */
module VectorTests {
  import opened Bits
  import opened Varbit

  /** The 24 values the suite pushes in most scenarios. */
  const Values: seq<nat> :=
    [1, 2, 3, 4, 5, 6, 7, 8, 9, 0, 1, 2, 3, 4, 5, 6, 7, 8,
     127, 126, 125, 124, 123, 122]

  /** The values pushed before the overwrite scenario. */
  const OldValues: seq<nat> :=
    [1, 2, 3, 4, 5, 6, 7, 8, 9, 0, 1, 2, 3, 4, 5, 6, 7,
     127, 126, 125, 124, 123, 122, 121]

  /** The values assigned, slot by slot, in the overwrite scenario. */
  const NewValues: seq<nat> :=
    [7, 6, 5, 4, 3, 2, 1, 0, 9, 8, 7, 6, 5, 4, 3, 2, 1,
     121, 122, 123, 124, 125, 126, 127]

  /** Each value reduced to its low w bits. */
  function Masked(xs: seq<nat>, w: nat): (r: seq<nat>)
    ensures |r| == |xs|
  {
    seq(|xs|, i requires 0 <= i < |xs| => Trunc(xs[i], w))
  }

  /** Every value already fits in w bits. */
  predicate FitIn(xs: seq<nat>, w: nat)
  {
    forall i :: 0 <= i < |xs| ==> xs[i] < Pow2(w)
  }

  /** Masking leaves values that already fit in w bits alone. */
  lemma MaskedOfSmall(xs: seq<nat>, w: nat)
    requires FitIn(xs, w)
    ensures Masked(xs, w) == xs
  {
    forall i | 0 <= i < |xs|
      ensures Masked(xs, w)[i] == xs[i]
    {
      LowOfSmall(xs[i], w);
      LowIsMod(xs[i], w);
    }
  }

  /** `for (i = 0; i < |xs|; ++i) v.push_back(xs[i]);` */
  function PushAll(v: Vector, xs: seq<nat>): (r: Vector)
    requires Valid(v)
    ensures Valid(r) && r.block == v.block && r.width == v.width
    ensures r.size == v.size + |xs|
    ensures Elems(r) == Elems(v) + Masked(xs, v.width)
    decreases |xs|
  {
    if |xs| == 0 then v
    else
      var u := PushBack(v, xs[0]);
      var r := PushAll(u, xs[1..]);
      assert Masked(xs, v.width) == [Trunc(xs[0], v.width)] + Masked(xs[1..], v.width);
      r
  }

  /** Replacing the first element after a prefix extends the prefix. */
  lemma UpdateAfterPrefix(a: seq<nat>, b: seq<nat>, x: nat)
    requires 0 < |b|
    ensures (a + b)[|a| := x] == a + [x] + b[1..]
  {
  }

  /** `for (i = 0; i < |xs|; ++i) v[i] = xs[i];`: slots 0 to |xs| - 1 are
      assigned in increasing order. */
  function AssignAll(v: Vector, xs: seq<nat>): (r: Vector)
    requires Valid(v) && |xs| <= v.size
    ensures Valid(r) && r.block == v.block && r.width == v.width && r.size == v.size
    ensures Elems(r) == Masked(xs, v.width) + Elems(v)[|xs|..]
    decreases |xs|
  {
    if |xs| == 0 then v
    else
      var n := |xs| - 1;
      var u := AssignAll(v, xs[..n]);
      var r := ProxyAssign(u, Proxy(n), xs[n]);
      var rest := Elems(v)[n..];
      assert Masked(xs, v.width) == Masked(xs[..n], v.width) + [Trunc(xs[n], v.width)];
      UpdateAfterPrefix(Masked(xs[..n], v.width), rest, Trunc(xs[n], v.width));
      assert rest[1..] == Elems(v)[|xs|..];
      r
  }

  /** The vector the push_back scenarios build: width w over 64-bit words. */
  function Pushed(w: nat, xs: seq<nat>): (r: Vector)
    requires 1 <= w <= 64
    ensures Valid(r) && r.block == U64 && r.width == w && r.size == |xs|
    ensures Elems(r) == Masked(xs, w)
  {
    PushAll(New(U64, w, 0), xs)
  }

  /** The suite's values are all below 2^7. */
  lemma ValuesFit()
    ensures FitIn(Values, 7)
  {
    assert Pow2(7) == 128;
  }

  /** The overwrite scenario's values are all below 2^7. */
  lemma UpdateValuesFit()
    ensures FitIn(OldValues, 7) && FitIn(NewValues, 7)
  {
    assert Pow2(7) == 128;
  }

  // ---------------------------------------------------------------------------
  // Scenarios

  /** A width of B + 1 is rejected for every word type. */
  lemma CreationFailsForLargeBitWidths()
    ensures Create(U64, 65, 0).None?
    ensures Create(U32, 33, 0).None?
    ensures Create(U16, 17, 0).None?
    ensures Create(U8, 9, 0).None?
  {
  }

  /** Widths 1, 8, 16, 32 and 64, where they fit the word type, construct an
      empty vector. */
  lemma CreationSucceedsForValidBitWidths()
    ensures forall w :: w in {1, 8} ==> Create(U8, w, 0).Some? && Create(U8, w, 0).value.size == 0
    ensures forall w :: w in {1, 8, 16} ==> Create(U16, w, 0).Some? && Create(U16, w, 0).value.size == 0
    ensures forall w :: w in {1, 8, 16, 32} ==> Create(U32, w, 0).Some? && Create(U32, w, 0).value.size == 0
    ensures forall w :: w in {1, 8, 16, 32, 64} ==> Create(U64, w, 0).Some? && Create(U64, w, 0).value.size == 0
  {
  }

  /** Values that fit the width read back unchanged, by const subscript and
      through the proxy alike (the suite: `Values` at width 7). */
  lemma StoresValuesWithPushBack(w: nat, xs: seq<nat>)
    requires 1 <= w <= 64 && FitIn(xs, w)
    ensures var v := Pushed(w, xs);
            && v.size == |xs|
            && (forall i :: 0 <= i < |xs| ==> Get(v, i) == xs[i])
            && (forall i :: 0 <= i < |xs| ==> ProxyRead(v, Proxy(i)) == xs[i])
  {
    MaskedOfSmall(xs, w);
  }

  /** At width 7 over 64-bit words, element 9 occupies bits 63 to 69: its low
      bit is the top bit of word 0 and the rest lie in word 1. */
  lemma StraddlingElement(v: Vector)
    requires v.block == U64 && v.width == 7
    ensures WordOf(v, 9) == 0 && OffsetOf(v, 9) == 63
    ensures OffsetOf(v, 9) + v.width > WordBits(v.block)
  {
  }

  /** Every push_back grows the size by exactly one. */
  lemma SizeIncreasesWithPushBack(w: nat, xs: seq<nat>)
    requires 1 <= w <= 64
    ensures forall i :: 0 <= i < |xs| ==>
              Pushed(w, xs[..i]).size == i
              && PushBack(Pushed(w, xs[..i]), xs[i]).size == i + 1
  {
  }

  /** Before and after every push_back the capacity is at least the size. */
  lemma CapacityIsAlwaysGreaterOrEqualThanSize(w: nat, xs: seq<nat>)
    requires 1 <= w <= 64
    ensures forall i :: 0 <= i <= |xs| ==>
              Pushed(w, xs[..i]).size <= Capacity(Pushed(w, xs[..i]))
  {
    forall i | 0 <= i <= |xs|
      ensures Pushed(w, xs[..i]).size <= Capacity(Pushed(w, xs[..i]))
    {
      CapacityCoversSize(Pushed(w, xs[..i]));
    }
  }

  /** AND with w one bits is the reduction to w bits. */
  lemma AndOnesIsTrunc(x: nat, w: nat)
    ensures And(x, Pow2(w) - 1) == Trunc(x, w)
  {
    AndLowOnes(x, w);
    LowIsMod(x, w);
  }

  /** Element i of the pushed vector is the i-th value AND the mask of w one
      bits, by either subscript. */
  lemma ReadIsAnd(w: nat, mask: nat, xs: seq<nat>, i: nat)
    requires 1 <= w <= 64 && mask == Pow2(w) - 1 && i < |xs|
    ensures Get(Pushed(w, xs), i) == And(xs[i], mask)
    ensures ProxyRead(Pushed(w, xs), Proxy(i)) == And(xs[i], mask)
  {
    AndOnesIsTrunc(xs[i], w);
    assert Get(Pushed(w, xs), i) == Masked(xs, w)[i];
  }

  /** Each read is the pushed value AND the mask of w one bits, whatever the
      values (the suite: width 2 and mask 3, so 127 reads back as 3). */
  lemma OnlyLeastSignificantBitsAreStored(w: nat, mask: nat, xs: seq<nat>)
    requires 1 <= w <= 64 && mask == Pow2(w) - 1
    ensures Pushed(w, xs).size == |xs|
    ensures forall i :: 0 <= i < |xs| ==>
              && Get(Pushed(w, xs), i) == And(xs[i], mask)
              && ProxyRead(Pushed(w, xs), Proxy(i)) == And(xs[i], mask)
  {
    forall i | 0 <= i < |xs|
      ensures && Get(Pushed(w, xs), i) == And(xs[i], mask)
              && ProxyRead(Pushed(w, xs), Proxy(i)) == And(xs[i], mask)
    {
      ReadIsAnd(w, mask, xs, i);
    }
  }

  /** Assigning new values slot by slot over old ones reads back the new
      values in the assigned slots and the old ones after them. */
  lemma UpdatesValues(w: nat, olds: seq<nat>, news: seq<nat>)
    requires 1 <= w <= 64 && |news| <= |olds| && FitIn(olds, w) && FitIn(news, w)
    ensures var v := AssignAll(Pushed(w, olds), news);
            && v.size == |olds|
            && (forall i :: 0 <= i < |news| ==> Get(v, i) == news[i])
            && (forall i :: |news| <= i < |olds| ==> Get(v, i) == olds[i])
            && (forall i :: 0 <= i < |olds| ==> ProxyRead(v, Proxy(i)) == Get(v, i))
  {
    MaskedOfSmall(olds, w);
    MaskedOfSmall(news, w);
  }

  /** `push_back(-1)` onto width-7 storage in 8-bit words: -1 converts to the
      word 255, whose low 7 bits read back as 127. */
  lemma CorrectlyReturnsNegativeValues(v: Vector)
    requires Valid(v) && v.block == U8 && v.width == 7
    ensures ToWord(-1, U8) == 255
    ensures var r := PushBack(v, ToWord(-1, U8));
            r.size == v.size + 1 && Get(r, v.size) == 127
  {
    assert Pow2(8) == 256;
    assert Pow2(7) == 128;
  }

  // ---------------------------------------------------------------------------
  // The scenarios on the suite's own values

  /** The 24 values pushed onto an empty width-7 vector of 64-bit words read
      back unchanged by const subscript. */
  lemma SuiteStoresValues()
    ensures forall i :: 0 <= i < 24 ==> Get(Pushed(7, Values), i) == Values[i]
  {
    ValuesFit();
    StoresValuesWithPushBack(7, Values);
  }

  /** The 24 values pushed onto an empty width-2 vector read back as the value
      AND 3, by const subscript. */
  lemma SuiteMasksValues()
    ensures forall i :: 0 <= i < 24 ==> Get(Pushed(2, Values), i) == And(Values[i], 3)
  {
    assert Pow2(2) - 1 == 3;
    OnlyLeastSignificantBitsAreStored(2, 3, Values);
  }

  /** Pushing the 24 old values at width 7 and then assigning the 24 new ones
      slot by slot reads back the new ones. */
  lemma SuiteUpdatesValues()
    ensures forall i :: 0 <= i < 24 ==>
              Get(AssignAll(Pushed(7, OldValues), NewValues), i) == NewValues[i]
  {
    UpdateValuesFit();
    UpdatesValues(7, OldValues, NewValues);
  }

  /** `push_back(-1)` onto a fresh width-7 vector of bytes reads back 127. */
  lemma SuiteNegativeValue()
    ensures var v := PushBack(New(U8, 7, 0), ToWord(-1, U8));
            v.size == 1 && Get(v, 0) == 127
  {
    CorrectlyReturnsNegativeValues(New(U8, 7, 0));
  }
}
