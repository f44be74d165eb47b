/** The pure helpers of the summation benchmark. For every width w from 1 to 8
    it fills a `uint8_t`-word vector with 0, 1, ..., n - 1, sums it by indexing
    and by iterating, sums a plain array of the same values masked to w bits,
    and compares all three with the closed sum of i mod 2^w. The element count
    n is a parameter; timing and printing are not modelled. */
module SumBench {
  import opened Bits
  import opened Stream
  import opened Varbit
  import opened Cursor

  /** `block_type`: the benchmark stores its elements in `uint8_t` words. */
  const Block: WordType := U8

  /** Bits of a C++ `int`, the type of the literal `~0`. */
  const IntBits: nat := 32

  /** The sum of a sequence. */
  function Sum(s: seq<nat>): nat
  {
    if |s| == 0 then 0 else Sum(s[..|s| - 1]) + s[|s| - 1]
  }

  /** The sum of a prefix grows by the next element. */
  lemma SumStep(s: seq<nat>, i: nat)
    requires i < |s|
    ensures Sum(s[..i + 1]) == Sum(s[..i]) + s[i]
  {
    assert s[..i + 1][..i] == s[..i];
  }

  /** 0 mod 2^w, 1 mod 2^w, ..., (n - 1) mod 2^w. */
  function Residues(w: nat, n: nat): (r: seq<nat>)
    ensures |r| == n
  {
    seq(n, i requires 0 <= i => Trunc(i, w))
  }

  lemma ResiduesStep(w: nat, n: nat)
    ensures Residues(w, n + 1) == Residues(w, n) + [Trunc(n, w)]
  {
  }

  /** `~(~0 << w)` evaluated on the n-bit two's-complement pattern of `int` and
      then stored into a b-bit word. */
  function Mask(w: nat, n: nat, b: nat): nat
  {
    var ones := Pow2(n) - 1;
    var shifted := Low(Shl(ones, w), n);
    var inverted := Pow2(n) - 1 - shifted;
    Low(inverted, b)
  }

  /** The benchmark's `bitmask`: a 32-bit `int` expression stored in a `block_t`. */
  function BitMask(w: nat): nat
  {
    Mask(w, IntBits, WordBits(Block))
  }

  lemma OnesRegroup(a: nat, c: nat)
    requires 1 <= c <= a
    ensures (a - 1) * c == (c - 1) * a + (a - c)
  {
  }

  /** `~0 << w` on n bits, before truncation, with a == 2^n and c == 2^w: the
      one bits c - 1 above the n-bit pattern a - c. */
  lemma ShlOnes(n: nat, w: nat, a: nat, c: nat)
    requires w <= n && a == Pow2(n) && c == Pow2(w)
    ensures c <= a && Shl(a - 1, w) == Concat(c - 1, a - c, n)
  {
    Pow2Le(w, n);
    ShlIsMul(a - 1, w);
    ShlIsMul(c - 1, n);
    OnesRegroup(a, c);
  }

  /** `~0 << w` kept to n bits is 2^n - 2^w: n - w one bits above w zero bits. */
  lemma ShiftedOnes(n: nat, w: nat, a: nat, c: nat)
    requires w <= n && a == Pow2(n) && c == Pow2(w)
    ensures c <= a && Low(Shl(a - 1, w), n) == a - c
  {
    ShlOnes(n, w, a, c);
    LowConcat(c - 1, a - c, n);
  }

  /** Inverting `~0 << w` on n bits leaves w one bits, before the narrowing. */
  lemma MaskBeforeNarrowing(w: nat, n: nat, b: nat, a: nat, c: nat)
    requires w <= n && a == Pow2(n) && c == Pow2(w)
    ensures c <= a && Mask(w, n, b) == Low(c - 1, b)
  {
    ShiftedOnes(n, w, a, c);
  }

  /** For w <= b <= n the mask is w one bits: inverting the shifted ones leaves
      exactly the low w bits set, and they survive the narrowing to b bits. */
  lemma MaskIsLowOnes(w: nat, n: nat, b: nat)
    requires w <= b <= n
    ensures Mask(w, n, b) == Pow2(w) - 1
  {
    var c := Pow2(w);
    MaskBeforeNarrowing(w, n, b, Pow2(n), c);
    Pow2Le(w, b);
    LowOfSmall(c - 1, b);
  }

  /** For every width the benchmark uses, the mask is w one bits: it does not
      overflow the 8-bit block even at w == 8. */
  lemma BitMaskIsLowOnes(w: nat)
    requires 1 <= w <= WordBits(Block)
    ensures BitMask(w) == Pow2(w) - 1
  {
    MaskIsLowOnes(w, IntBits, WordBits(Block));
  }

  /** `i & bitmask` is i mod 2^w. */
  lemma MaskedIsResidue(i: nat, w: nat)
    requires 1 <= w <= WordBits(Block)
    ensures And(i, BitMask(w)) == Trunc(i, w)
    ensures Trunc(i, w) < Pow2(WordBits(Block))
  {
    BitMaskIsLowOnes(w);
    AndLowOnes(i, w);
    LowIsMod(i, w);
    Pow2Le(w, WordBits(Block));
  }

  /** `insert_elementwise`: pushes 0, 1, ..., n - 1. */
  method InsertElementwise(v: Vector, n: nat) returns (r: Vector)
    requires Valid(v)
    ensures Valid(r) && r.block == v.block && r.width == v.width
    ensures r.size == v.size + n
    ensures Elems(r) == Elems(v) + Residues(v.width, n)
  {
    r := v;
    var i := 0;
    while i < n
      invariant i <= n
      invariant Valid(r) && r.block == v.block && r.width == v.width
      invariant Elems(r) == Elems(v) + Residues(v.width, i)
    {
      r := PushBack(r, i);
      ResiduesStep(v.width, i);
      i := i + 1;
    }
  }

  /** `sum_loop`: adds `v[i]` for i below n (the benchmark's element count). */
  method SumLoop(v: Vector, n: nat) returns (result: nat)
    requires Valid(v) && n <= v.size
    ensures result == Sum(Elems(v)[..n])
  {
    result := 0;
    var i := 0;
    while i < n
      invariant i <= n
      invariant result == Sum(Elems(v)[..i])
    {
      SumStep(Elems(v), i);
      result := result + Get(v, i);
      i := i + 1;
    }
  }

  /** `sum_iter`: adds `*it` from `iterator(v)` up to `iterator(v, v.size())`. */
  method SumIter(v: Vector) returns (result: nat)
    requires Valid(v)
    ensures result == Sum(Elems(v))
  {
    result := 0;
    var end := At(v, v.size);
    var it := At(v, 0);
    while !SamePosition(it, end)
      invariant it == At(v, it.index) && it.index <= v.size
      invariant result == Sum(Elems(v)[..it.index])
      decreases v.size - it.index
    {
      SumStep(Elems(v), it.index);
      result := result + Deref(v, it);
      NextIsAt(v, it);
      it := Next(v, it);
    }
    assert Elems(v)[..v.size] == Elems(v);
  }

  /** `fill_uncompressedVector`: resizes vec to n and sets `vec[i] = i & bitmask`,
      stored as a `uint8_t`. */
  method FillUncompressed(vec: seq<nat>, w: nat, n: nat) returns (r: seq<nat>)
    requires 1 <= w <= WordBits(Block)
    ensures r == Residues(w, n)
  {
    var bitmask := BitMask(w);
    r := if n <= |vec| then vec[..n] else vec + Zeros(n - |vec|);
    var i := 0;
    while i < n
      invariant i <= n && |r| == n
      invariant forall j :: 0 <= j < i ==> r[j] == Trunc(j, w)
    {
      MaskedIsResidue(i, w);
      LowOfSmall(Trunc(i, w), WordBits(Block));
      r := r[i := Low(And(i, bitmask), WordBits(Block))];
      i := i + 1;
    }
  }

  /** `sum_uncompressed`: adds `vec[i]` for i below n. */
  method SumUncompressed(vec: seq<nat>, n: nat) returns (result: nat)
    requires n <= |vec|
    ensures result == Sum(vec[..n])
  {
    result := 0;
    var i := 0;
    while i < n
      invariant i <= n
      invariant result == Sum(vec[..i])
    {
      SumStep(vec, i);
      result := result + vec[i];
      i := i + 1;
    }
  }

  /** `check_sum`: adds `i & bitmask` for i below n. */
  method CheckSum(w: nat, n: nat) returns (result: nat)
    requires 1 <= w <= WordBits(Block)
    ensures result == Sum(Residues(w, n))
  {
    var bitmask := BitMask(w);
    result := 0;
    var i := 0;
    while i < n
      invariant i <= n
      invariant result == Sum(Residues(w, i))
    {
      MaskedIsResidue(i, w);
      ResiduesStep(w, i);
      SumStep(Residues(w, i + 1), i);
      assert Residues(w, i + 1)[..i] == Residues(w, i);
      result := result + And(i, bitmask);
      i := i + 1;
    }
  }

  /** One pass of the benchmark's loop over bit widths: the three sums it
      prints agree with each other and with `check_sum`. */
  method BitWidthRound(w: nat, n: nat) returns (loop: nat, iter: nat, uncompressed: nat, expected: nat)
    requires 1 <= w <= WordBits(Block)
    ensures loop == iter == uncompressed == expected
  {
    var v := New(Block, w, n);
    v := InsertElementwise(v, n);
    var vec := Zeros(n);
    vec := FillUncompressed(vec, w, n);
    assert Elems(v) == Residues(w, n);
    loop := SumLoop(v, n);
    iter := SumIter(v);
    uncompressed := SumUncompressed(vec, n);
    expected := CheckSum(w, n);
    assert Elems(v)[..n] == Elems(v);
    assert vec[..n] == vec;
  }
}
