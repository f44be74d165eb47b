/** `varbit::vector<T>`: a growable vector of unsigned values that each occupy
    exactly `width` bits, packed back to back into a buffer of words of type T.

    The abstract contents of a vector are `Elems(v)`, read off the bitstream of
    its buffer; every operation is stated against them. */
module Varbit {
  import opened Bits
  import opened Stream

  /** The storage word type T: `uint8_t`, `uint16_t`, `uint32_t` or `uint64_t`. */
  datatype WordType = U8 | U16 | U32 | U64

  /** B, the number of bits of a word. */
  function WordBits(t: WordType): (b: nat)
    ensures 8 <= b <= 64
  {
    match t
    case U8 => 8
    case U16 => 16
    case U32 => 32
    case U64 => 64
  }

  /** C++'s conversion of an integer to the unsigned word type: the one B-bit
      value that is congruent to x modulo 2^B. */
  function ToWord(x: int, t: WordType): (r: nat)
    ensures r < Pow2(WordBits(t))
    ensures (x - r) % Pow2(WordBits(t)) == 0
  {
    var p := Pow2(WordBits(t));
    assert x == x / p * p + x % p;
    MultipleMod(x / p, p);
    x % p
  }

  /** A multiple of p leaves no remainder. */
  lemma MultipleMod(q: int, p: nat)
    requires 0 < p
    ensures (q * p) % p == 0
  {
    var m := q * p;
    var d := q - m / p;
    assert m == m / p * p + m % p;
    assert d * p == m - m / p * p;
    if d > 0 {
      assert d * p == (d - 1) * p + p;
    } else if d < 0 {
      assert d * p == (d + 1) * p - p;
    }
  }

  datatype Option<T> = None | Some(value: T)

  /** A vector: its word type, element width, element count and packed buffer. */
  datatype Vector = Vector(block: WordType, width: nat, size: nat, words: seq<nat>)

  /** The stream bits that n runs of w bits take up, one run after another.
      This is n * w (`FootprintIsProduct`), counted by repeated addition so that
      `Valid` multiplies no two variables; `ValidBound` states it as a product. */
  function Footprint(n: nat, w: nat): nat
  {
    if n == 0 then 0 else Footprint(n - 1, w) + w
  }

  /** n runs of w bits take n * w bits. */
  lemma {:induction false} FootprintIsProduct(n: nat, w: nat)
    ensures Footprint(n, w) == n * w
  {
    if n > 0 {
      FootprintIsProduct(n - 1, w);
    }
  }

  /** The invariants every observable vector keeps: the width is between 1 and
      B, every word is a B-bit word, and the buffer's words, each a run of B
      bits, hold the size elements' runs of w bits. */
  predicate Valid(v: Vector)
  {
    && 1 <= v.width <= WordBits(v.block)
    && WordsFit(v.words, WordBits(v.block))
    && Footprint(v.size, v.width) <= Footprint(|v.words|, WordBits(v.block))
  }

  /** The buffer of a valid vector holds size * w stream bits. */
  lemma ValidBound(v: Vector)
    requires Valid(v)
    ensures v.size * v.width <= |v.words| * WordBits(v.block)
  {
    FootprintIsProduct(v.size, v.width);
    FootprintIsProduct(|v.words|, WordBits(v.block));
  }

  /** `capacity()`: how many elements the buffer holds without growing. */
  function Capacity(v: Vector): nat
    requires 1 <= v.width
  {
    |v.words| * WordBits(v.block) / v.width
  }

  /** The stream position of element i's first bit: i * w. */
  function Start(v: Vector, i: nat): nat
  {
    i * v.width
  }

  /** Element i + 1 starts w bits after element i. */
  lemma StartNext(v: Vector, i: nat)
    ensures Start(v, i + 1) == Start(v, i) + v.width
  {
  }

  /** The values stored: element i is the stream bits [i * width, (i + 1) * width). */
  function Elems(v: Vector): (r: seq<nat>)
    requires 1 <= v.width <= WordBits(v.block)
    ensures |r| == v.size
  {
    seq(v.size, i requires 0 <= i => ReadBits(v.words, WordBits(v.block), Start(v, i), v.width))
  }

  // ---------------------------------------------------------------------------
  // Construction

  /** The number of words that hold n elements of w bits: ceil(n * w / B). */
  function WordsFor(n: nat, w: nat, b: nat): (r: nat)
    requires 0 < b
    ensures n * w <= r * b
  {
    (n * w + b - 1) / b
  }

  /** c / w is at least a whenever a * w fits in c. */
  lemma DivAtLeast(a: nat, w: nat, c: nat)
    requires 0 < w && a * w <= c
    ensures a <= c / w
  {
    if c / w < a {
      MulLe(c / w + 1, a, w);
    }
  }

  /** `vector<T>(w, reserve)`: an empty vector whose buffer already holds reserve
      elements. The source asserts 1 <= w <= B; here that is the precondition. */
  function New(block: WordType, w: nat, reserve: nat): (r: Vector)
    requires 1 <= w <= WordBits(block)
    ensures Valid(r) && r.block == block && r.width == w
    ensures r.size == 0 && Elems(r) == []
    ensures Capacity(r) >= reserve
  {
    var b := WordBits(block);
    var n := WordsFor(reserve, w, b);
    DivAtLeast(reserve, w, n * b);
    Vector(block, w, 0, Zeros(n))
  }

  /** Construction with the source's assertion as an outcome: `None` is the
      assertion failure that aborts the process. */
  function Create(block: WordType, w: nat, reserve: nat): (r: Option<Vector>)
    ensures r.Some? <==> 1 <= w <= WordBits(block)
    ensures r.Some? ==> Valid(r.value) && r.value.block == block && r.value.width == w && r.value.size == 0
                        && Elems(r.value) == [] && Capacity(r.value) >= reserve
  {
    if 1 <= w <= WordBits(block) then Some(New(block, w, reserve)) else None
  }

  // ---------------------------------------------------------------------------
  // Reading and writing one element

  /** The word holding the first bit of element i: i * w / B. */
  function WordOf(v: Vector, i: nat): nat
    requires 1 <= v.width <= WordBits(v.block)
  {
    Start(v, i) / WordBits(v.block)
  }

  /** The offset of element i's first bit within that word: i * w % B. */
  function OffsetOf(v: Vector, i: nat): (r: nat)
    requires 1 <= v.width <= WordBits(v.block)
    ensures r < WordBits(v.block)
  {
    Start(v, i) % WordBits(v.block)
  }

  /** Element i starts at stream bit i * w and lies inside the buffer. */
  lemma ElementInBuffer(v: Vector, i: nat)
    requires Valid(v) && i < v.size
    ensures WordOf(v, i) * WordBits(v.block) + OffsetOf(v, i) == Start(v, i)
    ensures Start(v, i) + v.width <= |v.words| * WordBits(v.block)
  {
    var s, b := Start(v, i), WordBits(v.block);
    assert s / b * b + s % b == s;
    ValidBound(v);
    RunFits(i, v.size, v.width, |v.words| * b);
  }

  /** Run i of n runs of w bits ends inside any stretch that holds all n. */
  lemma RunFits(i: nat, n: nat, w: nat, c: nat)
    requires i < n && n * w <= c
    ensures i * w + w <= c
  {
    MulLe(i + 1, n, w);
  }

  /** `v[i]` on a const vector: the element at index i, read from one word or
      from two when it straddles a word boundary. */
  function Get(v: Vector, i: nat): (r: nat)
    requires Valid(v) && i < v.size
    ensures r == Elems(v)[i]
    ensures r < Pow2(v.width)
  {
    ElementInBuffer(v, i);
    ExtractReads(v.words, WordBits(v.block), v.width, WordOf(v, i), OffsetOf(v, i));
    ReadBitsBound(v.words, WordBits(v.block), Start(v, i), v.width);
    Extract(v.words, WordBits(v.block), v.width, WordOf(v, i), OffsetOf(v, i))
  }

  /** The buffer after writing x into element i. */
  function WriteElem(v: Vector, i: nat, x: nat): (r: seq<nat>)
    requires Valid(v) && i < v.size
    ensures |r| == |v.words|
  {
    ElementInBuffer(v, i);
    Write(v.words, WordBits(v.block), v.width, WordOf(v, i), OffsetOf(v, i), x)
  }

  /** Stream bits after writing element i: its own bits are x's, the others are kept. */
  lemma WriteElemBits(v: Vector, i: nat, x: nat, p: nat)
    requires Valid(v) && i < v.size
    ensures StreamBit(WriteElem(v, i, x), WordBits(v.block), p)
         == if Start(v, i) <= p < Start(v, i) + v.width then Bit(x, p - Start(v, i))
            else StreamBit(v.words, WordBits(v.block), p)
  {
    ElementInBuffer(v, i);
    WriteBits(v.words, WordBits(v.block), v.width, WordOf(v, i), OffsetOf(v, i), x, p);
  }

  /** Element i's read after writing x into it is the low w bits of x. */
  lemma SetElemSame(v: Vector, i: nat, x: nat)
    requires Valid(v) && i < v.size
    ensures ReadBits(WriteElem(v, i, x), WordBits(v.block), Start(v, i), v.width)
            == Trunc(x, v.width)
  {
    var b, w, s := WordBits(v.block), v.width, Start(v, i);
    var r := WriteElem(v, i, x);
    forall t | 0 <= t < w
      ensures StreamBit(r, b, s + t) == Bit(Low(x, w), t)
    {
      WriteElemBits(v, i, x, s + t);
      BitOfLow(x, w, t);
    }
    ReadBitsOfValue(r, b, s, w, Low(x, w));
    LowIsMod(x, w);
  }

  /** The bit ranges of two different elements do not overlap. */
  lemma Disjoint(m: nat, i: nat, w: nat)
    requires m != i
    ensures m * w + w <= i * w || i * w + w <= m * w
  {
    if m < i {
      MulLe(m + 1, i, w);
      assert (m + 1) * w == m * w + w;
    } else {
      MulLe(i + 1, m, w);
      assert (i + 1) * w == i * w + w;
    }
  }

  /** A stream bit outside element i is not touched by writing element i. */
  lemma WriteElemOutside(v: Vector, i: nat, x: nat, p: nat)
    requires Valid(v) && i < v.size
    requires p < Start(v, i) || Start(v, i) + v.width <= p
    ensures StreamBit(WriteElem(v, i, x), WordBits(v.block), p)
         == StreamBit(v.words, WordBits(v.block), p)
  {
    WriteElemBits(v, i, x, p);
  }

  /** Any other element m reads as before the write. */
  lemma SetElemOther(v: Vector, i: nat, x: nat, m: nat)
    requires Valid(v) && i < v.size && m < v.size && m != i
    ensures ReadBits(WriteElem(v, i, x), WordBits(v.block), Start(v, m), v.width)
            == Elems(v)[m]
  {
    var b, w := WordBits(v.block), v.width;
    var r := WriteElem(v, i, x);
    var s := Start(v, m);
    Disjoint(m, i, w);
    forall p | s <= p < s + w
      ensures StreamBit(r, b, p) == StreamBit(v.words, b, p)
    {
      WriteElemOutside(v, i, x, p);
    }
    ReadBitsFrame(r, v.words, b, s, w);
  }

  /** `v[i] = x`: element i becomes the low w bits of x; every other element,
      the size and the buffer length (hence the capacity) are unchanged. */
  function Set(v: Vector, i: nat, x: nat): (r: Vector)
    requires Valid(v) && i < v.size
    ensures Valid(r) && r.block == v.block && r.width == v.width && r.size == v.size
    ensures |r.words| == |v.words|
    ensures Elems(r) == Elems(v)[i := Trunc(x, v.width)]
  {
    SetElems(v, i, x);
    Vector(v.block, v.width, v.size, WriteElem(v, i, x))
  }

  lemma SetElems(v: Vector, i: nat, x: nat)
    requires Valid(v) && i < v.size
    ensures var r := Vector(v.block, v.width, v.size, WriteElem(v, i, x));
            Valid(r) && Elems(r) == Elems(v)[i := Trunc(x, v.width)]
  {
    ElementInBuffer(v, i);
    WriteFits(v.words, WordBits(v.block), v.width, WordOf(v, i), OffsetOf(v, i), x);
    var r := Vector(v.block, v.width, v.size, WriteElem(v, i, x));
    forall m | 0 <= m < v.size
      ensures Elems(r)[m] == Elems(v)[i := Trunc(x, v.width)][m]
    {
      if m == i {
        SetElemSame(v, i, x);
      } else {
        SetElemOther(v, i, x, m);
      }
    }
  }

  /** Writing element i changes no stream bit outside [i * w, (i + 1) * w). */
  lemma SetKeepsOtherBits(v: Vector, i: nat, x: nat, p: nat)
    requires Valid(v) && i < v.size
    requires p < Start(v, i) || (i + 1) * v.width <= p
    ensures StreamBit(Set(v, i, x).words, WordBits(v.block), p)
         == StreamBit(v.words, WordBits(v.block), p)
  {
    assert (i + 1) * v.width == Start(v, i) + v.width;
    WriteElemOutside(v, i, x, p);
  }

  // ---------------------------------------------------------------------------
  // The subscript proxy

  /** What `v[i]` returns on a mutable vector: a handle on element i of v. */
  datatype Proxy = Proxy(index: nat)

  /** Reading through the proxy (its conversion to T). */
  function ProxyRead(v: Vector, p: Proxy): (r: nat)
    requires Valid(v) && p.index < v.size
    ensures r == Elems(v)[p.index]
  {
    Get(v, p.index)
  }

  /** Assigning through the proxy (its `operator=`). */
  function ProxyAssign(v: Vector, p: Proxy, x: nat): (r: Vector)
    requires Valid(v) && p.index < v.size
    ensures Valid(r) && r.size == v.size && r.width == v.width && r.block == v.block
    ensures |r.words| == |v.words|
    ensures Elems(r) == Elems(v)[p.index := Trunc(x, v.width)]
  {
    Set(v, p.index, x)
  }

  // ---------------------------------------------------------------------------
  // Growth

  /** `capacity()` is the largest element count whose bits fit the buffer. */
  lemma CapacityIsGreatest(v: Vector)
    requires 1 <= v.width
    ensures Capacity(v) * v.width <= |v.words| * WordBits(v.block)
    ensures |v.words| * WordBits(v.block) < (Capacity(v) + 1) * v.width
  {
    var c, w := |v.words| * WordBits(v.block), v.width;
    assert c == c / w * w + c % w;
    assert (c / w + 1) * w == c / w * w + w;
  }

  /** The size never exceeds the capacity. */
  lemma CapacityCoversSize(v: Vector)
    requires Valid(v)
    ensures v.size <= Capacity(v)
  {
    ValidBound(v);
    DivAtLeast(v.size, v.width, |v.words| * WordBits(v.block));
  }

  /** The buffer after making room for one more element: unchanged while there
      is spare capacity, otherwise twice as many words (one word if it was empty). */
  function GrowFor(v: Vector): (r: seq<nat>)
    requires Valid(v)
  {
    if v.size < Capacity(v) then v.words
    else v.words + Zeros(if |v.words| == 0 then 1 else |v.words|)
  }

  /** The grown buffer holds one more element. */
  lemma GrowForRoom(v: Vector)
    requires Valid(v)
    ensures (v.size + 1) * v.width <= |GrowFor(v)| * WordBits(v.block)
  {
    var b, w, n, c := WordBits(v.block), v.width, |v.words|, Capacity(v);
    ValidBound(v);
    assert (v.size + 1) * w == v.size * w + w;
    if v.size < c {
      MulLe(v.size + 1, c, w);
      assert c * w <= n * b;
    } else if n == 0 {
      MulLe(1, w, v.size);
      assert v.size == 0;
    } else {
      assert |GrowFor(v)| == n + n;
      assert (n + n) * b == n * b + n * b;
      MulLe(1, n, b);
    }
  }

  /** The grown buffer holds B-bit words and reads like the old one. */
  lemma GrowForKeeps(v: Vector)
    requires Valid(v)
    ensures WordsFit(GrowFor(v), WordBits(v.block))
    ensures forall p :: StreamBit(GrowFor(v), WordBits(v.block), p) == StreamBit(v.words, WordBits(v.block), p)
  {
    var b := WordBits(v.block);
    forall p | true
      ensures StreamBit(GrowFor(v), b, p) == StreamBit(v.words, b, p)
    {
      if v.size >= Capacity(v) {
        StreamBitOfGrow(v.words, if |v.words| == 0 then 1 else |v.words|, b, p);
      }
    }
  }

  /** `push_back(x)`: appends the low w bits of x, growing the buffer when full. */
  function PushBack(v: Vector, x: nat): (r: Vector)
    requires Valid(v)
    ensures Valid(r) && r.block == v.block && r.width == v.width
    ensures r.size == v.size + 1
    ensures Elems(r) == Elems(v) + [Trunc(x, v.width)]
    ensures r.size <= Capacity(r)
  {
    var room := Vector(v.block, v.width, v.size + 1, GrowFor(v));
    RoomKeepsElems(v);
    var r := Set(room, v.size, x);
    CapacityCoversSize(r);
    r
  }

  lemma RoomKeepsElems(v: Vector)
    requires Valid(v)
    ensures var room := Vector(v.block, v.width, v.size + 1, GrowFor(v));
            Valid(room) && Elems(room)[..v.size] == Elems(v)
  {
    GrowForRoom(v);
    GrowForKeeps(v);
    var b := WordBits(v.block);
    FootprintIsProduct(v.size + 1, v.width);
    FootprintIsProduct(|GrowFor(v)|, b);
    var room := Vector(v.block, v.width, v.size + 1, GrowFor(v));
    forall m | 0 <= m < v.size
      ensures Elems(room)[m] == Elems(v)[m]
    {
      ReadBitsFrame(room.words, v.words, b, Start(v, m), v.width);
    }
  }

  /** Converting a pushed value to T first does not change what is stored, since
      only the low w <= B bits are kept. */
  lemma PushBackOfConverted(v: Vector, x: nat)
    requires Valid(v)
    ensures Elems(PushBack(v, Trunc(x, WordBits(v.block)))) == Elems(PushBack(v, x))
  {
    var b := WordBits(v.block);
    LowIsMod(x, b);
    LowIsMod(Trunc(x, b), v.width);
    LowIsMod(x, v.width);
    LowLow(x, v.width, b);
  }
}
