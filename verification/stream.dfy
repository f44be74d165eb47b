/** The packed bitstream: a buffer of B-bit words read as one little-endian
    stream of bits. Stream bit p lives in word p / B at bit p % B; an element of
    width w whose first bit is s occupies stream bits [s, s + w) and may start
    in one word and end in the next.

    `ReadBits` is the meaning of a stretch of the stream, bit by bit. `Extract`
    and `Write` are the word-level algorithms of the vector (one shift and mask
    per word touched, a second word only when the element straddles), proved
    against that meaning. */
module Stream {
  import opened Bits

  /** Every word of the buffer is a B-bit word. */
  predicate WordsFit(words: seq<nat>, b: nat)
  {
    forall k :: 0 <= k < |words| ==> words[k] < Pow2(b)
  }

  /** Bit p of the stream; bits past the end of the buffer read as 0. */
  function StreamBit(words: seq<nat>, b: nat, p: nat): (r: nat)
    requires 0 < b
    ensures r < 2
  {
    if p / b < |words| then Bit(words[p / b], p % b) else 0
  }

  /** The n-bit value whose bit t is stream bit start + t. */
  function ReadBits(words: seq<nat>, b: nat, start: nat, n: nat): nat
    requires 0 < b
    decreases n
  {
    if n == 0 then 0
    else StreamBit(words, b, start) + 2 * ReadBits(words, b, start + 1, n - 1)
  }

  /** n stream bits make an n-bit value. */
  lemma {:induction false} ReadBitsBound(words: seq<nat>, b: nat, start: nat, n: nat)
    requires 0 < b
    ensures ReadBits(words, b, start, n) < Pow2(n)
    decreases n
  {
    if n > 0 {
      ReadBitsBound(words, b, start + 1, n - 1);
    }
  }

  /** A buffer of n zero words. */
  function Zeros(n: nat): (r: seq<nat>)
    ensures |r| == n
    ensures forall k :: 0 <= k < n ==> r[k] == 0
  {
    seq(n, _ => 0)
  }

  // ---------------------------------------------------------------------------
  // Locating positions

  /** Stream position k * B + j, for j < B, is bit j of word k. */
  lemma Locate(k: nat, b: nat, j: nat)
    requires j < b
    ensures (k * b + j) / b == k && (k * b + j) % b == j
  {
    DivModUnique(k * b + j, b, k, j);
  }

  /** Linear consequences of comparing word indices q and k. */
  lemma WordOrder(q: nat, k: nat, b: nat)
    ensures (k + 1) * b == k * b + b
    ensures q < k ==> q * b + b <= k * b
    ensures k < q ==> k * b + b <= q * b
    ensures k + 1 < q ==> k * b + 2 * b <= q * b
  {
    if q < k {
      MulLe(q + 1, k, b);
    }
    if k < q {
      MulLe(k + 1, q, b);
    }
    if k + 1 < q {
      MulLe(k + 2, q, b);
    }
  }

  /** An element at word k, offset off, of width w lies inside a buffer of len
      words: its first word exists, and so does the next when it straddles. */
  lemma Span(k: nat, b: nat, off: nat, w: nat, len: nat)
    requires 0 < w && off < b && k * b + off + w <= len * b
    ensures k < len
    ensures off + w > b ==> k + 1 < len
  {
    WordOrder(len, k, b);
    WordOrder(len, k + 1, b);
  }

  // ---------------------------------------------------------------------------
  // Reading stretches of the stream

  /** A read depends only on the stream bits it covers. */
  lemma {:induction false} ReadBitsFrame(w1: seq<nat>, w2: seq<nat>, b: nat, start: nat, n: nat)
    requires 0 < b
    requires forall p :: start <= p < start + n ==> StreamBit(w1, b, p) == StreamBit(w2, b, p)
    ensures ReadBits(w1, b, start, n) == ReadBits(w2, b, start, n)
    decreases n
  {
    if n > 0 {
      ReadBitsFrame(w1, w2, b, start + 1, n - 1);
    }
  }

  /** If stream bits [start, start + n) are the bits of u, the read yields u. */
  lemma {:induction false} ReadBitsOfValue(words: seq<nat>, b: nat, start: nat, n: nat, u: nat)
    requires 0 < b && u < Pow2(n)
    requires forall t :: 0 <= t < n ==> StreamBit(words, b, start + t) == Bit(u, t)
    ensures ReadBits(words, b, start, n) == u
    decreases n
  {
    if n > 0 {
      assert StreamBit(words, b, start + 0) == Bit(u, 0);
      forall t | 0 <= t < n - 1
        ensures StreamBit(words, b, start + 1 + t) == Bit(u / 2, t)
      {
        assert StreamBit(words, b, start + (t + 1)) == Bit(u, t + 1);
      }
      ReadBitsOfValue(words, b, start + 1, n - 1, u / 2);
    }
  }

  /** Appending zero words changes no stream bit. */
  lemma StreamBitOfGrow(words: seq<nat>, extra: nat, b: nat, p: nat)
    requires 0 < b
    ensures StreamBit(words + Zeros(extra), b, p) == StreamBit(words, b, p)
  {
    var grown := words + Zeros(extra);
    var q := p / b;
    if q < |words| {
      assert grown[q] == words[q];
    } else if q < |grown| {
      assert grown[q] == 0;
      ShrOfZero(p % b);
    }
  }

  // ---------------------------------------------------------------------------
  // The word-level read

  /** Reads the w-bit element whose first bit is bit off of word k: the word
      shifted right by off and masked to w bits, OR-ed, when the element
      straddles, with the low off + w - B bits of word k + 1 shifted left by
      B - off. */
  function Extract(words: seq<nat>, b: nat, w: nat, k: nat, off: nat): nat
    requires 0 < w <= b && off < b && k * b + off + w <= |words| * b
  {
    Span(k, b, off, w, |words|);
    var lo := Field(words[k], off, w);
    if off + w <= b then lo
    else Concat(Field(words[k + 1], 0, off + w - b), lo, b - off)
  }

  /** Bit t of an element read from inside word k is stream bit k * B + off + t. */
  lemma ExtractBitWithin(words: seq<nat>, b: nat, w: nat, k: nat, off: nat, t: nat)
    requires 0 < w <= b && off < b && k < |words| && t < w && off + t < b
    ensures StreamBit(words, b, k * b + off + t) == Bit(Field(words[k], off, w), t)
  {
    Locate(k, b, off + t);
    BitOfLow(Shr(words[k], off), w, t);
    BitOfShr(words[k], off, t);
  }

  /** Bit t of the part of a straddling element that comes from word k + 1. */
  lemma ExtractBitNext(words: seq<nat>, b: nat, w: nat, k: nat, off: nat, t: nat)
    requires 0 < w <= b && off < b && k + 1 < |words| && t < w && b <= off + t
    ensures StreamBit(words, b, k * b + off + t)
         == Bit(Field(words[k + 1], 0, off + w - b), t - (b - off))
  {
    WordOrder(k, k, b);
    Locate(k + 1, b, off + t - b);
    BitOfLow(Shr(words[k + 1], 0), off + w - b, t - (b - off));
  }

  /** The word-level read of an element inside word k agrees with the stream. */
  lemma ExtractReadsWithin(words: seq<nat>, b: nat, w: nat, k: nat, off: nat)
    requires 0 < w <= b && off + w <= b && k < |words|
    ensures Field(words[k], off, w) == ReadBits(words, b, k * b + off, w)
  {
    var s := k * b + off;
    var u := Field(words[k], off, w);
    forall t | 0 <= t < w
      ensures StreamBit(words, b, s + t) == Bit(u, t)
    {
      ExtractBitWithin(words, b, w, k, off, t);
    }
    ReadBitsOfValue(words, b, s, w, u);
  }

  /** Bit t of a straddling element, assembled from both words, is stream bit
      k * B + off + t. */
  lemma ExtractBitStraddle(words: seq<nat>, b: nat, w: nat, k: nat, off: nat, t: nat)
    requires 0 < w <= b && off < b && b < off + w && k + 1 < |words| && t < w
    requires words[k] < Pow2(b)
    ensures StreamBit(words, b, k * b + off + t)
         == Bit(Concat(Field(words[k + 1], 0, off + w - b), Field(words[k], off, w), b - off), t)
  {
    var lo := Field(words[k], off, w);
    var hi := Field(words[k + 1], 0, off + w - b);
    FieldBound(words[k], off, w, b);
    BitOfConcat(hi, lo, b - off, t);
    if t < b - off {
      ExtractBitWithin(words, b, w, k, off, t);
    } else {
      ExtractBitNext(words, b, w, k, off, t);
    }
  }

  /** The word-level read of an element straddling words k and k + 1 agrees
      with the stream. */
  lemma ExtractReadsStraddle(words: seq<nat>, b: nat, w: nat, k: nat, off: nat)
    requires 0 < w <= b && off < b && b < off + w && k + 1 < |words|
    requires words[k] < Pow2(b)
    ensures Concat(Field(words[k + 1], 0, off + w - b), Field(words[k], off, w), b - off)
            == ReadBits(words, b, k * b + off, w)
  {
    var s := k * b + off;
    var lo := Field(words[k], off, w);
    var hi := Field(words[k + 1], 0, off + w - b);
    var u := Concat(hi, lo, b - off);
    FieldBound(words[k], off, w, b);
    ConcatBound(hi, lo, b - off, off + w - b);
    forall t | 0 <= t < w
      ensures StreamBit(words, b, s + t) == Bit(u, t)
    {
      ExtractBitStraddle(words, b, w, k, off, t);
    }
    ReadBitsOfValue(words, b, s, w, u);
  }

  /** The word-level read agrees with the stream. */
  lemma ExtractReads(words: seq<nat>, b: nat, w: nat, k: nat, off: nat)
    requires 0 < w <= b && off < b && k * b + off + w <= |words| * b
    requires WordsFit(words, b)
    ensures Extract(words, b, w, k, off) == ReadBits(words, b, k * b + off, w)
  {
    Span(k, b, off, w, |words|);
    if off + w <= b {
      ExtractReadsWithin(words, b, w, k, off);
    } else {
      ExtractReadsStraddle(words, b, w, k, off);
    }
  }

  // ---------------------------------------------------------------------------
  // The word-level write

  /** Writes the low w bits of v into the element whose first bit is bit off of
      word k: the field of word k is spliced, and when the element straddles
      the low off + w - B bits of word k + 1 receive the value shifted right by
      B - off. */
  function Write(words: seq<nat>, b: nat, w: nat, k: nat, off: nat, v: nat): (r: seq<nat>)
    requires 0 < w <= b && off < b && k * b + off + w <= |words| * b
    ensures |r| == |words|
  {
    Span(k, b, off, w, |words|);
    var val := Low(v, w);
    if off + w <= b then words[k := Splice(words[k], off, w, val)]
    else
      words[k := Splice(words[k], off, b - off, val)]
           [k + 1 := Splice(words[k + 1], 0, off + w - b, Shr(val, b - off))]
  }

  /** Bit j of word k after a write: the element's part of the word holds the
      low bits of v, the rest of the word is kept. */
  lemma WriteBitsOwnWord(words: seq<nat>, b: nat, w: nat, k: nat, off: nat, v: nat, j: nat)
    requires 0 < w <= b && off < b && k * b + off + w <= |words| * b
    requires k < |words| && j < b
    ensures Bit(Write(words, b, w, k, off, v)[k], j)
         == if off <= j < off + w then Bit(v, j - off) else Bit(words[k], j)
  {
    var val := Low(v, w);
    var n1 := if off + w <= b then w else b - off;
    BitOfSplice(words[k], off, n1, val, j);
    if off <= j < off + n1 {
      BitOfLow(v, w, j - off);
    }
  }

  /** Bit j of word k + 1 after a write of a straddling element: its low
      off + w - B bits hold the high bits of v, the rest of the word is kept. */
  lemma WriteBitsNextWord(words: seq<nat>, b: nat, w: nat, k: nat, off: nat, v: nat, j: nat)
    requires 0 < w <= b && off < b && k * b + off + w <= |words| * b
    requires b < off + w && k + 1 < |words| && j < b
    ensures Bit(Write(words, b, w, k, off, v)[k + 1], j)
         == if j < off + w - b then Bit(v, b - off + j) else Bit(words[k + 1], j)
  {
    var val := Low(v, w);
    BitOfSplice(words[k + 1], 0, off + w - b, Shr(val, b - off), j);
    if j < off + w - b {
      BitOfShr(val, b - off, j);
      BitOfLow(v, w, b - off + j);
    }
  }

  /** Stream bit p after a write, when p lies in word k. */
  lemma WriteBitsCaseOwn(words: seq<nat>, b: nat, w: nat, k: nat, off: nat, v: nat, p: nat)
    requires 0 < w <= b && off < b && k * b + off + w <= |words| * b
    requires k < |words| && p / b == k
    ensures StreamBit(Write(words, b, w, k, off, v), b, p)
         == if k * b + off <= p < k * b + off + w then Bit(v, p - (k * b + off))
            else StreamBit(words, b, p)
  {
    var j := p % b;
    assert p == k * b + j;
    WriteBitsOwnWord(words, b, w, k, off, v, j);
  }

  /** Stream bit p after a write of a straddling element, when p lies in word k + 1. */
  lemma WriteBitsCaseNext(words: seq<nat>, b: nat, w: nat, k: nat, off: nat, v: nat, p: nat)
    requires 0 < w <= b && off < b && k * b + off + w <= |words| * b
    requires b < off + w && k + 1 < |words| && p / b == k + 1
    ensures StreamBit(Write(words, b, w, k, off, v), b, p)
         == if k * b + off <= p < k * b + off + w then Bit(v, p - (k * b + off))
            else StreamBit(words, b, p)
  {
    var j := p % b;
    WordOrder(k, k, b);
    assert p == k * b + b + j;
    WriteBitsNextWord(words, b, w, k, off, v, j);
  }

  /** Stream bit p after a write, when p lies in a word the write does not touch. */
  lemma WriteBitsCaseOther(words: seq<nat>, b: nat, w: nat, k: nat, off: nat, v: nat, p: nat)
    requires 0 < w <= b && off < b && k * b + off + w <= |words| * b
    requires p / b != k && (p / b == k + 1 ==> off + w <= b)
    ensures StreamBit(Write(words, b, w, k, off, v), b, p)
         == if k * b + off <= p < k * b + off + w then Bit(v, p - (k * b + off))
            else StreamBit(words, b, p)
  {
    Span(k, b, off, w, |words|);
    var q, j := p / b, p % b;
    assert p == q * b + j;
    WordOrder(q, k, b);
    if q < |words| {
      assert Write(words, b, w, k, off, v)[q] == words[q];
    }
  }

  /** After a write, the element's stream bits are the bits of v and every other
      stream bit is unchanged. */
  lemma WriteBits(words: seq<nat>, b: nat, w: nat, k: nat, off: nat, v: nat, p: nat)
    requires 0 < w <= b && off < b && k * b + off + w <= |words| * b
    ensures StreamBit(Write(words, b, w, k, off, v), b, p)
         == if k * b + off <= p < k * b + off + w then Bit(v, p - (k * b + off))
            else StreamBit(words, b, p)
  {
    Span(k, b, off, w, |words|);
    if p / b == k {
      WriteBitsCaseOwn(words, b, w, k, off, v, p);
    } else if p / b == k + 1 && off + w > b {
      WriteBitsCaseNext(words, b, w, k, off, v, p);
    } else {
      WriteBitsCaseOther(words, b, w, k, off, v, p);
    }
  }

  /** A write keeps every word a B-bit word. */
  lemma WriteFits(words: seq<nat>, b: nat, w: nat, k: nat, off: nat, v: nat)
    requires 0 < w <= b && off < b && k * b + off + w <= |words| * b
    requires WordsFit(words, b)
    ensures WordsFit(Write(words, b, w, k, off, v), b)
  {
    Span(k, b, off, w, |words|);
    var val := Low(v, w);
    if off + w <= b {
      SpliceBound(words[k], off, w, val, b);
    } else {
      SpliceBound(words[k], off, b - off, val, b);
      SpliceBound(words[k + 1], 0, off + w - b, Shr(val, b - off), b);
    }
  }
}
