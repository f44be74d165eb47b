/** Natural numbers read as little-endian bit strings.

    A storage word of the packed vector is a `nat` below 2^B. The C++ word
    operations are defined bit by bit: `x >> s` is `Shr(x, s)`, `x << s` is
    `Shl(x, s)`, `x & ((1 << n) - 1)` is `Low(x, n)`, and OR-ing a value shifted
    left by m with a value below 2^m is `Concat`. */
module Bits {

  /** 2^n. */
  function Pow2(n: nat): (r: nat)
    ensures r >= 1
  {
    if n == 0 then 1 else 2 * Pow2(n - 1)
  }

  /** `x >> n`. */
  function Shr(x: nat, n: nat): nat
  {
    if n == 0 then x else Shr(x / 2, n - 1)
  }

  /** `x << n` on unbounded naturals. */
  function Shl(x: nat, n: nat): nat
  {
    if n == 0 then x else 2 * Shl(x, n - 1)
  }

  /** `x & ((1 << n) - 1)`: the low n bits of x. */
  function Low(x: nat, n: nat): (r: nat)
    ensures r < Pow2(n)
    ensures r <= x
  {
    if n == 0 then 0 else x % 2 + 2 * Low(x / 2, n - 1)
  }

  /** The j-th least significant bit of x. */
  function Bit(x: nat, j: nat): (b: nat)
    ensures b < 2
  {
    Shr(x, j) % 2
  }

  /** `(x >> off) & ((1 << n) - 1)`: the n-bit field of x whose lowest bit is bit off. */
  function Field(x: nat, off: nat, n: nat): (r: nat)
    ensures r < Pow2(n)
  {
    Low(Shr(x, off), n)
  }

  /** `(h << m) | l`, where l is below 2^m so that the two parts do not overlap. */
  function Concat(h: nat, l: nat, m: nat): nat
  {
    Shl(h, m) + l
  }

  /** `(x & ~(mask << off)) | ((v & mask) << off)` with `mask == (1 << n) - 1`:
      the bits of x above the field, then the low n bits of v, then the bits of
      x below the field. */
  function Splice(x: nat, off: nat, n: nat, v: nat): nat
  {
    Concat(Concat(Shr(x, off + n), Low(v, n), n), Low(x, off), off)
  }

  /** x stored into an unsigned n-bit type: x modulo 2^n. */
  function Trunc(x: nat, n: nat): nat
  {
    x % Pow2(n)
  }

  // ---------------------------------------------------------------------------
  // Shifts

  lemma {:induction false} ShrShr(x: nat, a: nat, b: nat)
    ensures Shr(Shr(x, a), b) == Shr(x, a + b)
  {
    if a > 0 {
      ShrShr(x / 2, a - 1, b);
    }
  }

  /** A low bit below twice h splits back into the two. */
  lemma Halves(bit: nat, h: nat)
    requires bit < 2
    ensures (bit + 2 * h) % 2 == bit && (bit + 2 * h) / 2 == h
  {
  }

  /** One step of a left shift by m: the low bit of `(h << m) | l` is l's. */
  lemma ConcatStep(h: nat, l: nat, m: nat)
    requires 0 < m
    ensures Concat(h, l, m) % 2 == l % 2
    ensures Concat(h, l, m) / 2 == Concat(h, l / 2, m - 1)
  {
  }

  /** `((h << m) | l) & ((1 << m) - 1) == l`. */
  lemma {:induction false} LowConcat(h: nat, l: nat, m: nat)
    requires l < Pow2(m)
    ensures Low(Concat(h, l, m), m) == l
  {
    if m > 0 {
      ConcatStep(h, l, m);
      LowConcat(h, l / 2, m - 1);
    }
  }

  /** Masking a value that already fits changes nothing. */
  lemma {:induction false} LowOfSmall(x: nat, n: nat)
    requires x < Pow2(n)
    ensures Low(x, n) == x
  {
    if n > 0 {
      LowOfSmall(x / 2, n - 1);
    }
  }

  /** Masking to b bits and then to a <= b bits is masking to a bits. */
  lemma {:induction false} LowLow(x: nat, a: nat, b: nat)
    requires a <= b
    ensures Low(Low(x, b), a) == Low(x, a)
  {
    if a > 0 {
      Halves(x % 2, Low(x / 2, b - 1));
      LowLow(x / 2, a - 1, b - 1);
    }
  }

  lemma {:induction false} Pow2Le(a: nat, b: nat)
    requires a <= b
    ensures Pow2(a) <= Pow2(b)
  {
    if a < b {
      Pow2Le(a, b - 1);
    }
  }

  /** `x << m` is x times 2^m. */
  lemma {:induction false} ShlIsMul(x: nat, m: nat)
    ensures Shl(x, m) == x * Pow2(m)
  {
    if m > 0 {
      ShlIsMul(x, m - 1);
    }
  }

  // ---------------------------------------------------------------------------
  // Bits of shifted, masked, concatenated and spliced values

  /** Bit t of `x >> m` is bit m + t of x. */
  lemma BitOfShr(x: nat, m: nat, t: nat)
    ensures Bit(Shr(x, m), t) == Bit(x, m + t)
  {
    ShrShr(x, m, t);
  }

  lemma {:induction false} ShrOfZero(t: nat)
    ensures Shr(0, t) == 0
  {
    if t > 0 {
      ShrOfZero(t - 1);
    }
  }

  /** Masking to n bits keeps the bits below n and clears the others. */
  lemma {:induction false} BitOfLow(x: nat, n: nat, t: nat)
    ensures Bit(Low(x, n), t) == if t < n then Bit(x, t) else 0
  {
    if n == 0 {
      ShrOfZero(t);
    } else {
      Halves(x % 2, Low(x / 2, n - 1));
      if t > 0 {
        BitOfLow(x / 2, n - 1, t - 1);
      }
    }
  }

  /** `(h << m) | l` for l below 2^m: its low m bits are l's and the rest are h's. */
  lemma {:induction false} BitOfConcat(h: nat, l: nat, m: nat, j: nat)
    requires l < Pow2(m)
    ensures Bit(Concat(h, l, m), j) == if j < m then Bit(l, j) else Bit(h, j - m)
  {
    if m > 0 && j > 0 {
      ConcatStep(h, l, m);
      BitOfConcat(h, l / 2, m - 1, j - 1);
    } else if m > 0 {
      ConcatStep(h, l, m);
    }
  }

  /** Bits of a spliced word: the field holds the new value, every other bit is kept. */
  lemma BitOfSplice(x: nat, off: nat, n: nat, v: nat, j: nat)
    ensures Bit(Splice(x, off, n, v), j)
         == if off <= j < off + n then Bit(v, j - off) else Bit(x, j)
  {
    var mid := Concat(Shr(x, off + n), Low(v, n), n);
    BitOfConcat(mid, Low(x, off), off, j);
    if j < off {
      BitOfLow(x, off, j);
    } else {
      BitOfConcat(Shr(x, off + n), Low(v, n), n, j - off);
      if j < off + n {
        BitOfLow(v, n, j - off);
      } else {
        BitOfShr(x, off + n, j - off - n);
      }
    }
  }

  // ---------------------------------------------------------------------------
  // Word bounds

  /** A B-bit word shifted right by m has at most B - m bits. */
  lemma {:induction false} ShrBound(x: nat, m: nat, b: nat)
    requires x < Pow2(b) && m <= b
    ensures Shr(x, m) < Pow2(b - m)
  {
    if m > 0 {
      ShrBound(x / 2, m - 1, b - 1);
    }
  }

  /** `(h << m) | l` with h below 2^k and l below 2^m fits in k + m bits. */
  lemma {:induction false} ConcatBound(h: nat, l: nat, m: nat, k: nat)
    requires h < Pow2(k) && l < Pow2(m)
    ensures Concat(h, l, m) < Pow2(k + m)
  {
    if m > 0 {
      ConcatStep(h, l, m);
      ConcatBound(h, l / 2, m - 1, k);
    }
  }

  /** Splicing a field that lies inside a B-bit word yields a B-bit word. */
  lemma SpliceBound(x: nat, off: nat, n: nat, v: nat, b: nat)
    requires x < Pow2(b) && off + n <= b
    ensures Splice(x, off, n, v) < Pow2(b)
  {
    ShrBound(x, off + n, b);
    ConcatBound(Shr(x, off + n), Low(v, n), n, b - off - n);
    ConcatBound(Concat(Shr(x, off + n), Low(v, n), n), Low(x, off), off, b - off);
  }

  /** The field of a B-bit word starting at off has at most B - off bits. */
  lemma FieldBound(x: nat, off: nat, n: nat, b: nat)
    requires x < Pow2(b) && off <= b
    ensures Field(x, off, n) < Pow2(b - off)
  {
    ShrBound(x, off, b);
  }

  // ---------------------------------------------------------------------------
  // Bitwise AND

  /** `x & y` on naturals, one bit at a time. */
  function And(x: nat, y: nat): nat
    decreases x
  {
    if x == 0 || y == 0 then 0
    else 2 * And(x / 2, y / 2) + (if x % 2 == 1 && y % 2 == 1 then 1 else 0)
  }

  /** AND-ing with n one bits, `x & ((1 << n) - 1)`, keeps the low n bits. */
  lemma {:induction false} AndLowOnes(x: nat, n: nat)
    ensures And(x, Pow2(n) - 1) == Low(x, n)
  {
    if n > 0 && x > 0 {
      assert (Pow2(n) - 1) / 2 == Pow2(n - 1) - 1;
      assert (Pow2(n) - 1) % 2 == 1;
      AndLowOnes(x / 2, n - 1);
    }
  }

  // ---------------------------------------------------------------------------
  // Division facts (for locating a bit position in a word of B bits)

  lemma MulLe(a: nat, b: nat, c: nat)
    requires a <= b
    ensures a * c <= b * c
  {
  }

  /** Euclidean division is determined by quotient and remainder. */
  lemma DivModUnique(x: nat, d: nat, q: nat, r: nat)
    requires 0 < d && r < d && x == q * d + r
    ensures x / d == q && x % d == r
  {
    var q0, r0 := x / d, x % d;
    if q0 < q {
      MulLe(q0 + 1, q, d);
    } else if q < q0 {
      MulLe(q + 1, q0, d);
    }
  }

  /** The remainder by 2p is the low bit below twice the remainder of x / 2 by p. */
  lemma ModDouble(x: nat, p: nat)
    requires 0 < p
    ensures x % (2 * p) == x % 2 + 2 * ((x / 2) % p)
  {
    var h := x / 2;
    var q, r := h / p, h % p;
    assert x == 2 * h + x % 2;
    assert h == q * p + r;
    Regroup(q, p, r, x % 2);
    DivModUnique(x, 2 * p, q, x % 2 + 2 * r);
  }

  lemma Regroup(q: nat, p: nat, r: nat, bit: nat)
    ensures 2 * (q * p + r) + bit == q * (2 * p) + (bit + 2 * r)
  {
  }

  /** `x & ((1 << n) - 1)` is x modulo 2^n. */
  lemma {:induction false} LowIsMod(x: nat, n: nat)
    ensures Low(x, n) == Trunc(x, n)
  {
    if n > 0 {
      LowIsMod(x / 2, n - 1);
      ModDouble(x, Pow2(n - 1));
    }
  }
}
