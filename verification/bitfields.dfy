/** A segment value seen as three fields: the bits above a band, the band of
    `w` bits, and the `m` bits below the band. Clearing the band is how a
    prefix change zeroes the bits that move across the prefix boundary. */
module BitFields {
  import opened Bits

  /** Multiplication keeps order; stated as an implication so that it can be
      called where the premise may not hold. */
  lemma MulOrder(a: nat, b: nat, d: nat)
    ensures a <= b ==> a * d <= b * d
  {
  }

  lemma Distribute(x: nat, y: nat, d: nat)
    ensures (x + y) * d == x * d + y * d
  {
  }

  lemma DivModUnique(a: nat, d: nat, q: nat, r: nat)
    requires 0 < d && r < d && a == q * d + r
    ensures a / d == q && a % d == r
  {
    var q', r' := a / d, a % d;
    assert a == q' * d + r';
    MulOrder(q' + 1, q, d);
    MulOrder(q + 1, q', d);
  }

  /** Values split as quotient and remainder compare by quotient first. */
  lemma QuotientOrder(c1: nat, l1: nat, c2: nat, l2: nat, d: nat)
    requires l1 < d && l2 < d && c1 < c2
    ensures c1 * d + l1 < c2 * d + l2
  {
    MulOrder(c1 + 1, c2, d);
    Distribute(c1, 1, d);
  }

  /** `v` shifted right by `m` bits. */
  function Shift(v: nat, m: nat): (r: nat)
  {
    QuotientBound(v, Pow2(m));
    v / Pow2(m)
  }

  lemma QuotientBound(v: nat, d: nat)
    requires d >= 1
    ensures 0 <= v / d <= v
  {
  }

  /** The lowest `m` bits of `v`. */
  function Low(v: nat, m: nat): (r: nat)
  {
    v % Pow2(m)
  }

  lemma ShiftLow(v: nat, m: nat)
    ensures v == Shift(v, m) * Pow2(m) + Low(v, m)
    ensures Low(v, m) < Pow2(m)
  {
  }

  /** Shifting and keeping the low bits are the only split of a value. */
  lemma ShiftLowUnique(v: nat, m: nat, q: nat, l: nat)
    requires l < Pow2(m) && v == q * Pow2(m) + l
    ensures Shift(v, m) == q && Low(v, m) == l
  {
    DivModUnique(v, Pow2(m), q, l);
  }

  lemma ShiftMonotone(a: nat, b: nat, m: nat)
    requires a <= b
    ensures Shift(a, m) <= Shift(b, m)
  {
    var K := Pow2(m);
    ShiftLow(a, m);
    ShiftLow(b, m);
    MulOrder(Shift(b, m) + 1, Shift(a, m), K);
  }

  /** The band of `w` bits above the lowest `m`. */
  function Band(v: nat, m: nat, w: nat): (r: nat)
  {
    Low(Shift(v, m), w)
  }

  /** The bits above the band. */
  function High(v: nat, m: nat, w: nat): (r: nat)
  {
    Shift(Shift(v, m), w)
  }

  /** Every value is made of its three fields. */
  lemma Decompose(v: nat, m: nat, w: nat)
    ensures v == (High(v, m, w) * Pow2(w) + Band(v, m, w)) * Pow2(m) + Low(v, m)
    ensures Band(v, m, w) < Pow2(w) && Low(v, m) < Pow2(m)
  {
    ShiftLow(v, m);
    ShiftLow(Shift(v, m), w);
  }

  /** Three fields in range make a value with exactly those fields; `c` is
      the value shifted past its lowest `m` bits. */
  lemma Compose(v: nat, c: nat, h: nat, b: nat, l: nat, m: nat, w: nat)
    requires b < Pow2(w) && l < Pow2(m)
    requires c == h * Pow2(w) + b && v == c * Pow2(m) + l
    ensures High(v, m, w) == h && Band(v, m, w) == b && Low(v, m) == l
  {
    ShiftLowUnique(v, m, c, l);
    ShiftLowUnique(c, w, h, b);
  }

  /** `v` with its band of `w` bits above the lowest `m` bits set to zero. */
  function ClearBand(v: nat, m: nat, w: nat): (c: nat)
  {
    MulOrder(0, High(v, m, w), Pow2(w));
    MulOrder(0, High(v, m, w) * Pow2(w), Pow2(m));
    (High(v, m, w) * Pow2(w)) * Pow2(m) + Low(v, m)
  }

  /** Clearing the band keeps the fields around it and leaves a zero band. */
  lemma ClearBandFields(v: nat, m: nat, w: nat)
    ensures High(ClearBand(v, m, w), m, w) == High(v, m, w)
    ensures Band(ClearBand(v, m, w), m, w) == 0
    ensures Low(ClearBand(v, m, w), m) == Low(v, m)
  {
    var h, l := High(v, m, w), Low(v, m);
    ShiftLow(v, m);
    var cleared := ClearBand(v, m, w);
    assert cleared == (h * Pow2(w) + 0) * Pow2(m) + l;
    Compose(cleared, h * Pow2(w) + 0, h, 0, l, m, w);
  }

  /** Clearing the band subtracts exactly the band's contribution. */
  lemma ClearBandSubtracts(v: nat, m: nat, w: nat)
    ensures ClearBand(v, m, w) + Band(v, m, w) * Pow2(m) == v
  {
    Decompose(v, m, w);
    Subtract(High(v, m, w) * Pow2(w), Band(v, m, w), Pow2(m), Low(v, m), v);
  }

  lemma Subtract(c: nat, b: nat, k: nat, l: nat, v: nat)
    requires v == (c + b) * k + l
    ensures c * k + l + b * k == v
  {
    Distribute(c, b, k);
  }

  /** A larger value has a High field at least as large, and with equal High
      fields a Band at least as large. */
  lemma HighMonotone(a: nat, b: nat, m: nat, w: nat)
    requires a <= b
    ensures High(a, m, w) <= High(b, m, w)
    ensures High(a, m, w) == High(b, m, w) ==> Band(a, m, w) <= Band(b, m, w)
  {
    ShiftMonotone(a, b, m);
    ShiftMonotone(Shift(a, m), Shift(b, m), w);
    ShiftLow(Shift(a, m), w);
    ShiftLow(Shift(b, m), w);
  }

  // ---------------------------------------------------------------------
  // Prefix blocks: the lowest `h` bits are host bits
  // ---------------------------------------------------------------------

  /** The smallest value sharing the network bits of `v`: host bits zero. */
  function BlockStart(v: nat, h: nat): (r: nat)
  {
    MulOrder(0, Shift(v, h), Pow2(h));
    Shift(v, h) * Pow2(h)
  }

  /** The largest value sharing the network bits of `v`: host bits all one. */
  function BlockEnd(v: nat, h: nat): (r: nat)
  {
    MulOrder(0, Shift(v, h), Pow2(h));
    Shift(v, h) * Pow2(h) + Pow2(h) - 1
  }

  /** `x` and `v` agree on every bit above the lowest `h`. */
  predicate SameNetwork(x: nat, v: nat, h: nat)
  {
    Shift(x, h) == Shift(v, h)
  }

  /** The values sharing the network bits of `v` are exactly
      BlockStart(v)..BlockEnd(v), and `v` is one of them. */
  lemma BlockBounds(x: nat, v: nat, h: nat)
    ensures SameNetwork(x, v, h) <==> BlockStart(v, h) <= x <= BlockEnd(v, h)
    ensures BlockStart(v, h) <= v <= BlockEnd(v, h)
  {
    ShiftLow(v, h);
    ShiftLow(x, h);
    if BlockStart(v, h) <= x <= BlockEnd(v, h) {
      ShiftLowUnique(x, h, Shift(v, h), x - Shift(v, h) * Pow2(h));
    }
  }

  /** A block never extends past the largest value of its width. */
  lemma BlockEndBound(v: nat, h: nat, n: nat)
    requires h <= n && v < Pow2(n)
    ensures BlockEnd(v, h) < Pow2(n)
  {
    Pow2Add(n - h, h);
    ShiftLow(v, h);
    LastBlockFits(Shift(v, h), Low(v, h), Pow2(h), Pow2(n - h), v);
  }

  /** A value below count * k lies in one of the first `count` blocks of size k. */
  lemma LastBlockFits(q: nat, l: nat, k: nat, count: nat, v: nat)
    requires l < k && v == q * k + l && v < count * k
    ensures q * k + k - 1 < count * k
  {
    MulOrder(count, q, k);
    MulOrder(q + 1, count, k);
    Distribute(q, 1, k);
  }
}
