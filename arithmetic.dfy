/** Index arithmetic of the interleaved sample layout: frame `f`, channel `c` lives at `f * ch + c`. */
module Arithmetic {

  function Min(a: nat, b: nat): (m: nat)
    ensures m <= a && m <= b && (m == a || m == b)
  {
    if a < b then a else b
  }

  /** A frame below the frame count fits inside a buffer of `frameCount * ch` samples. */
  lemma FrameFits(f: nat, frameCount: nat, ch: nat)
    requires f < frameCount
    ensures f * ch + ch <= frameCount * ch
  {
    calc {
      f * ch + ch;
      (f + 1) * ch;
    <= { MulMonotone(f + 1, frameCount, ch); }
      frameCount * ch;
    }
  }

  /** Multiplication by a natural number is monotone. */
  lemma MulMonotone(a: nat, b: nat, k: nat)
    ensures a <= b ==> a * k <= b * k
  {
  }

  /** Different (frame, channel) pairs never share a sample index. */
  lemma FlatIndexInjective(f: nat, c: nat, g: nat, d: nat, ch: nat)
    requires c < ch && d < ch
    requires f * ch + c == g * ch + d
    ensures f == g && c == d
  {
    MulMonotone(f + 1, g, ch);
    MulMonotone(g + 1, f, ch);
  }

  /** The frame count derived from a buffer of `frameCount * ch` samples, as `floor(length / ch)`. */
  lemma DivExact(frameCount: nat, ch: nat)
    requires ch > 0
    ensures (frameCount * ch) / ch == frameCount
  {
    var q: nat := (frameCount * ch) / ch;
    var r := (frameCount * ch) % ch;
    assert frameCount * ch == q * ch + r && 0 <= r < ch;
    MulMonotone(q + 1, frameCount, ch);
    MulMonotone(frameCount + 1, q, ch);
  }

  /** Reducing the left summand modulo `m` first does not change the sum modulo `m`. */
  lemma {:induction false} ModAddMod(x: nat, k: nat, m: nat)
    requires m > 0
    ensures (x % m + k) % m == (x + k) % m
  {
    var q := x / m;
    assert x == q * m + x % m;
    ModAddMultiple(q, x % m + k, m);
  }

  lemma {:induction false} ModAddMultiple(q: nat, y: nat, m: nat)
    requires m > 0
    ensures (q * m + y) % m == y % m
    decreases q
  {
    if q > 0 {
      ModAddMultiple(q - 1, y, m);
      assert q * m + y == ((q - 1) * m + y) + m;
      ModPlusModulus((q - 1) * m + y, m);
    }
  }

  lemma ModPlusModulus(z: nat, m: nat)
    requires m > 0
    ensures (z + m) % m == z % m
  {
    var q, r := z / m, z % m;
    assert z == q * m + r;
    assert z + m == (q + 1) * m + r;
    ModUnique(z + m, q + 1, r, m);
  }

  /** Euclidean division is unique. */
  lemma ModUnique(z: nat, q: nat, r: nat, m: nat)
    requires m > 0 && r < m && z == q * m + r
    ensures z / m == q && z % m == r
  {
    var q': nat, r' := z / m, z % m;
    assert z == q' * m + r';
    MulMonotone(q' + 1, q, m);
    MulMonotone(q + 1, q', m);
  }

  /** A value below twice the modulus wraps at most once. */
  lemma ModBelowTwice(x: nat, m: nat)
    requires m > 0 && x < 2 * m
    ensures x % m == if x < m then x else x - m
  {
    if x < m {
      ModUnique(x, 0, x, m);
    } else {
      ModUnique(x, 1, x - m, m);
    }
  }

  /** A positive factor can be cancelled from both sides of `<=`. */
  lemma MulCancel(a: nat, b: nat, k: nat)
    requires k > 0 && a * k <= b * k
    ensures a <= b
  {
    MulMonotone(b + 1, a, k);
  }
}
