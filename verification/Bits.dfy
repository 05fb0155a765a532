/** Powers of two, alignment, single-bit XOR and packed bit fields, all on
    unbounded naturals, so that every width in the kernel is explicit. */
module Bits {
  const U64: nat := 0x1_0000_0000_0000_0000

  function Pow2(k: nat): (r: nat)
    ensures r >= 1
  {
    if k == 0 then 1 else 2 * Pow2(k - 1)
  }

  lemma {:induction false} Pow2Add(j: nat, k: nat)
    ensures Pow2(j + k) == Pow2(j) * Pow2(k)
  {
    if j > 0 {
      Pow2Add(j - 1, k);
      assert 2 * (Pow2(j - 1) * Pow2(k)) == (2 * Pow2(j - 1)) * Pow2(k);
    }
  }

  lemma {:induction false} Pow2Mono(j: nat, k: nat)
    requires j <= k
    ensures Pow2(j) <= Pow2(k)
    ensures j < k ==> 2 * Pow2(j) <= Pow2(k)
    decreases k - j
  {
    if j < k { Pow2Mono(j + 1, k); }
  }

  /** a is a multiple of 2^k: its k lowest bits are zero. */
  predicate Aligned(a: nat, k: nat) {
    k == 0 || (a % 2 == 0 && Aligned(a / 2, k - 1))
  }

  lemma {:induction false} AlignedIff(a: nat, k: nat)
    ensures Aligned(a, k) <==> a % Pow2(k) == 0
  {
    if k > 0 {
      var m := Pow2(k - 1);
      AlignedIff(a / 2, k - 1);
      var q, r := (a / 2) / m, (a / 2) % m;
      assert a / 2 == q * m + r;
      assert a == q * (2 * m) + (2 * r + a % 2);
      DivUnique(a, 2 * m, q, 2 * r + a % 2);
    }
  }

  lemma MulAtLeast(d: int, m: int)
    requires d >= 1 && m >= 0
    ensures d * m >= m
  {
    assert (d - 1) * m >= 0;
  }

  lemma MulMono(a: int, b: int, m: nat)
    requires a <= b
    ensures a * m <= b * m
  {
    assert (b - a) * m >= 0;
  }

  lemma MulAssoc(a: int, b: int, c: int)
    ensures a * (b * c) == (a * b) * c
  {
  }

  lemma MulAdd(a: int, b: int, m: int)
    ensures (a + b) * m == a * m + b * m
  {
  }

  /** A number written to base m * w, and to base m. */
  lemma MulRegroup(h: int, m: int, w: int, u: int)
    ensures h * (m * w) + u * m == (h * w + u) * m
  {
    MulAssoc(h, w, m);
    MulAdd(h * w, u, m);
  }

  /** Quotient and remainder are unique. */
  lemma EuclidUnique(m: int, q: int, r: int, q': int, r': int)
    requires 0 <= r < m && 0 <= r' < m && q * m + r == q' * m + r'
    ensures q == q' && r == r'
  {
    assert (q - q') * m == r' - r;
    if q > q' { MulAtLeast(q - q', m); }
    if q < q' { MulAtLeast(q' - q, m); }
  }

  /** Division with a known quotient. */
  lemma DivUnique(a: int, m: int, q: int, r: int)
    requires 0 <= r < m && a == q * m + r
    ensures a / m == q && a % m == r
  {
    assert a == (a / m) * m + a % m;
    EuclidUnique(m, a / m, a % m, q, r);
  }

  lemma {:induction false} AlignedWeaken(a: nat, j: nat, k: nat)
    requires j <= k && Aligned(a, k)
    ensures Aligned(a, j)
  {
    if j > 0 { AlignedWeaken(a / 2, j - 1, k - 1); }
  }

  /** The two halves of an aligned block, and the one place where the other half can be. */
  lemma {:induction false} AlignedHalves(a: nat, k: nat)
    requires Aligned(a, k)
    ensures Aligned(a, k + 1) ==> Aligned(a + Pow2(k), k) && !Aligned(a + Pow2(k), k + 1)
    ensures !Aligned(a, k + 1) ==> a >= Pow2(k) && Aligned(a - Pow2(k), k + 1)
    ensures Aligned(a, k + 1) <==> (a / Pow2(k)) % 2 == 0
  {
    if k > 0 {
      AlignedHalves(a / 2, k - 1);
      HalfQuotient(a, Pow2(k - 1));
      assert (a + 2 * Pow2(k - 1)) / 2 == a / 2 + Pow2(k - 1);
      if !Aligned(a, k + 1) {
        var lower := a - 2 * Pow2(k - 1);
        assert lower / 2 == a / 2 - Pow2(k - 1) && lower % 2 == 0;
        assert Aligned(lower / 2, k);
        assert lower == a - Pow2(k) && Aligned(lower, k + 1);
      }
    } else if a % 2 == 1 {
      assert Pow2(0) == 1 && Aligned((a - 1) / 2, 0) && Aligned(a - 1, 1);
    } else {
      assert Aligned(a / 2, 0) && Aligned(a, 1);
    }
  }

  /** Aligned blocks are nested or disjoint: a smaller block that starts inside a larger one ends inside it. */
  lemma Nested(a: nat, j: nat, b: nat, k: nat)
    requires j <= k && Aligned(a, j) && Aligned(b, k) && b <= a < b + Pow2(k)
    ensures a + Pow2(j) <= b + Pow2(k)
  {
    AlignedWeaken(b, j, k);
    AlignedIff(a, j);
    AlignedIff(b, j);
    Pow2Add(k - j, j);
    NestedMultiples(a, b, Pow2(j), Pow2(k - j), Pow2(k));
  }

  /** Two blocks of different sizes that start inside one another start together, at the smaller alignment. */
  lemma SameStart(a: nat, j: nat, b: nat, k: nat)
    requires j <= k && Aligned(a, j) && Aligned(b, k) && a <= b < a + Pow2(j)
    ensures a == b
  {
    AlignedWeaken(b, j, k);
    if a < b { Nested(b, j, a, j); }
  }

  lemma NestedMultiples(a: nat, b: nat, m: nat, z: nat, w: nat)
    requires m > 0 && a % m == 0 && b % m == 0 && w == z * m && a < b + w
    ensures a + m <= b + w
  {
    BlockFits(a, b, m, z, a / m, b / m);
  }

  lemma BlockFits(a: int, b: int, m: int, z: int, x: int, y: int)
    requires m > 0 && a == x * m && b == y * m && a < b + z * m
    ensures a + m <= b + z * m
  {
    MulAdd(y, z, m);
    if x < y + z {
      MulMono(x + 1, y + z, m);
      MulAdd(x, 1, m);
    } else {
      MulMono(y + z, x, m);
    }
  }

  // ---------- XOR ----------

  function Xor(a: nat, b: nat): (r: nat)
    decreases a + b
  {
    if a == 0 then b
    else if b == 0 then a
    else (a % 2 + b % 2) % 2 + 2 * Xor(a / 2, b / 2)
  }

  /** What flipping bit k does to a number. */
  function FlipBit(a: nat, k: nat): (r: nat)
  {
    QuotientOdd(a, k);
    if (a / Pow2(k)) % 2 == 0 then a + Pow2(k) else a - Pow2(k)
  }

  lemma QuotientOdd(a: nat, k: nat)
    ensures (a / Pow2(k)) % 2 == 1 ==> a >= Pow2(k)
  {
    if a < Pow2(k) { DivUnique(a, Pow2(k), 0, a); }
  }

  /** XOR with one bit adds or subtracts that bit. */
  lemma {:induction false} XorPow2(a: nat, k: nat)
    ensures Xor(a, Pow2(k)) == FlipBit(a, k)
  {
    if a == 0 {
      DivUnique(0, Pow2(k), 0, 0);
    } else if k == 0 {
      assert Xor(a, 1) == (a % 2 + 1) % 2 + 2 * Xor(a / 2, 0);
      assert Xor(a / 2, 0) == a / 2;
    } else {
      var m := Pow2(k - 1);
      assert Pow2(k) == 2 * m && (2 * m) / 2 == m && (2 * m) % 2 == 0;
      assert Xor(a, 2 * m) == (a % 2 + (2 * m) % 2) % 2 + 2 * Xor(a / 2, m);
      XorPow2(a / 2, k - 1);
      HalfQuotient(a, m);
    }
  }

  lemma HalfQuotient(a: nat, m: nat)
    requires m > 0
    ensures (a / 2) / m == a / (2 * m)
  {
    var q, r := (a / 2) / m, (a / 2) % m;
    assert a / 2 == q * m + r;
    assert a == q * (2 * m) + (2 * r + a % 2);
    DivUnique(a, 2 * m, q, 2 * r + a % 2);
  }

  /** On an aligned address XOR finds the other half of the enclosing block. */
  lemma FlipAligned(a: nat, k: nat)
    requires Aligned(a, k)
    ensures FlipBit(a, k) == if Aligned(a, k + 1) then a + Pow2(k) else a - Pow2(k)
  {
    AlignedHalves(a, k);
  }

  /** XOR with one fixed bit undoes itself. */
  lemma FlipTwice(a: nat, k: nat)
    ensures FlipBit(FlipBit(a, k), k) == a
  {
    var m := Pow2(k);
    var q, r := a / m, a % m;
    assert a == q * m + r;
    QuotientOdd(a, k);
    if q % 2 == 0 {
      MulAdd(q, 1, m);
      DivUnique(a + m, m, q + 1, r);
    } else {
      MulAdd(q, -1, m);
      DivUnique(a - m, m, q - 1, r);
    }
  }

  /** Scaling by 2^s shifts alignment by s. */
  lemma {:induction false} AlignedScale(a: nat, k: nat, s: nat)
    ensures Aligned(a * Pow2(s), k + s) <==> Aligned(a, k)
  {
    if s > 0 {
      AlignedScale(a, k, s - 1);
      var b := a * Pow2(s - 1);
      assert a * Pow2(s) == 2 * b;
      assert (2 * b) % 2 == 0 && (2 * b) / 2 == b;
    }
  }

  /** The buddy computed on byte addresses is the buddy computed on page numbers. */
  lemma XorOfScaled(a: nat, k: nat, s: nat)
    requires Aligned(a, k)
    ensures Xor(a * Pow2(s), Pow2(k + s)) == (if Aligned(a, k + 1) then a + Pow2(k) else a - Pow2(k)) * Pow2(s)
    ensures !Aligned(a, k + 1) ==> a >= Pow2(k)
  {
    hide Aligned, Pow2, Xor, FlipBit;
    AlignedScale(a, k, s);
    AlignedScale(a, k + 1, s);
    Pow2Add(k, s);
    XorPow2(a * Pow2(s), k + s);
    FlipAligned(a * Pow2(s), k + s);
    AlignedHalves(a, k);
  }

  // ---------- OR ----------

  function Or(a: nat, b: nat): (r: nat)
    decreases a + b
  {
    if a == 0 then b
    else if b == 0 then a
    else (if a % 2 == 1 || b % 2 == 1 then 1 else 0) + 2 * Or(a / 2, b / 2)
  }

  /** OR of bits that do not overlap is addition. */
  lemma {:induction false} OrBelow(a: nat, k: nat, b: nat)
    requires b < Pow2(k)
    ensures Or(a * Pow2(k), b) == a * Pow2(k) + b
  {
    if a != 0 && b != 0 {
      var x := a * Pow2(k - 1);
      assert a * Pow2(k) == 2 * x;
      OrBelow(a, k - 1, b / 2);
      assert Or(2 * x, b) == b % 2 + 2 * Or(x, b / 2);
    }
  }
}
