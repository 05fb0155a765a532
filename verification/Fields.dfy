/** Packed bit fields of a 64-bit word, as the compiler lays out the unions of page_table.h. */
module Fields {
  import opened Bits

  datatype Field = Field(lo: nat, width: nat)

  predicate FieldOk(f: Field) {
    f.lo + f.width <= 64
  }

  predicate Disjoint(f: Field, g: Field) {
    f.lo + f.width <= g.lo || g.lo + g.width <= f.lo
  }

  function Get(x: nat, f: Field): (v: nat) {
    (x / Pow2(f.lo)) % Pow2(f.width)
  }

  /** Replace field f of x by v, keeping only the bits of v that fit. */
  function Set(x: nat, f: Field, v: nat): (y: nat) {
    SetIsNat(x, f);
    x - Get(x, f) * Pow2(f.lo) + (v % Pow2(f.width)) * Pow2(f.lo)
  }

  /** x is the bits above f, the bits of f and the bits below f. */
  lemma SplitAtField(x: nat, f: Field)
    ensures x == (x / Pow2(f.lo + f.width)) * Pow2(f.lo + f.width) + Get(x, f) * Pow2(f.lo) + x % Pow2(f.lo)
  {
    var m, w := Pow2(f.lo), Pow2(f.width);
    Pow2Add(f.lo, f.width);
    hide Pow2;
    SplitAt(x, m, w);
  }

  lemma SplitAt(x: nat, m: nat, w: nat)
    requires m > 0 && w > 0
    ensures x == (x / (m * w)) * (m * w) + ((x / m) % w) * m + x % m
  {
    var q, r := x / m, x % m;
    var h, v := q / w, q % w;
    assert x == q * m + r && q == h * w + v;
    MulRegroup(h, m, w, v);
    ProductBelow(v, w, m, r);
    DivUnique(x, m * w, h, v * m + r);
  }

  lemma ProductBelow(v: nat, w: nat, m: nat, r: nat)
    requires v < w && r < m
    ensures v * m + r < m * w
  {
    MulAtLeast(w - v, m);
    MulAdd(v, w - v, m);
  }

  lemma SetIsNat(x: nat, f: Field)
    ensures x >= Get(x, f) * Pow2(f.lo)
  {
    SplitAtField(x, f);
    assert (x / Pow2(f.lo + f.width)) * Pow2(f.lo + f.width) >= 0;
  }

  /** Set keeps the bits above and below the field and replaces the field itself. */
  lemma SetParts(x: nat, f: Field, v: nat)
    ensures Set(x, f, v) / Pow2(f.lo + f.width) == x / Pow2(f.lo + f.width)
    ensures Set(x, f, v) % Pow2(f.lo) == x % Pow2(f.lo)
    ensures Get(Set(x, f, v), f) == v % Pow2(f.width)
  {
    hide Pow2;
    SplitAtField(x, f);
    Pow2Add(f.lo, f.width);
    SetPartsOf(x, Pow2(f.lo), Pow2(f.width), v % Pow2(f.width), Set(x, f, v));
  }

  lemma SetPartsOf(x: nat, m: nat, w: nat, u: nat, y: nat)
    requires m > 0 && u < w
    requires y == x - ((x / m) % w) * m + u * m
    ensures y / (m * w) == x / (m * w) && y % m == x % m && (y / m) % w == u
  {
    var h, v, r := x / (m * w), (x / m) % w, x % m;
    SplitAt(x, m, w);
    ProductBelow(u, w, m, r);
    MulRegroup(h, m, w, u);
    Exchanged(x, y, h * (m * w), v * m, u * m, r);
    Recompose(y, m, w, h, u, r);
  }

  lemma Exchanged(x: int, y: int, high: int, out: int, in': int, low: int)
    requires x == high + out + low && y == x - out + in'
    ensures y == high + in' + low
  {
  }

  lemma Recompose(y: nat, m: nat, w: nat, h: nat, u: nat, r: nat)
    requires m > 0 && u < w && r < m && u * m + r < m * w
    requires y == h * (m * w) + u * m + r && y == (h * w + u) * m + r
    ensures y / (m * w) == h && y % m == r && (y / m) % w == u
  {
    DivUnique(y, m * w, h, u * m + r);
    DivUnique(y, m, h * w + u, r);
    DivUnique(h * w + u, w, h, u);
  }

  lemma GetSet(x: nat, f: Field, v: nat)
    requires v < Pow2(f.width)
    ensures Get(Set(x, f, v), f) == v
  {
    hide Pow2, Set, Get;
    SetParts(x, f, v);
    DivUnique(v, Pow2(f.width), 0, v);
  }

  /** Writing one field leaves every field that shares no bit with it as it was. */
  lemma GetOther(x: nat, f: Field, v: nat, g: Field)
    requires Disjoint(f, g)
    ensures Get(Set(x, f, v), g) == Get(x, g)
  {
    hide Pow2, Set, Get;
    SetParts(x, f, v);
    if g.lo + g.width <= f.lo {
      LowBits(x, f.lo, g);
      LowBits(Set(x, f, v), f.lo, g);
    } else {
      HighBits(x, f.lo + f.width, g, x / Pow2(f.lo + f.width));
      HighBits(Set(x, f, v), f.lo + f.width, g, x / Pow2(f.lo + f.width));
    }
  }

  /** A field below bit n is a field of the n low bits. */
  lemma LowBits(x: nat, n: nat, g: Field)
    requires g.lo + g.width <= n
    ensures Get(x, g) == Get(x % Pow2(n), g)
  {
    var m, w, z := Pow2(g.lo), Pow2(g.width), Pow2(n - g.lo - g.width);
    Pow2Add(g.width, n - g.lo - g.width);
    Pow2Add(g.lo, n - g.lo);
    hide Pow2;
    LowBitsOf(x, m, w, z);
  }

  lemma LowBitsOf(x: nat, m: nat, w: nat, z: nat)
    requires m > 0 && w > 0 && z > 0
    ensures (x / m) % w == ((x % (m * (w * z))) / m) % w
  {
    var n := w * z;
    var q, r := x / (m * n), x % (m * n);
    assert x == q * (m * n) + r;
    var s, t := r / m, r % m;
    assert r == s * m + t;
    MulRegroup(q, m, n, s);
    DivUnique(x, m, q * n + s, t);
    var a, b := s / w, s % w;
    assert s == a * w + b;
    MulRegroup(q, w, z, a);
    DivUnique(q * n + s, w, q * z + a, b);
  }

  /** A field at or above bit n is a field of the bits from n on. */
  lemma HighBits(x: nat, n: nat, g: Field, y: nat)
    requires n <= g.lo && y == x / Pow2(n)
    ensures Get(x, g) == Get(y, Field(g.lo - n, g.width))
  {
    Pow2Add(n, g.lo - n);
    hide Pow2;
    DivDiv(x, Pow2(n), Pow2(g.lo - n));
  }

  lemma DivDiv(x: nat, m: nat, n: nat)
    requires m > 0 && n > 0
    ensures (x / m) / n == x / (m * n)
  {
    SplitAt(x, m, n);
    var h, v, r := (x / m) / n, (x / m) % n, x % m;
    assert x / m == h * n + v && x == (x / m) * m + r;
    MulRegroup(h, m, n, v);
    ProductBelow(v, n, m, r);
    DivUnique(x, m * n, h, v * m + r);
  }

  lemma SmallPow2()
    ensures Pow2(0) == 1 && Pow2(1) == 2 && Pow2(2) == 4 && Pow2(3) == 8 && Pow2(4) == 16
  {
  }

  /** The powers of two that the layouts use, in numbers. */
  lemma LayoutPow2()
    ensures Pow2(6) == 0x40 && Pow2(8) == 0x100 && Pow2(10) == 0x400 && Pow2(11) == 0x800 && Pow2(12) == 0x1000
    ensures Pow2(18) == 0x4_0000 && Pow2(21) == 0x20_0000 && Pow2(27) == 0x800_0000 && Pow2(30) == 0x4000_0000
    ensures Pow2(36) == 0x10_0000_0000 && Pow2(53) == 0x20_0000_0000_0000 && Pow2(54) == 0x40_0000_0000_0000
    ensures Pow2(55) == 0x80_0000_0000_0000 && Pow2(64) == 0x1_0000_0000_0000_0000
  {
    hide Pow2;
    SmallPow2();
    Pow2Add(2, 4);
    Pow2Add(4, 4);
    Pow2Add(2, 8);
    Pow2Add(3, 8);
    Pow2Add(4, 8);
    Pow2Add(6, 12);
    Pow2Add(3, 18);
    Pow2Add(6, 21);
    Pow2Add(3, 27);
    Pow2Add(6, 30);
    Pow2Add(27, 27);
    Pow2Add(1, 54);
    Pow2Add(10, 54);
    Pow2Add(1, 53);
  }

  /** Writing a field of a 64-bit word gives a 64-bit word. */
  lemma SetFits(x: nat, f: Field, v: nat)
    requires FieldOk(f) && x < U64
    ensures Set(x, f, v) < U64
  {
    hide Pow2, Set, Get;
    LayoutPow2();
    SetParts(x, f, v);
    var n := f.lo + f.width;
    Pow2Add(64 - n, n);
    Bounded(x, Set(x, f, v), Pow2(n), Pow2(64 - n));
  }

  lemma Bounded(x: nat, y: nat, n: nat, z: nat)
    requires n > 0 && x < z * n && x / n == y / n
    ensures y < z * n
  {
    var q := x / n;
    assert x == q * n + x % n && y == q * n + y % n;
    if q < z {
      MulMono(q + 1, z, n);
      MulAdd(q, 1, n);
    } else {
      MulMono(z, q, n);
    }
  }

  /** Writing a field whose bits are all zero adds the value in its place. */
  lemma SetClear(x: nat, f: Field, v: nat)
    requires Get(x, f) == 0 && v < Pow2(f.width)
    ensures Set(x, f, v) == x + v * Pow2(f.lo)
  {
    DivUnique(v, Pow2(f.width), 0, v);
    hide Pow2, Get;
  }

  /** Clearing a field takes the value away again. */
  lemma SetZero(x: nat, f: Field, v: nat)
    requires Get(x, f) == v
    ensures Set(x, f, 0) == x - v * Pow2(f.lo)
  {
    DivUnique(0, Pow2(f.width), 0, 0);
    hide Pow2, Get;
  }
}
