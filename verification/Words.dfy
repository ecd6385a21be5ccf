/**
 Machine words and bytes as bounded integers, and the C operators `&` and `|`
 defined bit by bit.  The lemmas give the arithmetic meaning of the masks the
 kernel uses, so that hardware-side definitions can be written with `/` and `%`
 and still be compared with the code's masks.
 */
module Words {
  type Byte = x: int | 0 <= x < 0x100
  type Word = x: int | 0 <= x < 0x1_0000_0000

  /** KERNEL_CONFIG_VMA: where the higher half starts. */
  const VMA: Word := 0xC000_0000

  datatype Option<+T> = None | Some(value: T)

  function Max(a: int, b: int): int { if a < b then b else a }

  function Min(a: int, b: int): int { if a < b then a else b }

  function Pow2(k: nat): (p: nat)
    ensures 1 <= p
  {
    if k == 0 then 1 else 2 * Pow2(k - 1)
  }

  lemma Pow2Add(j: nat, k: nat)
    ensures Pow2(j + k) == Pow2(j) * Pow2(k)
  {
    if k != 0 { Pow2Add(j, k - 1); }
  }

  /** The powers the kernel's masks are built from. */
  lemma Pow2Values()
    ensures Pow2(0) == 1 && Pow2(7) == 0x80 && Pow2(8) == 0x100 && Pow2(10) == 0x400 && Pow2(12) == 0x1000
    ensures Pow2(4) == 0x10 && Pow2(22) == 0x400000
    ensures Pow2(31) == 0x8000_0000 && Pow2(32) == 0x1_0000_0000
  {
    assert Pow2(2) == 4 && Pow2(5) == 0x20;
    Pow2Add(5, 2);
    Pow2Add(5, 5);
    Pow2Add(10, 2);
    Pow2Add(12, 10);
    Pow2Add(22, 10);
  }

  /** Bitwise conjunction of two natural numbers. */
  function And(a: nat, b: nat): (r: nat)
    ensures r <= a && r <= b
  {
    if a == 0 || b == 0 then 0
    else 2 * And(a / 2, b / 2) + (if a % 2 == 1 && b % 2 == 1 then 1 else 0)
  }

  /** Bitwise disjunction of two natural numbers. */
  function Or(a: nat, b: nat): nat {
    if a == 0 then b
    else if b == 0 then a
    else 2 * Or(a / 2, b / 2) + (if a % 2 == 1 || b % 2 == 1 then 1 else 0)
  }

  predicate Bit(x: nat, k: nat) { x / Pow2(k) % 2 == 1 }

  lemma DivModUnique(x: int, d: int, q: int, r: int)
    requires 0 < d && x == d * q + r && 0 <= r < d
    ensures x / d == q && x % d == r
  {
    var q', r' := x / d, x % d;
    assert d * q' + r' == x;
    var k := q - q';
    assert d * k == r' - r by { assert d * k == d * q - d * q'; }
    MulGap(d, k);
  }

  /** A nonzero multiple of d is at least d away from zero. */
  lemma MulGap(d: int, k: int)
    requires 0 < d
    ensures k == 0 || d * k >= d || d * k <= -d
  {
  }

  /** Halving commutes with dividing by twice as much. */
  lemma HalveDivMod(x: nat, p: nat)
    requires 0 < p
    ensures x / (2 * p) == (x / 2) / p
    ensures x % (2 * p) == 2 * ((x / 2) % p) + x % 2
  {
    var h := x / 2;
    var q, r := h / p, h % p;
    assert h == p * q + r;
    assert x == (2 * p) * q + (2 * r + x % 2) by {
      assert x == 2 * h + x % 2;
      assert 2 * (p * q) == (2 * p) * q;
    }
    DivModUnique(x, 2 * p, q, 2 * r + x % 2);
  }

  lemma HalveMod(x: nat, p: nat)
    requires 0 < p
    ensures x % (2 * p) == 2 * ((x / 2) % p) + x % 2
  {
    HalveDivMod(x, p);
  }

  lemma {:induction false} AndLowMask(x: nat, k: nat)
    ensures And(x, Pow2(k) - 1) == x % Pow2(k)
  {
    if k == 0 {
    } else {
      var p := Pow2(k - 1);
      HalveDivMod(x, p);
      AndLowMask(x / 2, k - 1);
      assert (2 * p - 1) / 2 == p - 1 && (2 * p - 1) % 2 == 1;
      if x == 0 { assert x % (2 * p) == 0; }
    }
  }

  lemma AndDouble(x: nat, b: nat)
    ensures And(x, 2 * b) == 2 * And(x / 2, b)
  {
    assert (2 * b) / 2 == b && (2 * b) % 2 == 0;
  }

  /** `x` with its low `k` bits cleared. */
  function HighPart(x: nat, k: nat): nat {
    if k == 0 then x else 2 * HighPart(x / 2, k - 1)
  }

  lemma {:induction false} HighPartSum(x: nat, k: nat)
    ensures HighPart(x, k) + x % Pow2(k) == x
  {
    if k != 0 {
      HalveMod(x, Pow2(k - 1));
      HighPartSum(x / 2, k - 1);
    }
  }

  lemma {:induction false} AndHighPart(x: nat, n: nat, k: nat)
    requires k <= n && x < Pow2(n)
    ensures Pow2(k) <= Pow2(n)
    ensures And(x, Pow2(n) - Pow2(k)) == HighPart(x, k)
  {
    if k == 0 {
      AndLowMask(x, n);
      DivModUnique(x, Pow2(n), 0, x);
    } else {
      var b := Pow2(n - 1) - Pow2(k - 1);
      AndHighPart(x / 2, n - 1, k - 1);
      assert Pow2(n) - Pow2(k) == 2 * b;
      AndDouble(x, b);
    }
  }

  lemma AndHighMask(x: nat, n: nat, k: nat)
    requires k <= n && x < Pow2(n)
    ensures Pow2(k) <= Pow2(n)
    ensures And(x, Pow2(n) - Pow2(k)) == x - x % Pow2(k)
  {
    AndHighPart(x, n, k);
    HighPartSum(x, k);
  }

  lemma HalveBit(x: nat, k: nat)
    requires 0 < k
    ensures Bit(x, k) <==> Bit(x / 2, k - 1)
  {
    HalveDivMod(x, Pow2(k - 1));
  }

  lemma {:induction false} AndBit(x: nat, k: nat)
    ensures And(x, Pow2(k)) == if Bit(x, k) then Pow2(k) else 0
  {
    if k == 0 {
      if x != 0 { assert And(x / 2, 0) == 0; }
    } else {
      HalveBit(x, k);
      AndDouble(x, Pow2(k - 1));
      AndBit(x / 2, k - 1);
    }
  }

  lemma {:induction false} OrBit(a: nat, b: nat, k: nat)
    ensures Bit(Or(a, b), k) <==> Bit(a, k) || Bit(b, k)
  {
    if a == 0 || b == 0 {
      DivModUnique(0, Pow2(k), 0, 0);
    } else {
      var r := Or(a, b);
      assert r / 2 == Or(a / 2, b / 2);
      if k != 0 {
        HalveBit(a, k);
        HalveBit(b, k);
        HalveBit(r, k);
        OrBit(a / 2, b / 2, k - 1);
      }
    }
  }

  lemma {:induction false} OrLow(a: nat, b: nat, k: nat)
    requires a < Pow2(k) && b < Pow2(k)
    ensures Or(a, b) < Pow2(k)
  {
    if k != 0 && a != 0 && b != 0 {
      OrLow(a / 2, b / 2, k - 1);
    }
  }

  lemma {:induction false} OrCommutes(a: nat, b: nat)
    ensures Or(a, b) == Or(b, a)
  {
    if a != 0 && b != 0 { OrCommutes(a / 2, b / 2); }
  }

  lemma OrOfDoubles(a: nat, s: nat, b: nat, t: nat)
    requires s < 2 && t < 2
    ensures Or(2 * a + s, 2 * b + t) == 2 * Or(a, b) + (if s == 1 || t == 1 then 1 else 0)
  {
    assert (2 * a + s) / 2 == a && (2 * a + s) % 2 == s;
    assert (2 * b + t) / 2 == b && (2 * b + t) % 2 == t;
  }

  lemma {:induction false} OrOnes(x: nat, k: nat)
    requires x < Pow2(k)
    ensures Or(x, Pow2(k) - 1) == Pow2(k) - 1
  {
    if k != 0 {
      OrOnes(x / 2, k - 1);
      OrOfDoubles(x / 2, x % 2, Pow2(k - 1) - 1, 1);
    }
  }

  /** `h` with the low `k` bits of `b` behind it. */
  function Join(h: nat, b: nat, k: nat): nat {
    if k == 0 then h else 2 * Join(h, b / 2, k - 1) + b % 2
  }

  lemma {:induction false} JoinSum(h: nat, b: nat, k: nat, p: nat)
    requires p == Pow2(k) && b < p
    ensures Join(h, b, k) == h * p + b
  {
    if k != 0 {
      var q := Pow2(k - 1);
      JoinSum(h, b / 2, k - 1, q);
      assert h * (2 * q) == 2 * (h * q);
    }
  }

  lemma {:induction false} OrJoin(h: nat, g: nat, b: nat, k: nat)
    ensures Or(Join(h, 0, k), Join(g, b, k)) == Join(Or(h, g), b, k)
  {
    if k != 0 {
      OrJoin(h, g, b / 2, k - 1);
      OrOfDoubles(Join(h, 0, k - 1), 0, Join(g, b / 2, k - 1), b % 2);
    }
  }

  /** Or-ing a multiple of 2^k leaves the low k bits alone. */
  lemma OrAbove(h: nat, g: nat, b: nat, k: nat, p: nat)
    requires p == Pow2(k) && b < p
    ensures Or(h * p, g * p + b) == Or(h, g) * p + b
  {
    JoinSum(h, 0, k, p);
    JoinSum(g, b, k, p);
    JoinSum(Or(h, g), b, k, p);
    OrJoin(h, g, b, k);
  }

  /** Or-ing into the low k bits leaves a high part h * 2^k alone. */
  lemma {:induction false} OrSplit(h: nat, a: nat, b: nat, k: nat, p: nat)
    requires p == Pow2(k) && a < p && b < p
    ensures Or(h * p + a, b) == h * p + Or(a, b)
  {
    if b == 0 || k == 0 {
    } else {
      var q := Pow2(k - 1);
      var x := h * p + a;
      assert x == 2 * (h * q) + a by { assert h * (2 * q) == 2 * (h * q); }
      assert x / 2 == h * q + a / 2 && x % 2 == a % 2;
      OrSplit(h, a / 2, b / 2, k - 1, q);
      if x != 0 && a == 0 { assert Or(0, b / 2) == b / 2; }
    }
  }
}
