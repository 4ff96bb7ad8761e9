/** Machine words and the bitwise operators the sources use, over mathematical integers.
    A C unsigned value is its non-negative representative; `(u64)x` of a signed value is
    the representative modulo 2^64. */
module Words {
  const W16: nat := 0x1_0000
  const W32: nat := 0x1_0000_0000
  const W64: nat := 0x1_0000_0000_0000_0000

  type u8 = x: int | 0 <= x < 0x100
  type u32 = x: int | 0 <= x < W32
  type i32 = x: int | -0x8000_0000 <= x < 0x8000_0000
  type u64 = x: int | 0 <= x < W64

  datatype Option<+T> = None | Some(value: T)

  /** The low word of a tag written as a struct of Uint16, Uint16 and Uint32. */
  function TagWord(a: int, b: int, c: int): u64 {
    a % W16 + b % W16 * W16 + c % W32 * W32
  }

  /** Storing to the 16-bit nloop (or qwc) field of a tag already in memory. */
  function SetLow16(w: u64, v: int): u64 {
    w - w % W16 + v % W16
  }

  lemma SmallMod(a: nat, m: nat)
    requires a < m
    ensures a % m == a
  {}

  function Pow2(k: nat): (r: nat)
    ensures r > 0
  {
    if k == 0 then 1 else 2 * Pow2(k - 1)
  }

  /** Bitwise `a | b`, bit by bit from the low end. */
  function Or(a: nat, b: nat): (r: nat)
    decreases a + b
  {
    if a == 0 && b == 0 then 0
    else (if a % 2 == 1 || b % 2 == 1 then 1 else 0) + 2 * Or(a / 2, b / 2)
  }

  lemma {:induction false} OrZero(b: nat)
    ensures Or(0, b) == b
  {
    if b > 0 {
      OrZero(b / 2);
    }
  }

  lemma {:induction false} OrCommutes(a: nat, b: nat)
    ensures Or(a, b) == Or(b, a)
    decreases a + b
  {
    if a > 0 || b > 0 {
      OrCommutes(a / 2, b / 2);
    }
  }

  /** Bits that cannot meet are added by `|`. */
  lemma {:induction false} OrDisjoint(a: nat, c: nat, k: nat)
    requires a < Pow2(k)
    ensures Or(a, c * Pow2(k)) == a + c * Pow2(k)
    decreases k
  {
    if k == 0 {
      OrZero(c);
    } else {
      var b := c * Pow2(k - 1);
      assert c * Pow2(k) == 2 * b;
      OrDisjoint(a / 2, c, k - 1);
    }
  }

  lemma MulLe(a: nat, b: nat, c: nat)
    requires a <= b
    ensures a * c <= b * c
  {}

  lemma DivModUnique(p: nat, v: nat, m: nat)
    requires p < m
    ensures (p + v * m) / m == v
  {
    assert (p + v * m) / m == v by {
      var q := (p + v * m) / m;
      assert p + v * m == m * q + (p + v * m) % m;
      if q > v { MulLe(v + 1, q, m); assert false; }
      if q < v { MulLe(q + 1, v, m); assert false; }
    }
  }

  /** Bit `i` of a word. */
  predicate Bit(w: nat, i: nat) { w / Pow2(i) % 2 == 1 }

  lemma BitHalf(w: nat, i: nat)
    requires i > 0
    ensures Bit(w, i) <==> Bit(w / 2, i - 1)
  {
    DivTwice(w, Pow2(i - 1));
  }

  lemma DivTwice(w: nat, p: nat)
    requires p > 0
    ensures w / (2 * p) == w / 2 / p
  {
    var q := w / 2 / p;
    assert w / 2 == q * p + w / 2 % p;
    assert w == 2 * (q * p) + (2 * (w / 2 % p) + w % 2);
    assert 2 * (q * p) == q * (2 * p);
    DivModUnique(2 * (w / 2 % p) + w % 2, q, 2 * p);
  }

  lemma BitZero(w: nat)
    ensures Bit(w, 0) <==> w % 2 == 1
  {
    assert Pow2(0) == 1;
  }

  lemma OrHalf(a: nat, b: nat)
    ensures Or(a, b) / 2 == Or(a / 2, b / 2)
    ensures Or(a, b) % 2 == 1 <==> a % 2 == 1 || b % 2 == 1
  {}

  /** `|` bit by bit. */
  lemma {:induction false} OrBit(a: nat, b: nat, i: nat)
    ensures Bit(Or(a, b), i) <==> Bit(a, i) || Bit(b, i)
    decreases i
  {
    hide Or, Bit;
    OrHalf(a, b);
    if i == 0 {
      BitZero(a);
      BitZero(b);
      BitZero(Or(a, b));
    } else {
      OrBit(a / 2, b / 2, i - 1);
      BitHalf(a, i);
      BitHalf(b, i);
      BitHalf(Or(a, b), i);
    }
  }

  lemma {:induction false} OrBound(a: nat, b: nat, k: nat)
    requires a < Pow2(k) && b < Pow2(k)
    ensures Or(a, b) < Pow2(k)
  {
    if k > 0 {
      OrBound(a / 2, b / 2, k - 1);
    }
  }

  lemma {:induction false} Pow2Sum(a: nat, b: nat)
    ensures Pow2(a + b) == Pow2(a) * Pow2(b)
  {
    if a > 0 {
      Pow2Sum(a - 1, b);
    }
  }

  lemma Pow2Small()
    ensures Pow2(0) == 1 && Pow2(1) == 2 && Pow2(2) == 4 && Pow2(3) == 8 && Pow2(4) == 16 && Pow2(6) == 64
    ensures Pow2(8) == 0x100 && Pow2(11) == 0x800 && Pow2(15) == 0x8000 && Pow2(16) == W16
  {
    assert Pow2(1) == 2;
    assert Pow2(2) == 2 * Pow2(1);
    hide Pow2;
    Pow2Sum(1, 2);
    Pow2Sum(2, 2);
    Pow2Sum(2, 4);
    Pow2Sum(4, 4);
    Pow2Sum(3, 8);
    Pow2Sum(4, 11);
    Pow2Sum(1, 15);
  }

  /** The powers that fields of registers are bounded by. */
  lemma Pow2Widths()
    ensures Pow2(1) == 2 && Pow2(2) == 4 && Pow2(3) == 8 && Pow2(4) == 16 && Pow2(5) == 32 && Pow2(6) == 64
    ensures Pow2(8) == 0x100 && Pow2(11) == 0x800 && Pow2(14) == 0x4000 && Pow2(16) == W16 && Pow2(32) == W32
  {
    hide Pow2;
    Pow2Small();
    Pow2Sum(1, 4);
    Pow2Sum(3, 11);
    Pow2Sum(16, 16);
  }

  /** The powers the formats use. */
  lemma Pow2Values()
    ensures Pow2(0) == 1 && Pow2(1) == 2 && Pow2(2) == 4 && Pow2(3) == 8 && Pow2(4) == 16 && Pow2(6) == 64
    ensures Pow2(8) == 0x100 && Pow2(11) == 0x800 && Pow2(15) == 0x8000
    ensures Pow2(16) == W16 && Pow2(32) == W32 && Pow2(64) == W64
    ensures Pow2(46) == 0x4000_0000_0000 && Pow2(47) == 0x8000_0000_0000
    ensures Pow2(58) == 0x400_0000_0000_0000 && Pow2(60) == 0x1000_0000_0000_0000
  {
    hide Pow2;
    Pow2Small();
    Pow2Sum(16, 16);
    Pow2Sum(32, 32);
    Pow2Sum(15, 16);
    Pow2Sum(31, 15);
    Pow2Sum(46, 1);
    Pow2Sum(47, 11);
    Pow2Sum(58, 2);
  }
}
