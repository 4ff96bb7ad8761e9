/** The memory rotate micro-programs of op65816.h, chained over a multi-byte number. */
module Rotate {
  import opened Words

  // ---- little-endian numbers ----

  function Pow256(k: nat): (p: nat)
    ensures p > 0
  {
    if k == 0 then 1 else 0x100 * Pow256(k - 1)
  }

  function Value(bytes: seq<u8>): nat {
    if bytes == [] then 0 else bytes[0] + 0x100 * Value(bytes[1..])
  }

  lemma {:induction false} Pow256Sum(a: nat, b: nat)
    ensures Pow256(a + b) == Pow256(a) * Pow256(b)
  {
    if a > 0 {
      Pow256Sum(a - 1, b);
    }
  }

  lemma {:induction false} ValueBound(s: seq<u8>)
    ensures Value(s) < Pow256(|s|)
  {
    if s != [] {
      ValueBound(s[1..]);
    }
  }

  lemma {:induction false} ValueAppend(s: seq<u8>, t: seq<u8>)
    ensures Value(s + t) == Value(s) + Pow256(|s|) * Value(t)
  {
    if s == [] {
      assert s + t == t;
    } else {
      assert (s + t)[1..] == s[1..] + t;
      ValueAppend(s[1..], t);
      Distribute(s[0], Value(s[1..]), Pow256(|s| - 1), Value(t));
    }
  }

  lemma Distribute(x: nat, v: nat, p: nat, t: nat)
    ensures x + 0x100 * (v + p * t) == (x + 0x100 * v) + (0x100 * p) * t
  {}

  lemma SplitByte(x: u8, v: nat, y: u8, w: nat)
    requires x + 0x100 * v == y + 0x100 * w
    ensures x == y && v == w
  {}

  /** Equal numbers of equal length are equal bytes. */
  lemma {:induction false} ValueInjective(s: seq<u8>, t: seq<u8>)
    requires |s| == |t| && Value(s) == Value(t)
    ensures s == t
  {
    if s != [] {
      SplitByte(s[0], Value(s[1..]), t[0], Value(t[1..]));
      ValueInjective(s[1..], t[1..]);
      assert s == [s[0]] + s[1..] && t == [t[0]] + t[1..];
    }
  }

  // ---- rotations of a number with a carry ----

  /** `after` and `c'` are `before` and `c` rotated left by one bit. */
  ghost predicate RotatedLeft(before: seq<u8>, c: nat, after: seq<u8>, c': nat) {
    |after| == |before| && c < 2 && c' < 2
    && Value(after) + Pow256(|before|) * c' == 2 * Value(before) + c
  }

  /** `after` and `c'` are `before` and `c` rotated right by one bit. */
  ghost predicate RotatedRight(before: seq<u8>, c: nat, after: seq<u8>, c': nat) {
    |after| == |before| && c < 2 && c' < 2
    && 2 * Value(after) + c' == Value(before) + Pow256(|before|) * c
  }

  /** What a left rotation computes: twice the number plus the carry, cut to its length, and the
      bit that was cut off. */
  lemma LeftIs(before: seq<u8>, c: nat, after: seq<u8>, c': nat)
    requires RotatedLeft(before, c, after, c') && |before| > 0
    ensures Value(after) == (2 * Value(before) + c) % Pow256(|before|)
    ensures c' == if 2 * Value(before) >= Pow256(|before|) then 1 else 0
  {
    var p := Pow256(|before|);
    ValueBound(after);
    ValueBound(before);
    if c' == 0 {
      assert p * c' == 0;
      SmallMod(2 * Value(before) + c, p);
      EvenPow(|before|);
    } else {
      assert p * c' == p;
      ShiftMod(Value(after), p);
      EvenPow(|before|);
    }
  }

  /** What a right rotation computes: half the number with the carry on top, and the bit cut off below. */
  lemma RightIs(before: seq<u8>, c: nat, after: seq<u8>, c': nat)
    requires RotatedRight(before, c, after, c')
    ensures Value(after) == (Value(before) + Pow256(|before|) * c) / 2
    ensures |before| > 0 ==> c' == Value(before) % 2
  {
    hide Value, Pow256;
    var p := Pow256(|before|);
    HalfOf(Value(after), c', Value(before) + p * c);
    if |before| > 0 {
      EvenPow(|before|);
      assert p * c == if c == 0 then 0 else p;
      SameParity(Value(before), p);
    }
  }

  lemma HalfOf(a: nat, b: nat, t: nat)
    requires 2 * a + b == t && b < 2
    ensures t / 2 == a && t % 2 == b
  {}

  /** Little-endian: the first byte counts once and the rest 256 times. */
  lemma ValueIs(b: u8, rest: seq<u8>)
    ensures Value([b] + rest) == (b as int) + 0x100 * Value(rest) && Value([]) == 0
    ensures Pow256(|rest| + 1) == 0x100 * Pow256(|rest|) && Pow256(0) == 1
  {
    assert ([b] + rest)[1..] == rest;
  }

  lemma ShiftMod(a: nat, p: nat)
    requires a < p
    ensures (a + p) % p == a
  {
    assert (a + p) / p == 1;
  }

  lemma EvenPow(k: nat)
    ensures k > 0 ==> Pow256(k) % 2 == 0
  {}

  /** Rotating left and then right restores every byte and the carry, and so does the converse. */
  lemma RotationsCancel(a: seq<u8>, ca: nat, b: seq<u8>, cb: nat, d: seq<u8>, cd: nat)
    ensures RotatedLeft(a, ca, b, cb) && RotatedRight(b, cb, d, cd) ==> d == a && cd == ca
    ensures RotatedRight(a, ca, b, cb) && RotatedLeft(b, cb, d, cd) ==> d == a && cd == ca
  {
    if RotatedLeft(a, ca, b, cb) && RotatedRight(b, cb, d, cd) {
      ValueInjective(d, a);
    }
    if RotatedRight(a, ca, b, cb) && RotatedLeft(b, cb, d, cd) {
      ValueBound(d);
      ValueBound(a);
      EqualParts(Value(d), cd, Value(a), ca, Pow256(|a|));
      ValueInjective(d, a);
    }
  }

  lemma EqualParts(x: nat, c: nat, y: nat, d: nat, p: nat)
    requires x < p && y < p && c < 2 && d < 2 && x + p * c == y + p * d
    ensures x == y && c == d
  {
    assert p * 0 == 0 && p * 1 == p;
  }

  /** A left rotation of a low part continues into the next word with the carry it left. */
  lemma LeftExtend(s: seq<u8>, c: nat, s': seq<u8>, c1: nat, w: seq<u8>, w': seq<u8>, c2: nat)
    requires RotatedLeft(s, c, s', c1) && RotatedLeft(w, c1, w', c2)
    ensures RotatedLeft(s + w, c, s' + w', c2)
  {
    ValueAppend(s, w);
    ValueAppend(s', w');
    Pow256Sum(|s|, |w|);
    LeftSums(Value(s), Value(s'), c, c1, Value(w), Value(w'), c2, Pow256(|s|), Pow256(|w|));
  }

  lemma LeftSums(v: nat, v': nat, c: nat, c1: nat, w: nat, w': nat, c2: nat, p: nat, q: nat)
    requires v' + p * c1 == 2 * v + c && w' + q * c2 == 2 * w + c1
    ensures (v' + p * w') + (p * q) * c2 == 2 * (v + p * w) + c
  {
    assert p * (w' + q * c2) == p * (2 * w + c1);
    assert p * (w' + q * c2) == p * w' + (p * q) * c2;
    assert p * (2 * w + c1) == 2 * (p * w) + p * c1;
  }

  /** A right rotation of a high part continues into the word below it. */
  lemma RightExtend(s: seq<u8>, c: nat, s': seq<u8>, c1: nat, w: seq<u8>, w': seq<u8>, c2: nat)
    requires RotatedRight(s, c, s', c1) && RotatedRight(w, c1, w', c2)
    ensures RotatedRight(w + s, c, w' + s', c2)
  {
    ValueAppend(w, s);
    ValueAppend(w', s');
    Pow256Sum(|w|, |s|);
    RightSums(Value(s), Value(s'), c, c1, Value(w), Value(w'), c2, Pow256(|s|), Pow256(|w|));
  }

  lemma RightSums(v: nat, v': nat, c: nat, c1: nat, w: nat, w': nat, c2: nat, p: nat, q: nat)
    requires 2 * v' + c1 == v + p * c && 2 * w' + c2 == w + q * c1
    ensures 2 * (w' + q * v') + c2 == (w + q * v) + (q * p) * c
  {
    assert q * (2 * v' + c1) == q * (v + p * c);
    assert q * (2 * v' + c1) == 2 * (q * v') + q * c1;
    assert q * (v + p * c) == q * v + (q * p) * c;
  }

  // ---- the processor ----

  /** `t |= b` after a left shift by one, and `t |= b << k` onto a `k`-bit value, just add. */
  lemma OrAdds(t: nat, b: nat, k: nat)
    requires b < 2
    ensures Or(2 * t, b) == 2 * t + b
    ensures t < Pow2(k) ==> Or(t, b * Pow2(k)) == t + b * Pow2(k)
  {
    OrCommutes(2 * t, b);
    assert Pow2(1) == 2;
    OrDisjoint(b, t, 1);
    if t < Pow2(k) {
      OrDisjoint(t, b, k);
    }
  }

  lemma OneByte(b: u8)
    ensures Value([b]) == b && Pow256(1) == 0x100
  {
    assert [b][1..] == [];
  }

  lemma TwoBytes(lo: u8, hi: u8)
    ensures Value([lo, hi]) == (lo as int) + 0x100 * (hi as int) && Pow256(2) == W16
  {
    assert [lo, hi][1..] == [hi];
    OneByte(hi);
    assert Pow256(2) == 0x100 * Pow256(1);
  }

  /** Doubling and halving with a carry, on words below an even `m`. */
  lemma Rotations(x: nat, c: nat, m: nat)
    requires c < 2 && x < m && m % 2 == 0
    ensures (2 * x + c) % m + m * ((2 * x + c) / m % 2) == 2 * x + c
    ensures 2 * ((x + c * m) / 2 % m) + x % 2 == x + m * c
  {
    Split(2 * x + c, m);
    if c == 0 {
      HalfBelow(x, m);
      assert c * m == 0 && m * c == 0;
    } else {
      HalfBelow(x + m, m);
      SameParity(x, m);
      assert c * m == m && m * c == m;
    }
  }

  lemma SameParity(x: nat, m: nat)
    requires m % 2 == 0
    ensures (x + m) % 2 == x % 2
  {}

  /** A number below twice `m` in two parts. */
  lemma Split(y: nat, m: nat)
    requires y < 2 * m
    ensures y % m + m * (y / m % 2) == y
  {
    if y < m {
      SmallMod(y, m);
      assert y / m == 0;
    } else {
      ShiftMod(y - m, m);
      assert y / m == 1;
    }
  }

  lemma HalfBelow(y: nat, m: nat)
    requires y < 2 * m
    ensures 2 * (y / 2 % m) + y % 2 == y
  {
    SmallMod(y / 2, m);
  }

  /** A word and its two bytes. */
  lemma WordBytes(w: nat)
    requires w < W16
    ensures Value([w % 0x100, w / 0x100]) == w && Pow256(2) == W16
  {
    hide Value, Pow256;
    TwoBytes(w % 0x100, w / 0x100);
  }

  /** What the two programs leave in their temporary, for words of `k` bits. */
  lemma Temporaries(x: nat, c: nat, k: nat)
    requires c < 2 && x < Pow2(k) <= W16
    ensures Or(x * 2 % W32, c) == 2 * x + c < 2 * Pow2(k)
    ensures Or(x, c * Pow2(k) % W32) == x + c * Pow2(k) < 2 * Pow2(k)
  {
    hide Or;
    OrAdds(x, c, k);
    SmallMod(x * 2, W32);
    assert c == 0 || c == 1;
    SmallMod(c * Pow2(k), W32);
  }

  lemma LeftByte(b: u8, c: nat)
    requires c < 2
    ensures var l := 2 * (b as int) + c; RotatedLeft([b], c, [l % 0x100], l / 0x100 % 2)
  {
    hide Value, Pow256;
    var l := 2 * (b as int) + c;
    OneByte(b);
    OneByte(l % 0x100);
    Rotations(b as int, c, 0x100);
  }

  lemma RightByte(b: u8, c: nat)
    requires c < 2
    ensures var r := ((b as int) + c * 0x100) / 2; RotatedRight([b], c, [r % 0x100], (b as int) % 2)
  {
    hide Value, Pow256;
    OneByte(b);
    OneByte(((b as int) + c * 0x100) / 2 % 0x100);
    Rotations(b as int, c, 0x100);
  }

  lemma LeftWord(lo: u8, hi: u8, c: nat)
    requires c < 2
    ensures var l := 2 * ((lo as int) + (hi as int) * 0x100) + c;
      RotatedLeft([lo, hi], c, [l % W16 % 0x100, l % W16 / 0x100], l / W16 % 2)
  {
    hide Value, Pow256;
    var x := (lo as int) + (hi as int) * 0x100;
    TwoBytes(lo, hi);
    WordBytes((2 * x + c) % W16);
    Rotations(x, c, W16);
  }

  lemma RightWord(lo: u8, hi: u8, c: nat)
    requires c < 2
    ensures var x := (lo as int) + (hi as int) * 0x100;
      var r := (x + c * W16) / 2;
      RotatedRight([lo, hi], c, [r % W16 % 0x100, r % W16 / 0x100], x % 2)
  {
    hide Value, Pow256;
    var x := (lo as int) + (hi as int) * 0x100;
    TwoBytes(lo, hi);
    WordBytes((x + c * W16) / 2 % W16);
    Rotations(x, c, W16);
  }

  /** The register contents of the two rotate programs on a byte and on a word. */
  lemma Rotate8(b: u8, c: nat)
    requires c < 2
    ensures var l := Or((b as int) * 2 % W32, c); l < W32 && RotatedLeft([b], c, [l % 0x100], l / 0x100 % 2)
    ensures var r := Or(b, c * 0x100 % W32) / 2; r < W32 && RotatedRight([b], c, [r % 0x100], (b as int) % 2)
  {
    hide Or, RotatedLeft, RotatedRight, Pow2;
    Pow2Small();
    Temporaries(b as int, c, 8);
    assert Or((b as int) * 2 % W32, c) == 2 * (b as int) + c;
    assert Or(b, c * 0x100 % W32) == (b as int) + c * 0x100;
    LeftByte(b, c);
    RightByte(b, c);
  }

  lemma Rotate16(lo: u8, hi: u8, c: nat)
    requires c < 2
    ensures var x: int := (lo as int) + (hi as int) * 0x100;
      var l := Or(x * 2 % W32, c);
      l < W32 && RotatedLeft([lo, hi], c, [l % W16 % 0x100, l % W16 / 0x100], l / W16 % 2)
    ensures var x: int := (lo as int) + (hi as int) * 0x100;
      var r := Or(x, c * W16 % W32) / 2;
      r < W32 && RotatedRight([lo, hi], c, [r % W16 % 0x100, r % W16 / 0x100], x % 2)
  {
    hide Or, RotatedLeft, RotatedRight, Pow2;
    Pow2Small();
    Temporaries((lo as int) + (hi as int) * 0x100, c, 16);
    LeftWord(lo, hi, c);
    RightWord(lo, hi, c);
  }

  /** How the processor's flags are tested: zero on the low 16 bits, negative on bit 15. */
  predicate ZeroFlag(fZ: u32) { fZ % W16 == 0 }

  predicate NegativeFlag(fN: u32) { fN / 0x8000 % 2 == 1 }

  /** The flag word `f` describes the number: whether it is zero, and its top bit. */
  ghost predicate FlagsOf(f: u32, after: seq<u8>) {
    (ZeroFlag(f) <==> Value(after) == 0) && (NegativeFlag(f) <==> 2 * Value(after) >= Pow256(|after|))
  }

  lemma FlagsAre(f: u32, after: seq<u8>)
    requires FlagsOf(f, after)
    ensures f % 0x1_0000 == 0 <==> Value(after) == 0
    ensures f / 0x8000 % 2 == 1 <==> 2 * Value(after) >= Pow256(|after|)
  {}

  lemma Flags8(l: u32)
    ensures FlagsOf(l * 0x100 % W32, [l % 0x100])
  {
    OneByte(l % 0x100);
    ShiftByte(l);
  }

  lemma CutWord(a: nat, t: nat)
    requires a < W32
    ensures (a + W32 * t) % W32 == a
  {}

  lemma LowWord(a: nat, q: nat)
    requires a < W16
    ensures (a + W16 * q) % W16 == a && (a + W16 * q) / 0x8000 % 2 == a / 0x8000
  {}

  lemma ShiftByte(l: nat)
    ensures l * 0x100 % W32 % W16 == l % 0x100 * 0x100
    ensures l * 0x100 % W32 / 0x8000 % 2 == l % 0x100 / 0x80
  {
    var r, q, t := l % 0x100, l / 0x100 % W16, l / 0x100 / W16;
    assert l * 0x100 == r * 0x100 + W16 * q + W32 * t;
    CutWord(r * 0x100 + W16 * q, t);
    LowWord(r * 0x100, q);
  }

  lemma Flags16(l: u32)
    ensures FlagsOf(l, [l % W16 % 0x100, l % W16 / 0x100])
  {
    TwoBytes(l % W16 % 0x100, l % W16 / 0x100);
    assert l / 0x8000 % 2 == l % W16 / 0x8000;
  }

  /** Or-ing a bank into a 16-bit offset adds it. */
  lemma BankOr(offset: u32, bank: u32)
    requires offset < W16 && bank % W16 == 0
    ensures Or(offset, bank) == offset + bank
  {
    hide Or, Pow2;
    Pow2Values();
    OrDisjoint(offset, bank / W16, 16);
  }

  /** The part of SNCpuT these programs touch; memory is plain RAM. */
  class Sncpu {
    const mem: array<u8>
    const DB: u32          // data bank, already shifted
    var t0: u32
    var t1: u32
    var t2: u32
    var fC: u32
    var fZ: u32
    var fN: u32

    constructor (ram: array<u8>, bank: u8)
      requires ram.Length >= (bank as int) * W16 + W16
      ensures mem == ram && DB == (bank as int) * W16 && Valid() && fC == 0
    {
      mem, DB := ram, (bank as int) * W16;
      t0, t1, t2, fC, fZ, fN := 0, 0, 0, 0, 0, 0;
    }

    ghost predicate Valid()
      reads this
    {
      DB % W16 == 0 && DB + W16 <= mem.Length && fC < 2
    }

    /** Every byte or word of the number has its address in the bank; the last word may run over it. */
    predicate Reaches(wide: bool, operand: nat, len: nat) {
      && (wide ==> len % 2 == 0) && DB + operand + len <= mem.Length
      && operand + len <= (if wide then W16 + 1 else W16)
    }

    /** FETCH16(t0); OR(t0, DB) */
    method Address(operand: u32)
      requires Valid() && operand < W16
      modifies `t0
      ensures t0 == DB + operand
    {
      t0 := operand;
      BankOr(operand, DB);
      t0 := Or(t0, DB);
    }

    /** addr_abs_read_ROL_m1 */
    method Rol8(operand: u32)
      requires Valid() && operand < W16
      modifies this, mem
      ensures Valid()
      ensures var a := DB + operand;
        && mem[..a] == old(mem[..a]) && mem[a + 1..] == old(mem[a + 1..])
        && RotatedLeft(old(mem[a..a + 1]), old(fC), mem[a..a + 1], fC)
        && FlagsOf(fZ, mem[a..a + 1]) && FlagsOf(fN, mem[a..a + 1])
        && (fZ % 0x1_0000 == 0 <==> Value(mem[a..a + 1]) == 0)
        && (fN / 0x8000 % 2 == 1 <==> 2 * Value(mem[a..a + 1]) >= Pow256(1))
    {
      hide Or, RotatedLeft, RotatedRight, FlagsOf, Value, Pow256;
      Rotate8(mem[DB + operand], fC);
      assert mem[DB + operand..DB + operand + 1] == [mem[DB + operand]];
      Address(operand);
      t1 := mem[t0];
      t2 := fC % 2;
      t1 := t1 * 2 % W32;
      t1 := Or(t1, t2);
      mem[t0] := t1 % 0x100;
      Flags8(t1);
      FlagsAre(t1 * 0x100 % W32, [t1 % 0x100]);
      fZ := t1 * 0x100 % W32;
      fN := t1 * 0x100 % W32;
      t1 := t1 / 0x100;
      fC := t1 % 2;
      assert mem[t0..t0 + 1] == [mem[t0]];
    }

    /** addr_abs_read_ROR_m1 */
    method Ror8(operand: u32)
      requires Valid() && operand < W16
      modifies this, mem
      ensures Valid()
      ensures var a := DB + operand;
        && mem[..a] == old(mem[..a]) && mem[a + 1..] == old(mem[a + 1..])
        && RotatedRight(old(mem[a..a + 1]), old(fC), mem[a..a + 1], fC)
        && FlagsOf(fZ, mem[a..a + 1]) && FlagsOf(fN, mem[a..a + 1])
        && (fZ % 0x1_0000 == 0 <==> Value(mem[a..a + 1]) == 0)
        && (fN / 0x8000 % 2 == 1 <==> 2 * Value(mem[a..a + 1]) >= Pow256(1))
    {
      hide Or, RotatedLeft, RotatedRight, FlagsOf, Value, Pow256;
      Rotate8(mem[DB + operand], fC);
      assert mem[DB + operand..DB + operand + 1] == [mem[DB + operand]];
      Address(operand);
      t1 := mem[t0];
      t2 := fC % 2;
      t2 := t2 * 0x100 % W32;
      fC := t1 % 2;
      OrFits(t1, t2);
      t1 := Or(t1, t2);
      t1 := t1 / 2;
      mem[t0] := t1 % 0x100;
      Flags8(t1);
      FlagsAre(t1 * 0x100 % W32, [t1 % 0x100]);
      fZ := t1 * 0x100 % W32;
      fN := t1 * 0x100 % W32;
      assert mem[t0..t0 + 1] == [mem[t0]];
    }

    /** addr_abs_read_ROL_m0 */
    method Rol16(operand: u32)
      requires Valid() && operand < W16 && DB + operand + 2 <= mem.Length
      modifies this, mem
      ensures Valid()
      ensures var a := DB + operand;
        && mem[..a] == old(mem[..a]) && mem[a + 2..] == old(mem[a + 2..])
        && RotatedLeft(old(mem[a..a + 2]), old(fC), mem[a..a + 2], fC)
        && FlagsOf(fZ, mem[a..a + 2]) && FlagsOf(fN, mem[a..a + 2])
        && (fZ % 0x1_0000 == 0 <==> Value(mem[a..a + 2]) == 0)
        && (fN / 0x8000 % 2 == 1 <==> 2 * Value(mem[a..a + 2]) >= Pow256(2))
    {
      hide Or, RotatedLeft, RotatedRight, FlagsOf, Value, Pow256;
      Rotate16(mem[DB + operand], mem[DB + operand + 1], fC);
      assert mem[DB + operand..DB + operand + 2] == [mem[DB + operand], mem[DB + operand + 1]];
      Address(operand);
      t1 := (mem[t0] as int) + (mem[t0 + 1] as int) * 0x100;
      t2 := fC % 2;
      t1 := t1 * 2 % W32;
      t1 := Or(t1, t2);
      mem[t0] := t1 % W16 % 0x100;
      mem[t0 + 1] := t1 % W16 / 0x100;
      Flags16(t1);
      FlagsAre(t1, [t1 % W16 % 0x100, t1 % W16 / 0x100]);
      fZ := t1;
      fN := t1;
      t1 := t1 / W16;
      fC := t1 % 2;
      assert mem[t0..t0 + 2] == [mem[t0], mem[t0 + 1]];
    }

    /** addr_abs_read_ROR_m0 */
    method Ror16(operand: u32)
      requires Valid() && operand < W16 && DB + operand + 2 <= mem.Length
      modifies this, mem
      ensures Valid()
      ensures var a := DB + operand;
        && mem[..a] == old(mem[..a]) && mem[a + 2..] == old(mem[a + 2..])
        && RotatedRight(old(mem[a..a + 2]), old(fC), mem[a..a + 2], fC)
        && FlagsOf(fZ, mem[a..a + 2]) && FlagsOf(fN, mem[a..a + 2])
        && (fZ % 0x1_0000 == 0 <==> Value(mem[a..a + 2]) == 0)
        && (fN / 0x8000 % 2 == 1 <==> 2 * Value(mem[a..a + 2]) >= Pow256(2))
    {
      hide Or, RotatedLeft, RotatedRight, FlagsOf, Value, Pow256;
      Rotate16(mem[DB + operand], mem[DB + operand + 1], fC);
      assert mem[DB + operand..DB + operand + 2] == [mem[DB + operand], mem[DB + operand + 1]];
      Address(operand);
      t1 := (mem[t0] as int) + (mem[t0 + 1] as int) * 0x100;
      t2 := fC % 2;
      t2 := t2 * W16 % W32;
      fC := t1 % 2;
      OrFits(t1, t2);
      t1 := Or(t1, t2);
      t1 := t1 / 2;
      mem[t0] := t1 % W16 % 0x100;
      mem[t0 + 1] := t1 % W16 / 0x100;
      Flags16(t1);
      FlagsAre(t1, [t1 % W16 % 0x100, t1 % W16 / 0x100]);
      fZ := t1;
      fN := t1;
      assert mem[t0..t0 + 2] == [mem[t0], mem[t0 + 1]];
    }

    /** The ROL program run on each byte or word of a number, from the low end up: the number is
        doubled, the carry comes in at the bottom and the top bit goes out. */
    method RolChain(wide: bool, operand: nat, len: nat)
      requires Valid() && Reaches(wide, operand, len)
      modifies this, mem
      ensures Valid()
      ensures var a, b := DB + operand, DB + operand + len;
        && RotatedLeft(old(mem[a..b]), old(fC), mem[a..b], fC)
        && mem[..a] == old(mem[..a]) && mem[b..] == old(mem[b..])
    {
      hide RotatedLeft;
      ghost var m, a := mem[..], DB + operand;
      var k := 0;
      NoneRotated(m, a, fC);
      while k < len
        invariant Valid() && 0 <= k <= len && (wide ==> k % 2 == 0)
        invariant Between(m, mem[..], a, a + k) && RotatedLeft(m[a..a + k], old(fC), mem[a..a + k], fC)
      {
        ghost var before, c := mem[..], fC;
        if wide {
          Rol16(operand + k);
          LeftStep(m, before, mem[..], a, a + k, a + k + 2, old(fC), c, fC);
          k := k + 2;
        } else {
          Rol8(operand + k);
          LeftStep(m, before, mem[..], a, a + k, a + k + 1, old(fC), c, fC);
          k := k + 1;
        }
      }
    }

    /** The ROR program run on each byte or word of a number, from the high end down. */
    method RorChain(wide: bool, operand: nat, len: nat)
      requires Valid() && Reaches(wide, operand, len)
      modifies this, mem
      ensures Valid()
      ensures var a, b := DB + operand, DB + operand + len;
        && RotatedRight(old(mem[a..b]), old(fC), mem[a..b], fC)
        && mem[..a] == old(mem[..a]) && mem[b..] == old(mem[b..])
    {
      hide RotatedRight;
      ghost var m, a, b := mem[..], DB + operand, DB + operand + len;
      var k := len;
      NoneRotated(m, b, fC);
      while k > 0
        invariant Valid() && 0 <= k <= len && (wide ==> k % 2 == 0)
        invariant Between(m, mem[..], a + k, b) && RotatedRight(m[a + k..b], old(fC), mem[a + k..b], fC)
      {
        ghost var before, c := mem[..], fC;
        if wide {
          Ror16(operand + k - 2);
          RightStep(m, before, mem[..], a + k - 2, a + k, b, old(fC), c, fC);
          k := k - 2;
        } else {
          Ror8(operand + k - 1);
          RightStep(m, before, mem[..], a + k - 1, a + k, b, old(fC), c, fC);
          k := k - 1;
        }
      }
    }

    /** The ROR chain undoes the ROL chain: every byte of memory and the carry are back. */
    method RolThenRor(wide: bool, operand: nat, len: nat)
      requires Valid() && Reaches(wide, operand, len)
      modifies this, mem
      ensures Valid() && mem[..] == old(mem[..]) && fC == old(fC)
    {
      hide RotatedLeft, RotatedRight;
      ghost var m, c, a, b := mem[..], fC, DB + operand, DB + operand + len;
      RolChain(wide, operand, len);
      ghost var mid, c1 := mem[..], fC;
      RorChain(wide, operand, len);
      RotationsCancel(m[a..b], c, mid[a..b], c1, mem[a..b], fC);
      assert m == m[..a] + m[a..b] + m[b..];
      assert mem[..] == mem[..a] + mem[a..b] + mem[b..];
    }
  }

  /** Two memories differ at most in [a, b). */
  ghost predicate Between(m: seq<u8>, m': seq<u8>, a: nat, b: nat) {
    |m| == |m'| && a <= b <= |m| && m[..a] == m'[..a] && m[b..] == m'[b..]
  }

  lemma NoneRotated(m: seq<u8>, a: nat, c: nat)
    requires c < 2 && a <= |m|
    ensures Between(m, m, a, a) && RotatedLeft(m[a..a], c, m[a..a], c) && RotatedRight(m[a..a], c, m[a..a], c)
  {}

  /** Rotating [b, d) of a memory whose part [a, b) is already rotated. */
  lemma LeftStep(m: seq<u8>, m1: seq<u8>, m2: seq<u8>, a: nat, b: nat, d: nat, c: nat, c1: nat, c2: nat)
    requires Between(m, m1, a, b) && Between(m1, m2, b, d)
    requires RotatedLeft(m[a..b], c, m1[a..b], c1) && RotatedLeft(m1[b..d], c1, m2[b..d], c2)
    ensures Between(m, m2, a, d) && RotatedLeft(m[a..d], c, m2[a..d], c2)
  {
    hide RotatedLeft;
    assert m1[..b][a..b] == m2[..b][a..b] && m1[..b][a..b] == m1[a..b] && m2[..b][a..b] == m2[a..b];
    assert m[b..][..d - b] == m1[b..][..d - b] && m[b..][..d - b] == m[b..d] && m1[b..][..d - b] == m1[b..d];
    assert m[..a] == m1[..b][..a] == m2[..b][..a] == m2[..a];
    assert m[b..][d - b..] == m1[b..][d - b..] && m[b..][d - b..] == m[d..] && m1[b..][d - b..] == m1[d..];
    LeftExtend(m[a..b], c, m1[a..b], c1, m[b..d], m2[b..d], c2);
    assert m[a..b] + m[b..d] == m[a..d] && m2[a..b] + m2[b..d] == m2[a..d];
  }

  lemma RightStep(m: seq<u8>, m1: seq<u8>, m2: seq<u8>, a: nat, b: nat, d: nat, c: nat, c1: nat, c2: nat)
    requires a <= b && Between(m, m1, b, d) && Between(m1, m2, a, b)
    requires RotatedRight(m[b..d], c, m1[b..d], c1) && RotatedRight(m1[a..b], c1, m2[a..b], c2)
    ensures Between(m, m2, a, d) && RotatedRight(m[a..d], c, m2[a..d], c2)
  {
    hide RotatedRight;
    assert m1[b..][..d - b] == m2[b..][..d - b] && m1[b..][..d - b] == m1[b..d] && m2[b..][..d - b] == m2[b..d];
    assert m[..b][a..b] == m1[..b][a..b] && m[..b][a..b] == m[a..b] && m1[..b][a..b] == m1[a..b];
    assert m[..a] == m[..b][..a] == m1[..b][..a] == m1[..a];
    assert m[d..] == m1[d..] == m1[b..][d - b..] == m2[b..][d - b..] == m2[d..];
    RightExtend(m[b..d], c, m1[b..d], c1, m[a..b], m2[a..b], c2);
    assert m[a..b] + m[b..d] == m[a..d] && m2[a..b] + m2[b..d] == m2[a..d];
  }

  lemma OrFits(a: u32, b: u32)
    ensures Or(a, b) < W32
  {
    Pow2Values();
    OrBound(a, b, 32);
  }
}
