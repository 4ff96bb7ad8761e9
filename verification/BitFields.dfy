/** Words built as `a | b << i | c << j | ...`, the shape of every packing macro in gs.h. */
module BitFields {
  import opened Words

  /** One operand of a packing macro: `(u64)(value) << shift`. */
  datatype Field = Field(value: int, shift: nat)

  function Shifted(f: Field): u64 {
    f.value % W64 * Pow2(f.shift) % W64
  }

  /** The operands or-ed together from left to right. */
  function OrFields(fs: seq<Field>): (w: u64) {
    if fs == [] then 0
    else
      var p, l := OrFields(fs[..|fs| - 1]), Shifted(fs[|fs| - 1]);
      Pow2Values();
      OrBound(p, l, 64);
      Or(p, l)
  }

  /** The word whose bits are those of the values, as 64-bit words, moved up and or-ed. */
  ghost predicate IsOr(w: nat, fs: seq<Field>) {
    && w < 0x1_0000_0000_0000_0000
    && forall i :: 0 <= i < 64 ==> (Bit(w, i) <==> exists k :: 0 <= k < |fs| && BitOf(fs[k], i))
  }

  predicate BitOf(f: Field, i: nat) {
    f.shift <= i && Bit(f.value % 0x1_0000_0000_0000_0000, i - f.shift)
  }

  lemma ShiftedBit(f: Field, i: nat)
    requires i < 64
    ensures Bit(Shifted(f), i) <==> BitOf(f, i)
  {
    hide Pow2;
    var v := f.value % W64;
    Pow2Values();
    ModBit(v * Pow2(f.shift), i, 64);
    if f.shift <= i {
      Pow2Sum(i - f.shift, f.shift);
      Cancel(v, Pow2(i - f.shift), Pow2(f.shift));
    } else {
      Pow2Sum(f.shift - i - 1, i + 1);
      assert Pow2(i + 1) == 2 * Pow2(i) by { Pow2Sum(1, i); Pow2Small(); }
      LowBit(v, Pow2(f.shift - i - 1), Pow2(i));
    }
  }

  lemma Cancel(v: nat, p: nat, q: nat)
    requires p > 0 && q > 0
    ensures v * q / (p * q) == v / p
  {
    assert v == v / p * p + v % p;
    assert v * q == v / p * (p * q) + v % p * q;
    MulLe(v % p + 1, p, q);
    assert (v % p + 1) * q == v % p * q + q;
    DivModUnique(v % p * q, v / p, p * q);
  }

  lemma LowBit(v: nat, a: nat, b: nat)
    requires b > 0
    ensures v * (a * (2 * b)) / b % 2 == 0
  {
    assert v * (a * (2 * b)) == (2 * (v * a)) * b;
    DivModUnique(0, 2 * (v * a), b);
  }

  /** Bits below `n` survive reduction modulo 2^n. */
  lemma ModBit(x: nat, i: nat, n: nat)
    requires i < n
    ensures Bit(x % Pow2(n), i) <==> Bit(x, i)
  {
    var k, p := HighPart(i, n);
    ModLow(x, Pow2(n), k, p);
  }

  lemma HighPart(i: nat, n: nat) returns (k: nat, p: nat)
    requires i < n
    ensures k > 0 && p == Pow2(i) && Pow2(n) == k * (2 * p)
  {
    hide Pow2;
    k, p := Pow2(n - i - 1), Pow2(i);
    Pow2Sum(n - i - 1, i + 1);
    Pow2Sum(1, i);
    Pow2Small();
  }

  lemma ModLow(x: nat, m: nat, k: nat, p: nat)
    requires p > 0 && k > 0 && m == k * (2 * p) && m > 0
    ensures x % m / p % 2 == x / p % 2
  {
    assert m == k * 2 * p;
    var r, v := x % m, x / m;
    assert x == r + v * m;
    ExtractLowNat(r, v, k, 2, p);
  }

  lemma {:induction false} OrFieldsIs(fs: seq<Field>)
    ensures IsOr(OrFields(fs), fs)
  {
    hide Bit, BitOf, Shifted, Or;
    if fs == [] {
      ZeroBits();
    } else {
      var n := |fs| - 1;
      OrFieldsIs(fs[..n]);
      forall i | 0 <= i < 64
        ensures Bit(OrFields(fs), i) <==> exists k :: 0 <= k < |fs| && BitOf(fs[k], i)
      {
        OrBit(OrFields(fs[..n]), Shifted(fs[n]), i);
        ShiftedBit(fs[n], i);
        OneMore(fs, fs[..n], i);
      }
    }
  }

  lemma ZeroBits()
    ensures forall i: nat {:trigger Bit(0, i)} :: !Bit(0, i)
  {}

  lemma OneMore(fs: seq<Field>, init: seq<Field>, i: nat)
    requires |fs| > 0 && init == fs[..|fs| - 1]
    ensures (exists k :: 0 <= k < |fs| && BitOf(fs[k], i))
      <==> BitOf(fs[|fs| - 1], i) || exists k :: 0 <= k < |init| && BitOf(init[k], i)
  {
    hide BitOf;
    if k :| 0 <= k < |init| && BitOf(init[k], i) {
      assert BitOf(fs[k], i);
    }
    if k :| 0 <= k < |fs| - 1 && BitOf(fs[k], i) {
      assert BitOf(init[k], i);
    }
  }

  lemma {:induction false} ZeroFields(fs: seq<Field>)
    requires forall i :: 0 <= i < |fs| ==> fs[i].value == 0
    ensures OrFields(fs) == 0
  {
    if fs != [] {
      var rest := fs[..|fs| - 1];
      assert forall i :: 0 <= i < |rest| ==> rest[i] == fs[i];
      ZeroFields(rest);
      OrZero(0);
    }
  }

  /** `width` bits of `w` starting at bit `off`. */
  function Extract(w: nat, off: nat, width: nat): nat {
    w / Pow2(off) % Pow2(width)
  }

  function NextShift(fs: seq<Field>, top: nat, i: nat): nat
    requires i < |fs|
  {
    if i + 1 < |fs| then fs[i + 1].shift else top
  }

  /** Field `i` of an increasing layout is non-negative and stays below the next field. */
  ghost predicate FitsAt(fs: seq<Field>, top: nat, i: nat)
    requires i < |fs|
  {
    && fs[i].shift <= NextShift(fs, top, i)
    && 0 <= fs[i].value < Pow2(NextShift(fs, top, i) - fs[i].shift)
  }

  ghost predicate Fits(fs: seq<Field>, top: nat) {
    top <= 64 && forall i :: 0 <= i < |fs| ==> FitsAt(fs, top, i)
  }

  lemma FitsPrefix(fs: seq<Field>, top: nat)
    requires Fits(fs, top) && |fs| > 0
    ensures fs[|fs| - 1].shift <= top
    ensures Fits(fs[..|fs| - 1], fs[|fs| - 1].shift)
  {
    var n := |fs| - 1;
    assert FitsAt(fs, top, n);
    forall i | 0 <= i < n
      ensures FitsAt(fs[..n], fs[n].shift, i)
    {
      assert FitsAt(fs, top, i);
    }
  }

  lemma Pow2Mono(a: nat, b: nat)
    requires a <= b
    ensures Pow2(a) <= Pow2(b)
  {
    Pow2Sum(b - a, a);
    MulLe(1, Pow2(b - a), Pow2(a));
  }

  lemma SumBound(p: nat, v: nat, s: nat, top: nat)
    requires s <= top && p < Pow2(s) && v < Pow2(top - s)
    ensures p + v * Pow2(s) < Pow2(top)
  {
    Pow2Sum(top - s, s);
    MulLe(v + 1, Pow2(top - s), Pow2(s));
    assert (v + 1) * Pow2(s) == v * Pow2(s) + Pow2(s);
  }

  /** A field that fits is not truncated by its shift. */
  lemma ShiftedFits(f: Field, top: nat)
    requires f.shift <= top <= 64
    requires 0 <= f.value < Pow2(top - f.shift)
    ensures Shifted(f) == f.value * Pow2(f.shift) < Pow2(top)
  {
    hide Pow2;
    SumBound(0, f.value, f.shift, top);
    Pow2Mono(top - f.shift, 64);
    Pow2Mono(top, 64);
    assert Pow2(64) == W64 by { Pow2Values(); }
    assert f.value % W64 == f.value;
    var x := f.value * Pow2(f.shift);
    assert 0 <= x < W64;
    assert x % W64 == x;
  }

  /** Fields that fit are summed. */
  lemma {:induction false} OrFieldsSum(fs: seq<Field>, top: nat)
    requires Fits(fs, top)
    ensures OrFields(fs) < Pow2(top)
    ensures |fs| > 0 ==>
      var l := fs[|fs| - 1];
      && OrFields(fs) == OrFields(fs[..|fs| - 1]) + l.value * Pow2(l.shift)
      && OrFields(fs[..|fs| - 1]) < Pow2(l.shift)
  {
    if |fs| > 0 {
      var l := fs[|fs| - 1];
      FitsPrefix(fs, top);
      assert FitsAt(fs, top, |fs| - 1);
      OrFieldsSum(fs[..|fs| - 1], l.shift);
      ShiftedFits(l, top);
      OrDisjoint(OrFields(fs[..|fs| - 1]), l.value, l.shift);
      SumBound(OrFields(fs[..|fs| - 1]), l.value, l.shift, top);
    }
  }

  lemma DivAddMultiple(p: nat, t: nat, m: nat)
    requires m > 0
    ensures (p + t * m) / m == p / m + t
    ensures (p + t * m) % m == p % m
  {
    var q := p / m;
    assert p == q * m + p % m;
    assert (q + t) * m == q * m + t * m;
    DivModUnique(p % m, q + t, m);
    var x := p + t * m;
    assert x == m * (x / m) + x % m;
  }

  lemma MulAssoc3(v: nat, k: nat, m: nat, a: nat)
    ensures v * (k * m * a) == ((v * k) * m) * a
  {
    assert v * (k * m) == (v * k) * m;
    assert v * (k * m * a) == (v * (k * m)) * a;
  }

  lemma ExtractLowNat(p: nat, v: nat, k: nat, m: nat, a: nat)
    requires m > 0 && a > 0
    ensures (p + v * (k * m * a)) / a % m == p / a % m
  {
    MulAssoc3(v, k, m, a);
    DivAddMultiple(p, (v * k) * m, a);
    DivAddMultiple(p / a, v * k, m);
  }

  /** Higher bits do not disturb a lower field. */
  lemma ExtractLow(p: nat, v: nat, s: nat, off: nat, width: nat)
    requires off + width <= s
    ensures Extract(p + v * Pow2(s), off, width) == Extract(p, off, width)
  {
    Pow2Sum(s - off - width, width);
    Pow2Sum(s - off, off);
    ExtractLowNat(p, v, Pow2(s - off - width), Pow2(width), Pow2(off));
  }

  lemma TopNat(p: nat, v: nat, a: nat, m: nat)
    requires p < a && v < m
    ensures (p + v * a) / a % m == v
  {
    DivModUnique(p, v, a);
    SmallMod(v, m);
  }

  /** The top field is read back. */
  lemma ExtractTop(p: nat, v: nat, s: nat, width: nat)
    requires p < Pow2(s) && v < Pow2(width)
    ensures Extract(p + v * Pow2(s), s, width) == v
  {
    TopNat(p, v, Pow2(s), Pow2(width));
  }

  /** Reading one field of a word whose top field has just been added. */
  lemma ExtractStep(w: nat, p: nat, v: nat, s: nat, off: nat, width: nat)
    requires w == p + v * Pow2(s) && p < Pow2(s)
    ensures off == s && v < Pow2(width) ==> Extract(w, off, width) == v
    ensures off + width <= s ==> Extract(w, off, width) == Extract(p, off, width)
  {
    if off == s && v < Pow2(width) {
      ExtractTop(p, v, s, width);
    }
    if off + width <= s {
      ExtractLow(p, v, s, off, width);
    }
  }

  /** The round trip: a field that fits is read back from the packed word, at any width
      that holds it and stops before the next field. */
  lemma {:induction false} UnpackField(fs: seq<Field>, top: nat, i: nat, width: nat)
    requires Fits(fs, top) && i < |fs|
    requires 0 <= fs[i].value < Pow2(width)
    requires fs[i].shift + width <= NextShift(fs, top, i)
    ensures Extract(OrFields(fs), fs[i].shift, width) == fs[i].value
    decreases |fs|
  {
    var n := |fs| - 1;
    var l, p := fs[n], OrFields(fs[..n]);
    OrFieldsSum(fs, top);
    assert FitsAt(fs, top, n);
    ExtractStep(OrFields(fs), p, l.value, l.shift, fs[i].shift, width);
    if i < n {
      FitsPrefix(fs, top);
      ShiftsIncrease(fs, top, i + 1, n);
      UnpackField(fs[..n], l.shift, i, width);
    }
  }

  /** A field of a given width that stops before the next one fits. */
  lemma FieldFits(fs: seq<Field>, top: nat, i: nat, width: nat)
    requires i < |fs| && 0 <= fs[i].value < Pow2(width)
    requires fs[i].shift + width <= NextShift(fs, top, i)
    ensures FitsAt(fs, top, i)
  {
    hide Pow2;
    Pow2Mono(width, NextShift(fs, top, i) - fs[i].shift);
  }

  /** The layout of a register: every field is as wide as the list says and stops before the next. */
  ghost predicate HasWidths(fs: seq<Field>, widths: seq<nat>) {
    |widths| == |fs| && forall i :: 0 <= i < |fs| ==> HasWidth(fs, i, widths[i])
  }

  ghost predicate HasWidth(fs: seq<Field>, i: nat, width: nat)
    requires i < |fs|
  {
    0 <= fs[i].value < Pow2(width) && fs[i].shift + width <= NextShift(fs, 64, i)
  }

  /** Every field of a register is read back from its own bits. */
  ghost predicate Unpacks(w: u64, fs: seq<Field>, widths: seq<nat>)
    requires |widths| == |fs|
  {
    forall i :: 0 <= i < |fs| ==> Extract(w, fs[i].shift, widths[i]) == fs[i].value
  }

  lemma UnpackAll(fs: seq<Field>, widths: seq<nat>)
    requires HasWidths(fs, widths)
    ensures Unpacks(OrFields(fs), fs, widths)
  {
    hide Pow2, Extract, OrFields, FitsAt;
    forall i | 0 <= i < |fs| ensures FitsAt(fs, 64, i) {
      assert HasWidth(fs, i, widths[i]);
      FieldFits(fs, 64, i, widths[i]);
    }
    forall i | 0 <= i < |fs|
      ensures Extract(OrFields(fs), fs[i].shift, widths[i]) == fs[i].value
    {
      assert HasWidth(fs, i, widths[i]);
      UnpackField(fs, 64, i, widths[i]);
    }
  }

  lemma ShiftsIncrease(fs: seq<Field>, top: nat, i: nat, j: nat)
    requires Fits(fs, top) && i <= j < |fs|
    ensures fs[i].shift <= fs[j].shift
    decreases j - i
  {
    if i < j {
      assert FitsAt(fs, top, i);
      ShiftsIncrease(fs, top, i + 1, j);
    }
  }

  lemma WidthsFit(fs: seq<Field>, widths: seq<nat>)
    requires HasWidths(fs, widths)
    ensures Fits(fs, 64)
  {
    hide Pow2, FitsAt;
    forall i | 0 <= i < |fs| ensures FitsAt(fs, 64, i) {
      assert HasWidth(fs, i, widths[i]);
      FieldFits(fs, 64, i, widths[i]);
    }
  }

  function SumFields(fs: seq<Field>): int {
    if fs == [] then 0
    else SumFields(fs[..|fs| - 1]) + fs[|fs| - 1].value * Pow2(fs[|fs| - 1].shift)
  }

  lemma {:induction false} OrIsSum(fs: seq<Field>, top: nat)
    requires Fits(fs, top)
    ensures OrFields(fs) == SumFields(fs)
  {
    if |fs| > 0 {
      OrFieldsSum(fs, top);
      FitsPrefix(fs, top);
      OrIsSum(fs[..|fs| - 1], fs[|fs| - 1].shift);
    }
  }
}
