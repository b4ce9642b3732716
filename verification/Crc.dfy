/**
 The CRC-16 of MODBUS over Serial Line V1.02, section 6.2.2, as nmbs_crc_calc computes it.
 Exclusive or, shifts and masks of unsigned words are written as arithmetic on naturals.
 */
module Crc {
  import opened Bytes

  /** Bitwise exclusive or. */
  function Xor(a: nat, b: nat): nat {
    if a == 0 && b == 0 then 0 else (if a % 2 == b % 2 then 0 else 1) + 2 * Xor(a / 2, b / 2)
  }

  const POLY: u16 := 0xA001

  /** One turn of the inner loop: shift right, fold the polynomial in if a one fell out. */
  function Step(crc: nat): nat {
    if crc % 2 != 0 then Xor(crc / 2, POLY) else crc / 2
  }

  function StepN(n: nat, crc: nat): nat {
    if n == 0 then crc else StepN(n - 1, Step(crc))
  }

  /** The shift register after the bytes of s, starting from crc. */
  function Register(crc: nat, s: seq<u8>): nat
    decreases |s|
  {
    if s == [] then crc else Register(StepN(8, Xor(crc, s[0])), s[1..])
  }

  function SwapBytes(v: u16): u16 {
    v % 0x100 * 0x100 + v / 0x100
  }

  /** The value nmbs_crc_calc returns: the final register with its bytes exchanged. */
  function Crc16(s: seq<u8>): u16 {
    RegisterBound(0xFFFF, s);
    SwapBytes(Register(0xFFFF, s))
  }

  /** nmbs_crc_calc: one pass over the first length bytes, eight shifts a byte. */
  method Calc(data: array<u8>, length: nat) returns (result: u16)
    requires length <= data.Length
    ensures result == Crc16(data[..length])
  {
    var crc := 0xFFFF;
    for i := 0 to length
      invariant crc < 0x1_0000
      invariant Register(crc, data[i..length]) == Register(0xFFFF, data[..length])
    {
      assert data[i..length][0] == data[i] && data[i..length][1..] == data[i + 1..length];
      Pow2Sixteen();
      XorBound(crc, data[i], 16);
      crc := Xor(crc, data[i]);
      ghost var fed := crc;
      for j := 8 downto 0
        invariant crc < 0x1_0000 && StepN(j, crc) == StepN(8, fed)
      {
        StepBound(crc);
        if crc % 2 != 0 {
          crc := crc / 2;
          crc := Xor(crc, POLY);
        } else {
          crc := crc / 2;
        }
      }
    }
    result := crc % 0x100 * 0x100 + crc / 0x100;
  }

  //////////////////////////////////////////////////////////////////////////////
  // Exclusive or on naturals
  //////////////////////////////////////////////////////////////////////////////

  lemma XorBound(a: nat, b: nat, n: nat)
    requires a < Pow2(n) && b < Pow2(n)
    ensures Xor(a, b) < Pow2(n)
  {
  }

  lemma XorComm(a: nat, b: nat)
    ensures Xor(a, b) == Xor(b, a)
  {
  }

  lemma XorHalf(a: nat, b: nat)
    ensures Xor(a, b) / 2 == Xor(a / 2, b / 2)
    ensures Xor(a, b) % 2 == if a % 2 == b % 2 then 0 else 1
  {
  }

  lemma {:induction false} XorAssoc(a: nat, b: nat, c: nat)
    ensures Xor(Xor(a, b), c) == Xor(a, Xor(b, c))
    decreases a + b + c
  {
    hide Xor;
    XorHalf(a, b);
    XorHalf(b, c);
    var (l, r) := (Xor(Xor(a, b), c), Xor(a, Xor(b, c)));
    XorHalf(Xor(a, b), c);
    XorHalf(a, Xor(b, c));
    if a + b + c == 0 {
      XorZero(0);
    } else {
      XorAssoc(a / 2, b / 2, c / 2);
      assert l == 2 * (l / 2) + l % 2 && r == 2 * (r / 2) + r % 2;
    }
  }

  lemma XorZero(a: nat)
    ensures Xor(a, 0) == a && Xor(0, a) == a
  {
  }

  lemma XorSelf(a: nat)
    ensures Xor(a, a) == 0
  {
  }

  /** Exclusive or cancels: two naturals with a zero difference are equal. */
  lemma XorCancel(a: nat, b: nat)
    requires Xor(a, b) == 0
    ensures a == b
  {
    XorAssoc(a, b, b);
    XorSelf(b);
    XorZero(a);
    XorZero(b);
  }

  /** (a ^ b) ^ (c ^ d) == (a ^ c) ^ (b ^ d) */
  lemma XorSwap(a: nat, b: nat, c: nat, d: nat)
    ensures Xor(Xor(a, b), Xor(c, d)) == Xor(Xor(a, c), Xor(b, d))
  {
    XorAssoc(a, b, Xor(c, d));
    XorAssoc(b, c, d);
    XorComm(b, c);
    XorAssoc(c, b, d);
    XorAssoc(a, c, Xor(b, d));
  }

  //////////////////////////////////////////////////////////////////////////////
  // The register step is linear and invertible
  //////////////////////////////////////////////////////////////////////////////

  /** The bytes nmbs_crc_calc exchanges really are bytes: the register stays below 2^16. */
  lemma {:induction false} RegisterBound(crc: nat, s: seq<u8>)
    requires crc < 0x1_0000
    ensures Register(crc, s) < 0x1_0000
    decreases |s|
  {
    if s != [] {
      Pow2Sixteen();
      XorBound(crc, s[0], 16);
      StepNBound(8, Xor(crc, s[0]));
      RegisterBound(StepN(8, Xor(crc, s[0])), s[1..]);
    }
  }

  lemma StepBound(crc: nat)
    requires crc < 0x1_0000
    ensures Step(crc) < 0x1_0000
  {
    Pow2Sixteen();
    XorBound(crc / 2, POLY, 16);
  }

  lemma {:induction false} StepNBound(n: nat, crc: nat)
    requires crc < 0x1_0000
    ensures StepN(n, crc) < 0x1_0000
  {
    if n > 0 {
      StepBound(crc);
      StepNBound(n - 1, Step(crc));
    }
  }

  lemma {:induction false} StepLinear(c: nat, d: nat)
    ensures Step(Xor(c, d)) == Xor(Step(c), Step(d))
  {
    hide Xor;
    XorHalf(c, d);
    var (p, q) := (c / 2, d / 2);
    XorAssoc(p, q, POLY);
    XorAssoc(p, POLY, q);
    XorComm(POLY, q);
    XorSwap(p, POLY, q, POLY);
    XorSelf(POLY);
    XorZero(Xor(p, q));
  }

  /** No non-zero 16-bit register is shifted to zero: the step can be undone. */
  lemma StepNonZero(crc: nat)
    requires 0 < crc < 0x1_0000
    ensures 0 < Step(crc) < 0x1_0000
  {
    StepBound(crc);
    if crc % 2 != 0 && Xor(crc / 2, POLY) == 0 {
      XorCancel(crc / 2, POLY);
    }
  }

  lemma {:induction false} StepNNonZero(n: nat, crc: nat)
    requires 0 < crc < 0x1_0000
    ensures 0 < StepN(n, crc) < 0x1_0000
  {
    if n > 0 {
      StepNonZero(crc);
      StepNNonZero(n - 1, Step(crc));
    }
  }

  lemma {:induction false} StepNLinear(n: nat, c: nat, d: nat)
    ensures StepN(n, Xor(c, d)) == Xor(StepN(n, c), StepN(n, d))
  {
    if n > 0 {
      StepLinear(c, d);
      StepNLinear(n - 1, Step(c), Step(d));
    }
  }

  lemma StepNZero(n: nat)
    ensures StepN(n, 0) == 0
  {
  }

  lemma {:induction false} StepNAdd(m: nat, n: nat, crc: nat)
    ensures StepN(m + n, crc) == StepN(n, StepN(m, crc))
  {
    if m > 0 {
      StepNAdd(m - 1, n, Step(crc));
    }
  }

  //////////////////////////////////////////////////////////////////////////////
  // Bits in transmission order, least significant bit of each byte first
  //////////////////////////////////////////////////////////////////////////////

  /** The i-th bit sent. */
  predicate Bit(s: seq<u8>, i: nat)
    requires i < 8 * |s|
  {
    BitOf(s[i / 8], i % 8)
  }

  /** The message as one number whose bit i is the i-th bit sent. */
  function AsNumber(s: seq<u8>): nat {
    if s == [] then 0 else s[0] + 0x100 * AsNumber(s[1..])
  }

  /** An even register is halved. */
  lemma StepDouble(h: nat)
    ensures Step(2 * h) == h
  {
  }

  lemma DoublePow2(n: nat, w: nat)
    requires n > 0
    ensures Pow2(n) * w == 2 * (Pow2(n - 1) * w)
  {
  }

  /** The bits of v above the low n meet the register untouched after n steps. */
  lemma {:induction false} StepNShift(n: nat, w: nat)
    ensures StepN(n, Pow2(n) * w) == w
  {
    hide Step;
    if n > 0 {
      DoublePow2(n, w);
      StepDouble(Pow2(n - 1) * w);
      StepNShift(n - 1, w);
    }
  }

  lemma XorDouble(lo: nat, m: nat)
    ensures Xor(lo, 2 * m) == lo % 2 + 2 * Xor(lo / 2, m)
  {
  }

  lemma {:induction false} XorDisjoint(n: nat, lo: nat, hi: nat)
    requires lo < Pow2(n)
    ensures Xor(lo, Pow2(n) * hi) == lo + Pow2(n) * hi
  {
    hide Xor;
    if n == 0 {
      XorZero(hi);
    } else {
      DoublePow2(n, hi);
      XorDouble(lo, Pow2(n - 1) * hi);
      XorDisjoint(n - 1, lo / 2, hi);
    }
  }

  /** Byte by byte or all at once: the register is 8*|s| steps away from the message taken as one number. */
  lemma {:induction false} RegisterIsDivision(crc: nat, s: seq<u8>)
    ensures Register(crc, s) == StepN(8 * |s|, Xor(crc, AsNumber(s)))
    decreases |s|
  {
    hide Xor, StepN;
    if s == [] {
      XorZero(crc);
      StepNNone(crc);
    } else {
      OneByte(crc, s[0], AsNumber(s[1..]), 8 * |s[1..]|);
      RegisterIsDivision(StepN(8, Xor(crc, s[0])), s[1..]);
    }
  }

  lemma StepNNone(crc: nat)
    ensures StepN(0, crc) == crc
  {
  }

  /** The low byte of a number is folded in first. */
  lemma OneByte(crc: nat, x: u8, rest: nat, n: nat)
    ensures StepN(8 + n, Xor(crc, x + 0x100 * rest)) == StepN(n, Xor(StepN(8, Xor(crc, x)), rest))
  {
    hide Xor, StepN;
    Pow2Sixteen();
    XorDisjoint(8, x, rest);
    XorAssoc(crc, x, 0x100 * rest);
    StepNLinear(8, Xor(crc, x), 0x100 * rest);
    StepNShift(8, rest);
    StepNAdd(8, n, Xor(crc, x + 0x100 * rest));
  }

  lemma {:induction false} BitOfXor(a: nat, b: nat, i: nat)
    ensures BitOf(Xor(a, b), i) <==> BitOf(a, i) != BitOf(b, i)
  {
    XorHalf(a, b);
    if i > 0 {
      BitOfXor(a / 2, b / 2, i - 1);
    }
  }

  lemma {:induction false} BitOfSum(n: nat, lo: nat, hi: nat, i: nat)
    requires lo < Pow2(n)
    ensures BitOf(lo + Pow2(n) * hi, i) == if i < n then BitOf(lo, i) else BitOf(hi, i - n)
  {
    if n > 0 {
      var m := Pow2(n - 1) * hi;
      assert Pow2(n) * hi == 2 * m;
      assert (lo + 2 * m) / 2 == lo / 2 + m;
      if i > 0 {
        BitOfSum(n - 1, lo / 2, hi, i - 1);
      }
    }
  }

  lemma {:induction false} BitOfMessage(s: seq<u8>, i: nat)
    ensures BitOf(AsNumber(s), i) == (i < 8 * |s| && Bit(s, i))
    decreases |s|
  {
    if s == [] {
      BitOfZero(i);
    } else {
      Pow2Sixteen();
      BitOfSum(8, s[0], AsNumber(s[1..]), i);
      if i >= 8 {
        BitOfMessage(s[1..], i - 8);
        assert (i - 8) / 8 == i / 8 - 1 && (i - 8) % 8 == i % 8;
      }
    }
  }

  /** A natural whose low t bits are clear, and all from m up, is e * 2^t with e < 2^(m-t). */
  lemma {:induction false} WindowOfBits(x: nat, t: nat, width: nat) returns (e: nat)
    requires forall i: nat :: BitOf(x, i) ==> t <= i < t + width
    ensures x == Pow2(t) * e
    ensures e < Pow2(width)
    decreases t + width, x
  {
    forall i: nat | BitOf(x / 2, i) ensures t <= i + 1 < t + width {
      assert BitOf(x, i + 1);
    }
    if t > 0 {
      assert !BitOf(x, 0);
      e := WindowOfBits(x / 2, t - 1, width);
      assert Pow2(t) * e == 2 * (Pow2(t - 1) * e);
    } else if width > 0 {
      var _ := WindowOfBits(x / 2, 0, width - 1);
      e := x;
    } else {
      NoBits(x);
      e := 0;
    }
  }

  lemma {:induction false} AsNumberInjective(a: seq<u8>, b: seq<u8>)
    requires |a| == |b| && AsNumber(a) == AsNumber(b)
    ensures a == b
  {
    if a != [] {
      AsNumberInjective(a[1..], b[1..]);
      assert a == [a[0]] + a[1..] && b == [b[0]] + b[1..];
    }
  }

  lemma {:induction false} RegisterConcat(crc: nat, s: seq<u8>, t: seq<u8>)
    ensures Register(crc, s + t) == Register(Register(crc, s), t)
    decreases |s|
  {
    if s == [] {
      assert s + t == t;
    } else {
      assert (s + t)[1..] == s[1..] + t;
      RegisterConcat(StepN(8, Xor(crc, s[0])), s[1..], t);
    }
  }

  //////////////////////////////////////////////////////////////////////////////
  // What the checksum is for
  //////////////////////////////////////////////////////////////////////////////

  /** The two registers differ by the division of the error pattern alone, whatever the messages and the start value. */
  lemma {:induction false} RegisterAffine(crc: nat, a: seq<u8>, b: seq<u8>)
    requires |a| == |b|
    ensures Xor(Register(crc, a), Register(crc, b)) == StepN(8 * |a|, Xor(AsNumber(a), AsNumber(b)))
  {
    hide Xor;
    var (p, q) := (AsNumber(a), AsNumber(b));
    RegisterIsDivision(crc, a);
    RegisterIsDivision(crc, b);
    StepNLinear(8 * |a|, Xor(crc, p), Xor(crc, q));
    XorSwap(crc, p, crc, q);
    XorSelf(crc);
    XorZero(Xor(p, q));
  }

  /**
   Two different messages of one length whose differing bits all lie in one window of 16 consecutive
   bits, wherever it starts and however long the messages are, never have the same checksum.
   */
  lemma {:induction false} BurstDetected(a: seq<u8>, b: seq<u8>, start: nat)
    requires |a| == |b| && a != b
    requires forall i :: 0 <= i < 8 * |a| && Bit(a, i) != Bit(b, i) ==> start <= i < start + 16
    ensures Crc16(a) != Crc16(b)
  {
    hide Xor;
    hide Register;
    hide StepN;
    hide Bit;
    hide AsNumber;
    var x := ErrorPattern(a, b, start);
    RegisterAffine(0xFFFF, a, b);
    XorSelf(Register(0xFFFF, a));
    RegisterBound(0xFFFF, a);
    RegisterBound(0xFFFF, b);
  }

  /** The error pattern of such a pair is a non-zero burst, so it leaves a non-zero register. */
  lemma {:induction false} ErrorPattern(a: seq<u8>, b: seq<u8>, start: nat) returns (x: nat)
    requires |a| == |b| && a != b
    requires forall i :: 0 <= i < 8 * |a| && Bit(a, i) != Bit(b, i) ==> start <= i < start + 16
    ensures x == Xor(AsNumber(a), AsNumber(b)) && StepN(8 * |a|, x) != 0
  {
    hide Xor;
    hide Bit;
    x := Xor(AsNumber(a), AsNumber(b));
    forall i: nat | BitOf(x, i) ensures start <= i < start + 16 && i < 8 * |a| {
      BitOfXor(AsNumber(a), AsNumber(b), i);
      BitOfMessage(a, i);
      BitOfMessage(b, i);
    }
    if x == 0 {
      XorCancel(AsNumber(a), AsNumber(b));
      AsNumberInjective(a, b);
    }
    if start >= 8 * |a| {
      NoBits(x);
    }
    var e := WindowOfBits(x, start, 16);
    Pow2Sixteen();
    BurstSurvives(8 * |a|, start, e);
  }

  lemma BurstSurvives(n: nat, start: nat, e: nat)
    requires start <= n && 0 < e < 0x1_0000
    ensures StepN(n, Pow2(start) * e) != 0
  {
    StepNAdd(start, n - start, Pow2(start) * e);
    StepNShift(start, e);
    StepNNonZero(n - start, e);
  }

  /** The two bytes behind a message are its register, low byte first, exactly when they spell its checksum. */
  lemma TailNumber(check: u16, r: u16)
    ensures AsNumber(Be16(check)) < 0x1_0000 && (check == SwapBytes(r) <==> AsNumber(Be16(check)) == r)
  {
    TwoBytes(check / 0x100, check % 0x100);
    hide AsNumber;
    assert Be16(check) == [check / 0x100, check % 0x100];
  }

  lemma TwoBytes(a: u8, b: u8)
    ensures AsNumber([a, b]) == a + 0x100 * b
  {
    assert [a, b][1..] == [b] && [b][1..] == [];
    assert AsNumber([b]) == b + 0x100 * AsNumber([]);
  }

  /**
   The receiver's comparison of the two trailing bytes against its own checksum holds exactly when
   the register over the whole frame, checksum included, is zero.
   */
  lemma {:induction false} ResidueIsZero(s: seq<u8>, check: u16)
    ensures check == Crc16(s) <==> Register(0xFFFF, s + Be16(check)) == 0
  {
    hide Xor, Register, StepN, AsNumber, Pow2;
    var r := Register(0xFFFF, s);
    var tail := Be16(check);
    var sent := AsNumber(tail);
    RegisterBound(0xFFFF, s);
    TailNumber(check, r);
    RegisterConcat(0xFFFF, s, tail);
    RegisterIsDivision(r, tail);
    Pow2Sixteen();
    XorBound(r, sent, 16);
    if Xor(r, sent) == 0 {
      XorCancel(r, sent);
      StepNZero(16);
    } else {
      StepNNonZero(16, Xor(r, sent));
      XorSelf(r);
    }
  }

  //////////////////////////////////////////////////////////////////////////////
  // The generator polynomial
  //////////////////////////////////////////////////////////////////////////////

  /** The product of two polynomials over two elements, the bits of a natural being the coefficients. */
  function Times(a: nat, b: nat): nat
    decreases a
  {
    if a == 0 then 0 else Xor(if a % 2 == 1 then b else 0, 2 * Times(a / 2, b))
  }

  /** x is a multiple of the polynomial g by one of fewer than n coefficients. */
  ghost predicate IsMultiple(x: nat, g: nat, n: nat) {
    exists q: nat :: q < Pow2(n) && x == Times(q, g)
  }

  /**
   A shift step is the division of an odd register by 1 + X + X^14 + X^16, the bit shifted out being the quotient's.
   */
  lemma StepIsDivision(x: nat)
    ensures x == Xor(if x % 2 == 1 then 1 + 2 + 0x4000 + 0x1_0000 else 0, 2 * Step(x))
  {
    var g := 1 + 2 + 0x4000 + 0x1_0000;
    if x % 2 == 1 {
      XorDouble(g, Step(x));
      assert g / 2 == 0xA001;
      XorAssoc(0xA001, x / 2, 0xA001);
      XorComm(0xA001, x / 2);
      XorSelf(0xA001);
      XorAssoc(x / 2, 0xA001, 0xA001);
      XorZero(x / 2);
      hide Xor;
      XorComm(0xA001, Xor(x / 2, 0xA001));
    } else {
      XorZero(x);
    }
  }

  /**
   n shift steps take x to zero exactly when x is a multiple of 1 + X + X^14 + X^16 by a polynomial of n
   coefficients.
   */
  lemma {:induction false} ZeroIffMultiple(n: nat, x: nat)
    ensures StepN(n, x) == 0 <==> IsMultiple(x, 1 + 2 + 0x4000 + 0x1_0000, n)
  {
    hide Xor, Step;
    var g: nat := 1 + 2 + 0x4000 + 0x1_0000;
    if n == 0 {
      assert Times(0, g) == 0;
    } else {
      ZeroIffMultiple(n - 1, Step(x));
      StepIsDivision(x);
      if q: nat :| q < Pow2(n - 1) && Step(x) == Times(q, g) {
        assert x == Times(x % 2 + 2 * q, g) by {
          XorZero(0);
        }
      }
      if q: nat :| q < Pow2(n) && x == Times(q, g) {
        QuotientStep(q, g);
        assert Step(x) == Times(q / 2, g);
      }
    }
  }

  /** The step undoes one coefficient of a multiple. */
  lemma QuotientStep(q: nat, g: nat)
    requires g == 1 + 2 + 0x4000 + 0x1_0000
    ensures Step(Times(q, g)) == Times(q / 2, g)
  {
    hide Xor, Step;
    var x, y := Times(q, g), 2 * Times(q / 2, g);
    StepIsDivision(x);
    if q == 0 {
      assert Times(0, g) == 0;
      StepDouble(0);
    } else {
      var c: nat := if q % 2 == 1 then g else 0;
      XorHalf(c, y);
      XorCancelLeft(c, y, 2 * Step(x));
    }
  }

  lemma XorCancelLeft(c: nat, a: nat, b: nat)
    requires Xor(c, a) == Xor(c, b)
    ensures a == b
  {
    XorAssoc(c, c, a);
    XorAssoc(c, c, b);
    XorSelf(c);
    XorZero(a);
    XorZero(b);
  }

  /**
   The receiver's comparison holds exactly when the frame it received, taken as one number with 0xFFFF folded in, is a
   multiple of the generator polynomial of section 6.2.2.
   */
  lemma AcceptedIffMultiple(s: seq<u8>, check: u16)
    ensures check == Crc16(s) <==>
      IsMultiple(Xor(0xFFFF, AsNumber(s + Be16(check))), 1 + 2 + 0x4000 + 0x1_0000, 8 * |s| + 16)
  {
    hide Xor, Register, StepN, AsNumber, Pow2, IsMultiple, Crc16;
    var f := s + Be16(check);
    ResidueIsZero(s, check);
    RegisterIsDivision(0xFFFF, f);
    ZeroIffMultiple(8 * |f|, Xor(0xFFFF, AsNumber(f)));
  }
}
