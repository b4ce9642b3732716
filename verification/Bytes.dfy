/** Machine integers and the big-endian register encoding of the Modbus messages. */
module Bytes {

  type u8 = x: int | 0 <= x < 0x100
  type u16 = x: int | 0 <= x < 0x1_0000

  function Pow2(n: nat): (p: nat)
    ensures p > 0
  {
    if n == 0 then 1 else 2 * Pow2(n - 1)
  }

  /** Bit i of v. */
  predicate BitOf(v: nat, i: nat) {
    if i == 0 then v % 2 == 1 else BitOf(v / 2, i - 1)
  }

  lemma Pow2Sixteen()
    ensures Pow2(16) == 0x1_0000 && Pow2(8) == 0x100
  {
    assert Pow2(4) == 16;
    assert Pow2(8) == 0x100;
    assert Pow2(12) == 0x1000;
  }

  lemma BitOfZero(i: nat)
    ensures !BitOf(0, i)
  {
  }

  lemma {:induction false} NoBits(x: nat)
    requires forall i: nat :: !BitOf(x, i)
    ensures x == 0
  {
    assert !BitOf(x, 0);
    forall i: nat ensures !BitOf(x / 2, i) {
      assert !BitOf(x, i + 1);
    }
    if x > 0 {
      NoBits(x / 2);
    }
  }

  /** The two bytes put_2 stores, high byte first. */
  function Be16(v: u16): (s: seq<u8>)
    ensures |s| == 2
  {
    [v / 0x100, v % 0x100]
  }

  /** What get_2 makes of two bytes. */
  function Word(hi: u8, lo: u8): u16 {
    hi * 0x100 + lo
  }

  function WordAt(s: seq<u8>, i: nat): u16
    requires i + 2 <= |s|
  {
    Word(s[i], s[i + 1])
  }

  /** Registers on the wire: each one big-endian, in order. */
  function RegsToBytes(regs: seq<u16>): (s: seq<u8>)
    ensures |s| == 2 * |regs|
  {
    if regs == [] then [] else RegsToBytes(regs[..|regs| - 1]) + Be16(regs[|regs| - 1])
  }

  /** The register read back from byte 2*k. */
  function BytesToRegs(s: seq<u8>): (regs: seq<u16>)
    ensures |regs| == |s| / 2
  {
    seq(|s| / 2, k requires 0 <= k < |s| / 2 => WordAt(s, 2 * k))
  }

  lemma RegsToBytesAppend(regs: seq<u16>, v: u16)
    ensures RegsToBytes(regs + [v]) == RegsToBytes(regs) + Be16(v)
  {
    assert (regs + [v])[..|regs|] == regs;
  }

  lemma {:induction false} RegsToBytesAt(regs: seq<u16>, k: nat)
    requires k < |regs|
    ensures RegsToBytes(regs)[2 * k] == regs[k] / 0x100
    ensures RegsToBytes(regs)[2 * k + 1] == regs[k] % 0x100
  {
    var n := |regs| - 1;
    if k < n {
      RegsToBytesAt(regs[..n], k);
    }
  }

  /** Decoding undoes encoding, whatever follows the registers. */
  lemma RegsRoundTrip(regs: seq<u16>)
    ensures BytesToRegs(RegsToBytes(regs)) == regs
  {
    forall k | 0 <= k < |regs|
      ensures BytesToRegs(RegsToBytes(regs))[k] == regs[k]
    {
      RegsToBytesAt(regs, k);
    }
  }

  /** Encoding undoes decoding of an even number of bytes. */
  lemma BytesRoundTrip(s: seq<u8>)
    requires |s| % 2 == 0
    ensures RegsToBytes(BytesToRegs(s)) == s
  {
    forall i | 0 <= i < |s|
      ensures RegsToBytes(BytesToRegs(s))[i] == s[i]
    {
      RegsToBytesAt(BytesToRegs(s), i / 2);
    }
  }

  lemma BytesToRegsAppend(s: seq<u8>, k: nat)
    requires 2 * k + 2 <= |s|
    ensures BytesToRegs(s[..2 * k + 2]) == BytesToRegs(s[..2 * k]) + [WordAt(s, 2 * k)]
  {
  }

  /** The bytes of m from a to b are s. */
  ghost predicate Spans(m: seq<u8>, a: nat, b: nat, s: seq<u8>) {
    a <= b <= |m| && m[a..b] == s
  }

  lemma SpansJoin(m: seq<u8>, a: nat, b: nat, c: nat, s: seq<u8>, t: seq<u8>)
    requires Spans(m, a, b, s) && Spans(m, b, c, t)
    ensures Spans(m, a, c, s + t)
  {
  }

  lemma SpansSplit(m: seq<u8>, a: nat, c: nat, s: seq<u8>, t: seq<u8>)
    requires Spans(m, a, c, s + t)
    ensures Spans(m, a, a + |s|, s) && Spans(m, a + |s|, c, t)
  {
    var u := m[a..c];
    assert u[..|s|] == s && u[|s|..] == t;
  }

  /** s with the elements from a on replaced by x. */
  function Splice<T>(s: seq<T>, a: nat, x: seq<T>): (r: seq<T>)
    requires a + |x| <= |s|
    ensures |r| == |s|
  {
    s[..a] + x + s[a + |x|..]
  }

  lemma SpliceNone<T>(s: seq<T>, a: nat)
    requires a <= |s|
    ensures Splice(s, a, []) == s
  {
  }

  lemma SpliceStep<T>(s: seq<T>, a: nat, x: seq<T>, k: nat)
    requires a + k < |s| && k < |x|
    ensures Splice(s, a, x[..k])[a + k := x[k]] == Splice(s, a, x[..k + 1])
  {
  }
}
