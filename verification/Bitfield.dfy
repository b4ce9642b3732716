/** The nmbs_bitfield macros: bits of a byte array, bit b in byte b >> 3 at position b & 7. */
module Bitfield {
  import opened Bytes

  //////////////////////////////////////////////////////////////////////////////
  // One byte
  //////////////////////////////////////////////////////////////////////////////

  /** (b & ~(1 << k)) | (v << k) */
  function WriteBit(b: u8, k: nat, v: bool): u8
    requires k < 8
  {
    WriteBitInRange(b, k, 8);
    Pow2Sixteen();
    b - (if BitOf(b, k) then Pow2(k) else 0) + (if v then Pow2(k) else 0)
  }

  lemma {:induction false} WriteBitInRange(b: nat, k: nat, n: nat)
    requires k < n && b < Pow2(n)
    ensures if BitOf(b, k) then Pow2(k) <= b else b + Pow2(k) < Pow2(n)
  {
    if k > 0 {
      WriteBitInRange(b / 2, k - 1, n - 1);
    }
  }

  lemma {:induction false} BitOfPowers(b: nat, k: nat, v: bool, r: nat, j: nat)
    requires r == b - (if BitOf(b, k) then Pow2(k) else 0) + (if v then Pow2(k) else 0)
    ensures BitOf(r, j) == if j == k then v else BitOf(b, j)
  {
    if k == 0 {
      assert r / 2 == b / 2;
    } else {
      var r' := b / 2 - (if BitOf(b / 2, k - 1) then Pow2(k - 1) else 0) + (if v then Pow2(k - 1) else 0);
      assert r == 2 * r' + b % 2;
      if j > 0 {
        BitOfPowers(b / 2, k - 1, v, r', j - 1);
      }
    }
  }

  lemma {:induction false} SameBits(a: nat, b: nat, n: nat)
    requires a < Pow2(n) && b < Pow2(n)
    requires forall k :: 0 <= k < n ==> BitOf(a, k) == BitOf(b, k)
    ensures a == b
  {
    if n > 0 {
      assert BitOf(a, 0) == BitOf(b, 0);
      forall k | 0 <= k < n - 1 ensures BitOf(a / 2, k) == BitOf(b / 2, k) {
        assert BitOf(a, k + 1) == BitOf(b, k + 1);
      }
      SameBits(a / 2, b / 2, n - 1);
    }
  }

  //////////////////////////////////////////////////////////////////////////////
  // Whole bitfields as sequences of bits
  //////////////////////////////////////////////////////////////////////////////

  function BitsOf(bytes: seq<u8>): (bits: seq<bool>)
    ensures |bits| == 8 * |bytes|
  {
    seq(8 * |bytes|, i requires 0 <= i < 8 * |bytes| => BitOf(bytes[i / 8], i % 8))
  }

  /** The number with the given bits, lowest first. */
  function Number(bits: seq<bool>): (n: nat)
    ensures n < Pow2(|bits|)
    ensures forall k :: 0 <= k < |bits| ==> BitOf(n, k) == bits[k]
  {
    if bits == [] then 0 else
      var n := (if bits[0] then 1 else 0) + 2 * Number(bits[1..]);
      assert forall k :: 0 < k < |bits| ==> BitOf(n, k) == BitOf(n / 2, k - 1) == bits[1..][k - 1];
      n
  }

  function PackBits(bits: seq<bool>): (bytes: seq<u8>)
    requires |bits| % 8 == 0
    ensures |bytes| == |bits| / 8
  {
    Pow2Sixteen();
    seq(|bits| / 8, i requires 0 <= i < |bits| / 8 => Number(bits[8 * i..8 * i + 8]))
  }

  lemma BitsOfPackBits(bits: seq<bool>)
    requires |bits| % 8 == 0
    ensures BitsOf(PackBits(bits)) == bits
  {
    var bytes := PackBits(bits);
    forall i | 0 <= i < |bits|
      ensures BitsOf(bytes)[i] == bits[i]
    {
      assert bits[8 * (i / 8)..8 * (i / 8) + 8][i % 8] == bits[i];
    }
  }

  lemma BitsOfInjective(a: seq<u8>, b: seq<u8>)
    requires BitsOf(a) == BitsOf(b)
    ensures a == b
  {
    forall i | 0 <= i < |a|
      ensures a[i] == b[i]
    {
      forall k | 0 <= k < 8 ensures BitOf(a[i], k) == BitOf(b[i], k) {
        assert BitsOf(a)[8 * i + k] == BitsOf(b)[8 * i + k];
      }
      Pow2Sixteen();
      SameBits(a[i], b[i], 8);
    }
  }

  lemma PackBitsOf(bytes: seq<u8>)
    ensures PackBits(BitsOf(bytes)) == bytes
  {
    BitsOfPackBits(BitsOf(bytes));
    BitsOfInjective(PackBits(BitsOf(bytes)), bytes);
  }

  //////////////////////////////////////////////////////////////////////////////
  // The macros
  //////////////////////////////////////////////////////////////////////////////

  /** nmbs_bitfield_read */
  method Read(bf: array<u8>, b: nat) returns (v: bool)
    requires b < 8 * bf.Length
    ensures v == BitsOf(bf[..])[b]
  {
    v := BitOf(bf[b / 8], b % 8);
  }

  /** nmbs_bitfield_write */
  method Write(bf: array<u8>, b: nat, v: bool)
    requires b < 8 * bf.Length
    modifies bf
    ensures BitsOf(bf[..]) == old(BitsOf(bf[..]))[b := v]
    ensures forall i :: 0 <= i < bf.Length && i != b / 8 ==> bf[i] == old(bf[i])
  {
    Pow2Sixteen();
    WriteBitInRange(bf[b / 8], b % 8, 8);
    forall j | 0 <= j < 8
      ensures BitOf(WriteBit(bf[b / 8], b % 8, v), j) == if j == b % 8 then v else BitOf(bf[b / 8], j)
    {
      BitOfPowers(bf[b / 8], b % 8, v, WriteBit(bf[b / 8], b % 8, v), j);
    }
    bf[b / 8] := WriteBit(bf[b / 8], b % 8, v);
  }

  /** nmbs_bitfield_reset */
  method Reset(bf: array<u8>)
    modifies bf
    ensures BitsOf(bf[..]) == seq(8 * bf.Length, _ => false)
  {
    for i := 0 to bf.Length
      invariant forall k :: 0 <= k < i ==> bf[k] == 0
    {
      bf[i] := 0;
    }
    forall i | 0 <= i < 8 * bf.Length ensures !BitsOf(bf[..])[i] {
      BitOfZero(i % 8);
    }
  }
}
