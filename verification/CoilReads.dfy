/**
 What a Read Coils response shows. Section 6.1 of MODBUS Application Protocol V1.1b3 wants the addressed coil in
 the lowest bit of the first byte; server_read_coils stores every coil at its own address instead.
 */
module CoilReads {
  import opened Bytes
  import opened Bitfield
  import opened Adu
  import opened Store
  import opened Protocol

  /** The data bytes of the response to a read of q coils from a. */
  function CoilBytes(db: Db, a: u16, q: u16): (bytes: seq<u8>)
    requires Sized(db) && 1 <= q && a + q <= BITFIELD_MAX
    ensures |bytes| == (q + 7) / 8
  {
    PackBits(CoilsOut(db.coils, a, q))[..(q + 7) / 8]
  }

  /** Those bytes are what the server sends. */
  lemma CoilBytesAreSent(db: Db, a: u16, q: u16)
    requires Sized(db) && 1 <= q && a + q <= BITFIELD_MAX
    ensures Execute(db, db.id, 1, false, ReadBits(a, q)) == Answer(NoError, Send(BitsPdu(1, CoilBytes(db, a, q))), db)
  {
  }

  /** Bit k of the response is the coil with address k if that coil was asked for, and zero otherwise. */
  lemma CoilBits(db: Db, a: u16, q: u16, k: nat)
    requires Sized(db) && 1 <= q && a + q <= BITFIELD_MAX && k < 8 * ((q + 7) / 8)
    ensures BitsOf(CoilBytes(db, a, q))[k] == (a as int <= k < a as int + q as int && db.coils[k])
  {
    var out := CoilsOut(db.coils, a, q);
    BitsOfPackBits(out);
    assert BitsOf(PackBits(out))[k] == out[k];
    assert CoilBytes(db, a, q)[k / 8] == PackBits(out)[k / 8];
  }

  /** The standard's layout: coil a+k at bit k, zeros behind the last. */
  ghost predicate Aligned(db: Db, a: u16, q: u16)
    requires Sized(db) && 1 <= q && a + q <= BITFIELD_MAX
  {
    forall k :: 0 <= k < 8 * ((q + 7) / 8) ==>
      BitsOf(CoilBytes(db, a, q))[k] == (k < q as int && db.coils[a as int + k])
  }

  /** The layout is right for every content of the store exactly when the read starts at address 0. */
  lemma AlignedIffAtZero(a: u16, q: u16)
    requires 1 <= q && a + q <= BITFIELD_MAX
    ensures (forall db: Db :: Sized(db) ==> Aligned(db, a, q)) <==> a == 0
  {
    if a == 0 {
      forall db: Db, k | Sized(db) && 0 <= k < 8 * ((q + 7) / 8)
        ensures BitsOf(CoilBytes(db, a, q))[k] == (k < q as int && db.coils[a as int + k])
      {
        CoilBits(db, a, q, k);
      }
    } else {
      var db := Db(0, seq(8 * COIL_BUF_SIZE, _ => true), seq(REG_BUF_SIZE, _ => 0), seq(REG_BUF_SIZE, _ => 0));
      CoilBits(db, a, q, 0);
      assert !Aligned(db, a, q);
    }
  }

  /** Write Multiple Coils changes exactly the addressed coils, whatever their address. */
  lemma WriteThenCoil(db: Db, a: u16, q: u16, data: seq<u8>, k: nat)
    requires Sized(db) && 1 <= q <= 0x07B0 && a + q <= 8 * COIL_BUF_SIZE && |data| == ((q + 7) / 8) as int
      && k < 8 * COIL_BUF_SIZE
    ensures var ans := Execute(db, db.id, 15, false, WriteCoils(a, q, data));
      && ans.err == NoError && Sized(ans.db) && ans.db.regs == db.regs && ans.db.inputs == db.inputs
      && ans.db.coils[k] == if a as int <= k < a as int + q as int then BitsOf(data)[k - a as int] else db.coils[k]
  {
  }

  /** Coils written from address 0 read back as they were written, with zeros for the padding bits. */
  lemma WriteReadAtZero(db: Db, q: u16, data: seq<u8>, k: nat)
    requires Sized(db) && 1 <= q <= 0x07B0 && |data| == ((q + 7) / 8) as int && k < 8 * |data|
    ensures var after := Execute(db, db.id, 15, false, WriteCoils(0, q, data)).db;
      Sized(after) && BitsOf(CoilBytes(after, 0, q))[k] == (k < q as int && BitsOf(data)[k])
  {
    WriteThenCoil(db, 0, q, data, k);
    CoilBits(Execute(db, db.id, 15, false, WriteCoils(0, q, data)).db, 0, q, k);
  }
}
