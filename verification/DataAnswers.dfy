/**
 What the server answers to a data request, said of the bytes of the message alone: which exception refuses it, what
 a normal response holds, and what becomes of the store. Every number is written out.
 */
module DataAnswers {
  import opened Wrappers
  import opened Bytes
  import opened Bitfield
  import opened Adu
  import opened Store
  import opened Protocol
  import opened DeviceId
  import opened Files
  import opened Requests
  import opened CoilReads
  import opened Poll
  import opened Answerable

  /** The word at i of a message, high byte first. */
  function Big(v: seq<u8>, i: nat): (w: u16)
    requires i + 2 <= |v|
  {
    v[i] as int * 256 + v[i + 1] as int
  }

  /** Whether the last byte of the fixed part is a byte count that matches, for functions with data. */
  predicate CountMatches(fc: u8, v: seq<u8>, h: nat)
    requires |v| >= h + FixedSize(fc)
  {
    if fc == 15 then v[h + 4] as int == (Big(v, h + 2) + 7) / 8
    else if fc == 16 then v[h + 4] as int == 2 * Big(v, h + 2)
    else fc == 23 ==> v[h + 8] as int == 2 * Big(v, h + 6)
  }

  /** A quantity or value outside the limits of its function. */
  predicate BadValue(fc: u8, v: seq<u8>, h: nat)
    requires IsDataFunction(fc) && |v| >= h + FixedSize(fc)
  {
    var q := Big(v, h + 2);
    if fc == 1 || fc == 2 then q < 1 || q > 2000
    else if fc == 3 || fc == 4 then q < 1 || q > 125
    else if fc == 5 then q != 0 && q != 0xFF00
    else if fc == 6 then false
    else if fc == 15 then q < 1 || q > 1968
    else if fc == 16 then q < 1 || q > 123
    else q < 1 || q > 125 || Big(v, h + 6) < 1 || Big(v, h + 6) > 123 || !CountMatches(fc, v, h)
  }

  /** A range that leaves the 65536 addresses there are. */
  predicate BadRange(fc: u8, v: seq<u8>, h: nat)
    requires IsDataFunction(fc) && |v| >= h + FixedSize(fc)
  {
    fc != 5 && fc != 6 && (Big(v, h) + Big(v, h + 2) > 65536 || (fc == 23 && Big(v, h + 4) + Big(v, h + 6) > 65536))
  }

  /** The exception that refuses a message before the store is asked, or zero. A byte count is compared last. */
  function Refusal(fc: u8, v: seq<u8>, h: nat): u8
    requires IsDataFunction(fc) && |v| >= h + FixedSize(fc)
  {
    if BadValue(fc, v, h) then 3
    else if BadRange(fc, v, h) then 2
    else if !CountMatches(fc, v, h) then 3
    else if fc == 2 then 1
    else 0
  }

  /** The range a message reads or, for writes, writes starts behind its table of 256 registers or 2048 coils. */
  predicate StartsBehind(fc: u8, v: seq<u8>, h: nat)
    requires IsDataFunction(fc) && |v| >= h + FixedSize(fc)
  {
    if fc == 1 || fc == 5 || fc == 15 then Big(v, h) >= 2056
    else if fc == 23 then Big(v, h + 4) > 256
    else Big(v, h) > 256
  }

  /** That range lies inside its table; a coil read inside the 2000 bits of the response's buffer. */
  predicate LiesInside(fc: u8, v: seq<u8>, h: nat)
    requires IsDataFunction(fc) && |v| >= h + FixedSize(fc)
  {
    if fc == 1 then Big(v, h) + Big(v, h + 2) <= 2000
    else if fc == 5 then Big(v, h) < 2048
    else if fc == 6 then Big(v, h) < 256
    else if fc == 15 then Big(v, h) + Big(v, h + 2) <= 2048
    else if fc == 23 then Big(v, h + 4) + Big(v, h + 6) <= 256
    else Big(v, h) + Big(v, h + 2) <= 256
  }

  //////////////////////////////////////////////////////////////////////////////
  // The request in a message
  //////////////////////////////////////////////////////////////////////////////

  /** The data functions' messages as requests. */
  function RequestIn(t: Transport, fc: u8, v: seq<u8>): (req: Request)
    requires IsDataFunction(fc) && Taken(t, fc, v) && |v| >= HeaderSize(t) && (t.Tcp? ==> |v| == BUF_SIZE)
    ensures Announces(fc, req)
  {
    var h := HeaderSize(t);
    if fc <= 6 then WordsRequest(fc, Big(v, h), Big(v, h + 2))
    else if fc == 15 then
      CountInside(t, fc, v);
      WriteCoils(Big(v, h), Big(v, h + 2), v[h + 5..h + 5 + v[h + 4]])
    else if fc == 16 then
      CountInside(t, fc, v);
      WriteRegs(Big(v, h), Big(v, h + 2), v[h + 4], RegsAt(v, h + 5, v[h + 4]))
    else
      CountInside(t, fc, v);
      ReadWriteRegs(Big(v, h), Big(v, h + 2), Big(v, h + 4), Big(v, h + 6), v[h + 8], RegsAt(v, h + 9, v[h + 8]))
  }

  lemma CountInside(t: Transport, fc: u8, v: seq<u8>)
    requires IsDataFunction(fc) && Taken(t, fc, v) && |v| >= HeaderSize(t) && (t.Tcp? ==> |v| == BUF_SIZE)
    ensures HeaderSize(t) + FixedSize(fc) + ByteCount(t, fc, v) <= |v| && ByteCount(t, fc, v) <= MaxCount(fc)
  {
  }

  lemma RequestParsed(t: Transport, fc: u8, v: seq<u8>)
    requires IsDataFunction(fc) && Taken(t, fc, v) && |v| >= HeaderSize(t) && (t.Tcp? ==> |v| == BUF_SIZE)
    ensures Parse(t, fc, v) == Read(RequestIn(t, fc, v))
  {
    hide Taken, RegsAt, FooterError, RegsFooterError;
    ParsedIffTaken(t, fc, v);
  }

  //////////////////////////////////////////////////////////////////////////////
  // Exceptions
  //////////////////////////////////////////////////////////////////////////////

  /** The handler's answer is the refusal, and without one no exception but 4. */
  ghost predicate RefusedAs(ans: Answer, fc: u8, db: Db, code: u8) {
    if code != 0 then ans == Answer(NoError, Send([(fc + 0x80) % 0x100, code]), db)
    else ans.reply.Send? && ans.reply.pdu[0] != fc ==> ans.reply.pdu == [(fc + 0x80) % 0x100, 4]
  }

  lemma ReadRefused(t: Transport, unit: u8, fc: u8, broadcast: bool, db: Db, v: seq<u8>)
    requires 1 <= fc <= 4 && Sized(db) && Taken(t, fc, v) && |v| >= HeaderSize(t) && (t.Tcp? ==> |v| == BUF_SIZE)
    ensures RefusedAs(Execute(db, unit, fc, broadcast, RequestIn(t, fc, v)), fc, db, Refusal(fc, v, HeaderSize(t)))
  {
    hide BitsPdu, RegsPdu, CoilsOut, Taken;
  }

  lemma WriteOneRefused(t: Transport, unit: u8, fc: u8, broadcast: bool, db: Db, v: seq<u8>)
    requires 5 <= fc <= 6 && Sized(db) && Taken(t, fc, v) && |v| >= HeaderSize(t) && (t.Tcp? ==> |v| == BUF_SIZE)
    ensures RefusedAs(Execute(db, unit, fc, broadcast, RequestIn(t, fc, v)), fc, db, Refusal(fc, v, HeaderSize(t)))
  {
    hide EchoPdu, Taken;
  }

  lemma WriteManyRefused(t: Transport, unit: u8, fc: u8, broadcast: bool, db: Db, v: seq<u8>)
    requires 15 <= fc <= 16 && Sized(db) && Taken(t, fc, v) && |v| >= HeaderSize(t) && (t.Tcp? ==> |v| == BUF_SIZE)
    ensures ValidRequest(RequestIn(t, fc, v))
    ensures RefusedAs(Execute(db, unit, fc, broadcast, RequestIn(t, fc, v)), fc, db, Refusal(fc, v, HeaderSize(t)))
  {
    CountInside(t, fc, v);
    hide EchoPdu, Taken, Splice, BitsOf, RegsAt;
  }

  lemma ReadWriteRefused(t: Transport, unit: u8, broadcast: bool, db: Db, v: seq<u8>)
    requires Sized(db) && Taken(t, 23, v) && |v| >= HeaderSize(t) && (t.Tcp? ==> |v| == BUF_SIZE)
    ensures ValidRequest(RequestIn(t, 23, v))
    ensures RefusedAs(Execute(db, unit, 23, broadcast, RequestIn(t, 23, v)), 23, db, Refusal(23, v, HeaderSize(t)))
  {
    CountInside(t, 23, v);
    hide RegsPdu, Taken, Splice, RegsAt;
  }

  /** The counts of a request are those of its data. */
  predicate ValidRequest(req: Request) {
    && (req.WriteCoils? ==> |req.data| <= 246)
    && (req.WriteRegs? || req.ReadWriteRegs? ==> |req.regs| == req.byteCount / 2)
  }

  lemma DataRefused(t: Transport, unit: u8, fc: u8, broadcast: bool, db: Db, v: seq<u8>)
    requires IsDataFunction(fc) && Sized(db) && Taken(t, fc, v) && |v| >= HeaderSize(t) && (t.Tcp? ==> |v| == BUF_SIZE)
    ensures ValidRequest(RequestIn(t, fc, v))
    ensures RefusedAs(Execute(db, unit, fc, broadcast, RequestIn(t, fc, v)), fc, db, Refusal(fc, v, HeaderSize(t)))
  {
    hide Execute, RefusedAs, Refusal, Taken;
    if fc <= 4 {
      ReadRefused(t, unit, fc, broadcast, db, v);
    } else if fc <= 6 {
      WriteOneRefused(t, unit, fc, broadcast, db, v);
    } else if fc <= 16 {
      WriteManyRefused(t, unit, fc, broadcast, db, v);
    } else {
      ReadWriteRefused(t, unit, broadcast, db, v);
    }
  }

  /**
   A message that was read to its end is refused with exception 1, 2 or 3, to its sender or to a broadcast, if and
   only if Refusal says so of its bytes. The store is then as it was.
   */
  lemma RefusedIff(t: Transport, tid: u16, unit: u8, fc: u8, broadcast: bool, db: Db, d: Option<DeviceInfo>,
                   p: Option<FilePolicy>, v: seq<u8>, stale: seq<u8>, code: u8)
    requires IsDataFunction(fc) && Taken(t, fc, v) && 1 <= code <= 3
    requires Sized(db) && (d.Some? ==> Proper(d.value)) && |stale| == BUF_SIZE
    requires |v| >= HeaderSize(t) && (t.Tcp? ==> |v| == BUF_SIZE)
    ensures
      var served := Serve(t, tid, unit, fc, broadcast, db, d, p, v, stale);
      && (served.ans.reply == Send([fc + 0x80, code]) <==> Refusal(fc, v, HeaderSize(t)) == code)
      && (Refusal(fc, v, HeaderSize(t)) == code ==>
            served.ans.err == NoError && served.ans.db == db && served.calls == [])
  {
    hide Execute, Parse, Refusal, Taken;
    RequestParsed(t, fc, v);
    DataRefused(t, unit, fc, broadcast, db, v);
  }

  //////////////////////////////////////////////////////////////////////////////
  // Exception 4 and normal responses
  //////////////////////////////////////////////////////////////////////////////

  /** The register at i after q registers at a were written from the bytes at p of the message. */
  function RegisterAfter(v: seq<u8>, p: nat, a: nat, q: nat, old_: seq<u16>, i: nat): u16
    requires p + 2 * q <= |v| && i < |old_|
  {
    if a <= i < a + q then Big(v, p + 2 * (i - a)) else old_[i]
  }

  /** The coil at i after q coils at a were written from the bits at p, lowest bit first. */
  predicate CoilAfter(v: seq<u8>, p: nat, a: nat, q: nat, old_: seq<bool>, i: nat)
    requires p + (q + 7) / 8 <= |v| && i < |old_|
  {
    if a <= i < a + q then BitOf(v[p + (i - a) / 8], (i - a) % 8) else old_[i]
  }

  /** The data of a message are all there. */
  predicate DataInside(fc: u8, v: seq<u8>, h: nat)
    requires |v| >= h + FixedSize(fc)
  {
    && (fc == 15 ==> h + 5 + (Big(v, h + 2) + 7) / 8 <= |v|)
    && (fc == 16 ==> h + 5 + 2 * Big(v, h + 2) <= |v|)
    && (fc == 23 ==> h + 9 + 2 * Big(v, h + 6) <= |v|)
  }

  /** A register after a message that was not refused and stays inside its table. */
  function RegAfter(fc: u8, v: seq<u8>, h: nat, regs: seq<u16>, i: nat): u16
    requires IsDataFunction(fc) && |v| >= h + FixedSize(fc) && DataInside(fc, v, h) && i < |regs|
  {
    if fc == 6 then if i == Big(v, h) as int then Big(v, h + 2) else regs[i]
    else if fc == 16 then RegisterAfter(v, h + 5, Big(v, h), Big(v, h + 2), regs, i)
    else if fc == 23 then RegisterAfter(v, h + 9, Big(v, h + 4), Big(v, h + 6), regs, i)
    else regs[i]
  }

  predicate BitAfter(fc: u8, v: seq<u8>, h: nat, coils: seq<bool>, i: nat)
    requires IsDataFunction(fc) && |v| >= h + FixedSize(fc) && DataInside(fc, v, h) && i < |coils|
  {
    if fc == 5 then if i == Big(v, h) as int then Big(v, h + 2) != 0 else coils[i]
    else if fc == 15 then CoilAfter(v, h + 5, Big(v, h), Big(v, h + 2), coils, i)
    else coils[i]
  }

  /** The store after such a message. */
  ghost predicate Stored(fc: u8, v: seq<u8>, h: nat, before: Db, after: Db)
    requires IsDataFunction(fc) && Sized(before) && |v| >= h + FixedSize(fc) && DataInside(fc, v, h)
  {
    && Sized(after) && after.id == before.id && after.inputs == before.inputs
    && (forall i :: 0 <= i < 256 ==> after.regs[i] == RegAfter(fc, v, h, before.regs, i))
    && (forall i :: 0 <= i < 2048 ==> after.coils[i] == BitAfter(fc, v, h, before.coils, i))
  }

  /** The bytes of a response with q registers from a of a table on. */
  ghost predicate ShowsRegisters(pdu: seq<u8>, fc: u8, table: seq<u16>, a: nat, q: nat) {
    && a + q <= |table| && |pdu| == 2 + 2 * q && pdu[0] == fc && pdu[1] as int == 2 * q
    && forall k :: 0 <= k < q ==> Big(pdu, 2 + 2 * k) == table[a + k]
  }

  /** Bit b of data byte j is the coil with that address if it was asked for, and zero otherwise. */
  predicate CoilShown(pdu: seq<u8>, coils: seq<bool>, a: nat, q: nat, j: nat, b: nat)
    requires 2 + j < |pdu| && a + q <= |coils|
  {
    BitOf(pdu[2 + j], b) == (a <= 8 * j + b < a + q && coils[8 * j + b])
  }

  /** The bytes of a response to a coil read: each coil at the bit of its own address. */
  ghost predicate ShowsCoils(pdu: seq<u8>, coils: seq<bool>, a: nat, q: nat) {
    var n := (q + 7) / 8;
    && a + q <= |coils| && |pdu| == 2 + n && pdu[0] == 1 && pdu[1] as int == n
    && forall j, b :: 0 <= j < n && 0 <= b < 8 ==> CoilShown(pdu, coils, a, q, j, b)
  }

  /** The normal response, given the store it leaves. */
  ghost predicate Responds(fc: u8, v: seq<u8>, h: nat, after: Db, pdu: seq<u8>)
    requires IsDataFunction(fc) && |v| >= h + FixedSize(fc)
  {
    if fc == 1 then ShowsCoils(pdu, after.coils, Big(v, h), Big(v, h + 2))
    else if fc == 4 then ShowsRegisters(pdu, fc, after.inputs, Big(v, h), Big(v, h + 2))
    else if fc == 3 || fc == 23 then ShowsRegisters(pdu, fc, after.regs, Big(v, h), Big(v, h + 2))
    else pdu == [fc] + v[h..h + 4]
  }

  /** The read half of function 23, or nothing for the others. */
  predicate ReadsInside(fc: u8, v: seq<u8>, h: nat)
    requires IsDataFunction(fc) && |v| >= h + FixedSize(fc)
  {
    fc == 23 ==> Big(v, h) + Big(v, h + 2) <= 256
  }

  predicate ReadsBehind(fc: u8, v: seq<u8>, h: nat)
    requires IsDataFunction(fc) && |v| >= h + FixedSize(fc)
  {
    fc == 23 && LiesInside(fc, v, h) && Big(v, h) > 256
  }

  lemma DataSizes(t: Transport, fc: u8, v: seq<u8>)
    requires IsDataFunction(fc) && Taken(t, fc, v) && |v| >= HeaderSize(t) && (t.Tcp? ==> |v| == BUF_SIZE)
    requires Refusal(fc, v, HeaderSize(t)) == 0
    ensures |v| >= HeaderSize(t) + FixedSize(fc) && DataInside(fc, v, HeaderSize(t))
  {
    CountInside(t, fc, v);
    hide Taken;
  }

  /** The registers on the wire, word by word. */
  lemma RegsShown(fc: u8, table: seq<u16>, a: nat, q: nat)
    requires a + q <= |table| && q <= 125
    ensures ShowsRegisters(RegsPdu(fc, table[a..a + q]), fc, table, a, q)
  {
    var regs := table[a..a + q];
    var pdu, bytes := RegsPdu(fc, regs), RegsToBytes(regs);
    RegsRoundTrip(regs);
    forall k | 0 <= k < q ensures Big(pdu, 2 + 2 * k) == table[a + k] {
      assert pdu[2 + 2 * k] == bytes[2 * k] && pdu[3 + 2 * k] == bytes[2 * k + 1];
      assert BytesToRegs(bytes)[k] == regs[k] == table[a + k];
    }
  }

  lemma CoilsShown(db: Db, a: u16, q: u16)
    requires Sized(db) && 1 <= q && a + q <= 2000
    ensures ShowsCoils(BitsPdu(1, CoilBytes(db, a, q)), db.coils, a, q)
  {
    hide BitOf, CoilBytes;
    var bytes := CoilBytes(db, a, q);
    var pdu := BitsPdu(1, bytes);
    forall j, b | 0 <= j < (q + 7) / 8 && 0 <= b < 8
      ensures CoilShown(pdu, db.coils, a, q, j, b)
    {
      var k := 8 * j + b;
      CoilBits(db, a, q, k);
      assert k / 8 == j && k % 8 == b;
      assert BitsOf(bytes)[k] == BitOf(bytes[j], b) && pdu[2 + j] == bytes[j];
    }
  }

  /** What a handler that asks the store makes of a message. */
  ghost predicate AnsweredAs(ans: Answer, t: Transport, unit: u8, fc: u8, broadcast: bool, db: Db, v: seq<u8>)
    requires IsDataFunction(fc) && Taken(t, fc, v) && |v| >= HeaderSize(t) && (t.Tcp? ==> |v| == BUF_SIZE) && Sized(db)
    requires Refusal(fc, v, HeaderSize(t)) == 0
  {
    var h := HeaderSize(t);
    DataSizes(t, fc, v);
    && (StartsBehind(fc, v, h) ==> ans == Answer(NoError, Send([fc + 0x80, 4]), db))
    && (LiesInside(fc, v, h) && unit == db.id ==>
          && (broadcast || ReadsInside(fc, v, h) ==>
                && ans.err == NoError && Stored(fc, v, h, db, ans.db)
                && (if broadcast then ans.reply == Silent
                   else ans.reply.Send? && Responds(fc, v, h, ans.db, ans.reply.pdu)))
          && (!broadcast && ReadsBehind(fc, v, h) ==>
                ans.err == NoError && Stored(fc, v, h, db, ans.db) && ans.reply == Send([fc + 0x80, 4])))
  }

  lemma ReadAnswered(t: Transport, unit: u8, fc: u8, broadcast: bool, db: Db, v: seq<u8>)
    requires 1 <= fc <= 4 && Sized(db) && Taken(t, fc, v) && |v| >= HeaderSize(t) && (t.Tcp? ==> |v| == BUF_SIZE)
    requires Refusal(fc, v, HeaderSize(t)) == 0
    ensures AnsweredAs(Execute(db, unit, fc, broadcast, RequestIn(t, fc, v)), t, unit, fc, broadcast, db, v)
  {
    hide BitsPdu, RegsPdu, CoilsOut, Taken, ShowsCoils, ShowsRegisters;
    var h := HeaderSize(t);
    CountInside(t, fc, v);
    if LiesInside(fc, v, h) {
      if fc == 1 {
        CoilsShown(db, Big(v, h), Big(v, h + 2));
      } else {
        RegsShown(fc, if fc == 3 then db.regs else db.inputs, Big(v, h), Big(v, h + 2));
      }
    }
  }

  lemma WriteOneAnswered(t: Transport, unit: u8, fc: u8, broadcast: bool, db: Db, v: seq<u8>)
    requires 5 <= fc <= 6 && Sized(db) && Taken(t, fc, v) && |v| >= HeaderSize(t) && (t.Tcp? ==> |v| == BUF_SIZE)
    requires Refusal(fc, v, HeaderSize(t)) == 0
    ensures AnsweredAs(Execute(db, unit, fc, broadcast, RequestIn(t, fc, v)), t, unit, fc, broadcast, db, v)
  {
    EchoIsCopy(fc, v, HeaderSize(t));
    hide EchoPdu, Taken;
  }

  lemma EchoIsCopy(fc: u8, v: seq<u8>, h: nat)
    requires h + 4 <= |v|
    ensures EchoPdu(fc, Big(v, h), Big(v, h + 2)) == [fc] + v[h..h + 4]
  {
  }

  lemma CoilsStored(v: seq<u8>, h: nat, db: Db, n: nat)
    requires Sized(db) && |v| >= h + 5 && n == (Big(v, h + 2) + 7) / 8 && h + 5 + n <= |v|
    requires Big(v, h) + Big(v, h + 2) <= 2048
    ensures Stored(15, v, h, db, db.(coils := Splice(db.coils, Big(v, h),
                                                     BitsOf(v[h + 5..h + 5 + n])[..Big(v, h + 2)])))
  {
    var a, q, data := Big(v, h), Big(v, h + 2), v[h + 5..h + 5 + n];
    var coils := Splice(db.coils, a, BitsOf(data)[..q]);
    hide BitOf;
    forall i | 0 <= i < 2048 ensures coils[i] == CoilAfter(v, h + 5, a, q, db.coils, i) {
      if a as int <= i < a as int + q as int {
        var k := i - a;
        assert coils[i] == BitsOf(data)[k] == BitOf(data[k / 8], k % 8);
        assert data[k / 8] == v[h + 5 + k / 8];
      }
    }
  }

  lemma RegsStored(fc: u8, v: seq<u8>, h: nat, p: nat, db: Db, a: nat, q: nat)
    requires Sized(db) && (fc == 16 || fc == 23) && |v| >= h + FixedSize(fc) && DataInside(fc, v, h)
    requires if fc == 16 then p == h + 5 && a == Big(v, h) && q == Big(v, h + 2)
             else p == h + 9 && a == Big(v, h + 4) && q == Big(v, h + 6)
    requires a + q <= 256 && 2 * q < 256
    ensures |RegsAt(v, p, 2 * q)| == q && Stored(fc, v, h, db, db.(regs := Splice(db.regs, a, RegsAt(v, p, 2 * q))))
  {
    var data := RegsAt(v, p, 2 * q);
    var regs := Splice(db.regs, a, data);
    assert 2 * (2 * q / 2) == 2 * q;
    forall i | 0 <= i < 256 ensures regs[i] == RegisterAfter(v, p, a, q, db.regs, i) {
      if a <= i < a + q {
        var k := i - a;
        var s := v[p..p + 2 * q];
        assert data[k] == WordAt(s, 2 * k) && s[2 * k] == v[p + 2 * k] && s[2 * k + 1] == v[p + 2 * k + 1];
      }
    }
  }

  lemma WriteCoilsAnswered(t: Transport, unit: u8, broadcast: bool, db: Db, v: seq<u8>)
    requires Sized(db) && Taken(t, 15, v) && |v| >= HeaderSize(t) && (t.Tcp? ==> |v| == BUF_SIZE)
    requires Refusal(15, v, HeaderSize(t)) == 0
    ensures ValidRequest(RequestIn(t, 15, v))
    ensures AnsweredAs(Execute(db, unit, 15, broadcast, RequestIn(t, 15, v)), t, unit, 15, broadcast, db, v)
  {
    hide EchoPdu, Taken, Stored, Splice, BitsOf;
    var h := HeaderSize(t);
    CountInside(t, 15, v);
    EchoIsCopy(15, v, h);
    if LiesInside(15, v, h) {
      CoilsStored(v, h, db, v[h + 4] as int);
    }
  }

  lemma WriteRegsAnswered(t: Transport, unit: u8, broadcast: bool, db: Db, v: seq<u8>)
    requires Sized(db) && Taken(t, 16, v) && |v| >= HeaderSize(t) && (t.Tcp? ==> |v| == BUF_SIZE)
    requires Refusal(16, v, HeaderSize(t)) == 0
    ensures ValidRequest(RequestIn(t, 16, v))
    ensures AnsweredAs(Execute(db, unit, 16, broadcast, RequestIn(t, 16, v)), t, unit, 16, broadcast, db, v)
  {
    hide EchoPdu, Taken, Stored, Splice, RegsAt;
    var h := HeaderSize(t);
    CountInside(t, 16, v);
    EchoIsCopy(16, v, h);
    if LiesInside(16, v, h) {
      RegsStored(16, v, h, h + 5, db, Big(v, h), Big(v, h + 2));
    }
  }

  lemma ReadWriteAnswered(t: Transport, unit: u8, broadcast: bool, db: Db, v: seq<u8>)
    requires Sized(db) && Taken(t, 23, v) && |v| >= HeaderSize(t) && (t.Tcp? ==> |v| == BUF_SIZE)
    requires Refusal(23, v, HeaderSize(t)) == 0
    ensures ValidRequest(RequestIn(t, 23, v))
    ensures AnsweredAs(Execute(db, unit, 23, broadcast, RequestIn(t, 23, v)), t, unit, 23, broadcast, db, v)
  {
    hide RegsPdu, Taken, ShowsRegisters, Stored, Splice, RegsAt;
    var h := HeaderSize(t);
    CountInside(t, 23, v);
    if LiesInside(23, v, h) {
      RegsStored(23, v, h, h + 9, db, Big(v, h + 4), Big(v, h + 6));
      if ReadsInside(23, v, h) {
        RegsShown(23, Splice(db.regs, Big(v, h + 4), RegsAt(v, h + 9, v[h + 8])), Big(v, h), Big(v, h + 2));
      }
    }
  }

  lemma DataAnswered(t: Transport, unit: u8, fc: u8, broadcast: bool, db: Db, v: seq<u8>)
    requires IsDataFunction(fc) && Sized(db) && Taken(t, fc, v) && |v| >= HeaderSize(t) && (t.Tcp? ==> |v| == BUF_SIZE)
    requires Refusal(fc, v, HeaderSize(t)) == 0
    ensures ValidRequest(RequestIn(t, fc, v))
    ensures AnsweredAs(Execute(db, unit, fc, broadcast, RequestIn(t, fc, v)), t, unit, fc, broadcast, db, v)
  {
    hide Execute, AnsweredAs, Refusal, Taken;
    if fc <= 4 {
      ReadAnswered(t, unit, fc, broadcast, db, v);
    } else if fc <= 6 {
      WriteOneAnswered(t, unit, fc, broadcast, db, v);
    } else if fc == 15 {
      WriteCoilsAnswered(t, unit, broadcast, db, v);
    } else if fc == 16 {
      WriteRegsAnswered(t, unit, broadcast, db, v);
    } else {
      ReadWriteAnswered(t, unit, broadcast, db, v);
    }
  }

  /**
   A message that is not refused is answered with exception 4 if its range starts behind the table, and if it lies
   inside the table of the unit addressed, with the response Responds describes, or not at all if it is a broadcast;
   the store is then the one Stored describes. Function 23 stores first, and answers with exception 4 if only its
   read starts behind.
   */
  lemma ServedAs(t: Transport, tid: u16, unit: u8, fc: u8, broadcast: bool, db: Db, d: Option<DeviceInfo>,
                 p: Option<FilePolicy>, v: seq<u8>, stale: seq<u8>)
    requires IsDataFunction(fc) && Taken(t, fc, v) && Sized(db) && (d.Some? ==> Proper(d.value)) && |stale| == BUF_SIZE
    requires |v| >= HeaderSize(t) && (t.Tcp? ==> |v| == BUF_SIZE) && Refusal(fc, v, HeaderSize(t)) == 0
    ensures var served := Serve(t, tid, unit, fc, broadcast, db, d, p, v, stale);
      AnsweredAs(served.ans, t, unit, fc, broadcast, db, v) && served.calls == []
  {
    hide Execute, Parse, Refusal, Taken, AnsweredAs;
    RequestParsed(t, fc, v);
    DataAnswered(t, unit, fc, broadcast, db, v);
  }

  /**
   A function code the server does not have is refused with exception 1, whatever follows it, and not to a broadcast.
   */
  lemma UnknownServed(t: Transport, tid: u16, unit: u8, fc: u8, broadcast: bool, db: Db, d: Option<DeviceInfo>,
                      p: Option<FilePolicy>, v: seq<u8>, stale: seq<u8>)
    requires fc !in {1, 2, 3, 4, 5, 6, 15, 16, 20, 21, 23, 43} && Sized(db) && (d.Some? ==> Proper(d.value))
    requires |v| >= HeaderSize(t) && (t.Tcp? ==> |v| == BUF_SIZE) && |stale| == BUF_SIZE
    ensures var served := Serve(t, tid, unit, fc, broadcast, db, d, p, v, stale);
      && served.ans.err == NoError && served.ans.db == db && served.calls == []
      && served.ans.reply == if broadcast then Silent else Send([(fc as int + 128) % 256, 1])
  {
  }

  /** A broadcast is answered if and only if it is refused, by the handler or by an address behind the table. */
  lemma BroadcastAnswered(t: Transport, tid: u16, unit: u8, fc: u8, db: Db, d: Option<DeviceInfo>,
                          p: Option<FilePolicy>, v: seq<u8>, stale: seq<u8>)
    requires IsDataFunction(fc) && Taken(t, fc, v) && Sized(db) && (d.Some? ==> Proper(d.value)) && |stale| == BUF_SIZE
    requires |v| >= HeaderSize(t) && (t.Tcp? ==> |v| == BUF_SIZE)
    ensures var ans := Serve(t, tid, unit, fc, true, db, d, p, v, stale).ans;
      ans.reply == Silent <==> Refusal(fc, v, HeaderSize(t)) == 0 && !StartsBehind(fc, v, HeaderSize(t))
  {
    hide Execute, Parse, Refusal, Taken, AnsweredAs, StartsBehind;
    RequestParsed(t, fc, v);
    CountInside(t, fc, v);
    DataRefused(t, unit, fc, true, db, v);
    if Refusal(fc, v, HeaderSize(t)) == 0 {
      DataAnswered(t, unit, fc, true, db, v);
      SilentUnlessBehind(t, unit, fc, db, v);
    }
  }

  lemma SilentUnlessBehind(t: Transport, unit: u8, fc: u8, db: Db, v: seq<u8>)
    requires IsDataFunction(fc) && Sized(db) && Taken(t, fc, v) && |v| >= HeaderSize(t) && (t.Tcp? ==> |v| == BUF_SIZE)
    requires ValidRequest(RequestIn(t, fc, v)) && Refusal(fc, v, HeaderSize(t)) == 0
    ensures |v| >= HeaderSize(t) + FixedSize(fc)
    ensures Execute(db, unit, fc, true, RequestIn(t, fc, v)).reply == Silent <==> !StartsBehind(fc, v, HeaderSize(t))
  {
    hide Execute, Refusal, Taken, StartsBehind;
    CountInside(t, fc, v);
    if fc <= 6 {
      OneSilentUnlessBehind(t, unit, fc, db, v);
    } else {
      ManySilentUnlessBehind(t, unit, fc, db, v);
    }
  }

  lemma OneSilentUnlessBehind(t: Transport, unit: u8, fc: u8, db: Db, v: seq<u8>)
    requires 1 <= fc <= 6 && Sized(db) && Taken(t, fc, v) && |v| >= HeaderSize(t) && (t.Tcp? ==> |v| == BUF_SIZE)
    requires Refusal(fc, v, HeaderSize(t)) == 0
    ensures Execute(db, unit, fc, true, RequestIn(t, fc, v)).reply == Silent <==> !StartsBehind(fc, v, HeaderSize(t))
  {
    hide BitsPdu, RegsPdu, EchoPdu, CoilsOut, Taken;
  }

  lemma ManySilentUnlessBehind(t: Transport, unit: u8, fc: u8, db: Db, v: seq<u8>)
    requires IsDataFunction(fc) && fc >= 15 && Sized(db)
    requires Taken(t, fc, v) && |v| >= HeaderSize(t) && (t.Tcp? ==> |v| == BUF_SIZE)
    requires ValidRequest(RequestIn(t, fc, v)) && Refusal(fc, v, HeaderSize(t)) == 0
    ensures Execute(db, unit, fc, true, RequestIn(t, fc, v)).reply == Silent <==> !StartsBehind(fc, v, HeaderSize(t))
  {
    CountInside(t, fc, v);
    hide RegsPdu, EchoPdu, Taken, Splice, RegsAt, BitsOf;
  }
}
