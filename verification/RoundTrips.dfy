/** Requests and responses survive the wire: what one side encodes the other decodes, within the same limits. */
module RoundTrips {
  import opened Bytes
  import opened Bitfield
  import opened Adu
  import opened Store
  import opened Protocol
  import opened Responses
  import opened Client

  /** The PDU of a received message, from the byte before position h. */
  lemma PduBytes(t: Transport, v: seq<u8>, tid: u16, unit: u8, pdu: seq<u8>)
    requires |v| >= HeaderSize(t) && |pdu| >= 1 && Carries(t, v, tid, unit, pdu)
    ensures var h := HeaderSize(t);
      && v[h - 1] == pdu[0] && h - 1 + |pdu| <= |v|
      && v[h..h - 1 + |pdu|] == pdu[1..] && FooterError(t, v, h - 1 + |pdu|, h - 1 + |pdu|) == NoError
  {
    var h := HeaderSize(t);
    var w := v[h - 1..h - 1 + |pdu|];
    assert w[0] == v[h - 1] && w[1..] == v[h..h - 1 + |pdu|];
  }

  /** The server reads exactly the request the client wrote: functions 1 to 6. */
  lemma WordsParsed(t: Transport, v: seq<u8>, tid: u16, unit: u8, fc: u8, req: Request)
    requires |v| >= HeaderSize(t) && (t.Tcp? ==> |v| == BUF_SIZE)
    requires Encodable(fc, req) && fc <= 6 && Carries(t, v, tid, unit, RequestPdu(fc, req))
    ensures Parse(t, fc, v) == Read(req)
  {
    var pdu := RequestPdu(fc, req);
    PduBytes(t, v, tid, unit, pdu);
    var b := Second(req);
    assert pdu[1..] == Be16(req.address) + Be16(b) + [];
    TwoWordsAt(v, HeaderSize(t), req.address, b, []);
    hide RequestPdu, WordAt, Be16;
  }

  /** Quantity or value. */
  function Second(req: Request): u16
    requires req.ReadBits? || req.ReadRegs? || req.WriteCoil? || req.WriteReg?
  {
    if req.ReadBits? || req.ReadRegs? then req.quantity else req.value
  }

  /** Two words at p, followed by tail. */
  lemma TwoWordsAt(v: seq<u8>, p: nat, a: u16, b: u16, tail: seq<u8>)
    requires p + 4 + |tail| <= |v| && v[p..p + 4 + |tail|] == Be16(a) + Be16(b) + tail
    ensures WordAt(v, p) == a && WordAt(v, p + 2) == b && v[p + 4..p + 4 + |tail|] == tail
  {
    var w := v[p..p + 4 + |tail|];
    assert w[0] == v[p] && w[1] == v[p + 1] && w[2] == v[p + 2] && w[3] == v[p + 3]
      && w[4..] == v[p + 4..p + 4 + |tail|];
  }

  lemma WriteCoilsParsed(t: Transport, v: seq<u8>, tid: u16, unit: u8, req: Request)
    requires |v| >= HeaderSize(t) && (t.Tcp? ==> |v| == BUF_SIZE)
    requires req.WriteCoils? && Encodable(15, req) && Carries(t, v, tid, unit, RequestPdu(15, req))
    ensures ParseWriteCoils(t, v) == Read(req)
  {
    WriteCoilsFields(t, v, tid, unit, req);
    hide RequestPdu, Carries, WordAt, FooterError;
  }

  lemma WriteCoilsFields(t: Transport, v: seq<u8>, tid: u16, unit: u8, req: Request)
    requires |v| >= HeaderSize(t) && (t.Tcp? ==> |v| == BUF_SIZE)
    requires req.WriteCoils? && Encodable(15, req) && Carries(t, v, tid, unit, RequestPdu(15, req))
    ensures var h, n := HeaderSize(t), |req.data|;
      && h + 5 + n <= |v| && n <= 246
      && WordAt(v, h) == req.address && WordAt(v, h + 2) == req.quantity && v[h + 4] as int == n
      && v[h + 5..h + 5 + n] == req.data && FooterError(t, v, h + 5 + n, h + 5 + n) == NoError
  {
    var pdu, h, tail := RequestPdu(15, req), HeaderSize(t), [|req.data| as u8] + req.data;
    PduBytes(t, v, tid, unit, pdu);
    assert pdu[1..] == Be16(req.address) + Be16(req.quantity) + tail;
    hide RequestPdu, Carries, WordAt, FooterError;
    TwoWordsAt(v, h, req.address, req.quantity, tail);
    CountedAt(v, h + 4, |req.data|, req.data);
  }

  /** A count at p and the bytes it counts. */
  lemma CountedAt(v: seq<u8>, p: nat, n: u8, data: seq<u8>)
    requires p + 1 + |data| <= |v| && v[p..p + 1 + |data|] == [n] + data
    ensures v[p] == n && v[p + 1..p + 1 + |data|] == data
  {
    var w := v[p..p + 1 + |data|];
    assert w[0] == v[p] && w[1..] == v[p + 1..p + 1 + |data|];
  }

  lemma WriteRegsParsed(t: Transport, v: seq<u8>, tid: u16, unit: u8, req: Request)
    requires |v| >= HeaderSize(t) && (t.Tcp? ==> |v| == BUF_SIZE)
    requires req.WriteRegs? && Encodable(16, req) && Carries(t, v, tid, unit, RequestPdu(16, req))
    ensures ParseWriteRegs(t, v) == Read(req)
  {
    WriteRegsFields(t, v, tid, unit, req);
    hide RequestPdu, Carries, WordAt, RegsAt, RegsFooterError;
  }

  lemma WriteRegsFields(t: Transport, v: seq<u8>, tid: u16, unit: u8, req: Request)
    requires |v| >= HeaderSize(t) && (t.Tcp? ==> |v| == BUF_SIZE)
    requires req.WriteRegs? && Encodable(16, req) && Carries(t, v, tid, unit, RequestPdu(16, req))
    ensures var h, n := HeaderSize(t), req.byteCount;
      && h + 5 + n <= |v| && (t.Rtu? ==> h + 5 + n <= BUF_SIZE)
      && WordAt(v, h) == req.address && WordAt(v, h + 2) == req.quantity && v[h + 4] == n
      && RegsFooterError(t, v, h + 5, n) == NoError && RegsAt(v, h + 5, n) == req.regs
  {
    var pdu, h, bytes := RequestPdu(16, req), HeaderSize(t), RegsToBytes(req.regs);
    var tail := [req.byteCount] + bytes;
    PduBytes(t, v, tid, unit, pdu);
    assert pdu[1..] == Be16(req.address) + Be16(req.quantity) + tail;
    hide RequestPdu, Carries, WordAt, RegsAt, RegsFooterError, RegsToBytes, BytesToRegs;
    TwoWordsAt(v, h, req.address, req.quantity, tail);
    RegsCounted(t, v, h + 4, req.byteCount, req.regs);
  }

  /** A byte count and the registers it counts, with a good footer. */
  lemma RegsCounted(t: Transport, v: seq<u8>, p: nat, n: u8, regs: seq<u16>)
    requires n as int == 2 * |regs| && p + 1 + n <= |v| && v[p..p + 1 + n] == [n] + RegsToBytes(regs)
    requires FooterError(t, v, p + 1 + n, p + 1 + n) == NoError
    ensures v[p] == n && RegsAt(v, p + 1, n) == regs && RegsFooterError(t, v, p + 1, n) == NoError
  {
    hide RegsToBytes, BytesToRegs, FooterError;
    CountedAt(v, p, n, RegsToBytes(regs));
    EvenCount(t, v, p + 1, n);
    RegsRoundTrip(regs);
  }

  lemma ReadWriteParsed(t: Transport, v: seq<u8>, tid: u16, unit: u8, req: Request)
    requires |v| >= HeaderSize(t) && (t.Tcp? ==> |v| == BUF_SIZE)
    requires req.ReadWriteRegs? && Encodable(23, req) && Carries(t, v, tid, unit, RequestPdu(23, req))
    ensures ParseReadWrite(t, v) == Read(req)
  {
    ReadWriteFields(t, v, tid, unit, req);
    hide RequestPdu, Carries, WordAt, RegsAt, RegsFooterError;
  }

  lemma ReadWriteFields(t: Transport, v: seq<u8>, tid: u16, unit: u8, req: Request)
    requires |v| >= HeaderSize(t) && (t.Tcp? ==> |v| == BUF_SIZE)
    requires req.ReadWriteRegs? && Encodable(23, req) && Carries(t, v, tid, unit, RequestPdu(23, req))
    ensures var h, n := HeaderSize(t), req.byteCount;
      && h + 9 + n <= |v|
      && WordAt(v, h) == req.readAddress && WordAt(v, h + 2) == req.readQuantity
      && WordAt(v, h + 4) == req.writeAddress && WordAt(v, h + 6) == req.writeQuantity && v[h + 8] == n
      && RegsFooterError(t, v, h + 9, n) == NoError && RegsAt(v, h + 9, n) == req.regs
  {
    var pdu, h, bytes := RequestPdu(23, req), HeaderSize(t), RegsToBytes(req.regs);
    var tail := [req.byteCount] + bytes;
    PduBytes(t, v, tid, unit, pdu);
    assert pdu[1..]
      == Be16(req.readAddress) + Be16(req.readQuantity) + (Be16(req.writeAddress) + Be16(req.writeQuantity) + tail);
    hide RequestPdu, Carries, WordAt, RegsAt, RegsFooterError, RegsToBytes, BytesToRegs;
    TwoWordsAt(v, h, req.readAddress, req.readQuantity, Be16(req.writeAddress) + Be16(req.writeQuantity) + tail);
    TwoWordsAt(v, h + 4, req.writeAddress, req.writeQuantity, tail);
    RegsCounted(t, v, h + 8, req.byteCount, req.regs);
  }

  /**
   Every data request that fits in a PDU, so every one a client call can send, is read by the server as the same
   request.
   */
  lemma RequestRoundTrip(t: Transport, v: seq<u8>, tid: u16, unit: u8, fc: u8, req: Request)
    requires |v| >= HeaderSize(t) && (t.Tcp? ==> |v| == BUF_SIZE)
    requires Encodable(fc, req) && Carries(t, v, tid, unit, RequestPdu(fc, req))
    ensures IsDataFunction(fc) && Parse(t, fc, v) == Read(req)
  {
    hide Carries, RequestPdu, ParseWords, ParseWriteCoils, ParseWriteRegs, ParseReadWrite;
    match req
    case WriteCoils(_, _, _) => WriteCoilsParsed(t, v, tid, unit, req);
    case WriteRegs(_, _, _, _) => WriteRegsParsed(t, v, tid, unit, req);
    case ReadWriteRegs(_, _, _, _, _, _) => ReadWriteParsed(t, v, tid, unit, req);
    case _ => WordsParsed(t, v, tid, unit, fc, req);
  }

  //////////////////////////////////////////////////////////////////////////////
  // Responses
  //////////////////////////////////////////////////////////////////////////////

  /** A response that carries the request's function code passes the response header. */
  lemma HeaderAccepted(t: Transport, v: seq<u8>, tid: u16, unit: u8, pdu: seq<u8>)
    requires |v| >= HeaderSize(t) && (t.Tcp? ==> |v| == BUF_SIZE) && |pdu| >= 1
    requires Carries(t, v, tid, unit, pdu)
    ensures ResHeaderError(t, v, tid, unit, pdu[0]) == NoError
  {
    PduBytes(t, v, tid, unit, pdu);
  }

  /** An exception response is returned as its exception. */
  lemma ExceptionReceived(t: Transport, v: seq<u8>, tid: u16, unit: u8, fc: u8, code: u8)
    requires |v| >= HeaderSize(t) && (t.Tcp? ==> |v| == BUF_SIZE)
    requires fc < 0x80 && 1 <= code <= 4 && Carries(t, v, tid, unit, [fc + 0x80, code])
    ensures ResHeaderError(t, v, tid, unit, fc) == Exception(code)
  {
    var pdu: seq<u8> := [fc + 0x80, code];
    PduBytes(t, v, tid, unit, pdu);
    assert v[HeaderSize(t)..HeaderSize(t) + 1][0] == v[HeaderSize(t)];
  }

  lemma RegsReceived(t: Transport, v: seq<u8>, tid: u16, unit: u8, fc: u8, regs: seq<u16>)
    requires |v| >= HeaderSize(t) && (t.Tcp? ==> |v| == BUF_SIZE)
    requires |regs| <= 125 && Carries(t, v, tid, unit, RegsPdu(fc, regs))
    ensures var h := HeaderSize(t);
      && RegsResError(t, v, |regs|) == NoError
      && v[h] as int == 2 * |regs| && h + 1 + v[h] <= |v| && BytesToRegs(v[h + 1..h + 1 + v[h]]) == regs
  {
    var pdu, h, n := RegsPdu(fc, regs), HeaderSize(t), 2 * |regs|;
    PduBytes(t, v, tid, unit, pdu);
    assert pdu[1..] == [n as u8] + RegsToBytes(regs);
    hide RegsPdu, Carries, RegsAt, RegsFooterError, RegsToBytes, BytesToRegs;
    RegsCounted(t, v, h, n, regs);
    EvenCount(t, v, h + 1, n);
  }

  lemma BitsReceived(t: Transport, v: seq<u8>, tid: u16, unit: u8, fc: u8, bytes: seq<u8>)
    requires |v| >= HeaderSize(t) && (t.Tcp? ==> |v| == BUF_SIZE)
    requires |bytes| <= 250 && Carries(t, v, tid, unit, BitsPdu(fc, bytes))
    ensures var h := HeaderSize(t);
      && BitsResError(t, v) == NoError
      && v[h] as int == |bytes| && h + 1 + v[h] <= |v| && v[h + 1..h + 1 + v[h]] == bytes
  {
    var pdu := BitsPdu(fc, bytes);
    PduBytes(t, v, tid, unit, pdu);
    assert pdu[1..] == [|bytes| as u8] + bytes;
    CountedAt(v, HeaderSize(t), |bytes|, bytes);
  }

  lemma EchoReceived(t: Transport, v: seq<u8>, tid: u16, unit: u8, fc: u8, a: u16, b: u16)
    requires |v| >= HeaderSize(t) && (t.Tcp? ==> |v| == BUF_SIZE)
    requires Carries(t, v, tid, unit, EchoPdu(fc, a, b))
    ensures EchoResError(t, v, a, b) == NoError
  {
    var pdu := EchoPdu(fc, a, b);
    PduBytes(t, v, tid, unit, pdu);
    assert pdu[1..] == Be16(a) + Be16(b) + [];
    TwoWordsAt(v, HeaderSize(t), a, b, []);
  }

  //////////////////////////////////////////////////////////////////////////////
  // The limits of client and server agree
  //////////////////////////////////////////////////////////////////////////////

  /** What the store's callbacks return for a request, the first failure if there are two calls. */
  function StoreError(db: Db, unit: u8, req: Request): Error {
    match req
    case ReadBits(a, q) => CoilReadError(db.id, unit, a, q)
    case ReadRegs(a, q) => RegisterError(db.id, unit, a, q)
    case WriteCoil(a, _) => CoilWriteError(db.id, unit, a, 1)
    case WriteReg(a, _) => RegisterError(db.id, unit, a, 1)
    case WriteCoils(a, q, _) => CoilWriteError(db.id, unit, a, q)
    case WriteRegs(a, q, _, _) => RegisterError(db.id, unit, a, q)
    case ReadWriteRegs(ra, rq, wa, wq, _, _) =>
      if RegisterError(db.id, unit, wa, wq) != NoError then RegisterError(db.id, unit, wa, wq)
      else RegisterError(db.id, unit, ra, rq)
  }

  /** The store after a request, when the callbacks succeed. */
  function StoreAfter(db: Db, req: Request): Db
    requires Sized(db) && StoreError(db, db.id, req) == NoError
    requires req.WriteCoils? ==> req.quantity as int <= 8 * |req.data|
    requires req.WriteRegs? ==> |req.regs| == req.quantity as int
    requires req.ReadWriteRegs? ==> |req.regs| == req.writeQuantity as int
  {
    match req
    case ReadBits(_, _) => db
    case ReadRegs(_, _) => db
    case WriteCoil(a, v) => db.(coils := db.coils[a := v != 0])
    case WriteReg(a, v) => db.(regs := db.regs[a := v])
    case WriteCoils(a, q, data) => if q == 0 then db else db.(coils := Splice(db.coils, a, BitsOf(data)[..q]))
    case WriteRegs(a, q, _, regs) => if q == 0 then db else db.(regs := Splice(db.regs, a, regs))
    case ReadWriteRegs(_, _, wa, wq, _, regs) => if wq == 0 then db else db.(regs := Splice(db.regs, wa, regs))
  }

  /** The store after a function 23 request whose read half fails: the write half has been done. */
  function StoreHalfway(db: Db, unit: u8, req: Request): Db
    requires Sized(db) && req.ReadWriteRegs? && |req.regs| == req.writeQuantity as int
  {
    if req.writeQuantity == 0 || RegisterError(db.id, unit, req.writeAddress, req.writeQuantity) != NoError then db
    else db.(regs := Splice(db.regs, req.writeAddress, req.regs))
  }

  /**
   A request a client call accepts is never refused for its quantities, counts, values or addresses as such: the
   handler answers with what the store's callbacks return, and nothing else. Discrete inputs have no callback.
   */
  lemma LimitsAgree(db: Db, unit: u8, fc: u8, req: Request)
    requires Sized(db) && Sendable(fc, req)
    ensures fc == 2 ==> Execute(db, unit, fc, false, req) == Refuse(fc, ILLEGAL_FUNCTION, db)
    ensures fc != 2 && StoreError(db, unit, req) == NoError ==>
      var ans := Execute(db, unit, fc, false, req);
      unit == db.id && ans.err == NoError && ans.reply.Send? && ans.reply.pdu[0] == fc && ans.db == StoreAfter(db, req)
    ensures fc != 2 && StoreError(db, unit, req) != NoError && !req.ReadWriteRegs? ==>
      Execute(db, unit, fc, false, req) == CallbackFailed(fc, StoreError(db, unit, req), db)
    ensures fc == 23 && StoreError(db, unit, req) != NoError ==>
      var ans, failed := Execute(db, unit, fc, false, req), CallbackFailed(fc, StoreError(db, unit, req), db);
      ans.err == failed.err && ans.reply == failed.reply && ans.db == StoreHalfway(db, unit, req)
  {
    hide PackBits, RegsToBytes, BitsOf, CoilsOut;
  }
}
