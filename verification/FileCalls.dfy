/** File records end to end: a whole write message at the server, and single-record calls of a client. */
module FileCalls {
  import opened Wrappers
  import opened Bytes
  import opened Adu
  import opened Store
  import opened Protocol
  import opened NmbsCore
  import opened Responses
  import opened Client
  import opened RoundTrips
  import opened DeviceId
  import opened Files
  import opened FileHandler
  import opened FileResponses
  import opened Poll
  import opened EndToEnd

  /** A write request with any number of sub-requests. */
  function WriteListPdu(rs: seq<Record>): (pdu: Pdu)
    requires AllWritable(rs) && |RecordsBytes(rs)| <= 251
  {
    [21, |RecordsBytes(rs)|] + RecordsBytes(rs)
  }

  /** The message in msg.buf begins with the request's own frame, up to its checksum. */
  lemma FrameInMemory(t: Transport, stale: seq<u8>, tid: u16, unit: u8, pdu: Pdu)
    requires |stale| == BUF_SIZE && |pdu| <= MAX_PDU
    ensures
      var frame := Frame(t, tid, unit, pdu);
      HeaderError(t, true, frame) == NoError &&
      var v := Received(t, stale, frame);
      var h := HeaderSize(t);
      && Carries(t, v, tid, unit, pdu)
      && (t.Rtu? ==> h + 1 + |pdu| <= |v| && h + 1 + |pdu| <= BUF_SIZE)
      && (var m := Memory(t, v, stale, h + 1 + |pdu|);
          && h - 1 + |pdu| <= BUF_SIZE && m[h - 1..h - 1 + |pdu|] == pdu
          && Sealed(t, m[..h - 1 + |pdu|]) == frame)
  {
    var frame := Frame(t, tid, unit, pdu);
    assert frame + [] == frame;
    FrameReceived(t, tid, unit, pdu, stale, []);
    var v := Received(t, stale, frame);
    var h := HeaderSize(t);
    var m := Memory(t, v, stale, h + 1 + |pdu|);
    if t.Tcp? {
      FrameLength(tid, unit, pdu);
      assert v[..7 + |pdu|] == frame;
    } else {
      assert m[..1 + |pdu|] == frame[..1 + |pdu|] == [unit] + pdu;
      assert m[1..1 + |pdu|] == m[..1 + |pdu|][1..] == pdu;
    }
  }

  /**
   Write File Record: a request for any non-empty list of valid records that fits is validated and executed as
   that list. The callbacks are called for the records in order, each once, up to the first that fails; if none
   fails, the response is the request's own frame, byte for byte.
   */
  lemma WriteListServed(t: Transport, stale: seq<u8>, tid: u16, unit: u8, db: Db, p: FilePolicy, rs: seq<Record>)
    requires |stale| == BUF_SIZE && rs != [] && AllWritable(rs) && |RecordsBytes(rs)| <= 251
    ensures
      var frame := Frame(t, tid, unit, WriteListPdu(rs));
      HeaderError(t, true, frame) == NoError &&
      var served := ServeWriteFileFc(t, 21, false, db, Some(p), Received(t, stale, frame), stale);
      var (calls, err) := RunWrites(p, rs);
      && served.calls == calls && calls <= rs && served.ans.db == db
      && ((forall i :: 0 <= i < |rs| ==> p.writeResult(rs[i]) == NoError) ==>
            calls == rs && served.ans.err == NoError && served.ans.reply.Raw?
              && Sealed(t, served.ans.reply.bytes) == frame)
      && (err != NoError ==> served.ans == CallbackFailed(21, err, db))
  {
    hide Frame, Received, RecordsBytes, RunWrites, Sealed, WriteListPdu, ServeWriteFileFc, ExecuteWriteFile;
    var m := WriteListRead(t, stale, tid, unit, db, Some(p), rs);
    WriteListExecuted(db, p, m, HeaderSize(t) + 1, rs);
  }

  /** The handler executes the message that carries the list. */
  lemma WriteListRead(t: Transport, stale: seq<u8>, tid: u16, unit: u8, db: Db, p: Option<FilePolicy>, rs: seq<Record>)
    returns (m: seq<u8>)
    requires |stale| == BUF_SIZE && rs != [] && AllWritable(rs) && |RecordsBytes(rs)| <= 251
    ensures
      var frame := Frame(t, tid, unit, WriteListPdu(rs));
      var h, size := HeaderSize(t), |RecordsBytes(rs)|;
      && HeaderError(t, true, frame) == NoError
      && |m| == BUF_SIZE && h + 1 + size <= BUF_SIZE && m[h + 1..h + 1 + size] == RecordsBytes(rs)
         && Sealed(t, m[..h + 1 + size]) == frame
      && var (ans, calls) := ExecuteWriteFile(db, p, 21, false, m, h + 1, size);
         ServeWriteFileFc(t, 21, false, db, p, Received(t, stale, frame), stale) == Served(ans, calls)
  {
    var pdu, h := WriteListPdu(rs), HeaderSize(t);
    FrameInMemory(t, stale, tid, unit, pdu);
    var v := Received(t, stale, Frame(t, tid, unit, pdu));
    PduBytes(t, v, tid, unit, pdu);
    m := Memory(t, v, stale, h + 1 + |pdu|);
    PayloadAt(v, h, m, pdu, rs);
    hide Frame, Received, RecordsBytes, Sealed, WriteListPdu, ExecuteWriteFile, Memory;
  }

  lemma WriteListExecuted(db: Db, p: FilePolicy, m: seq<u8>, pos: nat, rs: seq<Record>)
    requires |m| == BUF_SIZE && rs != [] && AllWritable(rs) && |RecordsBytes(rs)| <= 251
    requires pos + |RecordsBytes(rs)| <= BUF_SIZE && m[pos..pos + |RecordsBytes(rs)|] == RecordsBytes(rs)
    ensures
      var size := |RecordsBytes(rs)|;
      var (ans, made) := ExecuteWriteFile(db, Some(p), 21, false, m, pos, size);
      var (calls, err) := RunWrites(p, rs);
      && made == calls && calls <= rs && ans.db == db
      && ((forall i :: 0 <= i < |rs| ==> p.writeResult(rs[i]) == NoError) ==>
            calls == rs && ans == Answer(NoError, Raw(m[..pos + size]), db))
      && (err != NoError ==> ans == CallbackFailed(21, err, db))
  {
    NonEmptyRecords(rs);
    EncodedIsAccepted(m, pos, rs);
    RunWritesInOrder(p, rs);
    hide RecordsBytes, RunWrites, Check, RecordsAt;
  }

  lemma PayloadAt(v: seq<u8>, h: nat, m: seq<u8>, pdu: Pdu, rs: seq<Record>)
    requires AllWritable(rs) && |RecordsBytes(rs)| <= 251 && pdu == WriteListPdu(rs) && h >= 1
    requires h - 1 + |pdu| <= |v| && v[h..h - 1 + |pdu|] == pdu[1..]
    requires h - 1 + |pdu| <= |m| && m[h - 1..h - 1 + |pdu|] == pdu
    ensures |pdu| == 2 + |RecordsBytes(rs)| && v[h] as int == |RecordsBytes(rs)|
      && m[h + 1..h + 1 + |RecordsBytes(rs)|] == RecordsBytes(rs)
  {
    assert v[h] == v[h..h - 1 + |pdu|][0] == pdu[1];
    assert m[h + 1..h + 1 + |RecordsBytes(rs)|] == m[h - 1..h - 1 + |pdu|][2..] == pdu[2..];
  }

  /** Nothing reaches the callback unless the whole message was validated. */
  lemma NoCallsUnlessValid(db: Db, p: Option<FilePolicy>, fc: u8, broadcast: bool, m: seq<u8>, pos: nat, size: u8)
    requires |m| == BUF_SIZE && pos + size <= BUF_SIZE
    ensures var payload := m[pos..pos + size];
      ExecuteWriteFile(db, p, fc, broadcast, m, pos, size).1 != [] ==> p.Some? && exists rs :: Encodes(rs, payload)
  {
    AcceptedIffEncoded(m, pos, size);
  }

  //////////////////////////////////////////////////////////////////////////////
  // The client's calls
  //////////////////////////////////////////////////////////////////////////////

  /** What the caller gets for a callback's result. */
  function Reported(e: Error): Error {
    if e == NoError then NoError
    else if e.Exception? && 0 < e.code < 5 then e
    else Exception(SERVER_DEVICE_FAILURE)
  }

  lemma OneRecord(r: Record)
    requires Writable(r)
    ensures AllWritable([r]) && RecordsBytes([r]) == RecordBytes(r) && WriteFileRequest(r) == WriteListPdu([r])
  {
    assert [r][1..] == [];
  }

  /**
   A counted payload that is the whole message, received over stale contents: its bytes in msg.buf, and the footer
   behind it.
   */
  lemma CountedReceived(t: Transport, v: seq<u8>, stale: seq<u8>, data: seq<u8>)
    requires |v| >= HeaderSize(t) && |stale| == BUF_SIZE && (t.Tcp? ==> |v| == BUF_SIZE) && |data| <= 251
    requires var h := HeaderSize(t); Spans(v, h, h + 1 + |data|, [|data|] + data)
    requires var end := HeaderSize(t) + 1 + |data|; FooterError(t, v, end, end) == NoError
    ensures CountedFits(t, v) && v[HeaderSize(t)] as int == |data|
    ensures var h := HeaderSize(t);
      && Spans(Image(t, v, stale), h + 1, h + 1 + |data|, data)
      && CursorFooterError(t, Image(t, v, stale), h + 1 + |data|, Following(t, v)) == NoError
  {
    var h, end := HeaderSize(t), HeaderSize(t) + 1 + |data|;
    CountedAt(v, h, |data|, data);
    var m := Image(t, v, stale);
    assert t.Rtu? ==> m[..end] == v[..end];
    assert m[h + 1..end] == m[..end][h + 1..] && v[h + 1..end] == v[..end][h + 1..];
    CursorFooter(t, m, end, end, Following(t, v));
    assert t.Rtu? ==> m[..end] + Following(t, v) == v;
  }

  /** The PDU of a counted response, as the client receives it. */
  lemma CountedAccepted(t: Transport, stale: seq<u8>, tid: u16, unit: u8, pdu: Pdu, data: seq<u8>) returns (v: seq<u8>)
    requires |stale| == BUF_SIZE && |data| <= 251 && pdu == [pdu[0], |data|] + data
    ensures HeaderError(t, true, Frame(t, tid, unit, pdu)) == NoError
      && v == Received(t, stale, Frame(t, tid, unit, pdu))
    ensures ReceptionError(t, true, stale, Frame(t, tid, unit, pdu), tid, unit, pdu[0]) == NoError
    ensures CountedFits(t, v) && v[HeaderSize(t)] as int == |data|
    ensures var h := HeaderSize(t);
      && Spans(Image(t, v, stale), h + 1, h + 1 + |data|, data)
      && CursorFooterError(t, Image(t, v, stale), h + 1 + |data|, Following(t, v)) == NoError
  {
    hide Frame, Received, HeaderError, ReceptionError, Carries, Image, CursorFooterError, FooterError;
    v := FrameAccepted(t, stale, tid, unit, pdu);
    PduBytes(t, v, tid, unit, pdu);
    assert pdu[1..] == [|data| as u8] + data;
    CountedReceived(t, v, stale, data);
  }

  /** A record that came back as it was sent. */
  lemma EchoedBlock(t: Transport, m: seq<u8>, pos: nat, rest: seq<u8>, r: Record)
    requires |m| == BUF_SIZE && Writable(r) && pos + SUBREQ_HEADER + 2 * 122 <= BUF_SIZE
    requires Spans(m, pos, pos + |RecordBytes(r)|, RecordBytes(r))
      && CursorFooterError(t, m, pos + |RecordBytes(r)|, rest) == NoError
    ensures WriteBlockError(t, m, pos, rest, true, r) == NoError
  {
    hide RecordBytes, CursorFooterError, Spans;
    RecordDecodes(m, pos, r);
  }

  /** The echo of a single-record request is what the client compares with. */
  lemma WriteEchoAccepted(t: Transport, stale: seq<u8>, tid: u16, unit: u8, r: Record)
    requires |stale| == BUF_SIZE && Writable(r)
    ensures var frame := Frame(t, tid, unit, WriteFileRequest(r));
      && ReceptionError(t, true, stale, frame, tid, unit, 21) == NoError
      && HeaderError(t, true, frame) == NoError
      && WriteFileResError(t, Received(t, stale, frame), stale, true, r) == NoError
  {
    hide Frame, Received, ReceptionError, RecordBytes, Image, CursorFooterError, Spans, WriteBlockError;
    var pdu := WriteFileRequest(r);
    assert pdu == [pdu[0], |RecordBytes(r)|] + RecordBytes(r);
    var v := CountedAccepted(t, stale, tid, unit, pdu, RecordBytes(r));
    EchoedBlock(t, Image(t, v, stale), HeaderSize(t) + 1, Following(t, v), r);
  }

  /** The exception for a callback's error. */
  function RefusalPdu(fc: u8, e: Error): Pdu
    requires fc < 0x80
  {
    [fc + 0x80, if e.Exception? && 0 < e.code < 5 then e.code else SERVER_DEVICE_FAILURE]
  }

  lemma RefusalAccepted(t: Transport, stale: seq<u8>, tid: u16, unit: u8, fc: u8, e: Error, db: Db)
    requires |stale| == BUF_SIZE && fc < 0x80 && e != NoError && e != Fault
    ensures CallbackFailed(fc, e, db).reply == Send(RefusalPdu(fc, e)) && CallbackFailed(fc, e, db).db == db
      && CallbackFailed(fc, e, db).err != Fault
    ensures ReceptionError(t, true, stale, Frame(t, tid, unit, RefusalPdu(fc, e)), tid, unit, fc) == Reported(e)
  {
    hide ReceptionError, Frame;
    ExceptionAccepted(t, stale, tid, unit, fc, RefusalPdu(fc, e)[1]);
  }

  /**
   The server's part of a file call: what the client finds on the line is the good response or the callback's error.
   */
  ghost predicate FileAnswered(c: Nmbs, s: Nmbs, srv: Server, db: Db, fc: u8, e: Error, good: Pdu)
    requires fc < 0x80
    reads c, s, srv.Repr()
  {
    && Connected(c, s, srv) && srv.Contents() == db
    && c.unitId == c.destAddressRtu && c.fc == fc && !c.broadcast
    && c.rx == Frame(c.transport, c.transactionId, c.unitId, if e == NoError then good else RefusalPdu(fc, e))
  }

  method DeliverWriteFile(c: Nmbs, s: Nmbs, srv: Server, f: FileStore, d: Option<DeviceInfo>, ghost r: Record)
    requires Connected(c, s, srv) && (d.Some? ==> Proper(d.value)) && f.callbacks.Some?
    requires Writable(r) && Pending(c, WriteFileRequest(r)) && f.callbacks.value.writeResult(r) != Fault
    modifies s, s.buf, c`rx, srv.coils, srv.regs, f`log
    ensures f.log == old(f.log) + [r]
      && FileAnswered(c, s, srv, old(srv.Contents()), 21, f.callbacks.value.writeResult(r), WriteFileRequest(r))
  {
    hide Frame, Received, ReceptionError, ServeWriteFileFc, WriteFileRequest, WriteListPdu, Carries, RunWrites,
         CallbackFailed, RefusalPdu;
    ghost var p, db := f.callbacks.value, srv.Contents();
    OneRecord(r);
    OneWrite(p, r);
    WriteListServed(c.transport, s.buf[..], c.transactionId, c.unitId, db, p, [r]);
    if p.writeResult(r) != NoError {
      RefusalAccepted(c.transport, s.buf[..], c.transactionId, c.unitId, 21, p.writeResult(r), db);
    }
    ghost var v, served := Deliver(c, s, srv, f, d, WriteFileRequest(r));
  }

  /** nmbs_write_file_record: the record reaches the callback once, and the caller gets the callback's verdict. */
  method CallWriteFile(c: Nmbs, s: Nmbs, srv: Server, f: FileStore, d: Option<DeviceInfo>, file: u16, record: u16,
                       registers: seq<u16>) returns (err: Error)
    requires Connected(c, s, srv) && (d.Some? ==> Proper(d.value)) && f.callbacks.Some?
    requires f.callbacks.value.writeResult(Record(file, record, registers)) != Fault
    modifies c, c.buf, s, s.buf, srv.coils, srv.regs, f`log
    ensures Connected(c, s, srv) && srv.Contents() == old(srv.Contents())
    ensures var r := Record(file, record, registers);
      if Writable(r) then f.log == old(f.log) + [r] && err == Reported(f.callbacks.value.writeResult(r))
      else f.log == old(f.log) && err == InvalidArgument
  {
    hide Frame, Received, ReceptionError, WriteFileRequest, WriteFileResError, RefusalPdu;
    var r := Record(file, record, registers);
    ghost var p, db := f.callbacks.value, srv.Contents();
    err := WriteFileRecord(c, file, record, registers);
    if err != NoError {
      return;
    }
    DeliverWriteFile(c, s, srv, f, d, r);
    if p.writeResult(r) == NoError {
      WriteEchoAccepted(c.transport, c.buf[..], c.transactionId, c.unitId, r);
    } else {
      RefusalAccepted(c.transport, c.buf[..], c.transactionId, c.unitId, 21, p.writeResult(r), db);
    }
    err := RecvWriteFileRecordRes(c, true, r);
  }

  lemma OneWrite(p: FilePolicy, r: Record)
    ensures RunWrites(p, [r]) == ([r], p.writeResult(r))
  {
    assert [r][1..] == [] && RunWrites(p, []) == ([], NoError);
    assert [r] + [] == [r];
  }

  /** The seven bytes of a single-record read are read as that record. */
  lemma ReadRequestRead(t: Transport, stale: seq<u8>, tid: u16, unit: u8, file: u16, record: u16, count: u16)
    returns (v: seq<u8>, payload: seq<u8>)
    requires |stale| == BUF_SIZE && ValidPlace(file, record) && count <= 124
    ensures var frame := Frame(t, tid, unit, ReadFileRequest(file, record, count));
      HeaderError(t, true, frame) == NoError && v == Received(t, stale, frame)
    ensures var h := HeaderSize(t);
      && PayloadError(t, v, 245) == NoError && v[h] == 7 && payload == v[h + 1..h + 8]
      && |payload| == 7
    ensures SubReads(payload) == [SubRead(6, file, record, count)]
  {
    hide Frame, Received, HeaderError, ReceptionError, Carries, FooterError;
    var pdu, h := ReadFileRequest(file, record, count), HeaderSize(t);
    v := FrameAccepted(t, stale, tid, unit, pdu);
    PduBytes(t, v, tid, unit, pdu);
    payload := v[h + 1..h + 8];
    var w := v[h..h + 8];
    assert w == pdu[1..];
    assert w[0] == v[h] && payload == w[1..] == [6 as u8, file / 0x100, file % 0x100, record / 0x100, record % 0x100,
                                                 count / 0x100, count % 0x100];
  }

  lemma SingleBlock(p: FilePolicy, file: u16, record: u16, count: u16)
    requires ValidPlace(file, record) && count <= 124
    ensures var sub := SubRead(6, file, record, count);
      && AllReadable([sub]) && ResponseSize([sub]) == 2 + 2 * count as int
      && forall room: int {:trigger ReadBlocks(p, [sub], room)} :: room >= 250 ==>
           ReadBlocks(p, [sub], room) ==
             if p.readResult(file, record, count) != NoError then Failed(p.readResult(file, record, count))
             else Blocks(ReadBlock(p, sub))
  {
    var sub := SubRead(6, file, record, count);
    assert [sub][..0] == [] && Readable(sub);
    forall room: int | room >= 250
      ensures ReadBlocks(p, [sub], room) ==
      if p.readResult(file, record, count) != NoError then Failed(p.readResult(file, record, count))
      else Blocks(ReadBlock(p, sub))
    {
      assert ReadBlocks(p, [sub][..0], room) == Blocks([]);
      assert [] + ReadBlock(p, sub) == ReadBlock(p, sub);
    }
  }

  /** The server's answer to a single-record read. */
  lemma SingleReadServed(t: Transport, stale: seq<u8>, tid: u16, unit: u8, db: Db, p: FilePolicy, sub: SubRead)
    requires |stale| == BUF_SIZE && Readable(sub)
    ensures
      var frame := Frame(t, tid, unit, ReadFileRequest(sub.file, sub.record, sub.length));
      HeaderError(t, true, frame) == NoError &&
      var served := ServeReadFileFc(t, SeenTid(t, tid), unit, 20, false, db, Some(p), Received(t, stale, frame));
      var e := p.readResult(sub.file, sub.record, sub.length);
      && served.calls == [] && (e != NoError ==> served.ans == CallbackFailed(20, e, db))
      && (e == NoError ==>
            && served.ans.err == NoError && served.ans.db == db && served.ans.reply.Raw?
            && Sealed(t, served.ans.reply.bytes) == Frame(t, tid, unit, ReadFilePdu(20, ReadBlock(p, sub))))
  {
    hide Frame, Received, SubReads, ReadBlock, ExecuteReadFile, Sealed, ReadFilePdu, ReadFileRequest, PayloadError,
         CallbackFailed;
    var v, payload := ReadRequestRead(t, stale, tid, unit, sub.file, sub.record, sub.length);
    SingleReadExecuted(t, SeenTid(t, tid), unit, db, p, payload, sub);
    FrameSeen(t, tid, unit, ReadFilePdu(20, ReadBlock(p, sub)));
  }

  lemma FrameSeen(t: Transport, tid: u16, unit: u8, pdu: Pdu)
    ensures Frame(t, SeenTid(t, tid), unit, pdu) == Frame(t, tid, unit, pdu)
  {
  }

  lemma SingleReadExecuted(t: Transport, tid: u16, unit: u8, db: Db, p: FilePolicy, payload: seq<u8>, sub: SubRead)
    requires Readable(sub) && |payload| == 7 && SubReads(payload) == [sub]
    ensures
      var ans := ExecuteReadFile(db, Some(p), t, tid, unit, 20, false, payload);
      var e := p.readResult(sub.file, sub.record, sub.length);
      && (e != NoError ==> ans == CallbackFailed(20, e, db))
      && (e == NoError ==>
            && ans.err == NoError && ans.db == db && ans.reply.Raw?
            && Sealed(t, ans.reply.bytes) == Frame(t, tid, unit, ReadFilePdu(20, ReadBlock(p, sub))))
  {
    hide Frame, SubReads, ReadBlocks, ReadBlock, ResponseSize, ExecuteReadFile, Sealed, ReadFilePdu, AllReadable,
         SendBlocks, CallbackFailed;
    FailureSent(db, t, tid, unit, 2 + 2 * sub.length as int, p.readResult(sub.file, sub.record, sub.length));
    var block := ReadBlock(p, sub);
    SingleBlock(p, sub.file, sub.record, sub.length);
    NotRefused(db, p, t, tid, unit, 20, payload);
    BlockSent(db, t, tid, unit, block);
    assert (2 + 2 * sub.length as int) % 0x100 == |block|;
  }

  lemma FailureSent(db: Db, t: Transport, tid: u16, unit: u8, dataSize: u8, e: Error)
    ensures SendBlocks(db, t, tid, unit, 20, false, dataSize, Failed(e)) == CallbackFailed(20, e, db)
  {
  }

  lemma BlockSent(db: Db, t: Transport, tid: u16, unit: u8, block: seq<u8>)
    requires |block| <= 251
    ensures var ans := SendBlocks(db, t, tid, unit, 20, false, |block|, Blocks(block));
      ans.err == NoError && ans.db == db && ans.reply.Raw?
        && Sealed(t, ans.reply.bytes) == Frame(t, tid, unit, ReadFilePdu(20, block))
  {
    hide Frame, Sealed, HeaderBytes, ReadFilePdu;
    ReadFileFrame(t, tid, unit, 20, block);
  }

  /** The client reads the registers the callback delivered. */
  lemma ReadBlockAccepted(t: Transport, stale: seq<u8>, tid: u16, unit: u8, p: FilePolicy, sub: SubRead)
    requires |stale| == BUF_SIZE && sub.length <= 124
    ensures var frame := Frame(t, tid, unit, ReadFilePdu(20, ReadBlock(p, sub)));
      && ReceptionError(t, true, stale, frame, tid, unit, 20) == NoError
      && HeaderError(t, true, frame) == NoError
      && var v := Received(t, stale, frame);
         && ReadFileResError(t, v, stale, true, sub.length as int) == NoError
         && ReadFileRegs(t, v, stale, sub.length as int) == Delivered(p, sub)
  {
    hide Frame, Received, ReceptionError, ReadBlock, ReadBlockError, Image, CursorFooterError, Spans, BytesToRegs,
         Delivered, Following;
    var block := ReadBlock(p, sub);
    var pdu := ReadFilePdu(20, block);
    assert pdu == [pdu[0], |block|] + block;
    var v := CountedAccepted(t, stale, tid, unit, pdu, block);
    BlockFields(Image(t, v, stale), HeaderSize(t) + 1, p, sub);
    BlockAccepted(t, Image(t, v, stale), HeaderSize(t) + 1, Following(t, v), sub.length);
  }

  lemma BlockAccepted(t: Transport, m: seq<u8>, pos: nat, rest: seq<u8>, length: u16)
    requires length <= 124 && |m| == BUF_SIZE && pos + 2 + 2 * length <= BUF_SIZE && m[pos] == 2 * length + 1
      && m[pos + 1] == 6
    requires CursorFooterError(t, m, pos + 2 + 2 * length, rest) == NoError
    ensures ReadBlockError(t, m, pos, rest, true, length as int) == NoError
  {
    hide CursorFooterError;
  }

  lemma BlockFields(m: seq<u8>, pos: nat, p: FilePolicy, sub: SubRead)
    requires sub.length <= 124 && Spans(m, pos, pos + 2 + 2 * sub.length, ReadBlock(p, sub))
    ensures pos + 2 + 2 * sub.length <= |m| && m[pos] == 2 * sub.length + 1 && m[pos + 1] == 6
    ensures BytesToRegs(m[pos + 2..pos + 2 + 2 * sub.length]) == Delivered(p, sub)
  {
    var data := RegsToBytes(Delivered(p, sub));
    RegsRoundTrip(Delivered(p, sub));
    var tail := [6 as u8] + data;
    assert ReadBlock(p, sub) == [2 * sub.length + 1 as u8] + tail;
    hide RegsToBytes, BytesToRegs, Delivered, ReadBlock;
    CountedAt(m, pos, 2 * sub.length + 1, tail);
    CountedAt(m, pos + 1, 6, data);
  }

  /**
   A file request a client call accepts, over either transport, is never refused by the handler's own tests: it is
   answered with what the callback returns, or with exception 1 where there is none.
   */
  lemma FileLimitsAgree(t: Transport, stale: seq<u8>, tid: u16, unit: u8, db: Db, p: FilePolicy, r: Record,
                        sub: SubRead)
    requires |stale| == BUF_SIZE && Writable(r) && Readable(sub)
    ensures var frame := Frame(t, tid, unit, WriteFileRequest(r));
      HeaderError(t, true, frame) == NoError &&
      var v, e := Received(t, stale, frame), p.writeResult(r);
      && ServeWriteFileFc(t, 21, false, db, None, v, stale) == Served(Refuse(21, ILLEGAL_FUNCTION, db), [])
      && var served := ServeWriteFileFc(t, 21, false, db, Some(p), v, stale);
         && served.calls == [r]
         && (if e != NoError then served.ans == CallbackFailed(21, e, db)
             else served.ans.err == NoError && served.ans.reply.Raw? && Sealed(t, served.ans.reply.bytes) == frame)
    ensures var frame := Frame(t, tid, unit, ReadFileRequest(sub.file, sub.record, sub.length));
      HeaderError(t, true, frame) == NoError &&
      var v, e := Received(t, stale, frame), p.readResult(sub.file, sub.record, sub.length);
      && ServeReadFileFc(t, SeenTid(t, tid), unit, 20, false, db, None, v)
         == Served(Refuse(20, ILLEGAL_FUNCTION, db), [])
      && var ans := ServeReadFileFc(t, SeenTid(t, tid), unit, 20, false, db, Some(p), v).ans;
         if e != NoError then ans == CallbackFailed(20, e, db)
         else ans.err == NoError && ans.reply.Raw?
              && Sealed(t, ans.reply.bytes) == Frame(t, tid, unit, ReadFilePdu(20, ReadBlock(p, sub)))
  {
    hide Frame, Received, ServeWriteFileFc, ServeReadFileFc, WriteFileRequest, WriteListPdu, ReadFileRequest, RunWrites,
         CallbackFailed, Sealed, ReadFilePdu, ReadBlock;
    OneRecord(r);
    OneWrite(p, r);
    WriteListServed(t, stale, tid, unit, db, p, [r]);
    SingleReadServed(t, stale, tid, unit, db, p, sub);
    NoWriteCallback(t, stale, tid, unit, db, r);
    NoReadCallback(t, stale, tid, unit, db, sub);
  }

  lemma NoWriteCallback(t: Transport, stale: seq<u8>, tid: u16, unit: u8, db: Db, r: Record)
    requires |stale| == BUF_SIZE && Writable(r)
    ensures var frame := Frame(t, tid, unit, WriteFileRequest(r));
      HeaderError(t, true, frame) == NoError
        && ServeWriteFileFc(t, 21, false, db, None, Received(t, stale, frame), stale)
           == Served(Refuse(21, ILLEGAL_FUNCTION, db), [])
  {
    hide Frame, Received, Check, RecordsAt, RecordsBytes, WriteFileRequest, WriteListPdu, ServeWriteFileFc, Sealed;
    OneRecord(r);
    var m := WriteListRead(t, stale, tid, unit, db, None, [r]);
    NonEmptyRecords([r]);
    EncodedIsAccepted(m, HeaderSize(t) + 1, [r]);
  }

  lemma NoReadCallback(t: Transport, stale: seq<u8>, tid: u16, unit: u8, db: Db, sub: SubRead)
    requires |stale| == BUF_SIZE && Readable(sub)
    ensures var frame := Frame(t, tid, unit, ReadFileRequest(sub.file, sub.record, sub.length));
      HeaderError(t, true, frame) == NoError
        && ServeReadFileFc(t, SeenTid(t, tid), unit, 20, false, db, None, Received(t, stale, frame))
           == Served(Refuse(20, ILLEGAL_FUNCTION, db), [])
  {
    hide Frame, Received, ReadFileRequest, SubReads, PayloadError;
    var v, payload := ReadRequestRead(t, stale, tid, unit, sub.file, sub.record, sub.length);
  }

  method DeliverReadFile(c: Nmbs, s: Nmbs, srv: Server, f: FileStore, d: Option<DeviceInfo>, ghost sub: SubRead)
    requires Connected(c, s, srv) && (d.Some? ==> Proper(d.value)) && f.callbacks.Some?
    requires Readable(sub)
    requires Pending(c, ReadFileRequest(sub.file, sub.record, sub.length))
      && f.callbacks.value.readResult(sub.file, sub.record, sub.length) != Fault
    modifies s, s.buf, c`rx, srv.coils, srv.regs, f`log
    ensures f.log == old(f.log)
    ensures FileAnswered(c, s, srv, old(srv.Contents()), 20,
                         f.callbacks.value.readResult(sub.file, sub.record, sub.length),
                         ReadFilePdu(20, ReadBlock(f.callbacks.value, sub)))
  {
    hide Frame, Received, ReceptionError, ServeReadFileFc, ReadFileRequest, Carries, ReadBlock, ReadFilePdu, Sealed,
         CallbackFailed, RefusalPdu;
    ghost var p, db := f.callbacks.value, srv.Contents();
    ghost var e := p.readResult(sub.file, sub.record, sub.length);
    SingleReadServed(c.transport, s.buf[..], c.transactionId, c.unitId, db, p, sub);
    if e != NoError {
      RefusalAccepted(c.transport, s.buf[..], c.transactionId, c.unitId, 20, e, db);
    }
    ghost var v, served := Deliver(c, s, srv, f, d, ReadFileRequest(sub.file, sub.record, sub.length));
    assert f.log == old(f.log) + [];
  }

  /** nmbs_read_file_record: the caller gets the registers the callback delivers, or its verdict. */
  method CallReadFile(c: Nmbs, s: Nmbs, srv: Server, f: FileStore, d: Option<DeviceInfo>, file: u16, record: u16,
                      count: u16) returns (err: Error, registers: seq<u16>)
    requires Connected(c, s, srv) && (d.Some? ==> Proper(d.value)) && f.callbacks.Some?
    requires f.callbacks.value.readResult(file, record, count) != Fault
    modifies c, c.buf, s, s.buf, srv.coils, srv.regs, f`log
    ensures Connected(c, s, srv) && srv.Contents() == old(srv.Contents()) && f.log == old(f.log)
    ensures var p := f.callbacks.value;
      if ValidPlace(file, record) && count <= 124 then
        && err == Reported(p.readResult(file, record, count))
        && (err == NoError ==> registers == Delivered(p, SubRead(6, file, record, count)))
      else err == InvalidArgument
  {
    hide Frame, Received, ReceptionError, ReadFileRequest, ReadFileResError, ReadFileRegs, ReadBlock, ReadFilePdu,
         Delivered, RefusalPdu;
    registers := [];
    ghost var p, db, sub := f.callbacks.value, srv.Contents(), SubRead(6, file, record, count);
    err := ReadFileRecord(c, file, record, count);
    if err != NoError {
      return;
    }
    DeliverReadFile(c, s, srv, f, d, sub);
    if p.readResult(file, record, count) == NoError {
      ReadBlockAccepted(c.transport, c.buf[..], c.transactionId, c.unitId, p, sub);
    } else {
      RefusalAccepted(c.transport, c.buf[..], c.transactionId, c.unitId, 20, p.readResult(file, record, count), db);
    }
    err, registers := RecvReadFileRecordRes(c, true, count);
  }
}
