/** What holds for every poll and every run of requests. */
module Guarantees {
  import opened Wrappers
  import opened Bytes
  import opened Bitfield
  import opened Adu
  import opened Store
  import opened Protocol
  import opened NmbsCore
  import opened Responses
  import opened Handlers
  import opened DeviceId
  import opened Files
  import opened FileHandler
  import opened RoundTrips
  import opened Poll
  import opened Answerable

  //////////////////////////////////////////////////////////////////////////////
  // One response per request
  //////////////////////////////////////////////////////////////////////////////

  /** f is a response to the request with these ids: the same ids, and the function code or its exception. */
  ghost predicate AnswersRequest(t: Transport, f: seq<u8>, tid: u16, unit: u8, fc: u8) {
    var h := HeaderSize(t);
    && h <= |f| <= BUF_SIZE && f[h - 2] == unit && (f[h - 1] == fc || f[h - 1] == (fc + 0x80) % 0x100)
    && (t.Tcp? ==> WordAt(f, 0) == tid)
  }

  /** The shape of every answer to an addressed request: a frame exactly when there is no error. */
  ghost predicate WellAnswered(t: Transport, tid: u16, unit: u8, fc: u8, a: Answer) {
    match a.reply
    case Silent => a.err != NoError
    case Send(pdu) => a.err == NoError && (pdu[0] == fc || pdu[0] == (fc + 0x80) % 0x100)
    case Raw(bytes) =>
      a.err == NoError && AnswersRequest(t, bytes, tid, unit, fc) && (t.Rtu? ==> |bytes| + 2 <= BUF_SIZE)
  }

  lemma ExecuteAnswered(t: Transport, tid: u16, unit: u8, fc: u8, db: Db, req: Request)
    requires Sized(db) && Announces(fc, req) && (req.WriteCoils? ==> |req.data| <= 246)
    requires req.WriteRegs? || req.ReadWriteRegs? ==> |req.regs| == req.byteCount / 2
    ensures WellAnswered(t, tid, unit, fc, Execute(db, unit, fc, false, req))
  {
    hide RegsPdu, EchoPdu, BitsPdu, PackBits, BitsOf, CoilsOut, Splice, AnswersRequest;
    match req
    case ReadBits(a, q) => assert WellAnswered(t, tid, unit, fc, ExecuteReadBits(db, unit, fc, false, a, q));
    case ReadRegs(a, q) => assert WellAnswered(t, tid, unit, fc, ExecuteReadRegs(db, unit, fc, false, a, q));
    case WriteCoil(a, x) => assert WellAnswered(t, tid, unit, fc, ExecuteWriteCoil(db, unit, fc, false, a, x));
    case WriteReg(a, x) => assert WellAnswered(t, tid, unit, fc, ExecuteWriteReg(db, unit, fc, false, a, x));
    case WriteCoils(a, q, data) =>
      assert WellAnswered(t, tid, unit, fc, ExecuteWriteCoils(db, unit, fc, false, a, q, data));
    case WriteRegs(a, q, n, regs) =>
      assert WellAnswered(t, tid, unit, fc, ExecuteWriteRegs(db, unit, fc, false, a, q, n, regs));
    case ReadWriteRegs(ra, rq, wa, wq, n, regs) =>
      assert WellAnswered(t, tid, unit, fc, ExecuteReadWrite(db, unit, fc, false, ra, rq, wa, wq, n, regs));
  }

  lemma DataAnswered(t: Transport, tid: u16, unit: u8, fc: u8, db: Db, v: seq<u8>)
    requires IsDataFunction(fc) && Sized(db) && |v| >= HeaderSize(t) && (t.Tcp? ==> |v| == BUF_SIZE)
    ensures WellAnswered(t, tid, unit, fc, ServeData(t, unit, fc, false, db, v).ans)
  {
    hide Parse, Execute, Taken;
    ParsedIffTaken(t, fc, v);
    match Parse(t, fc, v)
    case Unread(e) =>
    case Read(req) =>
      ParseShape(t, fc, v);
      ExecuteAnswered(t, tid, unit, fc, db, req);
  }

  lemma DeviceAnswered(t: Transport, tid: u16, unit: u8, fc: u8, db: Db, d: Option<DeviceInfo>, v: seq<u8>)
    requires |v| >= HeaderSize(t) && (d.Some? ==> Proper(d.value))
    ensures WellAnswered(t, tid, unit, fc, ServeDevice(t, fc, false, db, d, v).ans)
  {
    hide Collect, Weight, ObjectsBytes, ShortNames;
  }

  lemma ReadFileAnswered(t: Transport, tid: u16, unit: u8, fc: u8, db: Db, p: Option<FilePolicy>, v: seq<u8>)
    requires |v| >= HeaderSize(t)
    ensures WellAnswered(t, tid, unit, fc, ServeReadFileFc(t, tid, unit, fc, false, db, p, v).ans)
  {
    hide ExecuteReadFile, PayloadError;
    if PayloadError(t, v, 245) == NoError {
      BlocksAnswered(t, tid, unit, fc, db, p, v[HeaderSize(t) + 1..HeaderSize(t) + 1 + v[HeaderSize(t)]]);
    }
  }

  lemma BlocksAnswered(t: Transport, tid: u16, unit: u8, fc: u8, db: Db, p: Option<FilePolicy>, payload: seq<u8>)
    requires |payload| <= 245
    ensures WellAnswered(t, tid, unit, fc, ExecuteReadFile(db, p, t, tid, unit, fc, false, payload))
  {
    var subs, room := SubReads(payload), BUF_SIZE - HeaderSize(t) - 1;
    if p.Some? && AllReadable(subs) {
      SendAnswered(t, tid, unit, fc, db, p.value, subs, ResponseSize(subs) % 0x100);
    }
    hide SubReads, ReadBlocks, ResponseSize, Readable, SendBlocks, AnswersRequest;
  }

  lemma SendAnswered(t: Transport, tid: u16, unit: u8, fc: u8, db: Db, p: FilePolicy, subs: seq<SubRead>, dataSize: u8)
    requires AllReadable(subs)
    ensures WellAnswered(t, tid, unit, fc,
                         SendBlocks(db, t, tid, unit, fc, false, dataSize,
                                    ReadBlocks(p, subs, BUF_SIZE - HeaderSize(t) - 1)))
  {
    var b := ReadBlocks(p, subs, BUF_SIZE - HeaderSize(t) - 1);
    ReadBlocksFails(p, subs, BUF_SIZE - HeaderSize(t) - 1);
    hide ReadBlocks, ResponseSize, Readable;
    if b.Blocks? {
      ReadBlocksSize(p, subs, BUF_SIZE - HeaderSize(t) - 1);
      HeaderAnswers(t, tid, unit, fc, 1 + dataSize as int, [dataSize] + b.bytes);
      assert HeaderBytes(t, tid, unit, fc, 1 + dataSize as int) + ([dataSize] + b.bytes)
        == HeaderBytes(t, tid, unit, fc, 1 + dataSize as int) + [dataSize] + b.bytes;
    }
  }

  lemma {:induction false} ReadBlocksFails(p: FilePolicy, subs: seq<SubRead>, room: int)
    requires AllReadable(subs)
    ensures ReadBlocks(p, subs, room) != Failed(NoError)
  {
    if subs != [] {
      ReadBlocksFails(p, subs[..|subs| - 1], room);
    }
  }

  lemma HeaderAnswers(t: Transport, tid: u16, unit: u8, fc: u8, length: u16, rest: seq<u8>)
    requires HeaderSize(t) + |rest| <= BUF_SIZE
    ensures AnswersRequest(t, HeaderBytes(t, tid, unit, fc, length) + rest, tid, unit, fc)
  {
    var m := Mbap(tid, (2 + length) % 0x1_0000, unit);
    var f := HeaderBytes(t, tid, unit, fc, length) + rest;
    if t.Tcp? {
      assert f[0] == m[0] && f[1] == m[1] && f[6] == m[6];
    }
  }

  lemma WriteFileAnswered(t: Transport, tid: u16, unit: u8, fc: u8, db: Db, p: Option<FilePolicy>, v: seq<u8>,
                          stale: seq<u8>)
    requires |v| >= HeaderSize(t) && |stale| == BUF_SIZE && (t.Tcp? ==> |v| == BUF_SIZE)
    requires v[HeaderSize(t) - 1] == fc && v[HeaderSize(t) - 2] == unit && (t.Tcp? ==> WordAt(v, 0) == tid)
    ensures WellAnswered(t, tid, unit, fc, ServeWriteFileFc(t, fc, false, db, p, v, stale).ans)
  {
    hide ExecuteWriteFile, PayloadError;
    var h := HeaderSize(t);
    if PayloadError(t, v, 251) == NoError {
      FooterRoom(t, v, 251);
      var m := Memory(t, v, stale, h + 1 + v[h] + 2);
      assert t.Rtu? ==> m[0] == v[0] && m[1] == v[1];
      EchoAnswered(t, tid, unit, fc, db, p, m, h + 1, v[h]);
    }
  }

  lemma FooterRoom(t: Transport, v: seq<u8>, limit: u8)
    requires |v| >= HeaderSize(t) && PayloadError(t, v, limit) == NoError
    ensures t.Rtu? ==> HeaderSize(t) + 3 + v[HeaderSize(t)] <= BUF_SIZE
  {
  }

  lemma EchoAnswered(t: Transport, tid: u16, unit: u8, fc: u8, db: Db, p: Option<FilePolicy>, m: seq<u8>, pos: nat,
                     size: u8)
    requires |m| == BUF_SIZE && pos == HeaderSize(t) + 1 && pos + size <= BUF_SIZE
      && (t.Rtu? ==> pos + size + 2 <= BUF_SIZE)
    requires m[pos - 2] == fc && m[pos - 3] == unit && (t.Tcp? ==> WordAt(m, 0) == tid)
    ensures WellAnswered(t, tid, unit, fc, ExecuteWriteFile(db, p, fc, false, m, pos, size).0)
  {
    hide Check, RecordsAt, RunWrites;
  }

  /**
   An addressed, non-broadcast request is answered with one frame if the handler reports no error, and with none
   otherwise.
   */
  lemma AddressedAnswered(t: Transport, tid: u16, unit: u8, fc: u8, db: Db, d: Option<DeviceInfo>,
                          p: Option<FilePolicy>, v: seq<u8>, stale: seq<u8>)
    requires Sized(db) && (d.Some? ==> Proper(d.value)) && |stale| == BUF_SIZE
    requires |v| >= HeaderSize(t) && (t.Tcp? ==> |v| == BUF_SIZE)
    requires v[HeaderSize(t) - 1] == fc && v[HeaderSize(t) - 2] == unit && (t.Tcp? ==> WordAt(v, 0) == tid)
    ensures WellAnswered(t, tid, unit, fc, Serve(t, tid, unit, fc, false, db, d, p, v, stale).ans)
  {
    hide ServeData, ServeDevice, ServeReadFileFc, ServeWriteFileFc;
    if IsDataFunction(fc) {
      DataAnswered(t, tid, unit, fc, db, v);
    } else if fc == 20 {
      ReadFileAnswered(t, tid, unit, fc, db, p, v);
    } else if fc == 21 {
      WriteFileAnswered(t, tid, unit, fc, db, p, v, stale);
    } else if fc == 43 {
      DeviceAnswered(t, tid, unit, fc, db, d, v);
    }
  }

  /** The frame sent for a well-formed answer carries the request's ids. */
  lemma SentAnswers(t: Transport, tid: u16, unit: u8, fc: u8, a: Answer)
    requires WellAnswered(t, tid, unit, fc, a)
    ensures a.err != NoError ==> Sent(t, tid, unit, a.reply) == []
    ensures a.err == NoError ==>
      |Sent(t, tid, unit, a.reply)| == 1 && AnswersRequest(t, Sent(t, tid, unit, a.reply)[0], tid, unit, fc)
  {
    match a.reply
    case Silent =>
    case Send(pdu) =>
      if t.Tcp? {
        FrameLength(tid, unit, pdu);
      }
    case Raw(bytes) =>
  }

  /** Whatever the stream holds, one poll calls platform.write at most once. */
  lemma AtMostOneWrite(n: Nmbs, s: Server, f: FileStore, d: Option<DeviceInfo>, was: seq<seq<u8>>, log: seq<Record>,
                       db: Db, stale: seq<u8>, stream: seq<u8>, err: Error)
    requires s.Valid() && |stale| == BUF_SIZE && Sized(db) && (d.Some? ==> Proper(d.value))
    requires Polled(n, s, f, d, was, log, db, stale, stream, err)
    ensures |was| <= |n.tx| <= |was| + 1 && n.tx[..|was|] == was
  {
    hide Serve, Received, HeaderError, BystanderDone, Frame, Sealed;
  }

  /**
   Nothing is written for a bad header or another unit's message. An addressed, non-broadcast request is answered by
   exactly one frame if IsAnswered holds of the received message, and by none otherwise.
   */
  ghost predicate AnsweredOnce(n: Nmbs, db: Db, p: Option<FilePolicy>, was: seq<seq<u8>>, stale: seq<u8>,
                               stream: seq<u8>)
    requires |stale| == BUF_SIZE
    reads n
  {
    var t := n.transport;
    if HeaderError(t, n.linkUp, stream) != NoError then n.tx == was
    else
      var v, h := Received(t, stale, stream), HeaderSize(t);
      var unit, fc := v[h - 2], v[h - 1];
      if IsIgnored(t, unit, n.addressRtu) then n.tx == was
      else if IsBroadcast(t, unit) then true
      else if IsAnswered(t, unit, fc, db, p, v, stale) then
        |n.tx| == |was| + 1 && n.tx[..|was|] == was
          && AnswersRequest(t, n.tx[|was|], if t.Tcp? then WordAt(v, 0) else 0, unit, fc)
      else n.tx == was
  }

  /**
   After every poll: a message addressed to this server and not broadcast has been answered by exactly one frame with
   its transaction id, its unit, and its function code, plain or as an exception, if and only if it is one the
   predicate IsAnswered names.
   */
  lemma OneResponse(n: Nmbs, s: Server, f: FileStore, d: Option<DeviceInfo>, was: seq<seq<u8>>, log: seq<Record>,
                    db: Db, stale: seq<u8>, stream: seq<u8>, err: Error)
    requires s.Valid() && |stale| == BUF_SIZE && Sized(db) && (d.Some? ==> Proper(d.value)) && Genuine(d, f.callbacks)
    requires Polled(n, s, f, d, was, log, db, stale, stream, err)
    ensures AnsweredOnce(n, db, f.callbacks, was, stale, stream)
  {
    hide Serve, Received, HeaderError, AnswersRequest, WellAnswered, BystanderDone, Sent, Frame, Sealed, IsAnswered,
         Genuine;
    var t := n.transport;
    if HeaderError(t, n.linkUp, stream) == NoError {
      var v, h := Received(t, stale, stream), HeaderSize(t);
      var tid, unit, fc := if t.Tcp? then WordAt(v, 0) else 0, v[h - 2], v[h - 1];
      var a := Serve(t, tid, unit, fc, false, db, d, f.callbacks, v, stale).ans;
      AddressedAnswered(t, tid, unit, fc, db, d, f.callbacks, v, stale);
      ServedIff(t, tid, unit, fc, db, d, f.callbacks, v, stale);
      SentAnswers(t, tid, unit, fc, a);
      assert was + [] == was;
    }
  }

  /** nmbs_server_poll with both guarantees, from any state and on any stream. */
  method PollAnswersOnce(n: Nmbs, s: Server, f: FileStore, d: Option<DeviceInfo>) returns (err: Error)
    requires n.Valid() && s.Valid() && n.buf as object !in s.Repr() && (d.Some? ==> Proper(d.value))
      && Genuine(d, f.callbacks)
    modifies n, n.buf, s.coils, s.regs, f`log
    ensures n.Valid() && AnsweredOnce(n, old(s.Contents()), f.callbacks, old(n.tx), old(n.buf[..]), old(n.rx))
    ensures |old(n.tx)| <= |n.tx| <= |old(n.tx)| + 1 && n.tx[..|old(n.tx)|] == old(n.tx)
  {
    hide Polled, AnsweredOnce, Genuine;
    ghost var was, log, db, stale, stream := n.tx, f.log, s.Contents(), n.buf[..], n.rx;
    err := NmbsServerPoll(n, s, f, d);
    AtMostOneWrite(n, s, f, d, was, log, db, stale, stream, err);
    OneResponse(n, s, f, d, was, log, db, stale, stream, err);
  }

  /**
   Which messages have an effect: on TCP every one, on RTU those to unit 0, served as broadcasts, and those to this
   server's own address. For any other unit nothing is sent, stored or called.
   */
  lemma ServedUnits(n: Nmbs, s: Server, f: FileStore, d: Option<DeviceInfo>, was: seq<seq<u8>>, log: seq<Record>,
                    db: Db, stale: seq<u8>, stream: seq<u8>, err: Error)
    requires s.Valid() && |stale| == BUF_SIZE && Sized(db) && (d.Some? ==> Proper(d.value))
    requires Polled(n, s, f, d, was, log, db, stale, stream, err)
    requires HeaderError(n.transport, n.linkUp, stream) == NoError
    ensures
      var t, v := n.transport, Received(n.transport, stale, stream);
      var tid, unit, fc := if t.Tcp? then WordAt(v, 0) else 0, v[if t.Tcp? then 6 else 0], v[if t.Tcp? then 7 else 1];
      var served := Serve(t, tid, unit, fc, t.Rtu? && unit == 0, db, d, f.callbacks, v, stale);
      if t.Tcp? || unit == 0 || unit == n.addressRtu then
        Answered(n, s, was, tid, unit, served.ans, err) && f.log == log + served.calls
      else
        n.tx == was && s.Contents() == db && f.log == log
  {
    hide Serve, Received, HeaderError, LineLeft, FlushedLine, Answered;
  }

  //////////////////////////////////////////////////////////////////////////////
  // Headers that are refused
  //////////////////////////////////////////////////////////////////////////////

  /**
   The result of the header of a TCP message, by its bytes: the length counts what is behind it, and the protocol is
   0.
   */
  function MbapVerdict(s: seq<u8>): Error {
    if |s| < 8 then TimedOut
    else
      var length := s[4] as int * 256 + s[5] as int;
      if length < 2 || length > 255 then InvalidMbap
      else if length == 255 then Fault
      else if |s| < 6 + length then TimedOut
      else if s[2] != 0 || s[3] != 0 then InvalidMbap
      else NoError
  }

  /**
   A poll whose message is refused by its header returns that error, sends nothing and changes nothing; a line with no
   byte on it is no error. On RTU two bytes are a header.
   */
  lemma HeaderRefused(n: Nmbs, s: Server, f: FileStore, d: Option<DeviceInfo>, was: seq<seq<u8>>, log: seq<Record>,
                      db: Db, stale: seq<u8>, stream: seq<u8>, err: Error)
    requires s.Valid() && |stale| == BUF_SIZE && Sized(db) && (d.Some? ==> Proper(d.value))
    requires Polled(n, s, f, d, was, log, db, stale, stream, err)
    ensures
      var e := if !n.linkUp then TransportError
               else if n.transport.Tcp? then MbapVerdict(stream)
               else if |stream| < 2 then TimedOut else NoError;
      e != NoError ==>
        && err == (if e == TimedOut && stream == [] then NoError else e)
        && n.tx == was && s.Contents() == db && f.log == log
  {
    hide Serve, Received, Done, LineLeft, FlushedLine;
  }

  //////////////////////////////////////////////////////////////////////////////
  // A request that gets no answer
  //////////////////////////////////////////////////////////////////////////////

  /** A Write Multiple Coils request of the largest size a PDU can have: 1976 coils in 247 bytes. */
  function LargestCoilsPdu(): (pdu: Pdu)
    ensures |pdu| == MAX_PDU
  {
    [15, 0, 0, 0x07, 0xB8, 247] + seq(247, _ => 0)
  }

  /** It arrives whole, with every length and checksum right, and is dropped: not even an exception answers it. */
  lemma LargestCoilsDropped(t: Transport, stale: seq<u8>, tid: u16, unit: u8, db: Db, d: Option<DeviceInfo>,
                            p: Option<FilePolicy>)
    requires |stale| == BUF_SIZE && Sized(db) && (d.Some? ==> Proper(d.value))
    ensures var frame := Frame(t, tid, unit, LargestCoilsPdu());
      HeaderError(t, true, frame) == NoError &&
      var v := Received(t, stale, frame);
      && Carries(t, v, tid, unit, LargestCoilsPdu())
      && Serve(t, tid, unit, 15, false, db, d, p, v, stale) == Unserved(InvalidRequest, db)
      && !IsAnswered(t, unit, 15, db, p, v, stale)
  {
    hide Frame, Carries, Received, HeaderError, Intact;
    var pdu, h := LargestCoilsPdu(), HeaderSize(t);
    var frame := Frame(t, tid, unit, pdu);
    assert frame + [] == frame;
    FrameReceived(t, tid, unit, pdu, stale, []);
    var v := Received(t, stale, frame);
    PduBytes(t, v, tid, unit, pdu);
    var w := v[h..h - 1 + |pdu|];
    assert w[4] == pdu[5] == 247 && w[4] == v[h + 4];
  }
}
