/** Which addressed requests are answered: the exact condition on the received message, function by function. */
module Answerable {
  import opened Wrappers
  import opened Bytes
  import opened Crc
  import opened Adu
  import opened Store
  import opened Protocol
  import opened NmbsCore
  import opened Responses
  import opened DeviceId
  import opened Files
  import opened FileHandler
  import opened Poll

  //////////////////////////////////////////////////////////////////////////////
  // The message
  //////////////////////////////////////////////////////////////////////////////

  /** Bytes of the body that every message of a function has; where one of them is a byte count, it is the last. */
  function FixedSize(fc: u8): nat {
    if 1 <= fc <= 6 then 4
    else if fc == 15 || fc == 16 then 5
    else if fc == 20 || fc == 21 then 1
    else if fc == 23 then 9
    else if fc == 43 then 3
    else 0
  }

  /** The byte count of a message, zero for functions without one. */
  function ByteCount(t: Transport, fc: u8, v: seq<u8>): u8
    requires |v| >= HeaderSize(t) + FixedSize(fc)
  {
    if fc == 15 || fc == 16 || fc == 20 || fc == 21 || fc == 23 then v[HeaderSize(t) + FixedSize(fc) - 1] else 0
  }

  /** The largest byte count a handler accepts; a larger one makes it return without an answer. */
  function MaxCount(fc: u8): u8 {
    if fc == 15 || fc == 16 then 246 else if fc == 20 then 245 else if fc == 21 then 251 else if fc == 23 then 242
    else 255
  }

  predicate Oversized(t: Transport, fc: u8, v: seq<u8>)
    requires |v| >= HeaderSize(t) + FixedSize(fc)
  {
    ByteCount(t, fc, v) > MaxCount(fc)
  }

  /**
   On RTU: the whole message has arrived and its checksum is right. For functions 16 and 23 the handler takes the
   checksum over an even number of payload bytes.
   */
  predicate Intact(t: Transport, fc: u8, v: seq<u8>)
    requires |v| >= HeaderSize(t) + FixedSize(fc)
  {
    var count := ByteCount(t, fc, v);
    var end := HeaderSize(t) + FixedSize(fc) + count;
    var covered := if fc == 16 || fc == 23 then end - count % 2 else end;
    t.Rtu? && Known(fc) ==> |v| >= end + 2 && WordAt(v, end) == Crc16(v[..covered])
  }

  /** The handler reads the message to its end. */
  predicate Taken(t: Transport, fc: u8, v: seq<u8>) {
    |v| >= HeaderSize(t) + FixedSize(fc) && !Oversized(t, fc, v) && Intact(t, fc, v)
  }

  /**
   A complete message, one whose PDU has the size its byte count says, is read to its end exactly when no byte-count
   guard fires. On RTU a 16 or 23 with an odd count is complete in this sense only by accident.
   */
  lemma CompleteTaken(t: Transport, v: seq<u8>, tid: u16, unit: u8, pdu: Pdu)
    requires |v| >= HeaderSize(t) && Carries(t, v, tid, unit, pdu)
    requires |pdu| >= 1 + FixedSize(pdu[0])
      && (Known(pdu[0]) ==> |pdu| == 1 + FixedSize(pdu[0]) + ByteCount(t, pdu[0], v))
    requires pdu[0] == 16 || pdu[0] == 23 ==> t.Tcp? || |pdu| % 2 == 0
    ensures Taken(t, pdu[0], v) <==> !Oversized(t, pdu[0], v)
  {
    hide Crc16;
  }

  //////////////////////////////////////////////////////////////////////////////
  // Undefined behaviour
  //////////////////////////////////////////////////////////////////////////////

  /** A register range that starts inside its table and leaves it, or another unit's registers. */
  predicate RegsUndefined(db: Db, unit: u8, a: u16, q: u16) {
    a <= 256 && (unit != db.id || a + q > 256)
  }

  predicate CoilsUndefined(db: Db, unit: u8, a: u16, q: u16, limit: nat) {
    a < 2056 && (unit != db.id || a + q > limit)
  }

  /** A data request that passes the handler's own checks and takes a callback past its table. */
  predicate RequestUndefined(db: Db, unit: u8, fc: u8, req: Request) {
    match req
    case ReadBits(a, q) => fc == 1 && 1 <= q <= 2000 && InRange(a, q) && CoilsUndefined(db, unit, a, q, 2000)
    case ReadRegs(a, q) => 1 <= q <= 125 && InRange(a, q) && RegsUndefined(db, unit, a, q)
    case WriteCoil(a, x) => (x == 0 || x == 0xFF00) && CoilsUndefined(db, unit, a, 1, 2048)
    case WriteReg(a, _) => RegsUndefined(db, unit, a, 1)
    case WriteCoils(a, q, data) =>
      1 <= q <= 0x07B0 && InRange(a, q) && (q + 7) / 8 == |data| && CoilsUndefined(db, unit, a, q, 2048)
    case WriteRegs(a, q, n, _) => 1 <= q <= 123 && InRange(a, q) && n == 2 * q && RegsUndefined(db, unit, a, q)
    case ReadWriteRegs(ra, rq, wa, wq, n, _) =>
      && 1 <= rq <= 125 && 1 <= wq <= 123 && n == 2 * wq && InRange(ra, rq) && InRange(wa, wq)
      && (RegsUndefined(db, unit, wa, wq) || (wa <= 256 && RegsUndefined(db, unit, ra, rq)))
  }

  /** The records read before and including some record do not fit into the rest of msg.buf. */
  ghost predicate Overflows(p: FilePolicy, subs: seq<SubRead>, room: int) {
    exists i :: 0 <= i < |subs| && AllDelivered(p, subs[..i]) && ResponseSize(subs[..i + 1]) > room
  }

  /** A valid read of more than msg.buf holds; on RTU the checksum needs room too. */
  ghost predicate ReadUndefined(t: Transport, p: Option<FilePolicy>, payload: seq<u8>) {
    var subs := SubReads(payload);
    && p.Some? && |payload| % 7 == 0 && |payload| >= 7 && AllReadable(subs)
    && (|| Overflows(p.value, subs, BUF_SIZE - HeaderSize(t) - 1)
        || (t.Rtu? && AllDelivered(p.value, subs) && ResponseSize(subs) > 255))
  }

  /** The first pass over a write message is led past the end of msg.buf by sub-requests that are all good. */
  predicate WalksOff(m: seq<u8>, pos: nat, size: u16)
    requires |m| == BUF_SIZE
    decreases BUF_SIZE - pos
  {
    pos + SUBREQ_HEADER > BUF_SIZE ||
    (&& SubOk(m, pos) && Remaining(size, WordAt(m, pos + 5)) >= SUBREQ_HEADER
     && WalksOff(m, pos + SUBREQ_HEADER + 2 * WordAt(m, pos + 5), Remaining(size, WordAt(m, pos + 5))))
  }

  /** The callbacks return error codes of the C type. */
  ghost predicate Genuine(d: Option<DeviceInfo>, p: Option<FilePolicy>) {
    && (d.Some? ==> d.value.mapResult != Fault)
    && (d.Some? ==> forall id :: 0 <= id < |d.value.nameResult| ==> d.value.nameResult[id] != Fault)
    && (p.Some? ==> forall r :: p.value.writeResult(r) != Fault)
    && (p.Some? ==> forall a, b, c :: p.value.readResult(a, b, c) != Fault)
  }

  /** Serving the message reaches undefined behaviour. */
  ghost predicate Undefined(t: Transport, unit: u8, fc: u8, db: Db, p: Option<FilePolicy>, v: seq<u8>, stale: seq<u8>)
    requires Taken(t, fc, v) && (t.Tcp? ==> |v| == BUF_SIZE) && |stale| == BUF_SIZE
  {
    var h := HeaderSize(t);
    if IsDataFunction(fc) then Parse(t, fc, v).Read? && RequestUndefined(db, unit, fc, Parse(t, fc, v).req)
    else if fc == 20 then ReadUndefined(t, p, v[h + 1..h + 1 + v[h]])
    else if fc == 21 then v[h] >= SUBREQ_HEADER && WalksOff(Memory(t, v, stale, h + 3 + v[h]), h + 1, v[h])
    else false
  }

  /** An addressed request is answered. */
  ghost predicate IsAnswered(t: Transport, unit: u8, fc: u8, db: Db, p: Option<FilePolicy>, v: seq<u8>, stale: seq<u8>)
    requires (t.Tcp? ==> |v| == BUF_SIZE) && |stale| == BUF_SIZE
  {
    Taken(t, fc, v) && !Undefined(t, unit, fc, db, p, v, stale)
  }

  //////////////////////////////////////////////////////////////////////////////
  // Data functions
  //////////////////////////////////////////////////////////////////////////////

  lemma ParsedIffTaken(t: Transport, fc: u8, v: seq<u8>)
    requires IsDataFunction(fc) && |v| >= HeaderSize(t) && (t.Tcp? ==> |v| == BUF_SIZE)
    ensures Parse(t, fc, v).Read? <==> Taken(t, fc, v)
    ensures Parse(t, fc, v) != Unread(NoError)
  {
    hide ParseWords, ParseWriteCoils, ParseWriteRegs, ParseReadWrite, Taken;
    if fc <= 6 {
      WordsIffTaken(t, fc, v);
    } else if fc == 15 {
      CoilsIffTaken(t, v);
    } else if fc == 16 {
      RegsIffTaken(t, v);
    } else {
      ReadWriteIffTaken(t, v);
    }
  }

  lemma WordsIffTaken(t: Transport, fc: u8, v: seq<u8>)
    requires 1 <= fc <= 6 && |v| >= HeaderSize(t) && (t.Tcp? ==> |v| == BUF_SIZE)
    ensures ParseWords(t, fc, v).Read? <==> Taken(t, fc, v)
    ensures ParseWords(t, fc, v) != Unread(NoError)
  {
  }

  lemma CoilsIffTaken(t: Transport, v: seq<u8>)
    requires |v| >= HeaderSize(t) && (t.Tcp? ==> |v| == BUF_SIZE)
    ensures ParseWriteCoils(t, v).Read? <==> Taken(t, 15, v)
    ensures ParseWriteCoils(t, v) != Unread(NoError)
  {
  }

  lemma RegsIffTaken(t: Transport, v: seq<u8>)
    requires |v| >= HeaderSize(t) && (t.Tcp? ==> |v| == BUF_SIZE)
    ensures ParseWriteRegs(t, v).Read? <==> Taken(t, 16, v)
    ensures ParseWriteRegs(t, v) != Unread(NoError)
  {
    hide RegsAt, BytesToRegs, Crc16;
    if |v| >= HeaderSize(t) + 5 {
      EvenPart(v[HeaderSize(t) + 4]);
    }
  }

  lemma ReadWriteIffTaken(t: Transport, v: seq<u8>)
    requires |v| >= HeaderSize(t) && (t.Tcp? ==> |v| == BUF_SIZE)
    ensures ParseReadWrite(t, v).Read? <==> Taken(t, 23, v)
    ensures ParseReadWrite(t, v) != Unread(NoError)
  {
    hide RegsAt, BytesToRegs, Crc16;
    if |v| >= HeaderSize(t) + 9 {
      EvenPart(v[HeaderSize(t) + 8]);
    }
  }

  lemma EvenPart(count: u8)
    ensures 2 * (count / 2) == count - count % 2
  {
  }

  lemma ExecutedIffDefined(db: Db, unit: u8, fc: u8, req: Request)
    requires Sized(db) && Announces(fc, req) && (req.WriteCoils? ==> |req.data| <= 246)
    requires req.WriteRegs? || req.ReadWriteRegs? ==> |req.regs| == req.byteCount / 2
    ensures Execute(db, unit, fc, false, req).err == NoError <==> !RequestUndefined(db, unit, fc, req)
  {
    hide RegsPdu, EchoPdu, BitsPdu, CoilsOut, Splice;
  }

  lemma DataIff(t: Transport, unit: u8, fc: u8, db: Db, v: seq<u8>)
    requires IsDataFunction(fc) && Sized(db) && |v| >= HeaderSize(t) && (t.Tcp? ==> |v| == BUF_SIZE)
    ensures ServeData(t, unit, fc, false, db, v).ans.err == NoError <==>
      Taken(t, fc, v) && !(Parse(t, fc, v).Read? && RequestUndefined(db, unit, fc, Parse(t, fc, v).req))
  {
    hide Execute, RequestUndefined, Taken;
    ParsedIffTaken(t, fc, v);
    if Parse(t, fc, v).Read? {
      ParseShape(t, fc, v);
      ExecutedIffDefined(db, unit, fc, Parse(t, fc, v).req);
    }
  }

  lemma ParseShape(t: Transport, fc: u8, v: seq<u8>)
    requires IsDataFunction(fc) && |v| >= HeaderSize(t) && (t.Tcp? ==> |v| == BUF_SIZE) && Parse(t, fc, v).Read?
    ensures var req := Parse(t, fc, v).req;
      && (req.WriteCoils? ==> |req.data| <= 246)
      && (req.WriteRegs? || req.ReadWriteRegs? ==> |req.regs| == req.byteCount / 2)
  {
  }

  //////////////////////////////////////////////////////////////////////////////
  // File records
  //////////////////////////////////////////////////////////////////////////////

  lemma PayloadIffTaken(t: Transport, fc: u8, v: seq<u8>)
    requires (fc == 20 || fc == 21) && |v| >= HeaderSize(t) && (t.Tcp? ==> |v| == BUF_SIZE)
    ensures PayloadError(t, v, MaxCount(fc)) == NoError <==> Taken(t, fc, v)
  {
  }

  /** The loop over the records leaves msg.buf exactly in the overflowing case. */
  lemma {:induction false} TooLongIff(p: FilePolicy, subs: seq<SubRead>, room: nat)
    requires AllReadable(subs) && forall a, b, c :: p.readResult(a, b, c) != Fault
    ensures ReadBlocks(p, subs, room).TooLong? <==> Overflows(p, subs, room)
    ensures ReadBlocks(p, subs, room).Blocks? <==> AllDelivered(p, subs) && !Overflows(p, subs, room)
    ensures ReadBlocks(p, subs, room).Failed? ==> ReadBlocks(p, subs, room).err !in {NoError, Fault}
  {
    if subs != [] {
      var n := |subs| - 1;
      var front := subs[..n];
      assert Readable(subs[n]) && AllReadable(front);
      TooLongIff(p, front, room);
      OverflowsStep(p, subs, room);
      if ReadBlocks(p, front, room).Blocks? {
        ReadBlocksSize(p, front, room);
      }
      assert AllDelivered(p, subs) <==>
          AllDelivered(p, front) && p.readResult(subs[n].file, subs[n].record, subs[n].length) == NoError by {
        assert forall i :: 0 <= i < n ==> front[i] == subs[i];
      }
    }
  }

  lemma OverflowsStep(p: FilePolicy, subs: seq<SubRead>, room: nat)
    requires subs != []
    ensures var front := subs[..|subs| - 1];
      Overflows(p, subs, room) <==> Overflows(p, front, room) || (AllDelivered(p, front) && ResponseSize(subs) > room)
  {
    hide AllDelivered, ResponseSize;
    var n := |subs| - 1;
    var front := subs[..n];
    assert subs[..n + 1] == subs;
    if Overflows(p, subs, room) {
      var i :| 0 <= i < |subs| && AllDelivered(p, subs[..i]) && ResponseSize(subs[..i + 1]) > room;
      if i < n {
        SamePrefix(subs, i);
      }
    }
    if Overflows(p, front, room) {
      var i :| 0 <= i < |front| && AllDelivered(p, front[..i]) && ResponseSize(front[..i + 1]) > room;
      SamePrefix(subs, i);
    }
    if AllDelivered(p, front) && ResponseSize(subs) > room {
      assert AllDelivered(p, subs[..n]) && ResponseSize(subs[..n + 1]) > room;
    }
  }

  lemma SamePrefix(subs: seq<SubRead>, i: nat)
    requires i < |subs| - 1
    ensures subs[..|subs| - 1][..i] == subs[..i] && subs[..|subs| - 1][..i + 1] == subs[..i + 1]
  {
  }

  lemma ReadIff(t: Transport, tid: u16, unit: u8, db: Db, p: Option<FilePolicy>, payload: seq<u8>)
    requires |payload| <= 245 && (p.Some? ==> forall a, b, c :: p.value.readResult(a, b, c) != Fault)
    ensures ExecuteReadFile(db, p, t, tid, unit, 20, false, payload).err == NoError <==> !ReadUndefined(t, p, payload)
  {
    hide SubReads, ReadBlocks, Readable, HeaderBytes, Overflows, AllDelivered;
    var subs, room := SubReads(payload), BUF_SIZE - HeaderSize(t) - 1;
    if p.Some? && AllReadable(subs) {
      TooLongIff(p.value, subs, room);
      if ReadBlocks(p.value, subs, room).Blocks? {
        ReadBlocksSize(p.value, subs, room);
      }
    }
  }

  lemma {:induction false} StuckIff(m: seq<u8>, pos: nat, size: u16)
    requires |m| == BUF_SIZE
    ensures Check(m, pos, size).Stuck? <==> WalksOff(m, pos, size)
    decreases BUF_SIZE - pos
  {
    if pos + SUBREQ_HEADER <= BUF_SIZE && SubOk(m, pos) {
      var length := WordAt(m, pos + 5);
      StuckIff(m, pos + SUBREQ_HEADER + 2 * length, Remaining(size, length));
    }
  }

  lemma WriteIff(db: Db, p: Option<FilePolicy>, m: seq<u8>, pos: nat, size: u8)
    requires |m| == BUF_SIZE && pos + size <= BUF_SIZE && (p.Some? ==> forall r :: p.value.writeResult(r) != Fault)
    ensures ExecuteWriteFile(db, p, 21, false, m, pos, size).0.err == NoError <==>
      !(size >= SUBREQ_HEADER && WalksOff(m, pos, size))
  {
    hide Check, WalksOff, RecordsAt, RunWrites;
    StuckIff(m, pos, size);
    if size >= SUBREQ_HEADER && Check(m, pos, size).Accepted? && p.Some? {
      RunWritesGenuine(p.value, RecordsAt(m, pos, size));
    }
  }

  lemma {:induction false} RunWritesGenuine(p: FilePolicy, rs: seq<Record>)
    requires forall r :: p.writeResult(r) != Fault
    ensures RunWrites(p, rs).1 != Fault
  {
    if rs != [] {
      RunWritesGenuine(p, rs[1..]);
    }
  }

  //////////////////////////////////////////////////////////////////////////////
  // Device identification
  //////////////////////////////////////////////////////////////////////////////

  lemma {:induction false} CollectGenuine(d: DeviceInfo, id: nat, last: u8, room: nat)
    requires Proper(d) && forall id :: 0 <= id < 256 ==> d.nameResult[id] != Fault
    ensures Collect(d, id, last, room).Broken? ==> Collect(d, id, last, room).err != Fault
    decreases last as int + 1 - id
  {
    if id <= last as int {
      CollectGenuine(d, id + 1, last, room);
      if 2 + |d.names[id]| <= room {
        CollectGenuine(d, id + 1, last, room - 2 - |d.names[id]|);
      }
    }
  }

  lemma DeviceIff(t: Transport, db: Db, d: Option<DeviceInfo>, v: seq<u8>)
    requires |v| >= HeaderSize(t) && (t.Tcp? ==> |v| == BUF_SIZE) && (d.Some? ==> Proper(d.value)) && Genuine(d, None)
    ensures ServeDevice(t, 43, false, db, d, v).ans.err == NoError <==> Taken(t, 43, v)
  {
    hide Collect, Weight, ObjectsBytes, ShortNames;
    var h := HeaderSize(t);
    if d.Some? && |v| >= h + 3 && LastId(v[h + 1], v[h + 2]) >= 0 {
      CollectGenuine(d.value, v[h + 2] as int, LastId(v[h + 1], v[h + 2]), PAGE_ROOM);
    }
  }

  //////////////////////////////////////////////////////////////////////////////
  // Every function
  //////////////////////////////////////////////////////////////////////////////

  /** A handler returns without error exactly for the messages the predicate names. */
  lemma ServedIff(t: Transport, tid: u16, unit: u8, fc: u8, db: Db, d: Option<DeviceInfo>, p: Option<FilePolicy>,
                  v: seq<u8>, stale: seq<u8>)
    requires Sized(db) && (d.Some? ==> Proper(d.value)) && Genuine(d, p) && |stale| == BUF_SIZE
    requires |v| >= HeaderSize(t) && (t.Tcp? ==> |v| == BUF_SIZE)
    ensures Serve(t, tid, unit, fc, false, db, d, p, v, stale).ans.err == NoError <==>
      IsAnswered(t, unit, fc, db, p, v, stale)
  {
    hide ServeData, ServeDevice, PayloadError, ExecuteReadFile, ExecuteWriteFile, RequestUndefined, ReadUndefined,
         WalksOff, Parse, Memory, Intact;
    if IsDataFunction(fc) {
      DataIff(t, unit, fc, db, v);
    } else if fc == 20 {
      PayloadIffTaken(t, fc, v);
      if PayloadError(t, v, 245) == NoError {
        ReadIff(t, tid, unit, db, p, v[HeaderSize(t) + 1..HeaderSize(t) + 1 + v[HeaderSize(t)]]);
      }
    } else if fc == 21 {
      PayloadIffTaken(t, fc, v);
      if PayloadError(t, v, 251) == NoError {
        PayloadRoom(t, v);
        WriteIff(db, p, Memory(t, v, stale, HeaderSize(t) + 3 + v[HeaderSize(t)]), HeaderSize(t) + 1, v[HeaderSize(t)]);
      }
    } else if fc == 43 {
      DeviceIff(t, db, d, v);
    } else {
      UnknownTaken(t, fc, v);
    }
  }

  lemma PayloadRoom(t: Transport, v: seq<u8>)
    requires |v| >= HeaderSize(t) && PayloadError(t, v, 251) == NoError
    ensures HeaderSize(t) + 1 + v[HeaderSize(t)] <= BUF_SIZE
    ensures t.Rtu? ==> HeaderSize(t) + 3 + v[HeaderSize(t)] <= |v| && HeaderSize(t) + 3 + v[HeaderSize(t)] <= BUF_SIZE
  {
  }

  lemma UnknownTaken(t: Transport, fc: u8, v: seq<u8>)
    requires !Known(fc) && |v| >= HeaderSize(t)
    ensures Taken(t, fc, v)
  {
  }
}
