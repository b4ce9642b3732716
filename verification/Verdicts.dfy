/** The client's verdict on any response that reaches it whole: accepted if and only if it answers the request. */
module Verdicts {
  import opened Wrappers
  import opened Bytes
  import opened Adu
  import opened Protocol
  import opened NmbsCore
  import opened Responses
  import opened Client
  import opened RoundTrips
  import opened Files
  import opened FileHandler
  import opened FileResponses
  import opened FileCalls
  import opened DataAnswers
  import opened DeviceId
  import opened DeviceResponses

  //////////////////////////////////////////////////////////////////////////////
  // The response header
  //////////////////////////////////////////////////////////////////////////////

  /** The verdict on the ids and the function code of a response to a request with ids tid, unit and fc. */
  function HeaderVerdict(t: Transport, tid': u16, unit': u8, pdu: seq<u8>, tid: u16, unit: u8, fc: u8): Error
    requires |pdu| >= 1 && (pdu[0] as int == fc + 128 ==> |pdu| >= 2)
  {
    if t.Tcp? && tid' != tid then InvalidMbap
    else if t.Rtu? && unit' != unit then InvalidUnitId
    else if pdu[0] == fc then NoError
    else if pdu[0] as int == fc + 128 && 1 <= pdu[1] <= 4 then Exception(pdu[1])
    else InvalidResponse
  }

  /** An exception response has two bytes. */
  predicate WellFormedResponse(pdu: seq<u8>, fc: u8) {
    |pdu| >= 1 && (pdu[0] as int == fc + 128 ==> |pdu| == 2)
  }

  lemma HeaderJudged(t: Transport, v: seq<u8>, tid': u16, unit': u8, pdu: seq<u8>, tid: u16, unit: u8, fc: u8)
    requires |v| >= HeaderSize(t) && (t.Tcp? ==> |v| == BUF_SIZE)
    requires WellFormedResponse(pdu, fc) && Carries(t, v, tid', unit', pdu)
    ensures ResHeaderError(t, v, tid, unit, fc) == HeaderVerdict(t, tid', unit', pdu, tid, unit, fc)
  {
    PduBytes(t, v, tid', unit', pdu);
    var h := HeaderSize(t);
    if |pdu| == 2 {
      assert v[h..h + 1][0] == v[h] == pdu[1];
    }
  }

  /** The same of a frame as it comes over the line, with anything behind it. */
  lemma ReceptionJudged(t: Transport, stale: seq<u8>, tid': u16, unit': u8, pdu: Pdu, rest: seq<u8>, tid: u16, unit: u8,
                        fc: u8) returns (v: seq<u8>)
    requires |stale| == BUF_SIZE && WellFormedResponse(pdu, fc)
    ensures var stream := Frame(t, tid', unit', pdu) + rest;
      && HeaderError(t, true, stream) == NoError && v == Received(t, stale, stream)
      && Carries(t, v, tid', unit', pdu)
      && ReceptionError(t, true, stale, stream, tid, unit, fc) == HeaderVerdict(t, tid', unit', pdu, tid, unit, fc)
  {
    hide Carries, ResHeaderError;
    FrameReceived(t, tid', unit', pdu, stale, rest);
    v := Received(t, stale, Frame(t, tid', unit', pdu) + rest);
    HeaderJudged(t, v, tid', unit', pdu, tid, unit, fc);
  }

  //////////////////////////////////////////////////////////////////////////////
  // Write acknowledgements
  //////////////////////////////////////////////////////////////////////////////

  /** A response with the two words a' and b', to a request whose words were a and b. */
  lemma EchoJudged(t: Transport, v: seq<u8>, tid: u16, unit: u8, fc: u8, a': u16, b': u16, a: u16, b: u16)
    requires |v| >= HeaderSize(t) && (t.Tcp? ==> |v| == BUF_SIZE)
    requires Carries(t, v, tid, unit, [fc, a' / 256, a' % 256, b' / 256, b' % 256])
    ensures EchoResError(t, v, a, b) == if a' == a && b' == b then NoError else InvalidResponse
  {
    var pdu, h := [fc, a' / 256, a' % 256, b' / 256, b' % 256], HeaderSize(t);
    PduBytes(t, v, tid, unit, pdu);
    hide Carries, FooterError;
    var w := v[h..h + 4];
    assert w == pdu[1..];
    assert w[0] == v[h] && w[1] == v[h + 1] && w[2] == v[h + 2] && w[3] == v[h + 3];
  }

  /**
   recv_write_single_coil_res and its three likes, when the frame of any write acknowledgement is next on the line: the
   call succeeds if and only if it comes from the right transaction or unit, has the request's function code and repeats
   both its words.
   */
  method ReceiveAnyEcho(c: Nmbs, a: u16, b: u16, ghost tid': u16, ghost unit': u8, ghost fc': u8, ghost a': u16,
                        ghost b': u16, ghost rest: seq<u8>) returns (err: Error)
    requires c.Valid() && c.linkUp && fc' as int != c.fc + 128
    requires c.rx == Frame(c.transport, tid', unit', [fc', a' / 256, a' % 256, b' / 256, b' % 256]) + rest
    modifies c, c.buf
    ensures c.Valid() && c.tx == old(c.tx)
    ensures err ==
      if c.transport.Tcp? && tid' != old(c.transactionId) then InvalidMbap
      else if c.transport.Rtu? && unit' != old(c.unitId) then InvalidUnitId
      else if fc' != old(c.fc) then InvalidResponse
      else if a' == a && b' == b then NoError
      else InvalidResponse
  {
    hide Frame, Carries, EchoResError, HeaderError, Received, ReceptionError;
    ghost var t, stale, pdu: Pdu := c.transport, c.buf[..], [fc', a' / 256, a' % 256, b' / 256, b' % 256];
    ghost var v := ReceptionJudged(t, stale, tid', unit', pdu, rest, c.transactionId, c.unitId, c.fc);
    EchoJudged(t, v, tid', unit', fc', a', b', a, b);
    err := RecvEchoRes(c, a, b);
  }

  //////////////////////////////////////////////////////////////////////////////
  // Registers and bits
  //////////////////////////////////////////////////////////////////////////////

  /** A response with count bytes of registers: fc, count, and the registers high byte first. */
  ghost predicate RegistersPdu(pdu: seq<u8>, fc: u8, regs: seq<u16>) {
    && |pdu| == 2 + 2 * |regs| && |regs| <= 125 && pdu[0] == fc && pdu[1] as int == 2 * |regs|
    && forall k :: 0 <= k < |regs| ==> Big(pdu, 2 + 2 * k) == regs[k]
  }

  lemma RegistersJudged(t: Transport, v: seq<u8>, tid: u16, unit: u8, pdu: Pdu, fc: u8, regs: seq<u16>, quantity: u16)
    requires |v| >= HeaderSize(t) && (t.Tcp? ==> |v| == BUF_SIZE)
    requires RegistersPdu(pdu, fc, regs) && Carries(t, v, tid, unit, pdu)
    ensures var h := HeaderSize(t);
      && RegsResError(t, v, quantity) == (if |regs| == quantity as nat then NoError else InvalidResponse)
      && h < |v| && h + 1 + v[h] <= |v| && BytesToRegs(v[h + 1..h + 1 + v[h]]) == regs
  {
    RegsPduIs(pdu, fc, regs);
    hide RegistersPdu, RegsPdu;
    var h := HeaderSize(t);
    RegsReceived(t, v, tid, unit, fc, regs);
    hide Carries, FooterError, BytesToRegs;
  }

  lemma RegsPduIs(pdu: seq<u8>, fc: u8, regs: seq<u16>)
    requires RegistersPdu(pdu, fc, regs)
    ensures pdu == RegsPdu(fc, regs)
  {
    hide RegsToBytes;
    var bytes := RegsToBytes(regs);
    forall i | 0 <= i < |bytes| ensures pdu[2 + i] == bytes[i] {
      SameWord(pdu, fc, regs, i / 2);
      assert i == 2 * (i / 2) || i == 2 * (i / 2) + 1;
    }
    assert pdu == [pdu[0], pdu[1]] + bytes;
  }

  lemma SameWord(pdu: seq<u8>, fc: u8, regs: seq<u16>, k: nat)
    requires RegistersPdu(pdu, fc, regs) && k < |regs|
    ensures pdu[2 + 2 * k] == RegsToBytes(regs)[2 * k] && pdu[3 + 2 * k] == RegsToBytes(regs)[2 * k + 1]
  {
    hide RegsToBytes;
    var bytes := RegsToBytes(regs);
    RegsRoundTrip(regs);
    assert BytesToRegs(bytes)[k] == WordAt(bytes, 2 * k);
    assert Big(pdu, 2 + 2 * k) == regs[k];
  }

  /** recv_read_registers_res, when any response with registers is next on the line. */
  method ReceiveAnyRegisters(c: Nmbs, quantity: u16, ghost tid': u16, ghost unit': u8, ghost fc': u8, ghost pdu: Pdu,
                             ghost regs: seq<u16>, ghost rest: seq<u8>) returns (err: Error, registers: seq<u16>)
    requires c.Valid() && c.linkUp && fc' as int != c.fc + 128 && RegistersPdu(pdu, fc', regs)
    requires c.rx == Frame(c.transport, tid', unit', pdu) + rest
    modifies c, c.buf
    ensures c.Valid() && c.tx == old(c.tx)
    ensures err ==
      if c.transport.Tcp? && tid' != old(c.transactionId) then InvalidMbap
      else if c.transport.Rtu? && unit' != old(c.unitId) then InvalidUnitId
      else if fc' != old(c.fc) then InvalidResponse
      else if |regs| == quantity as nat then NoError
      else InvalidResponse
    ensures err == NoError ==> registers == regs
  {
    hide Frame, Carries, RegsResError, HeaderError, Received, ReceptionError, BytesToRegs;
    ghost var t, stale := c.transport, c.buf[..];
    ghost var v := ReceptionJudged(t, stale, tid', unit', pdu, rest, c.transactionId, c.unitId, c.fc);
    RegistersJudged(t, v, tid', unit', pdu, fc', regs, quantity);
    err, registers := RecvReadRegistersRes(c, quantity);
  }

  lemma BitsJudged(t: Transport, v: seq<u8>, tid: u16, unit: u8, fc: u8, bytes: seq<u8>)
    requires |v| >= HeaderSize(t) && (t.Tcp? ==> |v| == BUF_SIZE)
    requires |bytes| <= 251 && Carries(t, v, tid, unit, [fc, |bytes|] + bytes)
    ensures var h := HeaderSize(t);
      && BitsResError(t, v) == (if |bytes| <= 250 then NoError else InvalidResponse)
      && h + 1 + |bytes| <= |v| && v[h] as int == |bytes| && v[h + 1..h + 1 + |bytes|] == bytes
  {
    var pdu := [fc, |bytes|] + bytes;
    PduBytes(t, v, tid, unit, pdu);
    assert pdu[1..] == [|bytes| as u8] + bytes;
    CountedAt(v, HeaderSize(t), |bytes|, bytes);
    hide Carries, FooterError;
  }

  /**
   recv_read_discrete_res, when any response with bits is next on the line. The number of bytes is not compared with the
   quantity asked for: any number that fits in the 250 bytes of a bit field is accepted.
   */
  method ReceiveAnyBits(c: Nmbs, ghost tid': u16, ghost unit': u8, ghost fc': u8, ghost bytes: seq<u8>,
                        ghost rest: seq<u8>) returns (err: Error, values: seq<u8>)
    requires c.Valid() && c.linkUp && fc' as int != c.fc + 128 && |bytes| <= 251
    requires c.rx == Frame(c.transport, tid', unit', [fc', |bytes|] + bytes) + rest
    modifies c, c.buf
    ensures c.Valid() && c.tx == old(c.tx)
    ensures err ==
      if c.transport.Tcp? && tid' != old(c.transactionId) then InvalidMbap
      else if c.transport.Rtu? && unit' != old(c.unitId) then InvalidUnitId
      else if fc' != old(c.fc) then InvalidResponse
      else if |bytes| <= 250 then NoError
      else InvalidResponse
    ensures err == NoError ==> values == bytes
  {
    hide Frame, Carries, BitsResError, HeaderError, Received, ReceptionError;
    ghost var t, stale, pdu: Pdu := c.transport, c.buf[..], [fc', |bytes|] + bytes;
    ghost var v := ReceptionJudged(t, stale, tid', unit', pdu, rest, c.transactionId, c.unitId, c.fc);
    BitsJudged(t, v, tid', unit', fc', bytes);
    err, values := RecvReadDiscreteRes(c);
  }

  //////////////////////////////////////////////////////////////////////////////
  // File records
  //////////////////////////////////////////////////////////////////////////////

  /** The response to a write of r is accepted if and only if it names the same record with the same registers. */
  lemma WriteJudged(t: Transport, stale: seq<u8>, tid: u16, unit: u8, r': Record, r: Record)
    requires |stale| == BUF_SIZE && Writable(r') && |r.data| <= 122
    ensures var frame := Frame(t, tid, unit, WriteFileRequest(r'));
      HeaderError(t, true, frame) == NoError
      && WriteFileResError(t, Received(t, stale, frame), stale, true, r) == if r' == r then NoError else InvalidResponse
  {
    hide Frame, Received, ReceptionError, RecordBytes, Image, CursorFooterError, Spans, WriteBlockError;
    var pdu := WriteFileRequest(r');
    assert pdu == [pdu[0], |RecordBytes(r')|] + RecordBytes(r');
    var v := CountedAccepted(t, stale, tid, unit, pdu, RecordBytes(r'));
    WrittenBlockJudged(t, Image(t, v, stale), HeaderSize(t) + 1, Following(t, v), r', r);
  }

  lemma WrittenBlockJudged(t: Transport, m: seq<u8>, pos: nat, rest: seq<u8>, r': Record, r: Record)
    requires |m| == BUF_SIZE && Writable(r') && |r.data| <= 122 && pos + SUBREQ_HEADER + 2 * 122 <= BUF_SIZE
    requires Spans(m, pos, pos + |RecordBytes(r')|, RecordBytes(r'))
    requires CursorFooterError(t, m, pos + |RecordBytes(r')|, rest) == NoError
    ensures WriteBlockError(t, m, pos, rest, true, r) == if r' == r then NoError else InvalidResponse
  {
    hide RecordBytes, CursorFooterError, Spans;
    RecordDecodes(m, pos, r');
  }

  /** One record of a read response: its size, its reference type and its registers. */
  function RecordBlock(reference: u8, regs: seq<u16>): (block: seq<u8>)
    requires |regs| <= 124
    ensures |block| == 2 + 2 * |regs|
  {
    [1 + 2 * |regs|] + ([reference] + RegsToBytes(regs))
  }

  function RecordResponse(reference: u8, regs: seq<u16>): (pdu: Pdu)
    requires |regs| <= 124
    ensures pdu == [20, 2 + 2 * |regs|] + RecordBlock(reference, regs)
  {
    [20, 2 + 2 * |regs|] + RecordBlock(reference, regs)
  }

  /**
   The response with one record of the given reference type and registers, to a read of count registers: it is accepted
   if and only if the type is 6 and the number is right, and then these are the registers.
   */
  lemma ReadJudged(t: Transport, stale: seq<u8>, tid: u16, unit: u8, reference: u8, regs: seq<u16>, count: nat)
    requires |stale| == BUF_SIZE && |regs| <= 124 && count <= 124
    ensures
      var frame := Frame(t, tid, unit, RecordResponse(reference, regs));
      HeaderError(t, true, frame) == NoError &&
      var v := Received(t, stale, frame);
      && ReadFileResError(t, v, stale, true, count)
           == (if reference == 6 && |regs| == count then NoError else InvalidResponse)
      && (|regs| == count ==> CountedFits(t, v) && ReadFileRegs(t, v, stale, count) == regs)
  {
    hide Frame, Received, ReceptionError, ReadBlockError, Image, CursorFooterError, Spans, BytesToRegs, RecordBlock,
         Following, RecordResponse;
    var block, pdu := RecordBlock(reference, regs), RecordResponse(reference, regs);
    assert pdu[0] == 20;
    var v := CountedAccepted(t, stale, tid, unit, pdu, block);
    RecordFields(Image(t, v, stale), HeaderSize(t) + 1, reference, regs);
    ReadBlockJudged(t, Image(t, v, stale), HeaderSize(t) + 1, Following(t, v), reference, regs, count);
  }

  lemma RecordFields(m: seq<u8>, pos: nat, reference: u8, regs: seq<u16>)
    requires |regs| <= 124 && Spans(m, pos, pos + 2 + 2 * |regs|, RecordBlock(reference, regs))
    ensures pos + 2 + 2 * |regs| <= |m| && m[pos] as int == 1 + 2 * |regs| && m[pos + 1] == reference
    ensures BytesToRegs(m[pos + 2..pos + 2 + 2 * |regs|]) == regs
  {
    RegsRoundTrip(regs);
    var data := RegsToBytes(regs);
    var tail := [reference] + data;
    assert RecordBlock(reference, regs) == [1 + 2 * |regs| as u8] + tail;
    hide RegsToBytes, BytesToRegs, RecordBlock;
    CountedAt(m, pos, 1 + 2 * |regs|, tail);
    CountedAt(m, pos + 1, reference, data);
  }

  lemma ReadBlockJudged(t: Transport, m: seq<u8>, pos: nat, rest: seq<u8>, reference: u8, regs: seq<u16>, count: nat)
    requires |m| == BUF_SIZE && |regs| <= 124 && pos + 2 + 2 * |regs| <= BUF_SIZE
    requires m[pos] as int == 1 + 2 * |regs| && m[pos + 1] == reference
    requires CursorFooterError(t, m, pos + 2 + 2 * |regs|, rest) == NoError
    ensures ReadBlockError(t, m, pos, rest, true, count)
      == if reference == 6 && |regs| == count then NoError else InvalidResponse
  {
    hide CursorFooterError;
  }

  //////////////////////////////////////////////////////////////////////////////
  // Device identification
  //////////////////////////////////////////////////////////////////////////////

  /** The fixed bytes of a page that a client accepts: interface type, access code, conformity level, what follows. */
  predicate GoodPageHead(v: seq<u8>, h: nat)
    requires h + 6 <= |v|
  {
    v[h] == 14 && v[h + 1] in {1, 2, 3, 4} && v[h + 2] in {1, 2, 3, 129, 130, 131} && v[h + 3] in {0, 255}
  }

  /**
   A page with other bytes there is refused, one with more objects than asked for is an argument error, and a first
   object that would leave the page is refused.
   */
  lemma PageHeadJudged(t: Transport, v: seq<u8>, room: Option<Room>)
    requires |v| >= HeaderSize(t) + 6
    ensures var h := HeaderSize(t);
      && (!GoodPageHead(v, h) ==> TakePage(t, v, room) == Lost(InvalidResponse))
      && (GoodPageHead(v, h) && room.Some? && 0 < room.value.count < v[h + 5] ==>
            TakePage(t, v, room) == Lost(InvalidArgument))
      && (GoodPageHead(v, h) && room.None? && v[h + 5] > 0 && h + 8 <= |v| && h + 8 <= 260 && v[h + 7] > 244 ==>
            TakePage(t, v, room) == Lost(InvalidResponse))
      && (GoodPageHead(v, h) && v[h + 5] == 0 ==>
            TakePage(t, v, room) == if FooterError(t, v, h + 6, h + 6) == NoError then Taken(h + 6, [])
                                    else Lost(FooterError(t, v, h + 6, h + 6)))
  {
    hide FooterError;
  }

  /**
   Object i has no place in the caller's buffers: there are none, or its string and terminator are longer than one.
   */
  predicate Overflows(o: Object, count: nat, length: nat) {
    count == 0 || |o.name| >= length
  }

  /**
   A page for a caller with count buffers of length bytes: more objects than buffers are an argument error, and
   otherwise everything is stored as it was sent if and only if every string and its terminator fit their buffer.
   The code does not compare the two lengths.
   */
  lemma PageStored(t: Transport, v: seq<u8>, count: u8, length: u8, code: u8, objects: seq<Object>, more: bool,
                   next: u8)
    requires |v| >= HeaderSize(t) && 1 <= code <= 4 && ShortNames(objects) && Weight(objects) <= PAGE_ROOM
    requires PageMessage(t, v, HeaderSize(t), code, objects, more, next)
    requires forall i :: 0 <= i < |objects| ==> 0 !in objects[i].name
    ensures TakePage(t, v, Some(Room(count, length))) ==
      if 0 < count as int < |objects| then Lost(InvalidArgument)
      else if exists i :: 0 <= i < |objects| && Overflows(objects[i], count, length) then Lost(Fault)
      else Taken(HeaderSize(t) + 6 + Weight(objects), objects)
    ensures HeaderSize(t) + 6 <= |v| && NextId(v, HeaderSize(t)) == if more then next else 127
  {
    hide ObjectsAt, PageAt, TakeObjects, Weight, ShortNames;
    var h := HeaderSize(t);
    PageFields(v, h, code, objects, more, next);
    if 0 < count as int < |objects| {
      PageHeadJudged(t, v, Some(Room(count, length)));
    } else if i :| 0 <= i < |objects| && Overflows(objects[i], count, length) {
      PageObjects(v, h, code, objects, more, next);
      OverflowLost(v, h + 6, objects, i, Room(count, length));
    } else {
      assert forall i :: 0 <= i < |objects| ==> !Overflows(objects[i], count, length);
      assert |objects| > 0 ==> !Overflows(objects[0], count, length);
      PageTaken(t, v, Some(Room(count, length)), code, objects, more, next);
    }
  }

  lemma OverflowLost(v: seq<u8>, p: nat, objects: seq<Object>, bad: nat, room: Room)
    requires ObjectsAt(v, p, objects) && bad < |objects| && Overflows(objects[bad], room.count, room.length)
    ensures TakeObjects(v, p, |objects|, 246, Some(room)) == Lost(Fault)
  {
    hide ObjectsAt, TakeObjects, CString, LeftAfter;
    OverflowFound(v, p, objects, bad, 0, room);
    assert objects[..0] == [];
  }

  /** The object loop, on its way to an object that has no place. */
  lemma {:induction false} OverflowFound(v: seq<u8>, p: nat, objects: seq<Object>, bad: nat, i: nat, room: Room)
    requires ObjectsAt(v, p, objects) && i <= bad < |objects| && Overflows(objects[bad], room.count, room.length)
    ensures TakeObjects(v, p + Weight(objects[..i]), |objects| - i, Left(i), Some(room)) == Lost(Fault)
    decreases bad - i
  {
    hide ObjectAt, ObjectsAt, Weight, CString, Left, LeftAfter, TakeObjects;
    var at := p + Weight(objects[..i]);
    ObjectTurn(v, p, objects, i, None);
    ObjectAtBytes(v, at, objects[i]);
    var e := ObjectError(v, at, LeftAfter(Left(i)), Some(room));
    var stored := if e == NoError then [Object(v[at], CString(v[at + 2..at + 2 + v[at + 1]]))] else [];
    TakeTurn(v, at, |objects| - i, Left(i), Some(room), stored);
    if e == NoError {
      OverflowFound(v, p, objects, bad, i + 1, room);
    }
  }
}
