/** nmbs_t: one message buffer with a cursor, and the primitives every client call and server handler is built from. */
module NmbsCore {
  import opened Bytes
  import Crc
  import opened Adu

  class Nmbs {
    /** msg */
    const buf: array<u8>
    var bufIdx: nat
    var unitId: u8
    var fc: u8
    var transactionId: u16
    var broadcast: bool
    var ignored: bool
    var complete: bool

    /** Up to where msg.buf holds bytes of the message being received. */
    ghost var fill: nat

    /** platform: the bytes its read will deliver, the frames its write was given, and whether the line works. */
    const transport: Transport
    var rx: seq<u8>
    var tx: seq<seq<u8>>
    var linkUp: bool

    const addressRtu: u8
    var destAddressRtu: u8
    var currentTid: u16

    ghost predicate Valid()
      reads this
    {
      && buf.Length == BUF_SIZE
      && bufIdx <= BUF_SIZE
      && fill <= BUF_SIZE
      && (complete ==> transport.Tcp? && fill == BUF_SIZE)
    }

    /** In the middle of a message whose header has been read. */
    ghost predicate Receiving()
      reads this
    {
      Valid() && linkUp && bufIdx <= fill && (transport.Tcp? <==> complete)
    }

    /** All bytes of the message, those received and those still to come. */
    ghost function View(): seq<u8>
      requires Valid()
      reads this, buf
    {
      buf[..fill] + if complete then [] else rx
    }

    constructor (transport: Transport, addressRtu: u8)
      ensures Valid() && fresh(buf)
      ensures this.transport == transport && this.addressRtu == addressRtu && currentTid == 0 && linkUp
      ensures rx == [] && tx == []
    {
      this.transport := transport;
      this.addressRtu := addressRtu;
      buf := new u8[BUF_SIZE];
      bufIdx, unitId, fc, transactionId := 0, 0, 0, 0;
      broadcast, ignored, complete := false, false, false;
      fill := 0;
      rx, tx, linkUp := [], [], true;
      destAddressRtu, currentTid := 0, 0;
    }

    //////////////////////////////////////////////////////////////////////////////
    // Cursor
    //////////////////////////////////////////////////////////////////////////////

    method Get1() returns (r: u8)
      requires Valid() && bufIdx < fill
      modifies this`bufIdx
      ensures Valid() && bufIdx == old(bufIdx) + 1 && r == buf[old(bufIdx)]
    {
      r := buf[bufIdx];
      bufIdx := bufIdx + 1;
    }

    method Get2() returns (r: u16)
      requires Valid() && bufIdx + 2 <= fill
      modifies this`bufIdx
      ensures Valid() && bufIdx == old(bufIdx) + 2 && r == Word(buf[old(bufIdx)], buf[old(bufIdx) + 1])
    {
      r := Word(buf[bufIdx], buf[bufIdx + 1]);
      bufIdx := bufIdx + 2;
    }

    /** The loops that take count bytes one by one. */
    method GetBytes(count: nat) returns (s: seq<u8>)
      requires Valid() && bufIdx + count <= fill
      modifies this`bufIdx
      ensures Valid() && bufIdx == old(bufIdx) + count && s == View()[old(bufIdx)..bufIdx]
    {
      s := [];
      for i := 0 to count
        invariant Valid() && bufIdx == old(bufIdx) + i && s == View()[old(bufIdx)..bufIdx]
      {
        var b := Get1();
        s := s + [b];
      }
    }

    /** The loops that take count registers one by one. */
    method GetRegs(count: nat) returns (regs: seq<u16>)
      requires Valid() && bufIdx + 2 * count <= fill
      modifies this`bufIdx
      ensures Valid() && bufIdx == old(bufIdx) + 2 * count
      ensures regs == BytesToRegs(View()[old(bufIdx)..bufIdx])
    {
      regs := [];
      ghost var p, v := bufIdx, View();
      for i := 0 to count
        invariant Valid() && bufIdx == p + 2 * i && View() == v && regs == BytesToRegs(v[p..bufIdx])
      {
        var reg := Get2();
        BytesToRegsAppend(v[p..], i);
        assert v[p..][..2 * i] == v[p..p + 2 * i] && v[p..][..2 * i + 2] == v[p..p + 2 * i + 2];
        regs := regs + [reg];
      }
    }

    method Discard(n: nat)
      requires Valid() && bufIdx + n <= BUF_SIZE
      modifies this`bufIdx
      ensures Valid() && bufIdx == old(bufIdx) + n
    {
      bufIdx := bufIdx + n;
    }

    method Put1(data: u8)
      requires Valid() && bufIdx < BUF_SIZE
      modifies this`bufIdx, buf
      ensures Valid() && bufIdx == old(bufIdx) + 1
      ensures buf[..bufIdx] == old(buf[..bufIdx]) + [data]
    {
      buf[bufIdx] := data;
      bufIdx := bufIdx + 1;
    }

    method Put2(data: u16)
      requires Valid() && bufIdx + 2 <= BUF_SIZE
      modifies this`bufIdx, buf
      ensures Valid() && bufIdx == old(bufIdx) + 2
      ensures buf[..bufIdx] == old(buf[..bufIdx]) + Be16(data)
    {
      buf[bufIdx] := data / 0x100;
      buf[bufIdx + 1] := data % 0x100;
      bufIdx := bufIdx + 2;
    }

    /** The loops that put registers one by one. */
    method PutRegs(data: seq<u16>)
      requires Valid() && bufIdx + 2 * |data| <= BUF_SIZE
      modifies this`bufIdx, buf
      ensures Valid() && bufIdx == old(bufIdx) + 2 * |data|
      ensures buf[..bufIdx] == old(buf[..bufIdx]) + RegsToBytes(data)
    {
      for i := 0 to |data|
        invariant Valid() && bufIdx == old(bufIdx) + 2 * i
        invariant buf[..bufIdx] == old(buf[..bufIdx]) + RegsToBytes(data[..i])
      {
        Put2(data[i]);
        RegsToBytesAppend(data[..i], data[i]);
        assert data[..i] + [data[i]] == data[..i + 1];
      }
      assert data[..|data|] == data;
    }

    /** put_n, and the loops that put bytes one by one. */
    method PutN(data: seq<u8>)
      requires Valid() && bufIdx + |data| <= BUF_SIZE
      modifies this`bufIdx, buf
      ensures Valid() && bufIdx == old(bufIdx) + |data|
      ensures buf[..bufIdx] == old(buf[..bufIdx]) + data
    {
      for i := 0 to |data|
        invariant Valid() && bufIdx == old(bufIdx) + i && buf[..bufIdx] == old(buf[..bufIdx]) + data[..i]
      {
        Put1(data[i]);
      }
    }

    /** set_1: patches a byte already written. */
    method Set1(data: u8, index: nat)
      requires Valid() && index < bufIdx
      modifies buf
      ensures buf[..bufIdx] == old(buf[..bufIdx])[index := data]
    {
      buf[index] := data;
    }

    /** set_msg_header_size: the MBAP length, once the size of the PDU is known. */
    method SetMsgHeaderSize(dataLength: u16, ghost rest: seq<u8>)
      requires Valid() && dataLength + 2 < 0x1_0000
      requires buf[..bufIdx] == HeaderBytes(transport, transactionId, unitId, fc, 0) + rest
      modifies buf
      ensures buf[..bufIdx] == HeaderBytes(transport, transactionId, unitId, fc, dataLength) + rest
    {
      ghost var h := HeaderBytes(transport, transactionId, unitId, fc, 0);
      assert bufIdx == |buf[..bufIdx]| == |h| + |rest|;
      if transport == Tcp {
        var length: u16 := dataLength + 2;
        assert forall i :: 0 <= i < 8 ==> buf[i] == buf[..bufIdx][i] == h[i];
        assert buf[8..bufIdx] == buf[..bufIdx][8..] == rest;
        buf[4] := length / 0x100;
        buf[5] := length % 0x100;
        assert buf[..8] == HeaderBytes(transport, transactionId, unitId, fc, dataLength);
        assert buf[..bufIdx] == buf[..8] + buf[8..bufIdx];
      }
    }

    //////////////////////////////////////////////////////////////////////////////
    // Platform
    //////////////////////////////////////////////////////////////////////////////

    /** platform.read into msg.buf at the cursor: the number of bytes delivered, or -1 when the line is down. */
    method PlatformRead(count: nat) returns (ret: int)
      requires Valid() && bufIdx + count <= BUF_SIZE
      modifies this`rx, buf
      ensures ret == if !linkUp then -1 else if count <= |old(rx)| then count else |old(rx)|
      ensures linkUp ==> rx == old(rx)[ret..]
      ensures !linkUp ==> rx == old(rx)
      ensures buf[..bufIdx] == old(buf[..bufIdx])
      ensures linkUp ==> buf[bufIdx..bufIdx + ret] == old(rx)[..ret]
      ensures linkUp ==> buf[bufIdx + ret..] == old(buf[bufIdx + ret..])
    {
      if !linkUp {
        return -1;
      }
      ret := if count <= |rx| then count else |rx|;
      for i := 0 to ret
        invariant rx == old(rx)
        invariant buf[..bufIdx] == old(buf[..bufIdx])
        invariant buf[bufIdx..bufIdx + i] == rx[..i]
        invariant forall k :: bufIdx + i <= k < buf.Length ==> buf[k] == old(buf[k])
      {
        buf[bufIdx + i] := rx[i];
      }
      rx := rx[ret..];
    }

    /** recv: the next count bytes into msg.buf at the cursor, unless the whole message is there already. */
    method Recv(count: nat) returns (err: Error)
      requires Valid()
      modifies this`fill, this`rx, buf
      ensures |rx| <= |old(rx)|
      ensures Valid()
      ensures complete ==> err == NoError && fill == old(fill) && rx == old(rx) && buf[..] == old(buf[..])
      ensures !complete ==>
        err == if bufIdx + count > BUF_SIZE then Fault
               else if !linkUp then TransportError
               else if |old(rx)| < count then TimedOut
               else NoError
      ensures !complete && err == NoError ==>
        fill == bufIdx + count && rx == old(rx)[count..] &&
        buf[..] == old(buf[..bufIdx]) + old(rx)[..count] + old(buf[bufIdx + count..])
      ensures err == NoError && (complete || old(fill) == bufIdx) ==> View() == old(View())
    {
      if complete {
        return NoError;
      }
      if bufIdx + count > BUF_SIZE {
        return Fault;
      }
      ghost var was := buf[..];
      var ret := PlatformRead(count);
      fill := bufIdx;
      if ret == count {
        fill := bufIdx + count;
        assert buf[..] == buf[..bufIdx] + buf[bufIdx..bufIdx + ret] + buf[bufIdx + ret..];
        return NoError;
      }
      return if ret < 0 then TransportError else TimedOut;
    }

    /** send */
    method Send(count: nat) returns (err: Error)
      requires Valid() && count <= BUF_SIZE
      modifies this`tx
      ensures tx == old(tx) + [buf[..count]]
      ensures err == if linkUp then NoError else TransportError
    {
      tx := tx + [buf[..count]];
      err := if linkUp then NoError else TransportError;
    }

    /** flush: whatever the line holds, up to a buffer full, is read over msg.buf and forgotten. */
    method Flush()
      requires Valid()
      modifies this`rx, buf
      ensures rx == if !linkUp then old(rx) else if |old(rx)| <= BUF_SIZE then [] else old(rx)[BUF_SIZE..]
    {
      if linkUp {
        var n := if |rx| <= BUF_SIZE then |rx| else BUF_SIZE;
        for i := 0 to n
          invariant rx == old(rx)
        {
          buf[i] := rx[i];
        }
        rx := rx[n..];
      }
    }

    //////////////////////////////////////////////////////////////////////////////
    // Message state, header and footer
    //////////////////////////////////////////////////////////////////////////////

    method MsgStateReset()
      requires Valid()
      modifies this`bufIdx, this`unitId, this`fc, this`transactionId, this`broadcast, this`ignored,
               this`complete, this`fill
      ensures Valid() && bufIdx == 0 && fill == 0
      ensures unitId == 0 && fc == 0 && transactionId == 0 && !broadcast && !ignored && !complete
    {
      bufIdx, fill := 0, 0;
      unitId, fc, transactionId := 0, 0, 0;
      broadcast, ignored, complete := false, false, false;
    }

    /** msg_state_req: the next transaction id, never zero, and a clean buffer for a request. */
    method MsgStateReq(requestFc: u8)
      requires Valid()
      modifies this, buf
      ensures Valid() && bufIdx == 0
      ensures currentTid == NextTid(old(currentTid)) == transactionId
      ensures unitId == destAddressRtu == old(destAddressRtu) && fc == requestFc && !ignored && !complete
      ensures broadcast == (unitId == 0 && transport.Rtu?)
      ensures tx == old(tx) && linkUp == old(linkUp)
      ensures rx == if !linkUp then old(rx) else if |old(rx)| <= BUF_SIZE then [] else old(rx)[BUF_SIZE..]
    {
      if currentTid == 0xFFFF {
        currentTid := 1;
      } else {
        currentTid := currentTid + 1;
      }
      Flush();
      MsgStateReset();
      unitId := destAddressRtu;
      fc := requestFc;
      transactionId := currentTid;
      if unitId == 0 && transport == Rtu {
        broadcast := true;
      }
    }

    method PutMsgHeader(dataLength: u16)
      requires Valid()
      modifies this`bufIdx, buf
      ensures Valid() && bufIdx == HeaderSize(transport)
      ensures buf[..bufIdx] == HeaderBytes(transport, transactionId, unitId, fc, dataLength)
    {
      bufIdx := 0;
      if transport == Rtu {
        Put1(unitId);
      } else {
        Put2(transactionId);
        Put2(0);
        Put2((1 + 1 + dataLength) % 0x1_0000);
        Put1(unitId);
      }
      Put1(fc);
    }

    method SendMsg() returns (err: Error)
      requires Valid() && (transport.Rtu? ==> bufIdx + 2 <= BUF_SIZE)
      modifies this`bufIdx, this`tx, buf
      ensures Valid()
      ensures tx == old(tx) + [Sealed(transport, old(buf[..bufIdx]))]
      ensures err == if linkUp then NoError else TransportError
    {
      if transport == Rtu {
        var crc := Crc.Calc(buf, bufIdx);
        Put2(crc);
      }
      err := Send(bufIdx);
    }

    /** send_msg when msg.buf holds the frame of pdu, up to its checksum. */
    method SendPdu(ghost pdu: seq<u8>) returns (err: Error)
      requires Valid() && 1 <= |pdu| <= MAX_PDU && pdu[0] == fc
      requires buf[..bufIdx] == HeaderBytes(transport, transactionId, unitId, fc, |pdu| - 1) + pdu[1..]
      modifies this`bufIdx, this`tx, buf
      ensures Valid()
      ensures tx == old(tx) + [Frame(transport, transactionId, unitId, pdu)]
      ensures err == if linkUp then NoError else TransportError
    {
      FrameIsSealed(transport, transactionId, unitId, pdu);
      assert bufIdx == |buf[..bufIdx]| == HeaderSize(transport) + |pdu| - 1;
      err := SendMsg();
    }

    method SendExceptionMsg(exception: u8) returns (err: Error)
      requires Valid()
      modifies this`fc, this`bufIdx, this`tx, buf
      ensures Valid()
      ensures tx == old(tx) + [Frame(transport, transactionId, unitId, [(old(fc) + 0x80) % 0x100, exception])]
      ensures err == if linkUp then NoError else TransportError
    {
      fc := (fc + 0x80) % 0x100;
      PutMsgHeader(1);
      Put1(exception);
      assert [fc, exception][1..] == [exception];
      err := SendPdu([fc, exception]);
    }

    method RecvMsgHeader() returns (err: Error, firstByteReceived: bool)
      requires Valid()
      modifies this, buf
      ensures |rx| <= |old(rx)|
      ensures unchanged(`tx, `linkUp, `currentTid, `destAddressRtu)
      ensures Valid() && !broadcast && !ignored
      ensures err == HeaderError(transport, linkUp, old(rx))
      ensures firstByteReceived == (linkUp && |old(rx)| > 0)
      ensures err == NoError ==> HeaderRead(old(buf[..]), old(rx))
    {
      MsgStateReset();
      firstByteReceived := false;
      err := Recv(1);
      if err == NoError {
        firstByteReceived := true;
        assert View() == old(rx) && buf[1..] == old(buf[..])[1..];
        if transport == Rtu {
          err := RecvRtuHeader(old(buf[..]), old(rx));
        } else {
          err := RecvMbapHeader(old(buf[..]), old(rx));
        }
      }
    }

    /** The state recv_msg_header leaves behind. */
    ghost predicate HeaderRead(stale: seq<u8>, stream: seq<u8>)
      requires |stale| == BUF_SIZE
      reads this, buf
    {
      && Receiving() && bufIdx == HeaderSize(transport)
      && HeaderError(transport, true, stream) == NoError
      && View() == Received(transport, stale, stream)
      && unitId == View()[bufIdx - 2] && fc == View()[bufIdx - 1]
      && transactionId == (if transport.Tcp? then WordAt(View(), 0) else 0)
      && (transport.Rtu? ==> fill == bufIdx && buf[2..] == stale[2..])
      && (transport.Tcp? ==> rx == stream[6 + WordAt(stream, 4)..])
    }

    method RecvRtuHeader(ghost stale: seq<u8>, ghost stream: seq<u8>) returns (err: Error)
      requires Valid() && linkUp && transport.Rtu? && bufIdx == 0 && fill == 1 && transactionId == 0
      requires |stale| == BUF_SIZE && View() == stream && buf[1..] == stale[1..]
      modifies this`bufIdx, this`unitId, this`fc, this`fill, this`rx, buf
      ensures |rx| <= |old(rx)|
      ensures Valid()
      ensures err == HeaderError(transport, true, stream)
      ensures err == NoError ==> HeaderRead(stale, stream)
    {
      unitId := Get1();
      err := Recv(1);
      if err == NoError {
        fc := Get1();
        assert View() == stream;
      }
    }

    method RecvMbapHeader(ghost stale: seq<u8>, ghost stream: seq<u8>) returns (err: Error)
      requires Valid() && linkUp && transport.Tcp? && !complete && bufIdx == 0 && fill == 1
      requires |stale| == BUF_SIZE && View() == stream && buf[1..] == stale[1..]
      modifies this`bufIdx, this`unitId, this`fc, this`transactionId, this`complete, this`fill, this`rx, buf
      ensures |rx| <= |old(rx)|
      ensures Valid()
      ensures err == HeaderError(transport, true, stream)
      ensures err == NoError ==> HeaderRead(stale, stream)
    {
      Discard(1);
      err := Recv(7);
      if err != NoError {
        return;
      }
      assert buf[..8] == stream[..8] && buf[8..] == stale[8..] && rx == stream[8..];
      bufIdx := 0;
      var protocolId, length := GetMbap(stream);
      if length < 2 || length > 255 {
        return InvalidMbap;
      }
      err := RecvRest(length, stale, stream);
      if err == NoError && protocolId != 0 {
        err := InvalidMbap;
      }
    }

    method GetMbap(ghost stream: seq<u8>) returns (protocolId: u16, length: u16)
      requires Valid() && bufIdx == 0 && fill == 8 && |stream| >= 8 && buf[..8] == stream[..8]
      modifies this`bufIdx, this`unitId, this`fc, this`transactionId
      ensures Valid() && bufIdx == 8
      ensures transactionId == WordAt(stream, 0) && protocolId == WordAt(stream, 2) && length == WordAt(stream, 4)
      ensures unitId == stream[6] && fc == stream[7]
    {
      assert forall i :: 0 <= i < 8 ==> buf[i] == buf[..8][i] == stream[i];
      transactionId := Get2();
      protocolId := Get2();
      length := Get2();
      unitId := Get1();
      fc := Get1();
    }

    /** The rest of a frame whose MBAP header sits in msg.buf: afterwards the message is complete. */
    method RecvRest(length: u16, ghost stale: seq<u8>, ghost stream: seq<u8>) returns (err: Error)
      requires Valid() && linkUp && transport.Tcp? && !complete && bufIdx == 8
      requires |stale| == BUF_SIZE && |stream| >= 8 && rx == stream[8..]
      requires buf[..8] == stream[..8] && buf[8..] == stale[8..]
      requires length == WordAt(stream, 4) && 2 <= length <= 255
      requires unitId == stream[6] && fc == stream[7] && transactionId == WordAt(stream, 0)
      modifies this`complete, this`fill, this`rx, buf
      ensures |rx| <= |old(rx)|
      ensures Valid()
      ensures err == (if 6 + length > BUF_SIZE then Fault else if |stream| < 6 + length then TimedOut else NoError)
      ensures err == NoError && WordAt(stream, 2) == 0 ==> HeaderRead(stale, stream)
    {
      ghost var was := buf[..];
      err := Recv(length - 2);
      if err == NoError {
        complete := true;
        fill := BUF_SIZE;
        assert buf[..] == stream[..6 + length] + stale[6 + length..] by {
          assert was[6 + length..] == stale[6 + length..];
        }
      }
    }

    method RecvMsgFooter() returns (err: Error)
      requires Receiving()
      modifies this`bufIdx, this`fill, this`rx, buf
      ensures |rx| <= |old(rx)|
      ensures Valid()
      ensures err == FooterError(transport, old(View()), old(bufIdx), old(fill))
      ensures transport.Tcp? ==> Receiving() && View() == old(View()) && bufIdx == old(bufIdx) && rx == old(rx)
      ensures transport.Rtu? && err == NoError ==> rx == old(rx)[2..] && buf[..old(bufIdx)] == old(buf[..bufIdx])
      ensures transport.Rtu? && err == NoError && old(bufIdx) == old(fill) ==>
        buf[..] == old(buf[..fill]) + old(rx)[..2] + old(buf[fill + 2..])
    {
      if transport == Rtu {
        var crc := Crc.Calc(buf, bufIdx);
        assert buf[..bufIdx] == View()[..bufIdx];
        err := Recv(2);
        if err != NoError {
          return;
        }
        var recvCrc := Get2();
        if recvCrc != crc {
          return CrcError;
        }
      }
      return NoError;
    }
  }

  /** The transaction id after id: 65535 is followed by 1. */
  function NextTid(id: u16): (next: u16)
    ensures next != 0
  {
    if id == 0xFFFF then 1 else id + 1
  }
}
