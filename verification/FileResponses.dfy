/** recv_read_file_record_res and recv_write_file_record_res. */
module FileResponses {
  import opened Bytes
  import opened Crc
  import opened Adu
  import opened NmbsCore
  import opened Responses
  import opened Files
  import opened FileHandler

  //////////////////////////////////////////////////////////////////////////////
  // Results as functions of the received stream
  //////////////////////////////////////////////////////////////////////////////

  /** A byte count of at most limit and the bytes it announces. */
  function CountedError(t: Transport, v: seq<u8>, limit: u8): (e: Error)
    requires |v| >= HeaderSize(t)
    ensures e == NoError ==>
      HeaderSize(t) < |v| && HeaderSize(t) + 1 + v[HeaderSize(t)] <= |v| && v[HeaderSize(t)] <= limit
  {
    var h := HeaderSize(t);
    if |v| < h + 1 then TimedOut
    else if v[h] > limit then InvalidResponse
    else if |v| < h + 1 + v[h] then TimedOut
    else NoError
  }

  /** The result of recv_msg_footer when msg.buf holds m, the cursor is at upto, and rest is still to come. */
  function CursorFooterError(t: Transport, m: seq<u8>, upto: nat, rest: seq<u8>): (e: Error)
    requires upto <= |m|
    ensures e == NoError && t.Rtu? ==> |rest| >= 2
  {
    if t.Tcp? then NoError
    else if upto + 2 > BUF_SIZE then Fault
    else if |rest| < 2 then TimedOut
    else if WordAt(rest, 0) != Crc16(m[..upto]) then CrcError
    else NoError
  }

  lemma CursorFooter(t: Transport, m: seq<u8>, upto: nat, fill: nat, rest: seq<u8>)
    requires upto <= fill <= |m|
    ensures FooterError(t, m[..fill] + rest, upto, fill) == CursorFooterError(t, m, upto, rest)
  {
    assert (m[..fill] + rest)[..upto] == m[..upto];
  }

  /**
   The first record of a read response, at pos of msg.buf. Its size is not compared with the byte count before it: the
   checksum is taken where the size says the record ends. An odd size is copied whole, one byte past the caller's
   registers.
   */
  function ReadBlockError(t: Transport, m: seq<u8>, pos: nat, rest: seq<u8>, wanted: bool, count: nat): (e: Error)
    requires |m| == BUF_SIZE && pos + 2 <= BUF_SIZE
    ensures e == NoError && t.Rtu? && pos == 3 ==> |rest| >= 2
  {
    var size := (m[pos] as int + 0xFF) % 0x100;
    if pos + 2 + size > BUF_SIZE then if wanted then InvalidResponse else NoError
    else
      var f := CursorFooterError(t, m, pos + 2 + size, rest);
      if f != NoError || !wanted then f
      else if m[pos + 1] != 6 || size / 2 != count then InvalidResponse
      else if size % 2 == 1 then Fault
      else NoError
  }

  /** Twice the record length, in sixteen bits. */
  function DataSize(length: u16): (size: u16)
    ensures length < 0x8000 ==> size == 2 * length
  {
    length as int * 2 % 0x1_0000
  }

  /** The record of a write response, at pos: it must come back as it was sent. */
  function WriteBlockError(t: Transport, m: seq<u8>, pos: nat, rest: seq<u8>, wanted: bool, r: Record): (e: Error)
    requires |m| == BUF_SIZE && pos + SUBREQ_HEADER + 2 * 122 <= BUF_SIZE && |r.data| <= 122
    ensures e == NoError && t.Rtu? ==> |rest| >= 2
  {
    var upto := pos + SUBREQ_HEADER + DataSize(WordAt(m, pos + 5));
    if upto > BUF_SIZE then if t.Rtu? then Fault else if wanted then InvalidResponse else NoError
    else
      var f := CursorFooterError(t, m, upto, rest);
      if f != NoError || !wanted then f
      else if RecordMatches(m, pos, r) then NoError
      else InvalidResponse
  }

  /** What is still to come behind a counted payload, and what msg.buf holds then. */
  function Following(t: Transport, v: seq<u8>): seq<u8>
    requires HeaderSize(t) < |v| && HeaderSize(t) + 1 + v[HeaderSize(t)] <= |v|
  {
    if t.Tcp? then [] else v[3 + v[2] as int..]
  }

  function Image(t: Transport, v: seq<u8>, stale: seq<u8>): (m: seq<u8>)
    requires |stale| == BUF_SIZE && (t.Tcp? ==> |v| == BUF_SIZE) && CountedFits(t, v)
    ensures |m| == BUF_SIZE
  {
    Memory(t, v, stale, HeaderSize(t) + 1 + v[HeaderSize(t)])
  }

  predicate CountedFits(t: Transport, v: seq<u8>) {
    var h := HeaderSize(t);
    h < |v| && v[h] <= 251 && h + 1 + v[h] <= |v|
  }

  /** recv_read_file_record_res after its header, on a message v received over the contents stale. */
  function ReadFileResError(t: Transport, v: seq<u8>, stale: seq<u8>, wanted: bool, count: nat): (e: Error)
    requires |v| >= HeaderSize(t) && |stale| == BUF_SIZE && (t.Tcp? ==> |v| == BUF_SIZE)
    ensures e == NoError ==> CountedFits(t, v) && (t.Rtu? ==> v[2] as int + 5 <= |v|)
  {
    var e := CountedError(t, v, 250);
    if e != NoError then e else ReadBlockError(t, Image(t, v, stale), HeaderSize(t) + 1, Following(t, v), wanted, count)
  }

  /** The registers it delivers. */
  function ReadFileRegs(t: Transport, v: seq<u8>, stale: seq<u8>, count: nat): seq<u16>
    requires |stale| == BUF_SIZE && (t.Tcp? ==> |v| == BUF_SIZE) && CountedFits(t, v) && count <= 124
  {
    var at := HeaderSize(t) + 3;
    BytesToRegs(Image(t, v, stale)[at..at + 2 * count])
  }

  /** recv_write_file_record_res after its header, likewise. */
  function WriteFileResError(t: Transport, v: seq<u8>, stale: seq<u8>, wanted: bool, r: Record): (e: Error)
    requires |v| >= HeaderSize(t) && |stale| == BUF_SIZE && (t.Tcp? ==> |v| == BUF_SIZE) && |r.data| <= 122
    ensures e == NoError ==> CountedFits(t, v) && (t.Rtu? ==> v[2] as int + 5 <= |v|)
  {
    var e := CountedError(t, v, 251);
    if e != NoError then e else WriteBlockError(t, Image(t, v, stale), HeaderSize(t) + 1, Following(t, v), wanted, r)
  }

  /** m holds r at pos, behind the reference type 6. */
  predicate RecordMatches(m: seq<u8>, pos: nat, r: Record)
    requires pos + SUBREQ_HEADER + 2 * |r.data| <= |m|
  {
    && m[pos] == 6 && WordAt(m, pos + 1) == r.file && WordAt(m, pos + 3) == r.record && WordAt(m, pos + 5) == |r.data|
    && BytesToRegs(m[pos + SUBREQ_HEADER..pos + SUBREQ_HEADER + 2 * |r.data|]) == r.data
  }

  //////////////////////////////////////////////////////////////////////////////
  // The methods
  //////////////////////////////////////////////////////////////////////////////

  /** Bytes of msg.buf behind those received are read as they are. */
  method ReadOn(n: Nmbs, count: nat)
    requires n.Valid() && n.bufIdx + count <= BUF_SIZE
    modifies n`fill
    ensures n.Valid() && n.fill == if old(n.fill) < n.bufIdx + count then n.bufIdx + count else old(n.fill)
  {
    if n.fill < n.bufIdx + count {
      n.fill := n.bufIdx + count;
    }
  }

  /** The counted payload of a response. */
  method RecvResPayload(n: Nmbs, limit: u8) returns (err: Error)
    requires AfterHeader(n) && limit <= 251
    modifies n`fill, n`rx, n`bufIdx, n.buf
    ensures |n.rx| <= |old(n.rx)|
    ensures n.Valid()
    ensures var t, v := n.transport, old(n.View());
      && err == CountedError(t, v, limit)
      && (err == NoError ==>
            && n.Receiving() && n.bufIdx == HeaderSize(t) + 1 && CountedFits(t, v)
            && n.buf[..] == Image(t, v, old(n.buf[..]))
            && (t.Rtu? ==> n.rx == Following(t, v)))
  {
    ghost var v, stale := n.View(), n.buf[..];
    var responseSize;
    err, responseSize := RecvCounted(n, limit);
    if err == NoError {
      assert n.buf[..n.fill] == v[..n.fill];
      assert n.buf[..] == n.buf[..n.fill] + n.buf[n.fill..];
    }
  }

  /** get_n over the registers of a record, and the footer behind them. */
  method RecvRecordData(n: Nmbs, size: nat) returns (err: Error)
    requires n.Receiving() && n.bufIdx + size <= BUF_SIZE
    modifies n`bufIdx, n`fill, n`rx, n.buf
    ensures |n.rx| <= |old(n.rx)|
    ensures n.Valid()
    ensures var t, m, upto := n.transport, old(n.buf[..]), old(n.bufIdx) + size;
      && err == CursorFooterError(t, m, upto, if t.Tcp? then [] else old(n.rx))
      && (err == NoError ==> n.buf[old(n.bufIdx)..upto] == m[old(n.bufIdx)..upto])
      && (err == NoError && t.Rtu? ==> n.rx == old(n.rx)[2..])
  {
    hide CursorFooterError;
    ghost var m, at := n.buf[..], n.bufIdx;
    ReadOn(n, size);
    n.Discard(size);
    err := RecvCursorFooter(n);
    if err == NoError {
      SamePart(n.buf[..], m, at + size, at);
    }
  }

  /** recv_msg_footer with the cursor wherever the message led it. */
  method RecvCursorFooter(n: Nmbs) returns (err: Error)
    requires n.Receiving()
    modifies n`bufIdx, n`fill, n`rx, n.buf
    ensures |n.rx| <= |old(n.rx)|
    ensures n.Valid()
    ensures err == CursorFooterError(n.transport, old(n.buf[..]), old(n.bufIdx),
                                     if n.transport.Tcp? then [] else old(n.rx))
    ensures err == NoError && n.transport.Rtu? ==> n.rx == old(n.rx)[2..]
    ensures err == NoError ==> n.buf[..old(n.bufIdx)] == old(n.buf[..])[..old(n.bufIdx)]
  {
    ghost var m, at, fill := n.buf[..], n.bufIdx, n.fill;
    CursorFooter(n.transport, m, at, fill, if n.transport.Tcp? then [] else n.rx);
    assert n.transport.Tcp? ==> n.View() == m[..BUF_SIZE];
    err := n.RecvMsgFooter();
    assert n.transport.Tcp? ==> n.View() == n.buf[..BUF_SIZE];
  }

  //////////////////////////////////////////////////////////////////////////////
  // Reading a record
  //////////////////////////////////////////////////////////////////////////////

  /** wanted is false when a server skips another unit's response. */
  method RecvReadFileRecordRes(n: Nmbs, wanted: bool, count: u16) returns (err: Error, registers: seq<u16>)
    requires n.Valid() && count <= 124
    modifies n, n.buf
    ensures |n.rx| <= |old(n.rx)|
    ensures unchanged(n`tx, n`linkUp, n`currentTid, n`destAddressRtu)
    ensures n.Valid()
    ensures
      var e := ReceptionError(n.transport, n.linkUp, old(n.buf[..]), old(n.rx), old(n.transactionId), old(n.unitId),
                              old(n.fc));
      if e != NoError then err == e else
      var v := Received(n.transport, old(n.buf[..]), old(n.rx));
      && err == ReadFileResError(n.transport, v, old(n.buf[..]), wanted, count)
      && (err == NoError && wanted ==> registers == ReadFileRegs(n.transport, v, old(n.buf[..]), count))
      && (err == NoError && n.transport.Rtu? ==> n.rx == v[v[2] as int + 5..])
  {
    hide ReadFileResError, ReadFileRegs, ReceptionError;
    registers := [];
    ghost var stale := n.buf[..];
    err := RecvResHeader(n);
    if err == NoError {
      ImageStale(n.transport, n.View(), stale, n.buf[..]);
      ReadFileStale(n.transport, n.View(), stale, n.buf[..], wanted, count);
      err, registers := RecvReadFileBody(n, wanted, count);
    }
  }

  /** The results do not depend on what the header was received over. */
  lemma ImageStale(t: Transport, v: seq<u8>, a: seq<u8>, b: seq<u8>)
    requires |v| >= HeaderSize(t) && |a| == |b| == BUF_SIZE && (t.Tcp? ==> |v| == BUF_SIZE)
      && (t.Rtu? ==> a[2..] == b[2..])
    ensures CountedFits(t, v) ==> Image(t, v, a) == Image(t, v, b)
  {
    if t.Rtu? && CountedFits(t, v) {
      var end := 3 + v[2] as int;
      assert a[end..] == a[2..][end - 2..] && b[end..] == b[2..][end - 2..];
    }
  }

  lemma ReadFileStale(t: Transport, v: seq<u8>, a: seq<u8>, b: seq<u8>, wanted: bool, count: nat)
    requires |v| >= HeaderSize(t) && |a| == |b| == BUF_SIZE && (t.Tcp? ==> |v| == BUF_SIZE) && count <= 124
    requires CountedFits(t, v) ==> Image(t, v, a) == Image(t, v, b)
    ensures ReadFileResError(t, v, a, wanted, count) == ReadFileResError(t, v, b, wanted, count)
    ensures CountedFits(t, v) ==> ReadFileRegs(t, v, a, count) == ReadFileRegs(t, v, b, count)
  {
    hide ReadBlockError, Image, BytesToRegs;
  }

  method RecvReadFileBody(n: Nmbs, wanted: bool, count: u16) returns (err: Error, registers: seq<u16>)
    requires AfterHeader(n) && count <= 124
    modifies n`fill, n`rx, n`bufIdx, n.buf
    ensures |n.rx| <= |old(n.rx)|
    ensures n.Valid()
    ensures var v := old(n.View());
      && err == ReadFileResError(n.transport, v, old(n.buf[..]), wanted, count)
      && (err == NoError && wanted ==> registers == ReadFileRegs(n.transport, v, old(n.buf[..]), count))
      && (err == NoError && n.transport.Rtu? ==> n.rx == v[v[2] as int + 5..])
  {
    hide BytesToRegs, Image, ReadBlockError, CountedError;
    registers := [];
    ghost var v := n.View();
    err := RecvResPayload(n, 250);
    if err == NoError {
      err, registers := RecvReadBlock(n, wanted, count);
      assert n.transport.Rtu? && err == NoError ==> v[3 + v[2] as int..][2..] == v[v[2] as int + 5..];
    }
  }

  /** The part behind the counted payload. */
  method RecvReadBlock(n: Nmbs, wanted: bool, count: u16) returns (err: Error, registers: seq<u16>)
    requires n.Receiving() && n.bufIdx == HeaderSize(n.transport) + 1 && count <= 124
    modifies n`fill, n`rx, n`bufIdx, n.buf
    ensures |n.rx| <= |old(n.rx)|
    ensures n.Valid()
    ensures
      var t, m, pos := n.transport, old(n.buf[..]), old(n.bufIdx);
      && err == ReadBlockError(t, m, pos, if t.Tcp? then [] else old(n.rx), wanted, count)
      && (err == NoError && wanted ==> registers == BytesToRegs(m[pos + 2..pos + 2 + 2 * count]))
      && (err == NoError && t.Rtu? ==> n.rx == old(n.rx)[2..])
  {
    hide BytesToRegs, CursorFooterError;
    registers := [];
    ghost var m := n.buf[..];
    ReadOn(n, 2);
    var subreqDataSize: u8 := n.Get1();
    subreqDataSize := (subreqDataSize as int + 0xFF) % 0x100;
    var referenceType := n.Get1();
    var at := n.bufIdx;
    if at + subreqDataSize > BUF_SIZE {
      // Only on TCP, where the cursor is not used again and the size cannot be the wanted one.
      return if wanted then InvalidResponse else NoError, registers;
    }
    err := RecvRecordData(n, subreqDataSize);
    if err != NoError {
      return;
    }
    if wanted {
      if referenceType != 6 {
        return InvalidResponse, registers;
      }
      if count != subreqDataSize / 2 {
        return InvalidResponse, registers;
      }
      if subreqDataSize % 2 == 1 {
        return Fault, registers;
      }
      registers := SwapAndCopy(n, at, count);
    }
  }

  lemma SamePart(a: seq<u8>, b: seq<u8>, upto: nat, at: nat)
    requires at <= upto <= |a| == |b| && a[..upto] == b[..upto]
    ensures a[at..upto] == b[at..upto]
  {
    assert a[at..upto] == a[..upto][at..] && b[at..upto] == b[..upto][at..];
  }

  /** swap_regs and memcpy to the caller. */
  method SwapAndCopy(n: Nmbs, at: nat, count: nat) returns (registers: seq<u16>)
    requires n.Valid() && at + 2 * count <= BUF_SIZE
    modifies n.buf
    ensures registers == BytesToRegs(old(n.buf[..])[at..at + 2 * count])
  {
    ghost var m := n.buf[..];
    SwapRegs(n, at, count);
    SwappedIsHostOrder(m, at, count);
    registers := HostRegs(n.buf[..], at, count);
  }

  //////////////////////////////////////////////////////////////////////////////
  // Writing a record
  //////////////////////////////////////////////////////////////////////////////

  method RecvWriteFileRecordRes(n: Nmbs, wanted: bool, r: Record) returns (err: Error)
    requires n.Valid() && |r.data| <= 122
    modifies n, n.buf
    ensures |n.rx| <= |old(n.rx)|
    ensures unchanged(n`tx, n`linkUp, n`currentTid, n`destAddressRtu)
    ensures n.Valid()
    ensures
      var e := ReceptionError(n.transport, n.linkUp, old(n.buf[..]), old(n.rx), old(n.transactionId), old(n.unitId),
                              old(n.fc));
      if e != NoError then err == e else
      var v := Received(n.transport, old(n.buf[..]), old(n.rx));
      && err == WriteFileResError(n.transport, v, old(n.buf[..]), wanted, r)
      && (err == NoError && n.transport.Rtu? ==> n.rx == v[v[2] as int + 5..])
  {
    hide WriteFileResError, ReceptionError;
    ghost var stale := n.buf[..];
    err := RecvResHeader(n);
    if err == NoError {
      ImageStale(n.transport, n.View(), stale, n.buf[..]);
      WriteFileStale(n.transport, n.View(), stale, n.buf[..], wanted, r);
      err := RecvWriteFileBody(n, wanted, r);
    }
  }

  lemma WriteFileStale(t: Transport, v: seq<u8>, a: seq<u8>, b: seq<u8>, wanted: bool, r: Record)
    requires |v| >= HeaderSize(t) && |a| == |b| == BUF_SIZE && (t.Tcp? ==> |v| == BUF_SIZE) && |r.data| <= 122
    requires CountedFits(t, v) ==> Image(t, v, a) == Image(t, v, b)
    ensures WriteFileResError(t, v, a, wanted, r) == WriteFileResError(t, v, b, wanted, r)
  {
    hide WriteBlockError, Image;
  }

  method RecvWriteFileBody(n: Nmbs, wanted: bool, r: Record) returns (err: Error)
    requires AfterHeader(n) && |r.data| <= 122
    modifies n`fill, n`rx, n`bufIdx, n.buf
    ensures |n.rx| <= |old(n.rx)|
    ensures n.Valid()
    ensures var v := old(n.View());
      && err == WriteFileResError(n.transport, v, old(n.buf[..]), wanted, r)
      && (err == NoError && n.transport.Rtu? ==> n.rx == v[v[2] as int + 5..])
  {
    hide Image, WriteBlockError, CountedError;
    ghost var v := n.View();
    err := RecvResPayload(n, 251);
    if err == NoError {
      err := RecvWriteBlock(n, wanted, r);
      assert n.transport.Rtu? && err == NoError ==> v[3 + v[2] as int..][2..] == v[v[2] as int + 5..];
    }
  }

  /** The part behind the counted payload. */
  method RecvWriteBlock(n: Nmbs, wanted: bool, r: Record) returns (err: Error)
    requires n.Receiving() && n.bufIdx == HeaderSize(n.transport) + 1 && |r.data| <= 122
    modifies n`fill, n`rx, n`bufIdx, n.buf
    ensures |n.rx| <= |old(n.rx)|
    ensures n.Valid()
    ensures
      var t := n.transport;
      && err == WriteBlockError(t, old(n.buf[..]), old(n.bufIdx), if t.Tcp? then [] else old(n.rx), wanted, r)
      && (err == NoError && t.Rtu? ==> n.rx == old(n.rx)[2..])
  {
    hide BytesToRegs, CursorFooterError, RecordMatches, DataSize;
    ghost var m := n.buf[..];
    ReadOn(n, SUBREQ_HEADER);
    var referenceType, fileNumber, recordNumber, recordLength := GetSubHeader(n);
    var at := n.bufIdx;
    var subreqDataSize := DataSize(recordLength);
    if at + subreqDataSize > BUF_SIZE {
      // On RTU the checksum would be taken past msg.buf; on TCP no wanted length is that large.
      return if n.transport == Rtu then Fault else if wanted then InvalidResponse else NoError;
    }
    err := RecvRecordData(n, subreqDataSize);
    if err == NoError && wanted {
      err := CompareRecord(n, referenceType, fileNumber, recordNumber, recordLength, at, r, m);
    }
  }

  /** The comparisons of a response with the record that was written; m is msg.buf before the footer. */
  method CompareRecord(n: Nmbs, referenceType: u8, fileNumber: u16, recordNumber: u16, recordLength: u16, at: nat,
                       r: Record, ghost m: seq<u8>) returns (err: Error)
    requires n.Valid() && SUBREQ_HEADER <= at && at + 2 * 122 <= BUF_SIZE == |m| && |r.data| <= 122
    requires var pos := at - SUBREQ_HEADER;
      referenceType == m[pos] && fileNumber == WordAt(m, pos + 1) && recordNumber == WordAt(m, pos + 3)
        && recordLength == WordAt(m, pos + 5)
    requires recordLength == |r.data| ==> n.buf[at..at + 2 * |r.data|] == m[at..at + 2 * |r.data|]
    modifies n.buf
    ensures err == if RecordMatches(m, at - SUBREQ_HEADER, r) then NoError else InvalidResponse
  {
    hide BytesToRegs, WordAt;
    if referenceType != 6 {
      return InvalidResponse;
    }
    if fileNumber != r.file {
      return InvalidResponse;
    }
    if recordNumber != r.record {
      return InvalidResponse;
    }
    if recordLength != |r.data| {
      return InvalidResponse;
    }
    var same := SameRegisters(n, at, r.data);
    return if same then NoError else InvalidResponse;
  }

  /** swap_regs and memcmp against the registers that were written. */
  method SameRegisters(n: Nmbs, at: nat, registers: seq<u16>) returns (same: bool)
    requires n.Valid() && at + 2 * |registers| <= BUF_SIZE
    modifies n.buf
    ensures same == (BytesToRegs(old(n.buf[..])[at..at + 2 * |registers|]) == registers)
  {
    var received := SwapAndCopy(n, at, |registers|);
    same := received == registers;
  }
}
