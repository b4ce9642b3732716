/** handle_write_file_record and handle_read_file_record. */
module FileHandler {
  import opened Wrappers
  import opened Bytes
  import opened Adu
  import opened Store
  import opened Protocol
  import opened NmbsCore
  import opened Handlers
  import opened DeviceId
  import opened Files

  /** The device behind the file callbacks, with the calls of write_file_record it has seen. */
  class FileStore {
    /** None while the callbacks are unset, as modbus_port.c leaves them. */
    const callbacks: Option<FilePolicy>
    var log: seq<Record>

    constructor (callbacks: Option<FilePolicy>)
      ensures this.callbacks == callbacks && log == []
    {
      this.callbacks := callbacks;
      log := [];
    }

    method WriteFileRecord(file: u16, record: u16, registers: seq<u16>) returns (err: Error)
      requires callbacks.Some?
      modifies this`log
      ensures log == old(log) + [Record(file, record, registers)]
      ensures err == callbacks.value.writeResult(Record(file, record, registers))
    {
      log := log + [Record(file, record, registers)];
      err := callbacks.value.writeResult(Record(file, record, registers));
    }
  }

  //////////////////////////////////////////////////////////////////////////////
  // Byte order inside msg.buf, on a little-endian host
  //////////////////////////////////////////////////////////////////////////////

  /** m with the bytes of count registers from at exchanged pairwise. */
  function Swapped(m: seq<u8>, at: nat, count: nat): (r: seq<u8>)
    requires at + 2 * count <= |m|
    ensures |r| == |m|
  {
    seq(|m|, i requires 0 <= i < |m| =>
      if i < at || i >= at + 2 * count then m[i] else if (i - at) % 2 == 0 then m[i + 1] else m[i - 1])
  }

  /** The registers a uint16_t pointer to m + at reads. */
  function HostRegs(m: seq<u8>, at: nat, count: nat): seq<u16>
    requires at + 2 * count <= |m|
  {
    seq(count, k requires 0 <= k < count => Word(m[at + 2 * k + 1], m[at + 2 * k]))
  }

  /** Swapping twice restores the message. */
  lemma SwapTwice(m: seq<u8>, at: nat, count: nat)
    requires at + 2 * count <= |m|
    ensures Swapped(Swapped(m, at, count), at, count) == m
  {
  }

  /** After one swap the host reads what the message says. */
  lemma SwappedIsHostOrder(m: seq<u8>, at: nat, count: nat)
    requires at + 2 * count <= |m|
    ensures HostRegs(Swapped(m, at, count), at, count) == BytesToRegs(m[at..at + 2 * count])
  {
  }

  /** swap_regs on a part of msg.buf: from the last register down. */
  method SwapRegs(n: Nmbs, at: nat, count: nat)
    requires n.Valid() && at + 2 * count <= BUF_SIZE
    modifies n.buf
    ensures n.buf[..] == Swapped(old(n.buf[..]), at, count)
  {
    for i := count downto 0
      invariant forall k :: 0 <= k < at + 2 * i ==> n.buf[k] == old(n.buf[k])
      invariant forall k :: at + 2 * i <= k < BUF_SIZE ==> n.buf[k] == Swapped(old(n.buf[..]), at, count)[k]
    {
      n.buf[at + 2 * i], n.buf[at + 2 * i + 1] := n.buf[at + 2 * i + 1], n.buf[at + 2 * i];
    }
  }

  //////////////////////////////////////////////////////////////////////////////
  // Write File Record
  //////////////////////////////////////////////////////////////////////////////

  /** Reference type, file number, record number and record length at the cursor. */
  method GetSubHeader(n: Nmbs) returns (referenceType: u8, fileNumber: u16, recordNumber: u16, recordLength: u16)
    requires n.Valid() && n.bufIdx + SUBREQ_HEADER <= n.fill
    modifies n`bufIdx
    ensures n.Valid() && n.bufIdx == old(n.bufIdx) + SUBREQ_HEADER
    ensures var m, p := n.buf[..], old(n.bufIdx);
      referenceType == m[p] && fileNumber == WordAt(m, p + 1) && recordNumber == WordAt(m, p + 3)
        && recordLength == WordAt(m, p + 5)
  {
    referenceType := n.Get1();
    fileNumber := n.Get2();
    recordNumber := n.Get2();
    recordLength := n.Get2();
  }

  /**
   The do/while loop of the first pass. The cursor may run past the buffer; it is read again only at the next turn.
   */
  method CheckPass(n: Nmbs, size: u8) returns (v: Verdict)
    requires n.Valid() && n.fill == BUF_SIZE && n.bufIdx + size <= BUF_SIZE
    modifies n`bufIdx
    ensures n.Valid() && v == Check(n.buf[..], old(n.bufIdx), size)
  {
    ghost var m := n.buf[..];
    var left: u16 := size;
    var cursor := n.bufIdx;
    while true
      invariant n.Valid() && Check(m, old(n.bufIdx), size) == Check(m, cursor, left)
      decreases BUF_SIZE - cursor
    {
      if cursor + SUBREQ_HEADER > BUF_SIZE {
        return Stuck;
      }
      n.bufIdx := cursor;
      var referenceType, fileNumber, recordNumber, recordLength := GetSubHeader(n);
      if referenceType != 0x06 {
        return Refused(ILLEGAL_DATA_ADDRESS);
      }
      if fileNumber == 0x0000 {
        return Refused(ILLEGAL_DATA_ADDRESS);
      }
      if recordNumber > 0x270F {
        return Refused(ILLEGAL_DATA_ADDRESS);
      }
      if recordLength > 122 {
        return Refused(ILLEGAL_DATA_ADDRESS);
      }
      cursor := cursor + SUBREQ_HEADER + 2 * recordLength;
      left := Remaining(left, recordLength);
      if left < SUBREQ_HEADER {
        break;
      }
    }
    return if left != 0 then Refused(ILLEGAL_DATA_VALUE) else Accepted;
  }

  /**
   The do/while loop of the second pass over an accepted message: the calls, and the result of the last one.
   Each record is swapped to host order in place for its call, and swapped back after a successful one.
   */
  method WritePass(n: Nmbs, f: FileStore, size: u8) returns (err: Error)
    requires n.Valid() && n.fill == BUF_SIZE && n.bufIdx + size <= BUF_SIZE && f.callbacks.Some?
    requires Check(n.buf[..], n.bufIdx, size).Accepted?
    modifies n`bufIdx, n.buf, f`log
    ensures n.Valid()
    ensures var (calls, e) := RunWrites(f.callbacks.value, RecordsAt(old(n.buf[..]), old(n.bufIdx), size));
      f.log == old(f.log) + calls && err == e
    ensures err == NoError ==> n.buf[..] == old(n.buf[..])
  {
    hide Check, RecordsAt, RecordAt, RunWrites;
    ghost var m, p := n.buf[..], f.callbacks.value;
    ghost var records := RecordsAt(m, n.bufIdx, size);
    ghost var done: seq<Record>, todo := [], records;
    ghost var calls, e := RunWrites(p, records).0, RunWrites(p, records).1;
    var left: u16 := size;
    while true
      invariant n.Valid() && n.fill == BUF_SIZE && n.buf[..] == m
      invariant n.bufIdx + left <= BUF_SIZE && Check(m, n.bufIdx, left).Accepted?
      invariant todo == RecordsAt(m, n.bufIdx, left)
      invariant f.log == old(f.log) + done && calls == done + RunWrites(p, todo).0 && e == RunWrites(p, todo).1
      decreases left
    {
      RecordsStep(m, n.bufIdx, left);
      ghost var cursor, r := n.bufIdx, RecordAt(m, n.bufIdx);
      var length;
      err, length := WriteOne(n, f, r);
      RunWritesStep(p, todo);
      if err != NoError {
        return;
      }
      done, todo := done + [r], todo[1..];
      left := Remaining(left, length);
      if left < SUBREQ_HEADER {
        RunWritesNone(p);
        break;
      }
    }
  }

  lemma RecordsStep(m: seq<u8>, pos: nat, size: u16)
    requires |m| == BUF_SIZE && Check(m, pos, size).Accepted? && pos + size <= BUF_SIZE
    ensures pos + SUBREQ_HEADER <= BUF_SIZE && WordAt(m, pos + 5) <= 122
    ensures var length := WordAt(m, pos + 5);
      var left := Remaining(size, length);
      var rs := RecordsAt(m, pos, size);
      && SUBREQ_HEADER + 2 * length <= size && left < size
      && rs != [] && rs[0] == RecordAt(m, pos)
      && (left >= SUBREQ_HEADER ==>
           Check(m, pos + SUBREQ_HEADER + 2 * length, left).Accepted?
           && rs[1..] == RecordsAt(m, pos + SUBREQ_HEADER + 2 * length, left))
      && (left < SUBREQ_HEADER ==> left == 0 && rs[1..] == [])
  {
    AcceptedFits(m, pos, size);
    hide RecordAt;
    var length := WordAt(m, pos + 5);
    var left := Remaining(size, length);
    var tail := if left >= SUBREQ_HEADER then RecordsAt(m, pos + SUBREQ_HEADER + 2 * length, left) else [];
    assert RecordsAt(m, pos, size) == [RecordAt(m, pos)] + tail;
  }

  lemma RunWritesNone(p: FilePolicy)
    ensures RunWrites(p, []) == ([], NoError)
  {
  }

  lemma RunWritesStep(p: FilePolicy, rs: seq<Record>)
    requires rs != []
    ensures var (calls, e) := RunWrites(p, rs);
      if p.writeResult(rs[0]) != NoError then calls == [rs[0]] && e == p.writeResult(rs[0])
      else calls == [rs[0]] + RunWrites(p, rs[1..]).0 && e == RunWrites(p, rs[1..]).1
  {
  }

  /** One turn of the second pass, on the record r that sits at the cursor. */
  method WriteOne(n: Nmbs, f: FileStore, ghost r: Record) returns (err: Error, recordLength: u16)
    requires n.Valid() && n.fill == BUF_SIZE && n.bufIdx + SUBREQ_HEADER <= BUF_SIZE && f.callbacks.Some?
    requires n.bufIdx + SUBREQ_HEADER + 2 * WordAt(n.buf[..], n.bufIdx + 5) <= BUF_SIZE
    requires r == RecordAt(n.buf[..], n.bufIdx)
    modifies n`bufIdx, n.buf, f`log
    ensures n.Valid() && recordLength == WordAt(old(n.buf[..]), old(n.bufIdx) + 5)
    ensures n.bufIdx == old(n.bufIdx) + SUBREQ_HEADER + 2 * recordLength
    ensures f.log == old(f.log) + [r] && err == f.callbacks.value.writeResult(r)
    ensures err == NoError ==> n.buf[..] == old(n.buf[..])
  {
    var referenceType, fileNumber, recordNumber;
    referenceType, fileNumber, recordNumber, recordLength := GetSubHeader(n);
    var at := n.bufIdx;
    ghost var m := n.buf[..];
    SwapRegs(n, at, recordLength);
    n.Discard(2 * recordLength);
    SwappedIsHostOrder(m, at, recordLength);
    SwapTwice(m, at, recordLength);
    var data := HostRegs(n.buf[..], at, recordLength);
    err := f.WriteFileRecord(fileNumber, recordNumber, data);
    if err == NoError {
      SwapRegs(n, at, recordLength);
    }
  }

  /** handle_write_file_record once the message is in msg.buf, its sub-requests at pos. */
  method ServeWriteFile(n: Nmbs, s: Server, f: FileStore, pos: nat, size: u8) returns (err: Error)
    requires Ready(n, s) && pos + size <= BUF_SIZE && (n.transport.Rtu? ==> pos + size + 2 <= BUF_SIZE)
    modifies n`bufIdx, n`fill, n`fc, n`tx, n.buf, f`log
    ensures n.Valid()
    ensures
      var (ans, calls) := ExecuteWriteFile(old(s.Contents()), f.callbacks, old(n.fc), n.broadcast, old(n.buf[..]), pos,
                                           size);
      Answered(n, s, old(n.tx), n.transactionId, n.unitId, ans, err) && f.log == old(f.log) + calls
  {
    hide Check, RecordsAt, RunWrites, Frame, CallbackFailed, Sealed;
    n.fill := BUF_SIZE;
    n.bufIdx := pos;
    if size < 7 {
      err := n.SendExceptionMsg(ILLEGAL_DATA_VALUE);
      return;
    }
    var v := CheckPass(n, size);
    match v
    case Stuck =>
      return Fault;
    case Refused(code) =>
      err := n.SendExceptionMsg(code);
      return;
    case Accepted =>
      if f.callbacks.None? {
        err := n.SendExceptionMsg(ILLEGAL_FUNCTION);
        return;
      }
      n.bufIdx := pos;
      err := WritePass(n, f, size);
      if err != NoError {
        err := SendCallbackError(n, s, err);
        return;
      }
      if !n.broadcast {
        n.bufIdx := pos + size;
        assert n.buf[..n.bufIdx] == old(n.buf[..])[..pos + size];
        err := n.SendMsg();
      }
  }

  //////////////////////////////////////////////////////////////////////////////
  // Read File Record
  //////////////////////////////////////////////////////////////////////////////

  /** The loop over the sub-requests; the response size is summed in eight bits. */
  method GetSubReads(n: Nmbs, size: u8) returns (subs: seq<SubRead>, responseDataSize: u8)
    requires n.Valid() && n.bufIdx + size <= n.fill
    modifies n`bufIdx
    ensures n.Valid() && n.bufIdx == old(n.bufIdx) + size - size % 7
    ensures subs == SubReads(n.buf[old(n.bufIdx)..old(n.bufIdx) + size])
      && responseDataSize == ResponseSize(subs) % 0x100
  {
    hide SubReads, SubReadAt, ResponseSize, WordAt;
    var subreqCount := size / 7;
    ghost var p := n.bufIdx;
    ghost var payload := n.buf[p..p + size];
    subs, responseDataSize := [], 0;
    SubReadsStart(payload);
    for i := 0 to subreqCount
      invariant n.Valid() && n.bufIdx == p + 7 * i
      invariant subs == SubReads(payload)[..i] && responseDataSize == ResponseSize(subs) % 0x100
    {
      SubReadInBuffer(n.buf[..], p, size, i);
      SubReadsStep(payload, i);
      var referenceType, fileNumber, recordNumber, recordLength := GetSubHeader(n);
      SumInByte(ResponseSize(subs), 2 + recordLength as int * 2);
      subs := subs + [SubRead(referenceType, fileNumber, recordNumber, recordLength)];
      responseDataSize := (responseDataSize as int + (2 + recordLength as int * 2)) % 0x100;
    }
    assert SubReads(payload)[..subreqCount] == SubReads(payload);
  }

  lemma SumInByte(total: nat, x: nat)
    ensures (total % 0x100 + x) % 0x100 == (total + x) % 0x100
  {
  }

  lemma SubReadsStart(payload: seq<u8>)
    ensures SubReads(payload)[..0] == [] && ResponseSize([]) == 0
  {
  }

  lemma SubReadsStep(payload: seq<u8>, i: nat)
    requires i < |payload| / 7
    ensures
      var subs, sub := SubReads(payload)[..i], SubReadAt(payload, i);
      && SubReads(payload)[..i + 1] == subs + [sub]
         && ResponseSize(subs + [sub]) == ResponseSize(subs) + 2 + 2 * sub.length
  {
    assert (SubReads(payload)[..i] + [SubReadAt(payload, i)])[..i] == SubReads(payload)[..i];
  }

  lemma SubReadInBuffer(m: seq<u8>, p: nat, size: u8, i: nat)
    requires p + size <= |m| && 7 * i + 7 <= size
    ensures SubReadAt(m[p..p + size], i)
      == SubRead(m[p + 7 * i], WordAt(m, p + 7 * i + 1), WordAt(m, p + 7 * i + 3), WordAt(m, p + 7 * i + 5))
  {
  }

  /** One record of the response: its head, the callback's registers, and the swap to wire order. */
  method PutBlock(n: Nmbs, f: FileStore, sub: SubRead) returns (err: Error)
    requires n.Valid() && f.callbacks.Some? && Readable(sub) && n.bufIdx + 2 + 2 * sub.length <= BUF_SIZE
    modifies n`bufIdx, n.buf
    ensures n.Valid()
    ensures err == f.callbacks.value.readResult(sub.file, sub.record, sub.length)
    ensures err == NoError ==> n.buf[..n.bufIdx] == old(n.buf[..n.bufIdx]) + ReadBlock(f.callbacks.value, sub)
  {
    var subreqDataSize := sub.length * 2;
    n.Put1(subreqDataSize + 1);
    n.Put1(0x06);
    var at := n.bufIdx;
    ghost var head := n.buf[..at];
    err := f.callbacks.value.readResult(sub.file, sub.record, sub.length);
    if err == NoError {
      DeliverRecord(n, f, sub, at);
      assert n.buf[..n.bufIdx] == head;
    }
    n.Discard(subreqDataSize);
    if err == NoError {
      BlockPut(n.buf[..], old(n.buf[..n.bufIdx]), at, f.callbacks.value, sub);
    }
  }

  /** The two head bytes and the registers behind them are the record. */
  lemma BlockPut(m: seq<u8>, was: seq<u8>, at: nat, p: FilePolicy, sub: SubRead)
    requires Readable(sub) && at + 2 * sub.length <= |m|
    requires m[..at] == was + [2 * sub.length + 1] + [6] && m[at..at + 2 * sub.length] == RegsToBytes(Delivered(p, sub))
    ensures m[..at + 2 * sub.length] == was + ReadBlock(p, sub)
  {
    assert m[..at + 2 * sub.length] == m[..at] + m[at..at + 2 * sub.length];
  }

  /** The callback stores registers in host order at the given place, and swap_regs turns them. */
  method DeliverRecord(n: Nmbs, f: FileStore, sub: SubRead, at: nat)
    requires n.Valid() && f.callbacks.Some? && at + 2 * sub.length <= BUF_SIZE
    modifies n.buf
    ensures n.buf[..at] == old(n.buf[..at])
    ensures n.buf[at..at + 2 * sub.length] == RegsToBytes(Delivered(f.callbacks.value, sub))
  {
    var regs := Delivered(f.callbacks.value, sub);
    for k := 0 to sub.length
      invariant n.buf[..at] == old(n.buf[..at])
      invariant forall j :: 0 <= j < k ==>
        n.buf[at + 2 * j] == regs[j] % 0x100 && n.buf[at + 2 * j + 1] == regs[j] / 0x100
    {
      n.buf[at + 2 * k], n.buf[at + 2 * k + 1] := regs[k] % 0x100, regs[k] / 0x100;
    }
    ghost var m := n.buf[..];
    assert HostRegs(m, at, sub.length) == regs;
    SwapRegs(n, at, sub.length);
    SwappedIsWireOrder(m, at, sub.length);
  }

  /** What the host stored is sent big-endian after one swap. */
  lemma SwappedIsWireOrder(m: seq<u8>, at: nat, count: nat)
    requires at + 2 * count <= |m|
    ensures Swapped(m, at, count)[at..at + 2 * count] == RegsToBytes(HostRegs(m, at, count))
  {
    var s := Swapped(m, at, count);
    SwappedIsHostOrder(s, at, count);
    SwapTwice(m, at, count);
    BytesRoundTrip(s[at..at + 2 * count]);
  }

  /** The loop over the records: a record that does not fit in msg.buf is where the model stops. */
  method PutBlocks(n: Nmbs, f: FileStore, subs: seq<SubRead>) returns (tooLong: bool, err: Error, ghost b: Blocks)
    requires n.Valid() && f.callbacks.Some? && AllReadable(subs)
    modifies n`bufIdx, n.buf
    ensures n.Valid()
    ensures b == ReadBlocks(f.callbacks.value, subs, BUF_SIZE - old(n.bufIdx))
    ensures tooLong == b.TooLong? && (b.Failed? ==> err == b.err && err != NoError)
    ensures b.Blocks? ==> err == NoError && n.buf[..n.bufIdx] == old(n.buf[..n.bufIdx]) + b.bytes
  {
    hide ReadBlock, ReadBlocks;
    NoBlocks(f.callbacks.value, subs, BUF_SIZE - n.bufIdx);
    ghost var bytes: seq<u8>, p := [], f.callbacks.value;
    ghost var head := n.buf[..n.bufIdx];
    for i := 0 to |subs|
      invariant n.Valid() && n.buf[..n.bufIdx] == head + bytes
      invariant AllReadable(subs[..i]) && ReadBlocks(p, subs[..i], BUF_SIZE - |head|) == Blocks(bytes)
    {
      BlocksTurn(p, subs, i, BUF_SIZE - |head|, bytes);
      ReadBlocksStop(p, subs, i + 1, BUF_SIZE - |head|);
      if n.bufIdx + 2 + 2 * subs[i].length > BUF_SIZE {
        return true, NoError, TooLong;
      }
      err := PutBlock(n, f, subs[i]);
      if err != NoError {
        return false, err, Failed(err);
      }
      bytes := bytes + ReadBlock(p, subs[i]);
    }
    assert subs[..|subs|] == subs;
    return false, NoError, Blocks(bytes);
  }

  lemma NoBlocks(p: FilePolicy, subs: seq<SubRead>, room: int)
    ensures AllReadable(subs[..0]) && ReadBlocks(p, subs[..0], room) == Blocks([])
  {
  }

  lemma BlocksTurn(p: FilePolicy, subs: seq<SubRead>, i: nat, room: int, bytes: seq<u8>)
    requires i < |subs| && AllReadable(subs) && ReadBlocks(p, subs[..i], room) == Blocks(bytes)
    ensures Readable(subs[i]) && AllReadable(subs[..i + 1])
    ensures ReadBlocks(p, subs[..i + 1], room) ==
      var (sub, e) := (subs[i], p.readResult(subs[i].file, subs[i].record, subs[i].length));
      if |bytes| + 2 + 2 * sub.length > room then TooLong else if e != NoError then Failed(e)
      else Blocks(bytes + ReadBlock(p, sub))
  {
    hide ReadBlock;
    assert subs[..i + 1][..i] == subs[..i];
  }

  /** A failure at one record is the result of the whole list. */
  lemma {:induction false} ReadBlocksStop(p: FilePolicy, subs: seq<SubRead>, i: nat, room: int)
    requires i <= |subs| && AllReadable(subs)
    ensures AllReadable(subs[..i])
    ensures !ReadBlocks(p, subs[..i], room).Blocks? ==> ReadBlocks(p, subs, room) == ReadBlocks(p, subs[..i], room)
  {
    if i == |subs| {
      assert subs[..i] == subs;
    } else {
      ReadBlocksStop(p, subs[..|subs| - 1], i, room);
      assert subs[..|subs| - 1][..i] == subs[..i];
    }
  }

  /** handle_read_file_record after its sub-requests were read from payload. */
  method ServeReadFile(n: Nmbs, s: Server, f: FileStore, requestSize: u8, subs: seq<SubRead>, responseDataSize: u8,
                       ghost payload: seq<u8>) returns (err: Error)
    requires Ready(n, s) && |payload| == requestSize <= 245
    requires subs == SubReads(payload) && responseDataSize == ResponseSize(subs) % 0x100
    modifies n`fc, n`bufIdx, n`tx, n.buf
    ensures n.Valid()
    ensures Answered(n, s, old(n.tx), n.transactionId, n.unitId,
      ExecuteReadFile(old(s.Contents()), f.callbacks, n.transport, n.transactionId, n.unitId, old(n.fc), n.broadcast,
                      payload), err)
  {
    hide SubReads, ResponseSize, ReadBlocks, Readable, SendBlocks, HeaderBytes, Frame;
    if requestSize % 7 != 0 {
      err := n.SendExceptionMsg(ILLEGAL_DATA_VALUE);
      return;
    }
    if requestSize < 0x07 || requestSize > 0xF5 {
      err := n.SendExceptionMsg(ILLEGAL_DATA_VALUE);
      return;
    }
    var ok := CheckSubs(subs);
    if !ok {
      err := n.SendExceptionMsg(ILLEGAL_DATA_ADDRESS);
      return;
    }
    n.PutMsgHeader(1 + responseDataSize);
    n.Put1(responseDataSize);
    if f.callbacks.None? {
      err := n.SendExceptionMsg(ILLEGAL_FUNCTION);
      return;
    }
    err := FinishReadFile(n, s, f, subs, responseDataSize);
  }

  /** The validation loop; every failed test is answered with the same exception. */
  method CheckSubs(subs: seq<SubRead>) returns (ok: bool)
    ensures ok == AllReadable(subs)
  {
    for i := 0 to |subs|
      invariant forall k :: 0 <= k < i ==> Readable(subs[k])
    {
      if subs[i].referenceType != 0x06 || subs[i].file == 0x0000 || subs[i].record > 0x270F || subs[i].length > 124 {
        assert !Readable(subs[i]);
        return false;
      }
    }
    return true;
  }

  method FinishReadFile(n: Nmbs, s: Server, f: FileStore, subs: seq<SubRead>, responseDataSize: u8) returns (err: Error)
    requires Ready(n, s) && f.callbacks.Some? && AllReadable(subs) && n.bufIdx == HeaderSize(n.transport) + 1
    requires n.buf[..n.bufIdx] == HeaderBytes(n.transport, n.transactionId, n.unitId, n.fc,
                                              1 + responseDataSize) + [responseDataSize]
    modifies n`fc, n`bufIdx, n`tx, n.buf
    ensures n.Valid()
    ensures Answered(n, s, old(n.tx), n.transactionId, n.unitId,
      SendBlocks(old(s.Contents()), n.transport, n.transactionId, n.unitId, old(n.fc), n.broadcast, responseDataSize,
                 ReadBlocks(f.callbacks.value, subs, BUF_SIZE - HeaderSize(n.transport) - 1)), err)
  {
    var tooLong;
    ghost var b;
    tooLong, err, b := PutBlocks(n, f, subs);
    if tooLong {
      return Fault;
    }
    if err != NoError {
      err := SendCallbackError(n, s, err);
      return;
    }
    if n.broadcast {
      return NoError;
    }
    if n.transport == Rtu && n.bufIdx + 2 > BUF_SIZE {
      return Fault;
    }
    err := n.SendMsg();
  }
}
