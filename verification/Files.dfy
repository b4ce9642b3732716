/**
 Read File Record and Write File Record, sections 6.14 and 6.15 of MODBUS Application Protocol V1.1b3: the
 sub-requests of a message, their validation, and the callbacks they reach.
 */
module Files {
  import opened Wrappers
  import opened Bytes
  import opened Adu
  import opened Store
  import opened Protocol
  import opened DeviceId

  const SUBREQ_HEADER := 7

  /** One record: its place and its registers, in the host's byte order. */
  datatype Record = Record(file: u16, record: u16, data: seq<u16>)

  /** The two file callbacks: their results, and the registers a successful read delivers. */
  datatype FilePolicy = FilePolicy(
    writeResult: Record -> Error,
    readResult: (u16, u16, u16) -> Error,
    content: (u16, u16, nat) -> u16)

  predicate ValidPlace(file: u16, record: u16) {
    file != 0 && record <= 0x270F
  }

  //////////////////////////////////////////////////////////////////////////////
  // Write File Record
  //////////////////////////////////////////////////////////////////////////////

  predicate Writable(r: Record) {
    ValidPlace(r.file, r.record) && |r.data| <= 122
  }

  ghost predicate AllWritable(rs: seq<Record>) {
    forall i :: 0 <= i < |rs| ==> Writable(rs[i])
  }

  /** A sub-request on the wire: reference type 6, place, length, registers. */
  function RecordBytes(r: Record): (s: seq<u8>)
    requires |r.data| <= 122
    ensures |s| == SUBREQ_HEADER + 2 * |r.data|
  {
    [6] + Be16(r.file) + Be16(r.record) + Be16(|r.data|) + RegsToBytes(r.data)
  }

  function RecordsBytes(rs: seq<Record>): seq<u8>
    requires AllWritable(rs)
  {
    if rs == [] then [] else RecordBytes(rs[0]) + RecordsBytes(rs[1..])
  }

  datatype Verdict = Accepted | Refused(code: u8) | Stuck

  /** The reference type, place and length at pos pass the four tests of the first pass. */
  predicate SubOk(m: seq<u8>, pos: nat)
    requires pos + SUBREQ_HEADER <= |m|
  {
    m[pos] == 6 && WordAt(m, pos + 1) != 0 && WordAt(m, pos + 3) <= 0x270F && WordAt(m, pos + 5) <= 122
  }

  /** size -= header + data, in 16 bits. */
  function Remaining(size: u16, length: u16): u16
    requires length <= 122
  {
    var used := SUBREQ_HEADER + 2 * length;
    if used <= size then size - used else size - used + 0x1_0000
  }

  /** The first pass over msg.buf from pos with size bytes to account for. The subtraction may wrap. */
  function Check(m: seq<u8>, pos: nat, size: u16): Verdict
    requires |m| == BUF_SIZE
    decreases BUF_SIZE - pos
  {
    if pos + SUBREQ_HEADER > BUF_SIZE then Stuck
    else if !SubOk(m, pos) then Refused(ILLEGAL_DATA_ADDRESS)
    else
      var length := WordAt(m, pos + 5);
      var left := Remaining(size, length);
      if left >= SUBREQ_HEADER then Check(m, pos + SUBREQ_HEADER + 2 * length, left)
      else if left != 0 then Refused(ILLEGAL_DATA_VALUE)
      else Accepted
  }

  /** The records the second pass hands to the callback. */
  function RecordsAt(m: seq<u8>, pos: nat, size: u16): (rs: seq<Record>)
    requires |m| == BUF_SIZE && Check(m, pos, size).Accepted? && pos + size <= BUF_SIZE
    decreases BUF_SIZE - pos
  {
    var length := WordAt(m, pos + 5);
    AcceptedFits(m, pos, size);
    var left := Remaining(size, length);
    [RecordAt(m, pos)] +
    if left >= SUBREQ_HEADER then RecordsAt(m, pos + SUBREQ_HEADER + 2 * length, left) else []
  }

  /** An accepted message was walked without wrap-around, so every sub-request lies inside the announced size. */
  lemma {:induction false} AcceptedFits(m: seq<u8>, pos: nat, size: u16)
    requires |m| == BUF_SIZE && Check(m, pos, size).Accepted?
    ensures pos + SUBREQ_HEADER <= BUF_SIZE && SUBREQ_HEADER + 2 * WordAt(m, pos + 5) <= size
    ensures pos + size <= 2 * BUF_SIZE
    decreases BUF_SIZE - pos
  {
    var length := WordAt(m, pos + 5);
    var left := Remaining(size, length);
    if left >= SUBREQ_HEADER {
      AcceptedFits(m, pos + SUBREQ_HEADER + 2 * length, left);
    }
  }

  function RecordAt(m: seq<u8>, pos: nat): Record
    requires pos + SUBREQ_HEADER <= |m| && pos + SUBREQ_HEADER + 2 * WordAt(m, pos + 5) <= |m|
  {
    Record(WordAt(m, pos + 1), WordAt(m, pos + 3),
           BytesToRegs(m[pos + SUBREQ_HEADER..pos + SUBREQ_HEADER + 2 * WordAt(m, pos + 5)]))
  }

  /** One encoded record is read back. */
  lemma RecordDecodes(m: seq<u8>, pos: nat, r: Record)
    requires Writable(r) && Spans(m, pos, pos + SUBREQ_HEADER + 2 * |r.data|, RecordBytes(r))
    ensures SubOk(m, pos) && WordAt(m, pos + 5) == |r.data| && RecordAt(m, pos) == r
  {
    SubHeaderIs(m, pos, r);
    RegsRoundTrip(r.data);
    hide RecordBytes, RegsToBytes, BytesToRegs, WordAt, Spans;
  }

  lemma SubHeaderIs(m: seq<u8>, pos: nat, r: Record)
    requires Writable(r) && Spans(m, pos, pos + SUBREQ_HEADER + 2 * |r.data|, RecordBytes(r))
    ensures pos + SUBREQ_HEADER + 2 * |r.data| <= |m|
    ensures m[pos] == 6 && WordAt(m, pos + 1) == r.file && WordAt(m, pos + 3) == r.record
      && WordAt(m, pos + 5) == |r.data|
    ensures m[pos + SUBREQ_HEADER..pos + SUBREQ_HEADER + 2 * |r.data|] == RegsToBytes(r.data)
  {
    var n := |r.data|;
    var s := m[pos..pos + SUBREQ_HEADER + 2 * n];
    var head := [6 as u8, r.file / 0x100, r.file % 0x100, r.record / 0x100, r.record % 0x100, n / 0x100, n % 0x100];
    assert s == head + RegsToBytes(r.data);
    hide RecordBytes, RegsToBytes;
    assert m[pos] == s[0] && m[pos + 1] == s[1] && m[pos + 2] == s[2] && m[pos + 3] == s[3];
    assert m[pos + 4] == s[4] && m[pos + 5] == s[5] && m[pos + 6] == s[6];
    assert m[pos + SUBREQ_HEADER..pos + SUBREQ_HEADER + 2 * n] == s[SUBREQ_HEADER..];
  }

  /** What is read is one encoded record. */
  lemma RecordEncodes(m: seq<u8>, pos: nat)
    requires pos + SUBREQ_HEADER <= |m| && SubOk(m, pos) && pos + SUBREQ_HEADER + 2 * WordAt(m, pos + 5) <= |m|
    ensures var r := RecordAt(m, pos);
      Writable(r) && |r.data| == WordAt(m, pos + 5) && Spans(m, pos, pos + SUBREQ_HEADER + 2 * |r.data|, RecordBytes(r))
  {
    var n := WordAt(m, pos + 5);
    var raw := m[pos + SUBREQ_HEADER..pos + SUBREQ_HEADER + 2 * n];
    BytesRoundTrip(raw);
    var r := RecordAt(m, pos);
    var head := [m[pos], m[pos + 1], m[pos + 2], m[pos + 3], m[pos + 4], m[pos + 5], m[pos + 6]];
    HeadOf(r, m, pos);
    hide RecordBytes, RegsToBytes, BytesToRegs, WordAt;
    assert m[pos..pos + SUBREQ_HEADER] == head;
    SpansJoin(m, pos, pos + SUBREQ_HEADER, pos + SUBREQ_HEADER + 2 * n, head, raw);
  }

  lemma HeadOf(r: Record, m: seq<u8>, pos: nat)
    requires |r.data| <= 122 && pos + SUBREQ_HEADER <= |m| && m[pos] == 6
    requires r.file == WordAt(m, pos + 1) && r.record == WordAt(m, pos + 3) && |r.data| == WordAt(m, pos + 5)
    ensures RecordBytes(r) == [m[pos], m[pos + 1], m[pos + 2], m[pos + 3], m[pos + 4], m[pos + 5],
                               m[pos + 6]] + RegsToBytes(r.data)
  {
    hide RegsToBytes;
    assert Be16(r.file) == [m[pos + 1], m[pos + 2]] && Be16(r.record) == [m[pos + 3], m[pos + 4]]
      && Be16(|r.data|) == [m[pos + 5], m[pos + 6]];
  }

  /** Both passes walk an encoded list of valid records exactly as it was built. */
  lemma {:induction false} EncodedIsAccepted(m: seq<u8>, pos: nat, rs: seq<Record>)
    requires |m| == BUF_SIZE && rs != [] && AllWritable(rs)
    requires Spans(m, pos, pos + |RecordsBytes(rs)|, RecordsBytes(rs))
    ensures pos + |RecordsBytes(rs)| <= BUF_SIZE
    ensures Check(m, pos, |RecordsBytes(rs)|).Accepted? && RecordsAt(m, pos, |RecordsBytes(rs)|) == rs
    decreases |rs|
  {
    hide RecordBytes, RecordsBytes, SubOk, WordAt, BytesToRegs, Spans, Check, RecordsAt, RecordAt, Writable;
    var r, tail := rs[0], rs[1..];
    var used, size := SUBREQ_HEADER + 2 * |r.data|, |RecordsBytes(rs)|;
    BytesCons(rs);
    SpansSplit(m, pos, pos + size, RecordBytes(r), RecordsBytes(tail));
    RecordDecodes(m, pos, r);
    if tail != [] {
      NonEmptyRecords(tail);
      EncodedIsAccepted(m, pos + used, tail);
    }
    CheckCons(m, pos, size, r, size - used);
  }

  lemma BytesCons(rs: seq<Record>)
    requires rs != [] && AllWritable(rs)
    ensures Writable(rs[0]) && |RecordBytes(rs[0])| == SUBREQ_HEADER + 2 * |rs[0].data| && AllWritable(rs[1..])
    ensures RecordsBytes(rs) == RecordBytes(rs[0]) + RecordsBytes(rs[1..]) && rs == [rs[0]] + rs[1..]
    ensures rs[1..] == [] ==> RecordsBytes(rs[1..]) == []
  {
  }

  /** One turn of both passes over a good sub-request. */
  lemma CheckCons(m: seq<u8>, pos: nat, size: u16, r: Record, left: u16)
    requires |m| == BUF_SIZE && pos + size <= BUF_SIZE && Writable(r) && size == SUBREQ_HEADER + 2 * |r.data| + left
    requires SubOk(m, pos) && WordAt(m, pos + 5) == |r.data| && RecordAt(m, pos) == r
    requires left == 0 || (left >= SUBREQ_HEADER && Check(m, pos + size - left, left).Accepted?)
    ensures Check(m, pos, size).Accepted? && RecordsAt(m, pos, size) == [r] + if left == 0 then []
                                                                              else RecordsAt(m, pos + size - left, left)
  {
    hide SubOk, WordAt, BytesToRegs;
    assert Remaining(size, |r.data|) == left;
  }

  lemma NonEmptyRecords(rs: seq<Record>)
    requires rs != [] && AllWritable(rs)
    ensures |RecordsBytes(rs)| >= SUBREQ_HEADER
  {
    hide RecordBytes;
    assert Writable(rs[0]);
  }

  /** Only encoded lists of valid records are accepted. */
  lemma {:induction false} AcceptedIsEncoded(m: seq<u8>, pos: nat, size: u16)
    requires |m| == BUF_SIZE && Check(m, pos, size).Accepted? && pos + size <= BUF_SIZE
    ensures var rs := RecordsAt(m, pos, size);
      rs != [] && AllWritable(rs) && Spans(m, pos, pos + size, RecordsBytes(rs))
    decreases BUF_SIZE - pos
  {
    hide RecordBytes, BytesToRegs, RecordsAt, RecordsBytes, Check, WordAt, Spans, AllWritable, Writable;
    var r, tail, next, left := RecordsCons(m, pos, size);
    if left != 0 {
      AcceptedIsEncoded(m, next, left);
    } else {
      NoRecords(m, next);
    }
    ConsRecords(m, pos, next, pos + size, r, tail);
  }

  /** The first record of an accepted message, and the rest. */
  lemma RecordsCons(m: seq<u8>, pos: nat, size: u16) returns (r: Record, tail: seq<Record>, next: nat, left: u16)
    requires |m| == BUF_SIZE && Check(m, pos, size).Accepted? && pos + size <= BUF_SIZE
    ensures Writable(r) && Spans(m, pos, next, RecordBytes(r)) && next + left == pos + size && pos < next
    ensures RecordsAt(m, pos, size) == [r] + tail
    ensures if left != 0 then Check(m, next, left).Accepted? && tail == RecordsAt(m, next, left) else tail == []
    ensures next == pos + SUBREQ_HEADER + 2 * WordAt(m, pos + 5) <= BUF_SIZE && r == RecordAt(m, pos)
  {
    RecordEncodes(m, pos);
    AcceptedFits(m, pos, size);
    hide WordAt, BytesToRegs, RecordBytes, Spans;
    var length := WordAt(m, pos + 5);
    r, next, left := RecordAt(m, pos), pos + SUBREQ_HEADER + 2 * length, Remaining(size, length);
    tail := if left != 0 then RecordsAt(m, next, left) else [];
  }

  lemma NoRecords(m: seq<u8>, pos: nat)
    requires pos <= |m|
    ensures AllWritable([]) && Spans(m, pos, pos, RecordsBytes([]))
  {
    assert m[pos..pos] == [];
  }

  lemma ConsRecords(m: seq<u8>, a: nat, b: nat, c: nat, r: Record, tail: seq<Record>)
    requires Writable(r) && AllWritable(tail) && Spans(m, a, b, RecordBytes(r)) && Spans(m, b, c, RecordsBytes(tail))
    ensures AllWritable([r] + tail) && Spans(m, a, c, RecordsBytes([r] + tail))
  {
    assert ([r] + tail)[1..] == tail;
    hide Spans, RecordBytes;
    SpansJoin(m, a, b, c, RecordBytes(r), RecordsBytes(tail));
  }

  /** A non-empty list of valid records and its bytes. */
  ghost predicate Encodes(rs: seq<Record>, s: seq<u8>) {
    rs != [] && AllWritable(rs) && RecordsBytes(rs) == s
  }

  /**
   The validation of a message accepts exactly the concatenations of one or more encoded records that fill
   the announced size.
   */
  lemma {:induction false} AcceptedIffEncoded(m: seq<u8>, pos: nat, size: u16)
    requires |m| == BUF_SIZE && pos + size <= BUF_SIZE
    ensures var s := m[pos..pos + size];
      Check(m, pos, size).Accepted? <==> exists rs :: Encodes(rs, s)
  {
    hide Check, RecordsAt, RecordsBytes;
    var s := m[pos..pos + size];
    if Check(m, pos, size).Accepted? {
      AcceptedIsEncoded(m, pos, size);
      assert Encodes(RecordsAt(m, pos, size), s);
    }
    if rs :| Encodes(rs, s) {
      EncodedIsAccepted(m, pos, rs);
    }
  }

  /** The callback is called for one record after another until it fails: the calls made, and its last result. */
  function RunWrites(p: FilePolicy, rs: seq<Record>): (seq<Record>, Error) {
    if rs == [] then ([], NoError)
    else if p.writeResult(rs[0]) != NoError then ([rs[0]], p.writeResult(rs[0]))
    else
      var (calls, err) := RunWrites(p, rs[1..]);
      ([rs[0]] + calls, err)
  }

  /** The calls are a prefix of the records, all of them when every call succeeds. */
  lemma {:induction false} RunWritesInOrder(p: FilePolicy, rs: seq<Record>)
    ensures var (calls, err) := RunWrites(p, rs);
      && calls <= rs
      && (err == NoError ==> calls == rs)
      && (err == NoError <==> forall i :: 0 <= i < |rs| ==> p.writeResult(rs[i]) == NoError)
  {
    if rs != [] {
      RunWritesInOrder(p, rs[1..]);
      assert rs == [rs[0]] + rs[1..];
      var (calls, err) := RunWrites(p, rs[1..]);
      if p.writeResult(rs[0]) == NoError {
        if forall i :: 0 <= i < |rs| ==> p.writeResult(rs[i]) == NoError {
          forall i | 0 <= i < |rs[1..]| ensures p.writeResult(rs[1..][i]) == NoError {
            assert rs[1..][i] == rs[i + 1];
          }
        }
        if forall i :: 0 <= i < |rs[1..]| ==> p.writeResult(rs[1..][i]) == NoError {
          forall i | 0 <= i < |rs| ensures p.writeResult(rs[i]) == NoError {
            assert i > 0 ==> rs[i] == rs[1..][i - 1];
          }
        }
      }
    }
  }

  /**
   handle_write_file_record after its message sits in m with size bytes of sub-requests at pos: the answer and the
   calls.
   */
  function ExecuteWriteFile(db: Db, p: Option<FilePolicy>, fc: u8, broadcast: bool, m: seq<u8>, pos: nat,
                            size: u8): (Answer, seq<Record>)
    requires |m| == BUF_SIZE && pos + size <= BUF_SIZE
  {
    if size < SUBREQ_HEADER then (Refuse(fc, ILLEGAL_DATA_VALUE, db), [])
    else
      match Check(m, pos, size)
      case Stuck => (Answer(Fault, Silent, db), [])
      case Refused(code) => (Refuse(fc, code, db), [])
      case Accepted =>
        if p.None? then (Refuse(fc, ILLEGAL_FUNCTION, db), []) else
        var (calls, err) := RunWrites(p.value, RecordsAt(m, pos, size));
        (if err != NoError then CallbackFailed(fc, err, db)
         else Answer(NoError, if broadcast then Silent else Raw(m[..pos + size]), db), calls)
  }

  //////////////////////////////////////////////////////////////////////////////
  // Read File Record
  //////////////////////////////////////////////////////////////////////////////

  datatype SubRead = SubRead(referenceType: u8, file: u16, record: u16, length: u16)

  /** The i-th sub-request of a read, seven bytes each. */
  function SubReadAt(s: seq<u8>, i: nat): SubRead
    requires 7 * i + 7 <= |s|
  {
    SubRead(s[7 * i], WordAt(s, 7 * i + 1), WordAt(s, 7 * i + 3), WordAt(s, 7 * i + 5))
  }

  function SubReads(s: seq<u8>): (subs: seq<SubRead>)
    ensures |subs| == |s| / 7
  {
    seq(|s| / 7, i requires 0 <= i < |s| / 7 => SubReadAt(s, i))
  }

  predicate Readable(r: SubRead) {
    r.referenceType == 6 && ValidPlace(r.file, r.record) && r.length <= 124
  }

  /** The bytes the response spends on its records. */
  function ResponseSize(subs: seq<SubRead>): nat {
    if subs == [] then 0 else ResponseSize(subs[..|subs| - 1]) + 2 + 2 * subs[|subs| - 1].length
  }

  /** The registers the callback delivers for a sub-request. */
  function Delivered(p: FilePolicy, r: SubRead): (regs: seq<u16>)
    ensures |regs| == r.length
  {
    seq<u16>(r.length, k requires 0 <= k < r.length => p.content(r.file, r.record, k))
  }

  /** A record of the response: its length, the reference type, its registers big-endian. */
  function ReadBlock(p: FilePolicy, r: SubRead): (s: seq<u8>)
    requires r.length <= 124
    ensures |s| == 2 + 2 * r.length
  {
    [2 * r.length + 1, 6] + RegsToBytes(Delivered(p, r))
  }

  datatype Blocks = Blocks(bytes: seq<u8>) | Failed(err: Error) | TooLong

  /** The records one after another, in room bytes of msg.buf. */
  function ReadBlocks(p: FilePolicy, subs: seq<SubRead>, room: int): Blocks
    requires AllReadable(subs)
  {
    if subs == [] then Blocks([])
    else
      var last := subs[|subs| - 1];
      assert Readable(last);
      match ReadBlocks(p, subs[..|subs| - 1], room)
      case Blocks(bytes) =>
        if |bytes| + 2 + 2 * last.length > room then TooLong
        else if p.readResult(last.file, last.record, last.length) != NoError then
          Failed(p.readResult(last.file, last.record, last.length))
        else Blocks(bytes + ReadBlock(p, last))
      case Failed(e) => Failed(e)
      case TooLong => TooLong
  }

  ghost predicate AllDelivered(p: FilePolicy, subs: seq<SubRead>) {
    forall i :: 0 <= i < |subs| ==> p.readResult(subs[i].file, subs[i].record, subs[i].length) == NoError
  }

  predicate AllReadable(subs: seq<SubRead>) {
    forall i :: 0 <= i < |subs| ==> Readable(subs[i])
  }

  /** When every call succeeds the records fit exactly when their sizes add up to no more than the room. */
  lemma {:induction false} ReadBlocksFit(p: FilePolicy, subs: seq<SubRead>, room: nat)
    requires AllReadable(subs) && AllDelivered(p, subs)
    ensures var b := ReadBlocks(p, subs, room);
      && (b.Blocks? <==> ResponseSize(subs) <= room)
      && (b.TooLong? <==> ResponseSize(subs) > room)
      && (b.Blocks? ==> |b.bytes| == ResponseSize(subs))
  {
    if subs != [] {
      ReadBlocksFit(p, subs[..|subs| - 1], room);
    }
  }

  /** Every successful result has the announced size, whatever the callbacks do. */
  lemma {:induction false} ReadBlocksSize(p: FilePolicy, subs: seq<SubRead>, room: nat)
    requires AllReadable(subs) && ReadBlocks(p, subs, room).Blocks?
    ensures |ReadBlocks(p, subs, room).bytes| == ResponseSize(subs) <= room
  {
    if subs != [] {
      ReadBlocksSize(p, subs[..|subs| - 1], room);
    }
  }

  /** handle_read_file_record after its sub-requests were read. The byte count is kept in eight bits. */
  function ExecuteReadFile(db: Db, p: Option<FilePolicy>, t: Transport, tid: u16, unit: u8, fc: u8, broadcast: bool,
                           payload: seq<u8>): Answer
    requires |payload| <= 245
  {
    var subs := SubReads(payload);
    if |payload| % 7 != 0 || |payload| < 7 then Refuse(fc, ILLEGAL_DATA_VALUE, db)
    else if !AllReadable(subs) then Refuse(fc, ILLEGAL_DATA_ADDRESS, db)
    else if p.None? then Refuse(fc, ILLEGAL_FUNCTION, db)
    else
      SendBlocks(db, t, tid, unit, fc, broadcast, ResponseSize(subs) % 0x100,
                 ReadBlocks(p.value, subs, BUF_SIZE - HeaderSize(t) - 1))
  }

  /** The end of the handler, with the blocks in msg.buf. */
  function SendBlocks(db: Db, t: Transport, tid: u16, unit: u8, fc: u8, broadcast: bool, dataSize: u8,
                      b: Blocks): Answer {
    match b
    case TooLong => Answer(Fault, Silent, db)
    case Failed(e) => CallbackFailed(fc, e, db)
    case Blocks(bytes) =>
      if broadcast then Answer(NoError, Silent, db)
      else if t.Rtu? && HeaderSize(t) + 1 + |bytes| + 2 > BUF_SIZE then Answer(Fault, Silent, db)
      else Answer(NoError, Raw(HeaderBytes(t, tid, unit, fc, 1 + dataSize) + [dataSize] + bytes), db)
  }

  /** The PDU of a read response. */
  function ReadFilePdu(fc: u8, bytes: seq<u8>): Pdu
    requires |bytes| <= 251
  {
    [fc, |bytes|] + bytes
  }

  /**
   A read whose records all exist is answered exactly when they fit: on TCP if they take at most 251 bytes, on RTU
   at most 255; then the answer carries them in order behind the right byte count, as a well-formed frame
   whenever they take at most 251.
   */
  lemma ReadFileAnswer(db: Db, p: FilePolicy, t: Transport, tid: u16, unit: u8, fc: u8, payload: seq<u8>)
    requires |payload| <= 245 && |payload| % 7 == 0 && |payload| >= 7
    requires AllReadable(SubReads(payload)) && AllDelivered(p, SubReads(payload))
    ensures
      var total := ResponseSize(SubReads(payload));
      var ans := ExecuteReadFile(db, Some(p), t, tid, unit, fc, false, payload);
      var blocks := ReadBlocks(p, SubReads(payload), BUF_SIZE);
      && (ans.err == NoError <==> total <= if t.Tcp? then 251 else 255)
      && (ans.err != NoError ==> ans.err == Fault)
      && (total <= 251 ==>
            && blocks.Blocks? && |blocks.bytes| == total && ans.reply.Raw?
            && Sealed(t, ans.reply.bytes) == Frame(t, tid, unit, ReadFilePdu(fc, blocks.bytes)))
  {
    hide ExecuteReadFile, SubReads, ReadBlocks, ResponseSize, AllReadable, AllDelivered, ReadFilePdu, Frame, Sealed,
         SendBlocks;
    var subs := SubReads(payload);
    var room := BUF_SIZE - HeaderSize(t) - 1;
    ReadBlocksFit(p, subs, room);
    ReadBlocksFit(p, subs, BUF_SIZE);
    NotRefused(db, p, t, tid, unit, fc, payload);
    BlocksSent(db, t, tid, unit, fc, ResponseSize(subs), ReadBlocks(p, subs, room));
    if ResponseSize(subs) <= 251 {
      RoomIrrelevant(p, subs, room, BUF_SIZE);
    }
  }

  /** What becomes of blocks of the given total size. */
  lemma BlocksSent(db: Db, t: Transport, tid: u16, unit: u8, fc: u8, total: nat, b: Blocks)
    requires !b.Failed? && (b.Blocks? <==> total <= BUF_SIZE - HeaderSize(t) - 1) && (b.Blocks? ==> |b.bytes| == total)
    ensures var ans := SendBlocks(db, t, tid, unit, fc, false, total % 0x100, b);
      && (ans.err == NoError <==> total <= if t.Tcp? then 251 else 255)
      && (ans.err != NoError ==> ans.err == Fault)
      && (total <= 251 ==>
            b.Blocks? && ans.reply.Raw? && Sealed(t, ans.reply.bytes) == Frame(t, tid, unit, ReadFilePdu(fc, b.bytes)))
  {
    hide ReadFilePdu, Frame, Sealed, HeaderBytes;
    if total <= 251 {
      ReadFileFrame(t, tid, unit, fc, b.bytes);
    }
  }

  lemma NotRefused(db: Db, p: FilePolicy, t: Transport, tid: u16, unit: u8, fc: u8, payload: seq<u8>)
    requires |payload| <= 245 && |payload| % 7 == 0 && |payload| >= 7 && AllReadable(SubReads(payload))
    ensures ExecuteReadFile(db, Some(p), t, tid, unit, fc, false, payload)
         == SendBlocks(db, t, tid, unit, fc, false, ResponseSize(SubReads(payload)) % 0x100,
                       ReadBlocks(p, SubReads(payload), BUF_SIZE - HeaderSize(t) - 1))
  {
    hide SubReads, ReadBlocks, ResponseSize, Readable, SendBlocks;
  }

  lemma ReadFileFrame(t: Transport, tid: u16, unit: u8, fc: u8, bytes: seq<u8>)
    requires |bytes| <= 251
    ensures Sealed(t, HeaderBytes(t, tid, unit, fc, 1 + |bytes|) + [|bytes|] + bytes)
      == Frame(t, tid, unit, ReadFilePdu(fc, bytes))
  {
    var pdu := ReadFilePdu(fc, bytes);
    FrameIsSealed(t, tid, unit, pdu);
    assert pdu[1..] == [|bytes| as u8] + bytes;
    assert HeaderBytes(t, tid, unit, fc, 1 + |bytes|) + [|bytes|] + bytes
      == HeaderBytes(t, tid, unit, fc, |pdu| - 1) + pdu[1..];
  }

  lemma {:induction false} RoomIrrelevant(p: FilePolicy, subs: seq<SubRead>, a: nat, b: nat)
    requires AllReadable(subs) && ReadBlocks(p, subs, a).Blocks? && ReadBlocks(p, subs, b).Blocks?
    ensures ReadBlocks(p, subs, a) == ReadBlocks(p, subs, b)
  {
    if subs != [] {
      RoomIrrelevant(p, subs[..|subs| - 1], a, b);
    }
  }
}
