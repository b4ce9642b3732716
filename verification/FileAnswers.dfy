/**
 What the server answers to file record requests, said of the bytes of the message alone. Every number is written out.
 */
module FileAnswers {
  import opened Wrappers
  import opened Bytes
  import opened Adu
  import opened Store
  import opened Protocol
  import opened DeviceId
  import opened Files
  import opened Poll
  import opened Answerable
  import opened DeviceAccess
  import opened DataAnswers

  //////////////////////////////////////////////////////////////////////////////
  // Read File Record
  //////////////////////////////////////////////////////////////////////////////

  /** The i-th seven bytes of a read name a record that cannot be read. */
  predicate BadRead(payload: seq<u8>, i: nat)
    requires 7 * i + 7 <= |payload|
  {
    || payload[7 * i] != 6
    || Big(payload, 7 * i + 1) == 0
    || Big(payload, 7 * i + 3) > 9999
    || Big(payload, 7 * i + 5) > 124
  }

  /** The exception that refuses a read before any callback, or zero. */
  ghost function ReadRefusal(payload: seq<u8>, hasCallback: bool): u8 {
    if |payload| % 7 != 0 || |payload| == 0 then 3
    else if exists i :: 0 <= i < |payload| / 7 && BadRead(payload, i) then 2
    else if !hasCallback then 1
    else 0
  }

  lemma ReadableSubs(payload: seq<u8>)
    requires |payload| % 7 == 0
    ensures AllReadable(SubReads(payload)) <==> !exists i :: 0 <= i < |payload| / 7 && BadRead(payload, i)
  {
    var subs := SubReads(payload);
    forall i | 0 <= i < |payload| / 7 ensures Readable(subs[i]) <==> !BadRead(payload, i) {
      SubReadIs(payload, i);
    }
  }

  /** The fields of a sub-request, as the callback gets them. */
  lemma SubReadIs(payload: seq<u8>, i: nat)
    requires 7 * i + 7 <= |payload|
    ensures SubReads(payload)[i]
      == SubRead(payload[7 * i], Big(payload, 7 * i + 1), Big(payload, 7 * i + 3), Big(payload, 7 * i + 5))
  {
    assert SubReads(payload)[i] == SubReadAt(payload, i);
  }

  /** The first callback that fails does so while its record still has room. */
  ghost predicate FailsAt(p: FilePolicy, subs: seq<SubRead>, room: int, i: nat) {
    && i < |subs| && AllDelivered(p, subs[..i]) && ResponseSize(subs[..i + 1]) <= room
    && p.readResult(subs[i].file, subs[i].record, subs[i].length) != NoError
  }

  lemma {:induction false} FailureIsFirst(p: FilePolicy, subs: seq<SubRead>, room: nat)
    requires AllReadable(subs) && ReadBlocks(p, subs, room).Failed?
    ensures exists i: nat ::
      FailsAt(p, subs, room, i)
      && ReadBlocks(p, subs, room).err == p.readResult(subs[i].file, subs[i].record, subs[i].length)
  {
    hide ResponseSize, AllDelivered;
    if subs != [] {
      var n := |subs| - 1;
      var front := subs[..n];
      if ReadBlocks(p, front, room).Failed? {
        FailureIsFirst(p, front, room);
        var i: nat :| FailsAt(p, front, room, i)
          && ReadBlocks(p, front, room).err == p.readResult(front[i].file, front[i].record, front[i].length);
        SamePrefix(subs, i);
        assert FailsAt(p, subs, room, i);
      } else {
        LastFails(p, subs, room);
        assert FailsAt(p, subs, room, n);
      }
    }
  }

  lemma LastFails(p: FilePolicy, subs: seq<SubRead>, room: nat)
    requires AllReadable(subs) && subs != [] && ReadBlocks(p, subs, room).Failed?
    requires !ReadBlocks(p, subs[..|subs| - 1], room).Failed?
    ensures FailsAt(p, subs, room, |subs| - 1)
    ensures var last := subs[|subs| - 1];
      ReadBlocks(p, subs, room).err == p.readResult(last.file, last.record, last.length)
  {
    var front := subs[..|subs| - 1];
    assert subs[..|subs|] == subs;
    BlocksDelivered(p, front, room);
    ReadBlocksSize(p, front, room);
  }

  lemma {:induction false} BlocksDelivered(p: FilePolicy, subs: seq<SubRead>, room: nat)
    requires AllReadable(subs) && ReadBlocks(p, subs, room).Blocks?
    ensures AllDelivered(p, subs)
  {
    if subs != [] {
      BlocksDelivered(p, subs[..|subs| - 1], room);
    }
  }

  /**
   Record i of a response: its size, the reference type and its registers, high byte first, behind the records
   before.
   */
  ghost predicate HoldsRecord(bytes: seq<u8>, p: FilePolicy, subs: seq<SubRead>, i: nat)
    requires i < |subs|
  {
    var at, sub := ResponseSize(subs[..i]), subs[i];
    && at + 2 + 2 * sub.length <= |bytes| && bytes[at] as int == 1 + 2 * sub.length && bytes[at + 1] == 6
    && forall k :: 0 <= k < sub.length ==> Big(bytes, at + 2 + 2 * k) == p.content(sub.file, sub.record, k)
  }

  lemma {:induction false} RecordsHeld(p: FilePolicy, subs: seq<SubRead>, room: nat, i: nat)
    requires AllReadable(subs) && ReadBlocks(p, subs, room).Blocks? && i < |subs|
    ensures HoldsRecord(ReadBlocks(p, subs, room).bytes, p, subs, i)
  {
    hide ResponseSize, ReadBlock;
    var n := |subs| - 1;
    var front, bytes := subs[..n], ReadBlocks(p, subs, room).bytes;
    ReadBlocksSize(p, front, room);
    assert bytes == ReadBlocks(p, front, room).bytes + ReadBlock(p, subs[n]);
    if i < n {
      RecordsHeld(p, front, room, i);
      SamePrefix(subs, i);
    } else {
      BlockBytes(p, subs[n]);
    }
  }

  lemma BlockBytes(p: FilePolicy, sub: SubRead)
    requires Readable(sub)
    ensures var b := ReadBlock(p, sub);
      && b[0] as int == 1 + 2 * sub.length && b[1] == 6
      && forall k :: 0 <= k < sub.length ==> Big(b, 2 + 2 * k) == p.content(sub.file, sub.record, k)
  {
    var regs := Delivered(p, sub);
    var b, bytes := ReadBlock(p, sub), RegsToBytes(regs);
    RegsRoundTrip(regs);
    forall k | 0 <= k < sub.length ensures Big(b, 2 + 2 * k) == p.content(sub.file, sub.record, k) {
      assert b[2 + 2 * k] == bytes[2 * k] && b[3 + 2 * k] == bytes[2 * k + 1];
      assert BytesToRegs(bytes)[k] == regs[k];
    }
  }

  function ReadResult(p: FilePolicy, sub: SubRead): Error {
    p.readResult(sub.file, sub.record, sub.length)
  }

  /** The exception for the first callback that failed. */
  ghost predicate ReadFailure(p: FilePolicy, subs: seq<SubRead>, room: int, pdu: seq<u8>) {
    exists i: nat :: FailsAt(p, subs, room, i) && pdu == [0x94, CallbackCode(ReadResult(p, subs[i]))]
  }

  /** The records of a response: their total size in eight bits, and each of them in its place. */
  ghost predicate ReadSuccess(t: Transport, tid: u16, unit: u8, p: FilePolicy, subs: seq<SubRead>, message: seq<u8>) {
    var size := ResponseSize(subs);
    exists blocks: seq<u8> ::
      && |blocks| == size && (forall i :: 0 <= i < |subs| ==> HoldsRecord(blocks, p, subs, i))
      && message == HeaderBytes(t, tid, unit, 20, 1 + size % 256) + [size % 256] + blocks
  }

  lemma ReadExecuted(t: Transport, tid: u16, unit: u8, broadcast: bool, db: Db, p: Option<FilePolicy>,
                     payload: seq<u8>)
    requires |payload| <= 245
    ensures
      var code, ans := ReadRefusal(payload, p.Some?), ExecuteReadFile(db, p, t, tid, unit, 20, broadcast, payload);
      && ans.db == db
      && (code != 0 ==> ans == Answer(NoError, Send([0x94, code]), db))
      && (code == 0 ==>
            && (ans.reply.Send? ==> ReadFailure(p.value, SubReads(payload), 259 - HeaderSize(t), ans.reply.pdu))
            && (ans.reply.Raw? ==> ReadSuccess(t, tid, unit, p.value, SubReads(payload), ans.reply.bytes))
            && (broadcast ==> !ans.reply.Raw?))
  {
    hide SubReads, ReadBlocks, ResponseSize, ReadFailure, ReadSuccess, BadRead, AllReadable, SendBlocks;
    var subs, room := SubReads(payload), 259 - HeaderSize(t);
    if |payload| % 7 == 0 {
      ReadableSubs(payload);
      if p.Some? && AllReadable(subs) {
        BlocksAnswered(t, tid, unit, broadcast, db, p.value, subs, room);
      }
    }
  }

  lemma BlocksAnswered(t: Transport, tid: u16, unit: u8, broadcast: bool, db: Db, p: FilePolicy, subs: seq<SubRead>,
                       room: nat)
    requires AllReadable(subs)
    ensures
      var ans := SendBlocks(db, t, tid, unit, 20, broadcast, ResponseSize(subs) % 0x100, ReadBlocks(p, subs, room));
      && ans.db == db && (broadcast ==> !ans.reply.Raw?)
      && (ans.reply.Send? ==> ReadFailure(p, subs, room, ans.reply.pdu))
      && (ans.reply.Raw? ==> ReadSuccess(t, tid, unit, p, subs, ans.reply.bytes))
  {
    hide ReadBlocks, ResponseSize, ReadFailure, ReadSuccess, HeaderBytes, AllReadable;
    match ReadBlocks(p, subs, room)
    case Failed(e) => FailureShown(p, subs, room);
    case Blocks(bytes) => SuccessShown(t, tid, unit, p, subs, room);
    case TooLong =>
  }

  lemma FailureShown(p: FilePolicy, subs: seq<SubRead>, room: nat)
    requires AllReadable(subs) && ReadBlocks(p, subs, room).Failed?
    ensures ReadFailure(p, subs, room, [0x94, CallbackCode(ReadBlocks(p, subs, room).err)])
  {
    hide ReadBlocks, ResponseSize, AllDelivered;
    FailureIsFirst(p, subs, room);
  }

  lemma SuccessShown(t: Transport, tid: u16, unit: u8, p: FilePolicy, subs: seq<SubRead>, room: nat)
    requires AllReadable(subs) && ReadBlocks(p, subs, room).Blocks?
    ensures var size := ResponseSize(subs);
      ReadSuccess(t, tid, unit, p, subs,
        HeaderBytes(t, tid, unit, 20, 1 + size % 256) + [size % 256] + ReadBlocks(p, subs, room).bytes)
  {
    hide ResponseSize, HoldsRecord, HeaderBytes;
    ReadBlocksSize(p, subs, room);
    forall i | 0 <= i < |subs| ensures HoldsRecord(ReadBlocks(p, subs, room).bytes, p, subs, i) {
      RecordsHeld(p, subs, room, i);
    }
  }

  /**
   The answer to a read that was received to its end: refused before any callback as ReadRefusal says, or with the error
   of the first callback that failed, or the records, unless it is a broadcast.
   */
  lemma ReadServed(t: Transport, tid: u16, unit: u8, broadcast: bool, db: Db, d: Option<DeviceInfo>,
                   p: Option<FilePolicy>, v: seq<u8>, stale: seq<u8>)
    requires |v| >= HeaderSize(t) && (t.Tcp? ==> |v| == BUF_SIZE) && Taken(t, 20, v) && |stale| == BUF_SIZE
    requires Sized(db) && (d.Some? ==> Proper(d.value))
    ensures
      var h := HeaderSize(t);
      h + 1 + v[h] <= |v| &&
      var payload, served := v[h + 1..h + 1 + v[h]], Serve(t, tid, unit, 20, broadcast, db, d, p, v, stale);
      var code := ReadRefusal(payload, p.Some?);
      && served.calls == [] && served.ans.db == db
      && (code != 0 ==> served.ans == Answer(NoError, Send([0x94, code]), db))
      && (code == 0 ==>
            && (served.ans.reply.Send? ==> ReadFailure(p.value, SubReads(payload), 259 - h, served.ans.reply.pdu))
            && (served.ans.reply.Raw? ==> ReadSuccess(t, tid, unit, p.value, SubReads(payload), served.ans.reply.bytes))
            && (broadcast ==> !served.ans.reply.Raw?))
  {
    hide PayloadError, SubReads, ExecuteReadFile, Taken, ReadRefusal, ReadFailure, ReadSuccess;
    PayloadIffTaken(t, 20, v);
    var h := HeaderSize(t);
    ReadExecuted(t, tid, unit, broadcast, db, p, v[h + 1..h + 1 + v[h]]);
  }

  //////////////////////////////////////////////////////////////////////////////
  // Write File Record
  //////////////////////////////////////////////////////////////////////////////

  /** Seven bytes at p name a record that can be written. */
  predicate GoodWrite(m: seq<u8>, p: nat)
    requires p + 7 <= |m|
  {
    m[p] == 6 && Big(m, p + 1) != 0 && Big(m, p + 3) <= 9999 && Big(m, p + 5) <= 122
  }

  /** The walk goes on while at least seven bytes of the announced size, or fewer than none, are left. */
  predicate GoesOn(size: u8, used: int) {
    size as int - used >= 7 || size as int < used
  }

  /** A good sub-request at p is followed by one at next. */
  predicate Follows(m: seq<u8>, size: u8, start: int, p: nat, next: nat)
    requires |m| == BUF_SIZE
  {
    p + 7 <= 260 && GoodWrite(m, p) && next == p + 7 + 2 * Big(m, p + 5) as nat && GoesOn(size, next as int - start)
  }

  /** The places of the sub-requests, one after another. */
  ghost predicate Walk(m: seq<u8>, size: u8, start: int, ps: seq<nat>)
    requires |m| == BUF_SIZE
  {
    ps != [] && forall i, j :: 0 <= i < j < |ps| && j == i + 1 ==> Follows(m, size, start, ps[i], ps[j])
  }

  /** How a walk ends: at a bad sub-request, with bytes left over, at the announced end, or past msg.buf. */
  datatype End = Bad | Leftover(bytes: nat) | Whole | Past

  ghost function EndAt(m: seq<u8>, size: u8, start: nat, p: nat): Option<End>
    requires |m| == BUF_SIZE && start <= p
  {
    if p + 7 > 260 then Some(Past)
    else if !GoodWrite(m, p) then Some(Bad)
    else
      var used := p + 7 + 2 * Big(m, p + 5) as nat - start;
      if GoesOn(size, used) then None
      else if used == size as nat then Some(Whole)
      else Some(Leftover(size as int - used))
  }

  /** What is left of the size in sixteen bits after used bytes. */
  function LeftOf(size: u8, used: nat): u16
    requires used <= 1000
  {
    if used <= size as nat then size as int - used else size as int - used + 0x1_0000
  }

  /** The verdict of the first pass for the end of a walk. */
  function VerdictFor(e: End): Verdict {
    match e
    case Bad => Refused(2)
    case Leftover(_) => Refused(3)
    case Whole => Accepted
    case Past => Stuck
  }

  /** One turn of the first pass. */
  lemma CheckTurn(m: seq<u8>, size: u8, start: nat, p: nat)
    requires |m| == BUF_SIZE && start <= p <= 600 && (p == start || GoesOn(size, p as int - start))
    ensures p + 7 <= 260 && GoodWrite(m, p) ==> p + 7 + 2 * Big(m, p + 5) as nat <= 600
    ensures
      match EndAt(m, size, start, p)
      case Some(e) => Check(m, p, LeftOf(size, p - start)) == VerdictFor(e)
      case None =>
        var next := p + 7 + 2 * Big(m, p + 5) as nat;
        next > p && Check(m, p, LeftOf(size, p - start)) == Check(m, next, LeftOf(size, next - start))
  {
    if p + 7 <= 260 {
      assert SubOk(m, p) <==> GoodWrite(m, p);
    }
  }

  lemma StepOn(m: seq<u8>, size: u8, start: nat, p: nat)
    requires |m| == BUF_SIZE && start <= p <= 600 && EndAt(m, size, start, p).None?
    ensures Follows(m, size, start, p, p + 7 + 2 * Big(m, p + 5) as nat)
  {
  }

  /** A walk from p that has come to the end e. */
  ghost predicate WalkTo(m: seq<u8>, size: u8, start: nat, p: nat, ps: seq<nat>, e: End)
    requires |m| == BUF_SIZE
  {
    && ps != [] && ps[0] == p && Walk(m, size, start, ps) && ps[|ps| - 1] >= start
    && EndAt(m, size, start, ps[|ps| - 1]) == Some(e)
  }

  /** From every place the walk comes to an end. */
  lemma {:induction false} WalkFrom(m: seq<u8>, size: u8, start: nat, p: nat) returns (ps: seq<nat>, e: End)
    requires |m| == BUF_SIZE && start <= p <= 600 && (p == start || GoesOn(size, p as int - start))
    ensures WalkTo(m, size, start, p, ps, e)
    decreases 600 - p
  {
    hide Check, GoodWrite, GoesOn, EndAt;
    CheckTurn(m, size, start, p);
    if EndAt(m, size, start, p).Some? {
      ps, e := [p], EndAt(m, size, start, p).value;
    } else {
      StepOn(m, size, start, p);
      var tail;
      tail, e := WalkFrom(m, size, start, p + 7 + 2 * Big(m, p + 5) as nat);
      ps := [p] + tail;
      forall i, j | 0 <= i < j < |ps| && j == i + 1 ensures Follows(m, size, start, ps[i], ps[j]) {
        if i > 0 {
          assert ps[i] == tail[i - 1] && ps[j] == tail[j - 1];
        }
      }
    }
  }

  /** The walk behind its first sub-request. */
  lemma WalkTail(m: seq<u8>, size: u8, start: nat, p: nat, ps: seq<nat>, e: End)
    requires |m| == BUF_SIZE && WalkTo(m, size, start, p, ps, e) && |ps| > 1 && start <= p
    ensures Follows(m, size, start, p, ps[1]) && WalkTo(m, size, start, ps[1], ps[1..], e)
    ensures EndAt(m, size, start, p).None? && ps[1] > p
  {
    hide GoodWrite, GoesOn;
    assert Follows(m, size, start, ps[0], ps[1]);
    var tail := ps[1..];
    forall i, j | 0 <= i < j < |tail| && j == i + 1 ensures Follows(m, size, start, tail[i], tail[j]) {
      assert Follows(m, size, start, ps[i + 1], ps[j + 1]);
    }
  }

  /** A walk that has come to an end decides the first pass. */
  lemma {:induction false} WalkDecides(m: seq<u8>, size: u8, start: nat, p: nat, ps: seq<nat>, e: End)
    requires |m| == BUF_SIZE && WalkTo(m, size, start, p, ps, e)
    requires start <= p <= 600 && (p == start || GoesOn(size, p as int - start))
    ensures Check(m, p, LeftOf(size, p - start)) == VerdictFor(e)
    decreases |ps|
  {
    hide Check, GoodWrite, GoesOn, Walk;
    CheckTurn(m, size, start, p);
    if |ps| > 1 {
      WalkTail(m, size, start, p, ps, e);
      WalkDecides(m, size, start, ps[1], ps[1..], e);
    }
  }

  /** The walk over the sub-requests of a message ends this way. */
  ghost predicate Ends(m: seq<u8>, size: u8, start: nat, e: End)
    requires |m| == BUF_SIZE
  {
    exists ps :: WalkTo(m, size, start, start, ps, e)
  }

  /** The first pass gives the verdict of an end if and only if the walk from the first sub-request ends that way. */
  lemma VerdictIff(m: seq<u8>, size: u8, start: nat, v: Verdict)
    requires |m| == BUF_SIZE && start <= 260
    ensures Check(m, start, size) == v <==> exists e :: Ends(m, size, start, e) && VerdictFor(e) == v
  {
    hide Check, WalkTo;
    var ps, e := WalkFrom(m, size, start, start);
    assert Ends(m, size, start, e);
    WalkDecides(m, size, start, start, ps, e);
    if e' :| Ends(m, size, start, e') && VerdictFor(e') == v {
      var qs :| WalkTo(m, size, start, start, qs, e');
      WalkDecides(m, size, start, start, qs, e');
    }
  }

  /** The record named by the seven bytes at p, with the registers behind them. */
  ghost predicate Names(m: seq<u8>, p: nat, r: Record) {
    && p + 7 + 2 * |r.data| <= |m|
    && r.file == Big(m, p + 1) && r.record == Big(m, p + 3) && |r.data| == Big(m, p + 5) as nat
    && forall k :: 0 <= k < |r.data| ==> r.data[k] == Big(m, p + 7 + 2 * k)
  }

  lemma RecordNamed(m: seq<u8>, p: nat)
    requires p + 7 <= |m| && p + 7 + 2 * WordAt(m, p + 5) <= |m|
    ensures Names(m, p, RecordAt(m, p))
  {
    var n, r := WordAt(m, p + 5) as nat, RecordAt(m, p);
    var raw := m[p + 7..p + 7 + 2 * n];
    forall k | 0 <= k < |r.data| ensures r.data[k] == Big(m, p + 7 + 2 * k) {
      assert r.data[k] == WordAt(raw, 2 * k) && raw[2 * k] == m[p + 7 + 2 * k] && raw[2 * k + 1] == m[p + 8 + 2 * k];
    }
  }

  /** The second pass delivers the records at the places of the walk. */
  lemma {:induction false} WalkRecords(m: seq<u8>, size: u8, start: nat, p: nat, ps: seq<nat>)
    requires |m| == BUF_SIZE && WalkTo(m, size, start, p, ps, Whole) && start + size as nat <= BUF_SIZE
    requires start <= p <= 600 && (p == start || GoesOn(size, p as int - start)) && p - start <= size as nat
    ensures Check(m, p, LeftOf(size, p - start)).Accepted?
    ensures var rs := RecordsAt(m, p, LeftOf(size, p - start));
      |rs| == |ps| && forall i :: 0 <= i < |ps| ==> Names(m, ps[i], rs[i])
    decreases |ps|
  {
    hide Check, GoodWrite, Names, Walk, RecordAt, RecordsAt;
    WalkDecides(m, size, start, p, ps, Whole);
    var r, tail, next, left := RecordsCons(m, p, LeftOf(size, p - start));
    RecordNamed(m, p);
    if |ps| > 1 {
      WalkTail(m, size, start, p, ps, Whole);
      WalkRecords(m, size, start, ps[1], ps[1..]);
      forall i | 0 <= i < |ps| ensures Names(m, ps[i], ([r] + tail)[i]) {
        if i > 0 {
          assert ps[i] == ps[1..][i - 1];
        }
      }
    }
  }

  /** The calls end with the first that fails. */
  lemma {:induction false} CallsStop(p: FilePolicy, rs: seq<Record>)
    ensures var (calls, err) := RunWrites(p, rs);
      err != NoError ==>
        && calls != [] && p.writeResult(calls[|calls| - 1]) == err
        && forall i :: 0 <= i < |calls| - 1 ==> p.writeResult(calls[i]) == NoError
  {
    if rs != [] && p.writeResult(rs[0]) == NoError {
      CallsStop(p, rs[1..]);
      var (tail, err) := RunWrites(p, rs[1..]);
      if err != NoError {
        var calls := [rs[0]] + tail;
        forall i | 0 <= i < |calls| - 1 ensures p.writeResult(calls[i]) == NoError {
          assert i > 0 ==> calls[i] == tail[i - 1];
        }
      }
    }
  }

  /** The records at these places were handed to the callback, up to the first it refused, and answered accordingly. */
  ghost predicate Written(m: seq<u8>, end: nat, broadcast: bool, db: Db, p: FilePolicy, ps: seq<nat>, served: Served)
    requires |m| == BUF_SIZE && end <= BUF_SIZE
  {
    var calls, n := served.calls, |served.calls|;
    && n <= |ps| && (forall i :: 0 <= i < n ==> Names(m, ps[i], calls[i]))
    && (forall i :: 0 <= i < n - 1 ==> p.writeResult(calls[i]) == NoError)
    && n >= 1
    && (p.writeResult(calls[n - 1]) == NoError ==>
          n == |ps| && served.ans == Answer(NoError, if broadcast then Silent else Raw(m[..end]), db))
    && (p.writeResult(calls[n - 1]) !in {NoError, Fault} ==>
          served.ans == Answer(NoError, Send([0x95, CallbackCode(p.writeResult(calls[n - 1]))]), db))
  }

  lemma WholeWritten(m: seq<u8>, size: u8, start: nat, broadcast: bool, db: Db, p: FilePolicy, ps: seq<nat>)
    requires |m| == BUF_SIZE && start + size as nat <= BUF_SIZE && size >= 7 && WalkTo(m, size, start, start, ps, Whole)
    ensures var (ans, calls) := ExecuteWriteFile(db, Some(p), 21, broadcast, m, start, size);
      Written(m, start + size as nat, broadcast, db, p, ps, Served(ans, calls))
  {
    hide Check, RecordsAt, Names, WalkTo, RunWrites;
    WalkRecords(m, size, start, start, ps);
    WalkNotEmpty(m, size, start, ps);
    var rs := RecordsAt(m, start, size);
    RunWritesInOrder(p, rs);
    CallsStop(p, rs);
    var (calls, err) := RunWrites(p, rs);
    if err == NoError {
      assert p.writeResult(rs[|rs| - 1]) == NoError;
    }
  }

  lemma WalkNotEmpty(m: seq<u8>, size: u8, start: nat, ps: seq<nat>)
    requires |m| == BUF_SIZE && WalkTo(m, size, start, start, ps, Whole)
    ensures ps != []
  {
  }

  /**
   What the handler makes of a message of size bytes of sub-requests from start on, by the end e its walk comes to.
   */
  ghost predicate WriteAnswered(m: seq<u8>, size: u8, start: nat, broadcast: bool, db: Db, p: Option<FilePolicy>,
                                e: End, served: Served)
    requires |m| == BUF_SIZE && start + size as nat <= BUF_SIZE
  {
    match e
    case Bad => served == Served(Answer(NoError, Send([0x95, 2]), db), [])
    case Leftover(_) => served == Served(Answer(NoError, Send([0x95, 3]), db), [])
    case Past => served.ans.err == Fault && served.calls == []
    case Whole =>
      if p.None? then served == Served(Answer(NoError, Send([0x95, 1]), db), [])
      else exists ps :: WalkTo(m, size, start, start, ps, Whole)
             && Written(m, start + size as nat, broadcast, db, p.value, ps, served)
  }

  lemma WriteExecuted(m: seq<u8>, size: u8, start: nat, broadcast: bool, db: Db, p: Option<FilePolicy>, e: End)
    requires |m| == BUF_SIZE && start + size as nat <= BUF_SIZE && size >= 7 && Ends(m, size, start, e)
    ensures var (ans, calls) := ExecuteWriteFile(db, p, 21, broadcast, m, start, size);
      WriteAnswered(m, size, start, broadcast, db, p, e, Served(ans, calls))
  {
    hide Check, WalkTo, RecordsAt, RunWrites, Written;
    var ps :| WalkTo(m, size, start, start, ps, e);
    WalkDecides(m, size, start, start, ps, e);
    if e.Whole? && p.Some? {
      WholeWritten(m, size, start, broadcast, db, p.value, ps);
    }
  }

  /**
   The answer to a write that was received to its end. Fewer than seven bytes are refused with exception 3. Otherwise
   the sub-requests are walked, and the walk comes to an end: a bad sub-request is refused with exception 2 and bytes
   left over with 3, before any callback; a walk that takes exactly the announced size is executed.
   */
  lemma WriteServed(t: Transport, tid: u16, unit: u8, broadcast: bool, db: Db, d: Option<DeviceInfo>,
                    p: Option<FilePolicy>, v: seq<u8>, stale: seq<u8>) returns (e: End)
    requires |v| >= HeaderSize(t) && (t.Tcp? ==> |v| == BUF_SIZE) && Taken(t, 21, v) && |stale| == BUF_SIZE
    requires Sized(db) && (d.Some? ==> Proper(d.value))
    ensures
      var h, served := HeaderSize(t), Serve(t, tid, unit, 21, broadcast, db, d, p, v, stale);
      h < |v| && h + 1 + v[h] <= BUF_SIZE && (t.Rtu? ==> h + 3 + v[h] <= |v| && h + 3 + v[h] <= BUF_SIZE) &&
      var m := Memory(t, v, stale, h + 3 + v[h] as nat);
      && (v[h] < 7 ==> served == Served(Answer(NoError, Send([0x95, 3]), db), []))
      && (v[h] >= 7 ==> Ends(m, v[h], h + 1, e) && WriteAnswered(m, v[h], h + 1, broadcast, db, p, e, served))
  {
    hide PayloadError, Taken, Memory, Ends, WriteAnswered, ExecuteWriteFile;
    var h := HeaderSize(t);
    PayloadIffTaken(t, 21, v);
    PayloadRoom(t, v);
    var m, size := Memory(t, v, stale, h + 3 + v[h] as nat), v[h];
    if size >= 7 {
      var ps;
      ps, e := WalkFrom(m, size, h + 1, h + 1);
      EndsThere(m, size, h + 1, ps, e);
      WriteExecuted(m, size, h + 1, broadcast, db, p, e);
    } else {
      e := Past;
      TooShortWrite(db, p, broadcast, m, h + 1, size);
    }
  }

  lemma EndsThere(m: seq<u8>, size: u8, start: nat, ps: seq<nat>, e: End)
    requires |m| == BUF_SIZE && WalkTo(m, size, start, start, ps, e)
    ensures Ends(m, size, start, e)
  {
  }

  lemma TooShortWrite(db: Db, p: Option<FilePolicy>, broadcast: bool, m: seq<u8>, start: nat, size: u8)
    requires |m| == BUF_SIZE && start + size as nat <= BUF_SIZE && size < 7
    ensures ExecuteWriteFile(db, p, 21, broadcast, m, start, size) == (Answer(NoError, Send([0x95, 3]), db), [])
  {
  }
}
