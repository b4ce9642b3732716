/** create_ws_frame and parse_ws_frame: server frames of RFC 6455, section 5.2. */
module WebSocket {
  import opened Bytes

  const TWO32 := 0x1_0000_0000
  const TWO64 := 0x1_0000_0000_0000_0000

  //////////////////////////////////////////////////////////////////////////////
  // Printing
  //////////////////////////////////////////////////////////////////////////////

  /** FIN and opcode, then the payload length in its shortest form. */
  function Head(opcode: u8, n: nat): (s: seq<u8>)
    requires n < TWO32
  {
    [0x80 + opcode % 16] +
    if n <= 125 then [n]
    else if n <= 65535 then [126, n / 0x100, n % 0x100]
    else [127, 0, 0, 0, 0, n / 0x100_0000, n / 0x1_0000 % 0x100, n / 0x100 % 0x100, n % 0x100]
  }

  function FrameBytes(opcode: u8, payload: seq<u8>): seq<u8>
    requires |payload| < TWO32
  {
    Head(opcode, |payload|) + payload
  }

  /** create_ws_frame: the return value, and the frame at the front of buffer. */
  method CreateWsFrame(buffer: array<u8>, buflen: nat, payload: array<u8>, payloadLen: nat, opcode: u8)
    returns (ret: int)
    requires buflen <= buffer.Length && payloadLen <= payload.Length && payload != buffer && payloadLen < 0x8000_0000
    modifies buffer
    ensures buflen < payloadLen + 10 ==> ret == -1 && buffer[..] == old(buffer[..])
    ensures buflen >= payloadLen + 10 ==>
      && ret == |FrameBytes(opcode, payload[..payloadLen])| <= buflen
      && buffer[..ret] == FrameBytes(opcode, payload[..payloadLen])
      && buffer[ret..] == old(buffer[ret..])
  {
    if buflen < payloadLen + 10 {
      return -1;
    }
    var offset := PutHead(buffer, payloadLen, opcode);
    hide Head;
    CopyInto(buffer, offset, payload, payloadLen);
    ret := offset + payloadLen;
    assert buffer[..ret] == buffer[..offset] + buffer[offset..ret];
  }

  /** The header bytes, written through offset. */
  method PutHead(buffer: array<u8>, payloadLen: nat, opcode: u8) returns (offset: nat)
    requires buffer.Length >= payloadLen + 10 && payloadLen < 0x8000_0000
    modifies buffer
    ensures offset == |Head(opcode, payloadLen)| <= 10 && buffer[..offset] == Head(opcode, payloadLen)
    ensures buffer[offset..] == old(buffer[offset..])
  {
    offset := 0;
    buffer[offset] := 0x80 + opcode % 16;
    offset := offset + 1;
    if payloadLen <= 125 {
      buffer[offset] := payloadLen;
      offset := offset + 1;
      assert buffer[..offset] == Head(opcode, payloadLen);
    } else if payloadLen <= 65535 {
      buffer[offset] := 126;
      buffer[offset + 1] := payloadLen / 0x100;
      buffer[offset + 2] := payloadLen % 0x100;
      offset := offset + 3;
      assert buffer[..offset] == Head(opcode, payloadLen);
    } else {
      buffer[offset] := 127;
      buffer[offset + 1], buffer[offset + 2], buffer[offset + 3], buffer[offset + 4] := 0, 0, 0, 0;
      buffer[offset + 5] := payloadLen / 0x100_0000;
      buffer[offset + 6] := payloadLen / 0x1_0000 % 0x100;
      buffer[offset + 7] := payloadLen / 0x100 % 0x100;
      buffer[offset + 8] := payloadLen % 0x100;
      offset := offset + 9;
      assert buffer[..offset] == Head(opcode, payloadLen);
    }
  }

  /** memcpy(buffer + offset, payload, count) */
  method CopyInto(buffer: array<u8>, offset: nat, payload: array<u8>, count: nat)
    requires offset + count <= buffer.Length && count <= payload.Length && payload != buffer
    modifies buffer
    ensures buffer[..offset] == old(buffer[..offset])
    ensures buffer[offset..offset + count] == payload[..count]
    ensures buffer[offset + count..] == old(buffer[offset + count..])
  {
    for i := 0 to count
      invariant forall k :: 0 <= k < offset ==> buffer[k] == old(buffer[k])
      invariant forall k :: offset <= k < offset + i ==> buffer[k] == payload[k - offset]
      invariant forall k :: offset + i <= k < buffer.Length ==> buffer[k] == old(buffer[k])
    {
      buffer[offset + i] := payload[i];
    }
  }

  //////////////////////////////////////////////////////////////////////////////
  // Parsing
  //////////////////////////////////////////////////////////////////////////////

  function Code(s: seq<u8>): u8
    requires |s| >= 2
  {
    s[1] % 0x80
  }

  predicate Masked(s: seq<u8>)
    requires |s| >= 2
  {
    s[1] >= 0x80
  }

  /** Bytes before the payload. */
  function Offset(s: seq<u8>): nat
    requires |s| >= 2
  {
    LengthEnd(s) + if Masked(s) then 4 else 0
  }

  /** The four bytes the parser takes for a 64-bit length. */
  function LongLength(s: seq<u8>): (n: nat)
    requires |s| >= 6
    ensures n < TWO32
  {
    s[2] as int * 0x100_0000 + s[3] as int * 0x1_0000 + s[4] as int * 0x100 + s[5]
  }

  /** payload_len, an unsigned 64-bit field: the four bytes are combined in a signed 32-bit int and then widened. */
  function PayloadLen(s: seq<u8>): (n: nat)
    requires |s| >= 2 && |s| >= LengthEnd(s)
    ensures n < TWO64
  {
    if Code(s) == 126 then Word(s[2], s[3])
    else if Code(s) == 127 then (if LongLength(s) < 0x8000_0000 then LongLength(s) else TWO64 - TWO32 + LongLength(s))
    else Code(s)
  }

  /** Bytes up to the end of the length field. */
  function LengthEnd(s: seq<u8>): nat
    requires |s| >= 2
  {
    2 + if Code(s) == 126 then 2 else if Code(s) == 127 then 8 else 0
  }

  /** The 64-bit sum of offset and length wraps to a small number. */
  predicate Wraps(s: seq<u8>)
    requires |s| >= 2 && |s| >= Offset(s)
  {
    Code(s) == 127 && LongLength(s) + Offset(s) >= TWO32
  }

  /** The end of the frame, computed in 64 bits. */
  function End(s: seq<u8>): (end: nat)
    requires |s| >= 2 && |s| >= Offset(s)
    ensures end == Offset(s) + PayloadLen(s) - (if Wraps(s) then TWO64 else 0)
  {
    (Offset(s) + PayloadLen(s)) % TWO64
  }

  /** The return value of parse_ws_frame on the bytes s. */
  function ParsedLen(s: seq<u8>): int {
    if |s| < 2 || |s| < LengthEnd(s) || |s| < Offset(s) then -1
    else if |s| < End(s) then -1
    else End(s)
  }

  /** ws_frame_t; the payload pointer is an index into the parsed data. */
  class WsFrame {
    var fin: bool
    var opcode: u8
    var mask: bool
    var payloadLen: nat
    var maskingKey: seq<u8>
    var payloadData: nat
  }

  method ParseWsFrame(data: array<u8>, len: nat, frame: WsFrame) returns (ret: int)
    requires len <= data.Length && len < 0x8000_0000
    modifies frame
    ensures ret == ParsedLen(data[..len])
    ensures ret != -1 ==>
      var s := data[..len];
      && |s| >= 2 && |s| >= Offset(s)
      && frame.fin == (s[0] >= 0x80) && frame.opcode == s[0] % 16 && frame.mask == Masked(s)
      && frame.payloadLen == PayloadLen(s) && frame.payloadData == Offset(s)
      && (frame.mask ==> frame.maskingKey == s[Offset(s) - 4..Offset(s)])
  {
    if len < 2 {
      return -1;
    }
    ghost var s := data[..len];
    frame.fin := data[0] >= 0x80;
    frame.opcode := data[0] % 16;
    frame.mask := data[1] >= 0x80;
    var offset := ReadLength(data, len, frame);
    if offset == -1 {
      return -1;
    }
    hide PayloadLen, LengthEnd, Code;
    if frame.mask {
      if len < offset + 4 {
        return -1;
      }
      frame.maskingKey := data[offset..offset + 4];
      assert frame.maskingKey == s[offset..offset + 4];
      offset := offset + 4;
    }
    assert offset == Offset(s);
    var end := (offset + frame.payloadLen) % TWO64;
    assert end == End(s);
    if len < end {
      return -1;
    }
    frame.payloadData := offset;
    return end;
  }

  /** The length field: the offset behind it, or -1 when it is not all there. */
  method ReadLength(data: array<u8>, len: nat, frame: WsFrame) returns (offset: int)
    requires 2 <= len <= data.Length
    modifies frame`payloadLen
    ensures var s := data[..len];
      if |s| < LengthEnd(s) then offset == -1 else offset == LengthEnd(s) && frame.payloadLen == PayloadLen(s)
  {
    frame.payloadLen := data[1] % 0x80;
    offset := 2;
    if frame.payloadLen == 126 {
      if len < offset + 2 {
        return -1;
      }
      frame.payloadLen := data[2] as int * 0x100 + data[3];
      offset := offset + 2;
    } else if frame.payloadLen == 127 {
      if len < offset + 8 {
        return -1;
      }
      var long: nat := data[2] as int * 0x100_0000 + data[3] as int * 0x1_0000 + data[4] as int * 0x100 + data[5];
      frame.payloadLen := if long < 0x8000_0000 then long else TWO64 - TWO32 + long;
      offset := offset + 8;
    }
  }

  //////////////////////////////////////////////////////////////////////////////
  // Frame boundaries
  //////////////////////////////////////////////////////////////////////////////

  /** The payload of an accepted frame lies inside the data exactly when that sum does not wrap. */
  lemma WindowInside(s: seq<u8>)
    requires ParsedLen(s) != -1
    ensures |s| >= 2 && |s| >= Offset(s)
    ensures (Offset(s) + PayloadLen(s) == ParsedLen(s) <= |s|) <==> !Wraps(s)
    ensures Offset(s) in {2, 4, 6, 8, 10, 14}
  {
    hide End, Wraps, PayloadLen;
  }

  /** A frame that wraps is accepted with an end before its payload: eight bytes of 0xFF behind a 127. */
  lemma WrapExample()
    ensures var s: seq<u8> := [0x82, 127, 0xFF, 0xFF, 0xFF, 0xFF, 0, 0, 0, 0];
      ParsedLen(s) == 9 && Offset(s) == 10 && Wraps(s)
  {
  }

  /** Two inputs that agree up to the payload of one of them have the same header. */
  lemma SameHeader(s: seq<u8>, t: seq<u8>)
    requires |s| >= 2 && |s| >= Offset(s) && |t| >= Offset(s) && forall i :: 0 <= i < Offset(s) ==> t[i] == s[i]
    ensures Offset(t) == Offset(s) && PayloadLen(t) == PayloadLen(s) && Wraps(t) == Wraps(s)
  {
  }

  /** A frame is recognised as soon as its last byte is there and not before, and later bytes do not change it. */
  lemma {:induction false} BoundaryStable(s: seq<u8>, tail: seq<u8>, k: nat)
    requires ParsedLen(s) != -1 && !Wraps(s) && k <= |s|
    ensures ParsedLen(s + tail) == ParsedLen(s) && Offset(s + tail) == Offset(s)
      && PayloadLen(s + tail) == PayloadLen(s)
    ensures ParsedLen(s[..k]) == if k < ParsedLen(s) then -1 else ParsedLen(s)
  {
    SameHeader(s, s + tail);
    if k >= Offset(s) {
      SameHeader(s, s[..k]);
    } else {
      TooShort(s, k);
    }
    hide End, Wraps, PayloadLen, Offset, LengthEnd;
  }

  /** Without its whole header a frame is not recognised. */
  lemma TooShort(s: seq<u8>, k: nat)
    requires 2 <= |s| && k <= |s| && k < Offset(s)
    ensures ParsedLen(s[..k]) == -1
  {
    hide End;
  }

  //////////////////////////////////////////////////////////////////////////////
  // Round trips
  //////////////////////////////////////////////////////////////////////////////

  /** What a receiver makes of the frame at the front of s. */
  function Message(s: seq<u8>): (u8, seq<u8>)
    requires ParsedLen(s) != -1 && !Wraps(s)
  {
    WindowInside(s);
    (s[0] % 16, s[Offset(s)..ParsedLen(s)])
  }

  /**
   Parsing what was printed, whatever follows, gives the message back exactly when its payload has at most 65535
   bytes. A longer frame is taken for an empty one.
   */
  lemma FrameRoundTrip(opcode: u8, payload: seq<u8>, tail: seq<u8>)
    requires |payload| < TWO32
    ensures
      var f := FrameBytes(opcode, payload);
      var s := f + tail;
      && ParsedLen(s) != -1 && !Wraps(s) && s[0] >= 0x80 && !Masked(s)
      && (ParsedLen(s) == |f| && Message(s) == (opcode % 16, payload) <==> |payload| <= 65535)
      && (|payload| > 65535 ==> ParsedLen(s) == 10 && Message(s) == (opcode % 16, []))
  {
    var n, head := |payload|, Head(opcode, |payload|);
    var s := FrameBytes(opcode, payload) + tail;
    assert s == head + (payload + tail);
    HeadParsed(opcode, n, payload + tail);
    hide Head, Offset, LengthEnd, PayloadLen, Wraps, Masked, End;
    assert s[|head|..|head| + n] == payload;
    assert |head| == 10 ==> s[10..10] == [];
  }

  /** The header is recognised, and so is a length of at most 65535; a longer one reads as zero. */
  lemma HeadParsed(opcode: u8, n: nat, rest: seq<u8>)
    requires n < TWO32
    ensures
      var head := Head(opcode, n);
      var s := head + rest;
      && Offset(s) == LengthEnd(s) == |head| && !Masked(s) && !Wraps(s) && (n > 65535 ==> |head| == 10)
      && PayloadLen(s) == (if n <= 65535 then n else 0) && s[0] == 0x80 + opcode % 16
  {
    var head := Head(opcode, n);
    assert forall i :: 0 <= i < |head| ==> (head + rest)[i] == head[i];
  }

  /** No header of an unmasked frame states such a length in fewer bytes. */
  lemma HeadIsShortest(opcode: u8, s: seq<u8>)
    requires |s| >= 2 && |s| >= Offset(s) && !Masked(s) && PayloadLen(s) <= 65535
    ensures |Head(opcode, PayloadLen(s))| <= Offset(s)
    ensures |Head(opcode, PayloadLen(s))| == if PayloadLen(s) <= 125 then 2 else 4
  {
  }

  /**
   A 64-bit length is read from its upper half, high byte first, whatever the lower half holds: a frame that states n in
   the upper half is taken for one of n bytes.
   */
  lemma UpperHalfParsed(first: u8, high: seq<u8>, low: seq<u8>, payload: seq<u8>, tail: seq<u8>)
    requires |high| == 4 && |low| == 4 && high[0] < 0x80
    requires |payload| == ((high[0] as int * 256 + high[1]) * 256 + high[2]) * 256 + high[3]
    ensures
      var s := [first, 127] + high + low + payload + tail;
      && ParsedLen(s) == 10 + |payload| && PayloadLen(s) == |payload| && Offset(s) == 10 && !Masked(s)
      && s[10..10 + |payload|] == payload
  {
    var head := [first, 127] + high + low;
    assert head[2] == high[0] && head[3] == high[1] && head[4] == high[2] && head[5] == high[3];
    LongHead(head, payload + tail, |payload|);
    hide End, LongLength, Offset, LengthEnd, Wraps, PayloadLen;
    assert head + (payload + tail) == head + payload + tail;
    assert (head + payload + tail)[10..10 + |payload|] == payload;
  }

  lemma LongHead(head: seq<u8>, rest: seq<u8>, n: nat)
    requires |head| == 10 && head[1] == 127 && head[2] < 0x80 && |rest| >= n
    requires n == ((head[2] as int * 256 + head[3]) * 256 + head[4]) * 256 + head[5]
    ensures var s := head + rest;
      ParsedLen(s) == 10 + n && PayloadLen(s) == n && Offset(s) == 10 && !Masked(s)
  {
    var s := head + rest;
    assert s[1] == head[1] && s[2] == head[2] && s[3] == head[3] && s[4] == head[4] && s[5] == head[5];
    assert LongLength(s) == n;
  }

  //////////////////////////////////////////////////////////////////////////////
  // Frames of a client
  //////////////////////////////////////////////////////////////////////////////

  /** A masked frame as section 5.2 of RFC 6455 draws it: first byte, length with the mask bit, key, payload. */
  function ClientHead(fin: bool, opcode: u8, n: nat): (s: seq<u8>)
    requires opcode < 16 && n < TWO32
  {
    [if fin then 0x80 + opcode else opcode] +
    if n <= 125 then [0x80 + n]
    else if n <= 65535 then [0xFE, n / 0x100, n % 0x100]
    else [0xFF, 0, 0, 0, 0, n / 0x100_0000, n / 0x1_0000 % 0x100, n / 0x100 % 0x100, n % 0x100]
  }

  function ClientFrame(fin: bool, opcode: u8, key: seq<u8>, payload: seq<u8>): seq<u8>
    requires opcode < 16 && |key| == 4 && |payload| < TWO32
  {
    ClientHead(fin, opcode, |payload|) + key + payload
  }

  /** The parser reads the head of a client's frame, except that a length above 65535 reads as zero. */
  lemma ClientHeadParsed(fin: bool, opcode: u8, n: nat, rest: seq<u8>)
    requires opcode < 16 && n < TWO32
    ensures
      var head := ClientHead(fin, opcode, n);
      var s := head + rest;
      && LengthEnd(s) == |head| && Offset(s) == |head| + 4 && (n > 65535 ==> |head| == 10)
      && PayloadLen(s) == (if n <= 65535 then n else 0) && Masked(s)
      && (s[0] >= 0x80 <==> fin) && s[0] % 16 == opcode
      && (|s| >= Offset(s) ==> !Wraps(s))
  {
    var head := ClientHead(fin, opcode, n);
    assert forall i :: 0 <= i < |head| ==> (head + rest)[i] == head[i];
  }

  lemma Regroup(head: seq<u8>, key: seq<u8>, payload: seq<u8>, tail: seq<u8>)
    ensures head + key + payload + tail == head + (key + payload + tail)
  {
  }

  /**
   A client's frame, whatever follows, is parsed to its own length, its key and a window that is its payload exactly
   when the payload has at most 65535 bytes. The window of a longer one is empty.
   */
  lemma ClientFrameParsed(fin: bool, opcode: u8, key: seq<u8>, payload: seq<u8>, tail: seq<u8>)
    requires opcode < 16 && |key| == 4 && |payload| < TWO32
    ensures
      var f := ClientFrame(fin, opcode, key, payload);
      var s := f + tail;
      && ParsedLen(s) != -1 && Offset(s) == |f| - |payload| && Offset(s) >= 4 && Masked(s)
      && (s[0] >= 0x80 <==> fin) && s[0] % 16 == opcode && s[Offset(s) - 4..Offset(s)] == key
      && (ParsedLen(s) == |f| && PayloadLen(s) == |payload| <==> |payload| <= 65535)
      && (|payload| <= 65535 ==> s[Offset(s)..Offset(s) + PayloadLen(s)] == payload)
      && (|payload| > 65535 ==> ParsedLen(s) == Offset(s) && PayloadLen(s) == 0)
  {
    var n, head := |payload|, ClientHead(fin, opcode, |payload|);
    var s := ClientFrame(fin, opcode, key, payload) + tail;
    Regroup(head, key, payload, tail);
    ClientHeadParsed(fin, opcode, n, key + payload + tail);
    hide ClientHead, Offset, LengthEnd, PayloadLen, Wraps, Masked, End;
    assert s[|head|..|head| + 4] == key;
    assert s[|head| + 4..|head| + 4 + n] == payload;
  }

  /** parse_ws_frame on a client's frame, from its first byte to the end of its payload. */
  method ParseClientFrame(data: array<u8>, len: nat, frame: WsFrame, ghost fin: bool, ghost opcode: u8,
                          ghost key: seq<u8>, ghost payload: seq<u8>, ghost tail: seq<u8>) returns (ret: int)
    requires len <= data.Length && len < 0x8000_0000
    requires opcode < 16 && |key| == 4 && |payload| <= 65535
    requires data[..len] == ClientFrame(fin, opcode, key, payload) + tail
    modifies frame
    ensures ret == |ClientFrame(fin, opcode, key, payload)| <= len
    ensures frame.fin == fin && frame.opcode == opcode && frame.mask && frame.maskingKey == key
    ensures frame.payloadData + frame.payloadLen == ret && data[frame.payloadData..ret] == payload
  {
    hide ClientFrame, ParsedLen, Offset, PayloadLen, Masked;
    ClientFrameParsed(fin, opcode, key, payload, tail);
    ghost var s := data[..len];
    ret := ParseWsFrame(data, len, frame);
    assert data[frame.payloadData..ret] == s[frame.payloadData..ret];
  }

  //////////////////////////////////////////////////////////////////////////////
  // Streams of frames
  //////////////////////////////////////////////////////////////////////////////

  datatype Text = Msg(opcode: u8, payload: seq<u8>)

  ghost predicate Short(ms: seq<Text>) {
    forall i :: 0 <= i < |ms| ==> |ms[i].payload| <= 65535 && ms[i].opcode < 16
  }

  function Stream(ms: seq<Text>): seq<u8>
    requires Short(ms)
  {
    if ms == [] then [] else FrameBytes(ms[0].opcode, ms[0].payload) + Stream(ms[1..])
  }

  /** Frames taken off the front one after another, as long as there is a whole one. */
  function Decode(s: seq<u8>): seq<Text>
    decreases |s|
  {
    if ParsedLen(s) == -1 || Wraps(s) then []
    else
      WindowInside(s);
      [Msg(Message(s).0, Message(s).1)] + Decode(s[ParsedLen(s)..])
  }

  /** A concatenation of frames decodes to the messages it was made from. */
  lemma {:induction false} StreamRoundTrip(ms: seq<Text>)
    requires Short(ms)
    ensures Decode(Stream(ms)) == ms
  {
    if ms != [] {
      DecodeFrame(ms[0], Stream(ms[1..]));
      StreamRoundTrip(ms[1..]);
      hide FrameBytes, Decode;
      assert ms == [ms[0]] + ms[1..];
    }
  }

  lemma DecodeFrame(m: Text, rest: seq<u8>)
    requires |m.payload| <= 65535 && m.opcode < 16
    ensures Decode(FrameBytes(m.opcode, m.payload) + rest) == [m] + Decode(rest)
  {
    var f := FrameBytes(m.opcode, m.payload);
    FrameRoundTrip(m.opcode, m.payload, rest);
    hide Head, FrameBytes, ParsedLen, Offset, LengthEnd, PayloadLen, End, Code, Masked, Wraps, Message;
    DecodeFirst(f + rest, m, |f|);
    assert (f + rest)[|f|..] == rest;
  }

  lemma DecodeFirst(s: seq<u8>, m: Text, n: nat)
    requires ParsedLen(s) == n && !Wraps(s) && Message(s) == (m.opcode, m.payload)
    ensures n <= |s| && Decode(s) == [m] + Decode(s[n..])
  {
    WindowInside(s);
    hide ParsedLen, Wraps, Message;
  }
}
