# Modbus stack, WebSocket frames, receive chain and MPU loader: a verified model

The firmware speaks Modbus through `Core/Src/nanomodbus.c`, a client and a server that share one mutable
260-byte message buffer with a cursor, and `Core/Src/modbus_port.c`, which supplies the coil and register
store and a transport made of client slots. This project models both sides and proves what they do to each
other, over TCP framing (MBAP) and RTU framing (checksum). Around it sit four smaller models: the client
slots and the thread that serves them, the WebSocket frame printer and parser, the chain of packet buffers
built by the Ethernet receive callback, and the windowed loader of MPU regions.

## How the model is built

`nmbs_t` is the class `NmbsCore.Nmbs`: the buffer is an array that every get and put changes in place, the
cursor, the message state and the transaction counter are fields. The line is a field too: the bytes it will
deliver, the frames written to it, and whether it works. A handler or decoder is a method over this object,
with the branches, limits and order of the C function. Its contract ties the new state to a pure function of
the received bytes (`Protocol.Parse`, `Protocol.Execute`, `Responses.RegsResError`, `Files.Check`,
`DeviceId.Collect`, `Poll.Serve`); the theorems are about these functions, about whole polls, and about runs
in which one client object and one server object exchange frames.

- Bytes and words are integers with their ranges; wrap-around in eight and sixteen bits is written out.
- `Fault` is an error value the C code does not have. It marks the point from which the C program's behaviour
  is undefined: an access past `msg.buf`, past the register or coil store, past the 250-byte bitfield, or
  through the NULL pointer `get_server` returns. So a poll needs no assumption about its input, and theorems
  say exactly when the point is reached.
- `Nmbs.View` is the whole message, the part received and the part still on the line. On TCP it is the
  message buffer, with whatever earlier messages left behind the frame, because after the header nothing
  more is read and lengths are no longer compared.
- Callbacks for files and device identification are parameters: arbitrary functions for results and
  contents, and a log of the calls.

| files | content |
|---|---|
| Wrappers | optional values |
| Bytes, Bitfield, Crc, Adu | byte order, bit fields, checksum theory, frames |
| Nmbs, Store | the message buffer object and the coil and register store |
| Protocol, Responses, Handlers, Requests | data functions 1 to 6, 15, 16 and 23 |
| DeviceId, DeviceHandler, DeviceResponses | function 43, one page |
| Files, FileHandler, FileResponses | functions 20 and 21 |
| Poll, Client | the server's poll and the request halves of the client's calls |
| RoundTrips, EndToEnd, DevicePages, FileCalls | client against server |
| DataAnswers, FileAnswers, DeviceAccess | what every request is answered with, by the bytes of the message |
| Verdicts | what the client makes of every response |
| Answerable, Guarantees | which requests are answered, and how often, after every poll on every stream |
| Bystander, SharedLine | a server on an RTU line with other units: one exchange, and whole runs |
| Transactions, CoilReads | transaction ids over a run; what a coil read shows |
| Slots | read_socket, write_socket and the Modbus thread |
| WebSocket, RxChain, Mpu | the other three models |

## What the code does not do

Some statements its documentation or the standards would suggest are false of the code; each is proved with its
exact condition or a concrete input.

- A well-formed request is not always answered. Messages whose byte count passes the handler's limit, among them
  the largest function 15 request a PDU can hold, are dropped without even an exception
  (`Guarantees.LargestCoilsDropped`). Which messages are answered is said by `Answerable.IsAnswered`: the message
  is read to its end (`Answerable.Taken`) and serving it reaches no undefined behaviour (`Answerable.Undefined`).
- A bystander does not always stay in step with other units. It does not after a function 23 request, whose
  response it decodes as the echo of a write, nor after an exception, which ends its poll with an error, nor
  after a file response of several records, unless the checksum of the first record happens to be that of the whole
  (`Bystander.InSyncIff`).
- A broadcast is not always left unanswered: its refusals are sent (`DataAnswers.BroadcastAnswered`).
- The client does not compare the size of a bit response with what it asked for (`Verdicts.ReceiveAnyBits`).
- `server_read_coils` stores coil `a+k` at bit `a+k` of the response, not at bit `k` (section 6.1 of MODBUS
  Application Protocol V1.1b3): the layout is right exactly for address 0 (`CoilReads.AlignedIffAtZero`).
- A WebSocket payload of more than 65535 bytes is printed but not parsed back, because the parser takes the
  upper half of the 64-bit length (`WebSocket.FrameRoundTrip`), and a huge length there can wrap
  (`WebSocket.WindowInside`, `WebSocket.WrapExample`).
- An answer goes to the first slot in use, which is the requester's exactly when no lower slot still is
  (`Slots.RequesterIsFirst`); a request that gets no answer leaves its slot in use. From a fresh table, one message
  without an answer is enough for a client to be answered only when another one asks
  (`Slots.AnswerForAnother`).

## Model

| member | source | states |
|---|---|---|
| Bytes.RegsRoundTrip | Core/Src/nanomodbus.c:70-84 | reading registers back from their big-endian bytes gives the registers |
| Bytes.BytesRoundTrip | Core/Src/nanomodbus.c:70-84 | writing back the registers read from an even number of bytes gives the bytes |
| Bitfield.Read | Core/Inc/nanomodbus.h:105 | bit b of the field, least significant bit of byte b/8 first |
| Bitfield.Write | Core/Inc/nanomodbus.h:120 | sets bit b to v and leaves all other bits of the array alone |
| Bitfield.Reset | Core/Inc/nanomodbus.h:124 | every bit is cleared |
| Crc.Calc | Core/Src/nanomodbus.c:279-296 | the loop computes the byte-swapped shift register of the message; Crc.AcceptedIffMultiple and Adu.FooterIffMultiple say which polynomial it divides by |
| Crc.RegisterAffine | Core/Src/nanomodbus.c:279-296 | for messages of equal length the exclusive or of the two registers is the register of the difference of the messages, so the checksum is affine |
| Crc.StepNonZero | Core/Src/nanomodbus.c:284-290 | one shift step never turns a non-zero register into zero |
| Crc.StepIsDivision | Core/Src/nanomodbus.c:284-290 | a shift step takes the polynomial 1 + X + X^14 + X^16 from an odd register and divides by X |
| Crc.RegisterIsDivision | Core/Src/nanomodbus.c:279-296 | the byte-wise loop equals 8*n shift steps on the message taken as one number |
| Crc.ZeroIffMultiple | Core/Src/nanomodbus.c:279-296 | n steps take a number to zero if and only if it is a carry-less multiple of that polynomial by one of n coefficients |
| Crc.BurstDetected | Core/Src/nanomodbus.c:279-296 | two different messages of equal length that differ only inside one window of 16 bits have different checksums, for every length and position |
| Crc.ResidueIsZero | Core/Src/nanomodbus.c:297-314 | the receiver's comparison succeeds exactly when the register over the message and the two appended bytes is zero |
| Crc.AcceptedIffMultiple | Core/Src/nanomodbus.c:297-314 | the receiver's comparison succeeds if and only if message and checksum, as one number with 0xFFFF folded in, are a multiple of that polynomial |
| Adu.FrameLength | Core/Src/nanomodbus.c:388-402 | the MBAP length field is the number of bytes behind it; transaction id, protocol id, unit and function code are in their places |
| Adu.FrameReceived | Core/Src/nanomodbus.c:317-385 | the frame of any PDU, followed by anything, is accepted by the header and carries that PDU, with a good checksum on RTU |
| Adu.FooterIffMultiple | Core/Src/nanomodbus.c:297-314 | an RTU message passes recv_msg_footer if and only if its frame is such a multiple |
| Adu.FrameIsMultiple | Core/Src/nanomodbus.c:417-428 | every RTU frame sent is such a multiple |
| NmbsCore.Nmbs.constructor | Core/Src/nanomodbus.c:227-248 | a fresh object with a 260-byte buffer and no transaction yet |
| NmbsCore.Nmbs.Get1 | Core/Src/nanomodbus.c:43-47 | the byte under the cursor, which advances by one |
| NmbsCore.Nmbs.Get2 | Core/Src/nanomodbus.c:70-75 | the big-endian word under the cursor, which advances by two |
| NmbsCore.Nmbs.GetRegs | Core/Src/nanomodbus.c:597-601 | the loop over get_2 returns the registers of the bytes it passes |
| NmbsCore.Nmbs.Put1 | Core/Src/nanomodbus.c:50-53 | one byte is appended at the cursor |
| NmbsCore.Nmbs.Put2 | Core/Src/nanomodbus.c:78-82 | a word is appended, high byte first |
| NmbsCore.Nmbs.PutRegs | Core/Src/nanomodbus.c:130-136 | the registers are appended in wire order |
| NmbsCore.Nmbs.PutN | Core/Src/nanomodbus.c:109-112 | the bytes are appended |
| NmbsCore.Nmbs.Recv | Core/Src/nanomodbus.c:147-166 | nothing happens to a complete message; otherwise the next bytes of the line land at the cursor, or the error says why not |
| NmbsCore.Nmbs.PlatformRead | Core/Inc/nanomodbus.h:135-152 | the documented contract of platform.read: count bytes, fewer, or a negative value |
| NmbsCore.Nmbs.Send | Core/Src/nanomodbus.c:169-183 | exactly the first count bytes of the buffer are written to the line |
| NmbsCore.Nmbs.Flush | Core/Src/nanomodbus.c:186-188 | at most a buffer full of waiting bytes is dropped |
| NmbsCore.Nmbs.MsgStateReset | Core/Src/nanomodbus.c:196-205 | cursor and message state are cleared |
| NmbsCore.Nmbs.MsgStateReq | Core/Src/nanomodbus.c:208-223 | the next transaction id is taken and the message state is that of a fresh request |
| NmbsCore.NextTid | Core/Src/nanomodbus.c:208-214 | the next id is never zero |
| NmbsCore.Nmbs.PutMsgHeader | Core/Src/nanomodbus.c:388-402 | the buffer up to the cursor is the header of the framing in use |
| NmbsCore.Nmbs.SetMsgHeaderSize | Core/Src/nanomodbus.c:407-412 | patching the length turns the header into the one for the real size and leaves all else alone |
| NmbsCore.Nmbs.SendMsg | Core/Src/nanomodbus.c:417-428 | the buffer is sent, with its checksum on RTU |
| NmbsCore.Nmbs.SendPdu | Core/Src/nanomodbus.c:417-428 | a buffer holding header and body of a PDU is sent as exactly the frame of that PDU |
| NmbsCore.Nmbs.SendExceptionMsg | Core/Src/nanomodbus.c:457-465 | the frame of the two-byte exception PDU is sent |
| NmbsCore.Nmbs.RecvMsgHeader | Core/Src/nanomodbus.c:317-385 | the result is HeaderError of the stream; on success ids, cursor and buffer are those of the message |
| NmbsCore.Nmbs.RecvMsgFooter | Core/Src/nanomodbus.c:297-314 | on RTU the two next bytes are compared with the checksum of the buffer up to the cursor; on TCP nothing is read |
| Store.Server.ReadHoldingRegisters | Core/Src/modbus_port.c:102-113 | the addressed registers in order, or the error of an address past the table |
| Store.Server.ReadInputRegisters | Core/Src/modbus_port.c:115-127 | the same for the input registers |
| Store.Server.WriteMultipleRegisters | Core/Src/modbus_port.c:156-167 | exactly the addressed registers change |
| Store.Server.WriteSingleRegister | Core/Src/modbus_port.c:151-154 | exactly one register changes |
| Store.Server.ReadCoils | Core/Src/modbus_port.c:88-100 | every addressed coil is stored at its own address in the bit field |
| Store.Server.WriteMultipleCoils | Core/Src/modbus_port.c:137-149 | exactly the addressed coils change, to the bits given |
| Store.Server.WriteSingleCoil | Core/Src/modbus_port.c:129-135 | exactly one coil changes |
| Responses.RecvResHeader | Core/Src/nanomodbus.c:469-512 | the result for every stream: wrong transaction, wrong unit, wrong function, or the exception sent |
| Responses.RecvReadDiscreteRes | Core/Src/nanomodbus.c:537-570 | the data bytes of the response, or the error, and the bytes consumed |
| Responses.RecvReadRegistersRes | Core/Src/nanomodbus.c:577-612 | the registers of the response, or the error, and the bytes consumed |
| Responses.RecvEchoRes | Core/Src/nanomodbus.c:616-722 | accepts exactly the echo of both words; Verdicts.ReceiveAnyEcho gives the verdict on every other response |
| Handlers.SendCallbackError | Core/Src/nanomodbus.c:925-930 | a callback's exception is passed on, any other error becomes exception 4 |
| Handlers.ServeReadDiscrete | Core/Src/nanomodbus.c:915-953 | the answer is that of ExecuteReadBits and the store is unchanged |
| Handlers.ServeReadRegisters | Core/Src/nanomodbus.c:980-1019 | the answer is that of ExecuteReadRegs, which DataAnswers pins to the bytes of the message, and the store is unchanged |
| Handlers.ServeWriteSingleCoil | Core/Src/nanomodbus.c:1074-1101 | answer and store are those of ExecuteWriteCoil |
| Handlers.ServeWriteSingleRegister | Core/Src/nanomodbus.c:1128-1151 | answer and store are those of ExecuteWriteReg |
| Handlers.ServeWriteMultipleCoils | Core/Src/nanomodbus.c:1191-1229 | answer and store are those of ExecuteWriteCoils |
| Handlers.ServeWriteMultipleRegisters | Core/Src/nanomodbus.c:1268-1306 | answer and store are those of ExecuteWriteRegs |
| Handlers.ServeReadWriteRegisters | Core/Src/nanomodbus.c:1570-1630 | answer and store are those of ExecuteReadWrite: the registers read are those after the write |
| Requests.HandleReadDiscrete | Core/Src/nanomodbus.c:900-960 | for every message: answered as parsed and executed, or, for another unit, its response is consumed and nothing sent |
| Requests.HandleReadRegisters | Core/Src/nanomodbus.c:965-1026 | the same for functions 3 and 4 |
| Requests.HandleWriteSingleCoil | Core/Src/nanomodbus.c:1059-1108 | the same for function 5 |
| Requests.HandleWriteSingleRegister | Core/Src/nanomodbus.c:1113-1158 | the same for function 6 |
| Requests.HandleWriteMultipleCoils | Core/Src/nanomodbus.c:1163-1235 | the same for function 15 |
| Requests.HandleWriteMultipleRegisters | Core/Src/nanomodbus.c:1240-1312 | the same for function 16, with an odd byte count leaving one byte behind |
| Requests.HandleReadWriteRegisters | Core/Src/nanomodbus.c:1534-1636 | the same for function 23 |
| DeviceId.CollectFits | Core/Src/nanomodbus.c:1722-1783 | the objects of a page never need more than the 246 bytes it has |
| DeviceHandler.PutObjects | Core/Src/nanomodbus.c:1751-1783 | the loop puts exactly the objects of Collect, with their count and size, or reports the callback's error |
| DeviceHandler.PatchCounters | Core/Src/nanomodbus.c:1785-1787 | the three counters are patched and every other byte stays |
| DeviceHandler.StreamObjects | Core/Src/nanomodbus.c:1715-1791 | one page frame is sent, or the exception that replaces it |
| DeviceHandler.SingleObject | Core/Src/nanomodbus.c:1687-1713 | one object is sent, or the exception that replaces it |
| DeviceHandler.ServeDeviceId | Core/Src/nanomodbus.c:1655-1793 | the answer is that of ExecuteDeviceId for every code and start id, which DeviceAccess describes |
| DeviceResponses.RecvObject | Core/Src/nanomodbus.c:864-892 | one turn of the object loop, for every message: the object at the cursor, or why it is refused |
| DeviceResponses.RecvObjects | Core/Src/nanomodbus.c:863-892 | the loop computes TakeObjects: the objects in order, and where they end, or the first error |
| DeviceResponses.RecvDeviceIdRes | Core/Src/nanomodbus.c:818-895 | the outcome is that of TakePage for every message, wanted or skipped; on RTU an accepted page leaves the line behind its checksum |
| DeviceResponses.PageTaken | Core/Src/nanomodbus.c:818-895 | a page built by the server, for which the client has room, is taken as its objects, its whole length, and the next id |
| Files.AcceptedFits | Core/Src/nanomodbus.c:1456-1481 | the 16-bit subtraction of the first pass cannot have wrapped in an accepted message |
| Files.EncodedIsAccepted | Core/Src/nanomodbus.c:1456-1512 | both passes walk an encoded list of valid records exactly as it was built |
| Files.AcceptedIsEncoded | Core/Src/nanomodbus.c:1456-1512 | whatever is accepted is the encoding of the records the second pass delivers |
| Files.AcceptedIffEncoded | Core/Src/nanomodbus.c:1456-1481 | a message is accepted if and only if its payload is a concatenation of one or more encoded valid records |
| Files.RunWritesInOrder | Core/Src/nanomodbus.c:1488-1512 | the calls made are a prefix of the records, and all of them exactly when every call succeeds |
| Files.ReadBlocksFit | Core/Src/nanomodbus.c:1389-1405 | the records fit into the buffer exactly when their sizes add up to no more than the room |
| Files.ReadFileAnswer | Core/Src/nanomodbus.c:1361-1416 | a valid read is answered exactly when its records take at most 251 bytes on TCP and 255 on RTU, and up to 251 bytes the answer is a well-formed frame with the records in order behind the right count |
| FileHandler.SwapTwice | Core/Src/nanomodbus.c:140-144 | swapping the same registers twice restores the buffer |
| FileHandler.SwapRegs | Core/Src/nanomodbus.c:140-144 | the loop swaps exactly the bytes of the given registers |
| FileHandler.CheckPass | Core/Src/nanomodbus.c:1456-1481 | the first pass computes Check and leaves the buffer alone |
| FileHandler.WritePass | Core/Src/nanomodbus.c:1485-1512 | the second pass makes the calls of RunWrites and, when all succeed, leaves the buffer as it was |
| FileHandler.ServeWriteFile | Core/Src/nanomodbus.c:1448-1524 | answer and calls are those of ExecuteWriteFile |
| FileHandler.GetSubReads | Core/Src/nanomodbus.c:1346-1353 | the sub-requests of the payload, and the eight-bit sum of their response sizes |
| FileHandler.PutBlocks | Core/Src/nanomodbus.c:1389-1405 | the records are appended in order, or the first failure is returned |
| FileHandler.ServeReadFile | Core/Src/nanomodbus.c:1361-1416 | the answer is that of ExecuteReadFile |
| FileResponses.RecvReadFileRecordRes | Core/Src/nanomodbus.c:725-763 | on both transports, wanted or skipped: the registers of the first record in host order or the exact error, with the checksum taken where that record ends, and the bytes left on the line |
| FileResponses.RecvWriteFileRecordRes | Core/Src/nanomodbus.c:766-816 | on both transports, wanted or skipped: accepts exactly a response that repeats place, length and registers, with the checksum taken where the record ends, and the bytes left on the line |
| Poll.HandleReadFile | Core/Src/nanomodbus.c:1316-1422 | the handler as a whole, for every message: answer and calls, or the skipped response of another unit, and what stays on the line |
| Poll.HandleWriteFile | Core/Src/nanomodbus.c:1426-1530 | the same for function 21 |
| Poll.HandleDeviceId | Core/Src/nanomodbus.c:1640-1799 | the same for function 43 |
| Poll.HandleReqFc | Core/Src/nanomodbus.c:1803-1886 | every function code is served by its handler; an unknown one is refused unless broadcast or for another unit; a served RTU request leaves the line right behind it, a skipped exchange as its response decodes |
| Poll.RecvReqHeader | Core/Src/nanomodbus.c:432-448 | the header's result, and on RTU whether the request is for everyone or for another unit |
| Poll.HandleAndFlush | Core/Src/nanomodbus.c:1936-1943 | the request is handled; after an unknown function code or an error other than a timeout all but 260 of the waiting bytes at most are gone |
| Poll.NmbsServerPoll | Core/Src/nanomodbus.c:1914-1946 | for every stream: result, frames sent, store and calls are those of Serve on the received message, and on RTU what stays on the line after a request that was served or skipped |
| Client.ReadDiscrete | Core/Src/nanomodbus.c:1960-1976 | valid arguments send one request frame with a fresh transaction id; others are rejected and nothing is sent |
| Client.ReadRegisters | Core/Src/nanomodbus.c:1992-2008 | the same for functions 3 and 4 |
| Client.WriteSingleCoil | Core/Src/nanomodbus.c:2025-2040 | the request carries 0xFF00 or 0 |
| Client.WriteSingleRegister | Core/Src/nanomodbus.c:2047-2060 | the request carries address and value |
| Client.WriteMultipleCoils | Core/Src/nanomodbus.c:2067-2094 | the request carries exactly the bytes that hold the coils |
| Client.WriteMultipleRegisters | Core/Src/nanomodbus.c:2101-2128 | the request carries the registers big-endian behind their byte count |
| Client.ReadWriteRegisters | Core/Src/nanomodbus.c:2200-2240 | the request carries both ranges and the registers |
| Client.ReadFileRecord | Core/Src/nanomodbus.c:2135-2158 | the request for one record, or the rejection of its place or length |
| Client.WriteFileRecord | Core/Src/nanomodbus.c:2165-2193 | the request with one record, or the rejection of its place or length |
| Client.RequestDeviceId | Core/Src/nanomodbus.c:2329-2337 | the request for the page from an object id |
| RoundTrips.RequestRoundTrip | Core/Src/nanomodbus.c:900-1636 | every data request that fits into a PDU is read by the server as the same request, over TCP and RTU |
| RoundTrips.LimitsAgree | Core/Src/nanomodbus.c:1960-2244 | whatever a typed register or coil call can send, the server raises no exception of its own: only the store decides, for function 23 after the write half, and function 2, which has no callback, is refused |
| RoundTrips.RegsReceived | Core/Src/nanomodbus.c:577-612 | the client reads the registers the server put into its response |
| RoundTrips.BitsReceived | Core/Src/nanomodbus.c:537-570 | the client reads the bits the server put into its response |
| RoundTrips.EchoReceived | Core/Src/nanomodbus.c:616-722 | the client accepts the server's echo |
| RoundTrips.ExceptionReceived | Core/Src/nanomodbus.c:469-512 | the client reports the exception the server sent |
| Verdicts.ReceiveAnyEcho | Core/Src/nanomodbus.c:616-722 | on any write acknowledgement, the call succeeds if and only if transaction or unit, function code and both words are the request's; otherwise the error says which was not |
| Verdicts.ReceiveAnyRegisters | Core/Src/nanomodbus.c:577-612 | on any response with registers, the call succeeds if and only if the ids, the function code and the number of registers are the request's |
| Verdicts.ReceiveAnyBits | Core/Src/nanomodbus.c:537-570 | on any response with bits: the same, except that any number of bytes up to 250 is accepted |
| Verdicts.HeaderJudged | Core/Src/nanomodbus.c:469-512 | the verdict on ids, function code and exception code of every response |
| Verdicts.WriteJudged | Core/Src/nanomodbus.c:766-816 | a file write is acknowledged if and only if the response names the same record with the same registers |
| Verdicts.ReadJudged | Core/Src/nanomodbus.c:725-763 | a record is taken if and only if its reference type is 6 and its size the one asked for |
| Verdicts.PageHeadJudged | Core/Src/nanomodbus.c:827-862 | a page with other fixed bytes, too many objects or an object that leaves it is refused |
| Verdicts.PageStored | Core/Src/nanomodbus.c:818-894 | a page is stored as sent if and only if the caller has enough buffers and each string with its terminator fits one; otherwise it is an argument error or written past the buffer; the next page is the one named, or 127 for none |
| EndToEnd.FaultIffAcross | Core/Src/modbus_port.c:88-167 | an accepted call meets undefined behaviour exactly when one of its ranges crosses the end of its table |
| EndToEnd.Deliver | Core/Src/nanomodbus.c:1914-1946 | a pending request reaches the server, is served once, and the answer is all the client finds on the line |
| EndToEnd.CallReadBits | Core/Src/nanomodbus.c:1960-1989 | nmbs_read_coils returns the bytes CoilReads describes, nmbs_read_discrete_inputs exception 1 |
| EndToEnd.CallRead | Core/Src/nanomodbus.c:1992-2022 | nmbs_read_holding_registers and nmbs_read_input_registers equal a slice of a plain array |
| EndToEnd.CallWriteOne | Core/Src/nanomodbus.c:2047-2064 | nmbs_write_single_register equals one array update |
| EndToEnd.CallWriteMany | Core/Src/nanomodbus.c:2101-2131 | nmbs_write_multiple_registers equals the update of a range, and no other register changes |
| EndToEnd.CallReadWrite | Core/Src/nanomodbus.c:2200-2244 | nmbs_read_write_registers equals the update of one range followed by the read of another |
| EndToEnd.CallSetCoil | Core/Src/nanomodbus.c:2025-2044 | nmbs_write_single_coil equals one update of an array of bits |
| EndToEnd.CallSetCoils | Core/Src/nanomodbus.c:2067-2098 | nmbs_write_multiple_coils equals the update of a range of bits |
| EndToEnd.Run | Core/Src/nanomodbus.c:1960-2244 | every finite sequence of calls, over TCP or RTU, returns the results and leaves the store of the same sequence on plain arrays |
| DevicePages.PageIsPrefix | Core/Src/nanomodbus.c:1751-1783 | a page is a beginning of what is left; if more follows, it is not empty and the next page starts at a larger id with the rest |
| DevicePages.ReadPage | Core/Src/nanomodbus.c:2329-2346 | one turn of the client's loop receives exactly the server's page |
| DevicePages.ReadExtended | Core/Src/nanomodbus.c:2319-2352 | for any map and strings the client's loop terminates and returns every mapped id from the start on, once, ascending, with its string |
| DevicePages.PageFrameSize | Core/Src/nanomodbus.c:1722-1791 | a page frame never exceeds 260 bytes and reaches 260 exactly when its objects use all their room |
| FileCalls.WriteListServed | Core/Src/nanomodbus.c:1426-1530 | a request for any list of valid records is executed as that list, in order, each once, up to the first failure, and if none fails the response is byte for byte the request |
| FileCalls.NoCallsUnlessValid | Core/Src/nanomodbus.c:1448-1512 | no callback runs unless the whole payload is a list of valid records |
| FileCalls.CallWriteFile | Core/Src/nanomodbus.c:2165-2196 | nmbs_write_file_record over TCP and RTU: the record reaches the callback once and the caller gets its verdict |
| FileCalls.CallReadFile | Core/Src/nanomodbus.c:2135-2162 | nmbs_read_file_record over TCP and RTU: the caller gets the registers the callback delivers, or its verdict |
| FileCalls.FileLimitsAgree | Core/Src/nanomodbus.c:2135-2196 | the same for the two file calls, on both transports: the callback decides, and without one exception 1 is the answer |
| Guarantees.AddressedAnswered | Core/Src/nanomodbus.c:1803-1886 | an addressed request of any function code is answered by one well-formed frame when its handler reports no error and by none otherwise |
| Answerable.CompleteTaken | Core/Src/nanomodbus.c:1163-1560 | a complete message is read to its end if and only if no byte-count guard fires |
| Answerable.ParsedIffTaken | Core/Src/nanomodbus.c:900-1560 | the handlers of the data functions read a message to its end if and only if it is complete, its byte count is within the limit and its checksum is right |
| Answerable.ExecutedIffDefined | Core/Src/modbus_port.c:88-167 | serving a request ends without undefined behaviour if and only if no range it takes to a callback leaves its table |
| Answerable.TooLongIff | Core/Src/nanomodbus.c:1389-1405 | the record loop leaves the buffer if and only if the records up to some one do not fit and all before it are delivered |
| Answerable.StuckIff | Core/Src/nanomodbus.c:1456-1481 | the first pass over a write message leaves the buffer if and only if good sub-requests lead it there |
| Answerable.ServedIff | Core/Src/nanomodbus.c:1803-1886 | a handler of any function code returns without error if and only if the received message is one that IsAnswered names |
| Guarantees.AtMostOneWrite | Core/Src/nanomodbus.c:1914-1946 | whatever the stream holds, one poll writes at most one frame |
| Guarantees.OneResponse | Core/Src/nanomodbus.c:1914-1946 | after every poll an addressed request has been answered by exactly one frame with its transaction id, unit and function code, plain or as an exception, if IsAnswered holds of the received message, and by none otherwise |
| Guarantees.PollAnswersOnce | Core/Src/nanomodbus.c:1914-1946 | nmbs_server_poll itself, from any state and on any stream: the same, and at most one frame in all |
| Guarantees.ServedUnits | Core/Src/nanomodbus.c:431-448 | on RTU exactly the messages to unit 0, as broadcasts, and to the own address have an effect, on TCP every one |
| Guarantees.LargestCoilsDropped | Core/Src/nanomodbus.c:1174-1175 | the frame of a 253-byte function 15 request passes every header and checksum test, is dropped and gets no answer |
| Guarantees.HeaderRefused | Core/Src/nanomodbus.c:317-385 | by the bytes of the header: a wrong length or a protocol id other than 0 is refused, a short message times out, an empty line is no error; nothing is sent or changed |
| DataAnswers.RefusedIff | Core/Src/nanomodbus.c:900-1636 | a data message read to its end is refused with exception 1, 2 or 3 if and only if Refusal says so of its bytes, broadcast or not, and the store stays as it was |
| DataAnswers.ServedAs | Core/Src/nanomodbus.c:900-1636 | otherwise: exception 4 where the range starts behind its table, and inside the table the response byte by byte and every coil and register of the store afterwards |
| DataAnswers.UnknownServed | Core/Src/nanomodbus.c:1879-1882 | a function code the server does not have is refused with exception 1, whatever follows it, and a broadcast of one is dropped |
| DataAnswers.BroadcastAnswered | Core/Src/nanomodbus.c:915-935 | a broadcast is answered if and only if it is refused or its range starts behind the table |
| FileAnswers.ReadServed | Core/Src/nanomodbus.c:1361-1416 | a read received to its end is refused with 3, 2 or 1 as its bytes say, answered with the first callback's error, or with every record in its place |
| FileAnswers.VerdictIff | Core/Src/nanomodbus.c:1456-1481 | the first pass over a write refuses, accepts or leaves the buffer if and only if the walk over its sub-requests ends that way |
| FileAnswers.WalkRecords | Core/Src/nanomodbus.c:1488-1512 | the callbacks get the records named at the places of the walk, word by word |
| FileAnswers.WriteServed | Core/Src/nanomodbus.c:1448-1524 | a write received to its end is refused with 3, 2 or 1 before any callback, or its records are handed over in order up to the first that fails, whose error is the answer |
| DeviceAccess.MappedIsComplete | Core/Src/nanomodbus.c:1751-1756 | the reference list of a range holds exactly the mapped ids in it, each with its string |
| DeviceAccess.PageOutcome | Core/Src/nanomodbus.c:1751-1783 | the object loop stops at the first missing object its room reaches, and otherwise gives the longest page of the range that fits |
| DeviceAccess.RefusedAccess | Core/Src/nanomodbus.c:1655-1666 | no callbacks or another interface: exception 1; access code outside 1 to 4: 3; start id 7 to 127: 2 |
| DeviceAccess.StreamAccess | Core/Src/nanomodbus.c:1715-1791 | basic access gives the ids up to 2, regular 3 to 7, extended 0x80 to 0xFF, as the longest page, byte by byte; an absent id below 3 is exception 4, a start outside the range 2 |
| DeviceAccess.SingleAccess | Core/Src/nanomodbus.c:1687-1713 | access to one object gives exactly that object with its string, or exception 2 if it is absent, or the callback's |
| DeviceAccess.NoMap | Core/Src/nanomodbus.c:1672-1680 | a map that cannot be had is answered with that error |
| DeviceAccess.BroadcastAccess | Core/Src/nanomodbus.c:1668-1668 | a broadcast that is not refused is not answered |
| Bystander.InSyncIff | Core/Src/nanomodbus.c:900-1799 | a poll that finds another unit's request and response of any function sends nothing and changes nothing; it ends without error at the next frame if and only if the exchange is not of function 23, not refused, and its checksum agrees with that of its first record |
| Bystander.LosesSync | Core/Src/nanomodbus.c:1632 | after a function 23 request the bystander never ends its poll without error at the next frame |
| Bystander.EchoExpected | Core/Src/nanomodbus.c:616-722 | after another unit's write request the bystander accepts exactly a response that repeats bytes 2 to 5 of the request, bytes 6 to 9 for function 23, with its checksum |
| Bystander.FileResponseSkipped | Core/Src/nanomodbus.c:725-816 | a file response to another unit is accepted if and only if the checksum of its first record is that of the whole |
| Bystander.OneRecordKeepsSync | Core/Src/nanomodbus.c:725-816 | a response of one record keeps the bystander in step |
| Bystander.PollAtExchange | Core/Src/nanomodbus.c:1914-1946 | nmbs_server_poll itself, on a line with another unit's exchange and anything behind it |
| SharedLine.Run | Core/Src/nanomodbus.c:1914-1946 | any sequence of other units' exchanges and requests to this server is taken from the line message by message, one poll each; store and frames sent are those of the own requests alone |
| SharedLine.EachAnswered | Core/Src/nanomodbus.c:1914-1946 | in such a run each own request is answered by one frame, in order, with its unit and function code, and nothing else is sent |
| Transactions.TidClosedForm | Core/Src/nanomodbus.c:208-214 | the ids of a run cycle through 1 to 65535 and are never zero |
| Transactions.TidsCollide | Core/Src/nanomodbus.c:208-214 | two requests share an id if and only if their distance is a multiple of 65535 |
| Transactions.StaleResponse | Core/Src/nanomodbus.c:469-482 | a response to an earlier request is refused unless that request is a multiple of 65535 requests back |
| CoilReads.CoilBytesAreSent | Core/Src/nanomodbus.c:932-947 | the bytes the following rows speak about are those of the response |
| CoilReads.CoilBits | Core/Src/modbus_port.c:88-100 | bit k of a read response is coil k if coil k was asked for, and zero otherwise |
| CoilReads.AlignedIffAtZero | Core/Src/modbus_port.c:96 | the standard's bit layout holds for every store if and only if the read starts at address 0 |
| CoilReads.WriteThenCoil | Core/Src/modbus_port.c:137-149 | a write changes exactly the addressed coils |
| CoilReads.WriteReadAtZero | Core/Src/modbus_port.c:88-149 | coils written from address 0 read back as written, with zero padding |
| Slots.Table.constructor | Core/Src/freertos.c:724-731 | every slot is free, unmarked and cleared |
| Slots.Table.ReadSocket | Core/Src/modbus_port.c:169-188 | count bytes of the first marked slot's data from the cursor on, as far as client_data reaches, or zero bytes if none is marked |
| Slots.Table.WriteSocket | Core/Src/modbus_port.c:190-207 | the frame goes to the first marked slot's socket and only that mark is removed |
| Slots.Table.Accept | Core/Src/freertos.c:780-804 | a connection gets the first free slot, or none if all are taken |
| Slots.Table.RecvMsgHeader | Core/Src/nanomodbus.c:343-381 | over read_socket the three reads at cursor 0, 1 and 8 put together the slot's data, for every length field: the header is read as from a stream, or undefined behaviour is reached where the frame is longer than client_data |
| Slots.Table.ServerPoll | Core/Src/nanomodbus.c:1914-1946 | nmbs_server_poll over read_socket does what the message in the first marked slot is served with |
| Slots.RequesterIsFirst | Core/Src/modbus_port.c:174-186 | the first marked slot is the one just marked if and only if no lower slot was marked |
| Slots.Table.Turn | Core/Src/freertos.c:807-823 | a readable slot is closed, or marked and the server polled over read_socket; one frame goes to the first marked slot's socket, answers its data and unmarks it, if and only if that data is answered |
| Slots.Table.Run | Core/Src/freertos.c:746-825 | in every run at most as many frames are sent as requests came in, and if as many, the i-th went to the socket of the i-th request and answers its transaction id, unit and function code, exactly one slot was marked at each poll, and none is left |
| Slots.AnswerForAnother | Core/Src/freertos.c:746-825 | from a fresh table with three clients: a message without an answer, then requests of the second, first and third client; the second is answered when the third asks, and the third not at all |
| WebSocket.CreateWsFrame | Core/Src/freertos.c:921-955 | -1 and an untouched buffer when it is too small, otherwise exactly the frame bytes with the shortest length form, inside the buffer |
| WebSocket.HeadIsShortest | Core/Src/freertos.c:928-951 | no header of an unmasked frame states a length in fewer bytes than the printed one |
| WebSocket.UpperHalfParsed | Core/Src/freertos.c:896-904 | a 64-bit length is read from its upper half, whatever the lower half holds |
| WebSocket.ParseWsFrame | Core/Src/freertos.c:875-918 | the return value for every input, and every field of an accepted frame |
| WebSocket.WindowInside | Core/Src/freertos.c:913-917 | the payload of an accepted frame lies inside the data if and only if the 64-bit sum does not wrap |
| WebSocket.WrapExample | Core/Src/freertos.c:894-917 | a ten-byte input that is accepted with an end before its payload |
| WebSocket.BoundaryStable | Core/Src/freertos.c:875-918 | a frame is recognised from its last byte on, never earlier, and later bytes do not change it |
| WebSocket.FrameRoundTrip | Core/Src/freertos.c:875-955 | parsing a printed frame gives the message back if and only if its payload has at most 65535 bytes; a longer one reads as empty |
| WebSocket.ClientFrameParsed | Core/Src/freertos.c:875-918 | a masked frame of a client is parsed to its own length, key and payload window if and only if the payload has at most 65535 bytes |
| WebSocket.ParseClientFrame | Core/Src/freertos.c:875-918 | parse_ws_frame itself on such a frame, with anything behind it: fin, opcode, mask, key and payload |
| WebSocket.StreamRoundTrip | Core/Src/freertos.c:875-955 | a concatenation of frames decodes to the messages it was made from |
| RxChain.RxLink | LWIP/Target/ethernetif.c:849-881 | the buffer becomes the end of the chain, the chain stays acyclic and in order, and every total is the sum of its own and all following lengths |
| RxChain.AddToAll | LWIP/Target/ethernetif.c:876-881 | the loop adds the length to every total and touches nothing else |
| RxChain.ExactTotals | LWIP/Target/ethernetif.c:876-881 | below 65536 bytes the 16-bit totals are exact |
| RxChain.RxPacket | LWIP/Target/ethernetif.c:849-881 | any sequence of callbacks with distinct buffers builds one acyclic chain in arrival order with the right totals |
| Mpu.ClearLowAligned | Drivers/CMSIS/Include/mpu_armv8.h:292-293 | clearing the low bits rounds down to a multiple of the window, in step with the remainder |
| Mpu.ClearLowBits | Drivers/CMSIS/Include/mpu_armv8.h:292 | bit by bit it is the mask of the code |
| Mpu.MpuRegs.SetRegionEx | Drivers/CMSIS/Include/mpu_armv8.h:236-241 | exactly one region is set |
| Mpu.MpuRegs.OrderedCpy | Drivers/CMSIS/Include/mpu_armv8.h:270-277 | the words of the table land in consecutive regions of the window, which is never left |
| Mpu.MpuRegs.LoadEx | Drivers/CMSIS/Include/mpu_armv8.h:285-308 | for every start, count and power-of-two window the regions end up as the table says, and no others change |
| Mpu.MpuRegs.LoadEach | Drivers/CMSIS/Include/mpu_armv8.h:236-241 | setting one region after another has the same effect |

## Left out

- Undefined behaviour of the C code is not modelled past its first point; it ends in `Fault`. It is reached by an MBAP length of 255, an RTU function 16 request with a byte count above 253, ranges that cross the end of a table or of the 250-byte bit field, a unit other than the server's id (or an RTU broadcast) in a callback, file responses larger than the buffer, a write-file walk past the buffer, a device identification string or id past the caller's buffers, and an MBAP length of 251 to 255 in a client slot.
- The line works or is down for a whole call; a write is never cut short, and timeouts are not clocked.
- EndToEnd.Deliver: assumes that nothing but the two frames is on the line between client and server.
- The host is little-endian, and the `uint16_t` pointers into the message buffer are taken to be usable there.
- Bit operations (exclusive or, shifts, masks) are written as arithmetic on naturals.
- The four functions that decode a write echo differ only in names and are one method, `Responses.RecvEchoRes`.
- nmbs_bitfield_set and nmbs_bitfield_unset, which only nmbs_bitfield_write resembles here.
- NmbsCore.Nmbs.constructor: the argument checks of nmbs_create are not modelled.
- NmbsCore.Nmbs.Send: a write that the platform cuts short is not modelled; the line takes a frame whole or is down.
- FileResponses.RecvReadFileRecordRes: a record of odd size, which is copied one byte past the caller's registers, ends in `Fault`.
- Bystander.InSyncIff: exchanges whose request the other unit answers with something malformed, or not at all, are covered by `Poll.Polled` only.
- SharedLine.Run: own requests are those of the data functions; a broadcast names unit 0, for which the callbacks have no server.
- Guarantees.OneResponse: callbacks for files and device identification return values of the C error type.
- Basic and regular device-identification reads of the client, and nmbs_read_device_identification.
- DeviceResponses.RecvDeviceIdRes: strncpy is taken to read only the object's bytes. When the last string ends at byte 260 and the caller's buffers are longer, C's strncpy reads on behind `msg.buf`; this one read past the buffer is not `Fault` here, because what it reads is overwritten by the terminator.
- Slots.Table.Turn: what flush reads over the slot's data is not followed, because it is never looked at.
- recv on a socket is an input of up to 20 bytes; select, accept, close and sendto are not modelled beyond their effect on the slots.
- The masking key of a WebSocket frame is copied but never applied by the parser, so unmasking (section 5.3 of RFC 6455) is not claimed.
- WebSocket.ParseWsFrame: the fields written before an input is rejected are not stated.
- Mpu.MpuRegs.LoadEx: region numbers are unbounded, so a wrap of the 32-bit row number is outside the model.
- Raw PDU calls, nmbs_strerror, debug output, creation functions other than the constructor.
- HTTP serving, the WebSocket thread and its broadcast, SHA-1 and base64 of the handshake, sockets, tasks and queues, and all hardware, clock, interrupt and driver code other than the two functions named above.
