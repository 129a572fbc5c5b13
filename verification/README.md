# Verification of the tracing framework

A Dafny model of the tracing framework, with proofs of what its parts promise. A user sets,
for a session, which id of which service to trace; the server sends that configuration to
the clients, stores the log lines they upload, and delivers them to the session. Verify it
with `dafny verify dfyconfig.toml`.

Each part has an imperative model with the fields, loops and branches of the code, proved
against functions on values, and theorems about those functions over all inputs and runs.

| file | part | main results |
|---|---|---|
| `Wire.dfy` | varints, tags, records and groups of the Protocol Buffers encoding (sections "Base 128 Varints" and "Message Structure" of its guide) and the laws of record-by-record parsers | `ParseEncoded`, `ParseConcat`, `ParseIsFold` |
| `CfgInfoCodec.dfy` | the message `CfgInfoReq` | `RoundTrip`, `ConcatenationIsMerge`, `LastOneWins`, `DecodeIsMergeUnlessDefaultSent`, `SizeAgrees` |
| `LogRespCodec.dfy` | `LogText` nested in `GetLogResp` | `RoundTrip`, `ConcatenationIsMerge`, `LastOneWins`, `ParseMoreTexts`, `ParseMoreNested`, `SizeAgrees` |
| `NetBuffer.dfy` | the network buffer | `Buffer.Run`, `RunPair`, `SpaceBound`, `MakeSpaceBounds`, `NetworkOrder` |
| `Framing.dfy` | stream framing in the Python client, for any handlers | `RunTracks`, `NeverWaitsIff`, `HandledInFullIff` |
| `PythonClient.dfy` | the socket and the handlers of the Python client | `ClearRaisesIff`, `ReconfiguredCannotBeCleared`, `MySocket.MyReceive` |
| `LogDelivery.dfy` | the server's sessions: configuration, storing, fair delivery | `ExactlyOnce`, `ReplyIsFair`, `Drained`, `StoredByAllIff`, `MissedIff`, `StarvedIff`, `DeliveredOverTheWire` |
| `TraceClient.dfy` | the C++ client's configuration list and upload decision | `ListIsLatest`, `UploadsExactly`, `ConfiguredOverTheWire` |
| `CgiUtils.dfy` | searching, percent coding | `DecodeUndoesEncode`, `EncodeUndoesDecodeIff` |
| `Urlencoded.dfy`, `Multipart.dfy`, `Cookies.dfy` | the three grammars of a request, with the printers that the code does not have | `ScanIsLossless`, `FormRoundTrip`, `MultipartRoundTripIff`, `CookieRoundTripIff` |
| `Cgicc.dfy` | the request parser that uses them | `MultipartInputIff`, `FormInput`, `ReadRequest` |
| `FormText.dfy` | line breaks of a form entry | `MakeStringIs`, `MakeStringIsStable` |
| `SavedStream.dfy` | strings and numbers saved to a stream | `ReadAllUndoesWriteAll` |

Where the code does not do what one would expect, the exact condition is proved:

- A field sent explicitly with its default value clears the field when it is parsed, but is
  kept by a merge (`ExplicitZeroIsNotMerge`); `DecodeIsMergeUnlessDefaultSent` and, for
  replies, `DecodeIsMergeIff` say exactly when parsing on top and merging agree. The
  framework's own writer never sends a default.
- Each wake-up of the Python client dispatches at most one frame and reads at most 10 bytes.
  A complete frame can be left waiting for the next read exactly when some frame behind the
  first is shorter than 10 bytes or some message's handling raises (`NeverWaitsIff`; two
  heartbeats without a body do, `ShortHeartbeatsWait`). A stream that has arrived in full
  can stay unhandled exactly when some tail of it behind the first frame has frames shorter
  than 10 bytes on average, or a message's handling raises (`HandledInFullIff`).
- The Python client deletes from its list while it counts over the list's first length:
  clearing a session raises exactly when an entry other than the last is of that session
  (`ClearRaisesIff`). Configuring a session twice makes it impossible to clear
  (`ReconfiguredCannotBeCleared`). A clear message that does not parse raises as well
  (`MalformedClearWaits`).
- The break in the loop that stores a line ends the loop over all configurations. A line is
  stored by every configuration that wants it exactly when each of them has room
  (`StoredByAllIff`); one with room misses it exactly when one in front of it wants it and
  has none (`MissedIff`; `LineLost` is an instance). A line that matches a configuration by
  address and by name is stored twice.
- With more configurations than `MaxGetLogs`, nothing is ever delivered (`StarvedIff`).
- A session that has logged in and asks for logs before it has configured anything makes the
  server divide by zero; a run avoids that exactly when no request for logs comes before the
  first configuration (`LegalRunIff`).
- A saved string with a length beyond 2^63 - 1 makes reading throw before anything behind
  the length is read, and leaves the stream good (`TooLongThrows`).
- A multipart boundary of hyphens only is not read correctly: the separator is then also
  found inside the closing separator (`MultipartRoundTripIff`).

Where code and comments disagree, the model follows the code:

- async_cgi/muduo/Buffer.h:249 asks for 4 readable bytes before a 64-bit read; the assertion
  at line 288 asks for 8.
- common/trace_typedef.h:39 calls the address of a configuration reserved and unused; the
  server matches configurations by it (trace_server/AsyncCommThread.cpp:351 and 420).
- async_cgi/cgicc_lib/Cgicc.cpp:383 says that what follows the last separator is an item; it
  is read only if the closing separator follows (`UnclosedLosesLast`).

Strings of bytes are `seq<byte>` on the wire and `string` with characters below 256 in the
form parser. What sockets deliver or accept (`recv`, `send`, `readv`) is a parameter.
Assertions in the buffer and the debug check that a message is not merged into itself are
preconditions; so is a non-empty list of configurations when logs are requested, since the
server divides by their number. A session that does not exist is not part of this model.

The server's side of storing and configuring is in trace_server/AsyncCommThread.cpp:

- `SessionInfo.SetConfig` (lines 347-372): erases the configurations of the same address or
  name, keeps the others in order, and appends the new one. `SetConfigIs` says which stay
  and what the new one holds, `NewCfgMatches` which lines it wants, and `RunOnePerName` that
  over any run no two configurations have the same name or the same address, but for none.
- `SessionInfo.SaveLog` with `SaveInto` and `PushTo` (lines 417-463): the loop with its two
  pushes and its breaks leaves the configurations that `Save` prescribes. `StopIff`
  says exactly when a configuration breaks the loop and how often it stores the line,
  `SaveReaches` and `LineStored` what each configuration holds afterwards, `StoredByAllIff`,
  `MissedIff` and `LineLost` when a line is lost. `StoredText` and `StoredTells` (line 438)
  say that a stored line ends with the text, and tells service and address if neither holds
  a space.
- `SessionInfo.GetLog` (lines 466-504): the bytes sent are the encoding of the fair reply,
  and the indices move past what it holds.

## Model

| member | source | states |
|---|---|---|
| `Wire.VarintSizeIsExact` | common/trace.pb.cc:1578-1583 | the size by magnitude that the size computation adds for an integer is the number of bytes its varint takes, for every 64-bit number |
| `Wire.VarintBytes` | common/trace.pb.cc:1480-1484 | byte i of a varint is the i-th group of seven bits from the least significant on, with the top bit set on all bytes but the last |
| `Wire.ReadVarintIs` | common/trace.pb.cc:1390-1395 | what is read of any bytes: the groups up to the first byte without its top bit, needless bytes included, and nothing beyond the limit |
| `Wire.ReadersAre` | common/trace.pb.cc:1376-1393 | the tag, integer and length readers on any bytes: how long the varint may be, to what width it is cut, which lengths are refused, and which bytes the payload is |
| `Wire.NarrowUndoesWiden` | common/trace.pb.cc:1390-1402 | a negative int32 written as ten bytes, or an int64, comes back as itself when the 64-bit varint is cut to the field's width |
| `Wire.WidthsAreModular` | common/trace.pb.cc:1390-1402 | widening and narrowing any number changes it by a multiple of the width only |
| `Wire.Utf8IffScalars` | common/trace.pb.cc:1385-1385 | a byte string passes the UTF-8 check if and only if it is the encoding of some Unicode scalar values: nothing beyond U+10FFFF, no surrogate, no overlong form |
| `Wire.ReadUndoesWrite` | common/trace.pb.cc:1390-1395 | any varint is read back as the number written, whatever bytes follow, consuming exactly its own bytes |
| `Wire.ReadUndoesEncode` | common/trace.pb.cc:1380-1395 | any record the writer can emit is read back as that record, whatever follows, consuming exactly its own bytes |
| `Wire.ItemIsRead` | common/trace.pb.cc:1445-1453 | every field is read whole, whatever its number and wire type and whatever follows, nested groups included: integers and byte strings with their value, others as something to skip |
| `Wire.SkipItems` | common/trace.pb.cc:1445-1453 | for any message type, fields that leave the message as it is can stand in front of anything |
| `Wire.BadTagFails` | common/trace.pb.cc:1445-1453 | wire types that do not exist, an end of group, and the field number zero fail |
| `Wire.GroupMustMatch` | common/trace.pb.cc:1445-1453 | a group closed by another number fails |
| `Wire.ParseEncoded` | common/trace.pb.cc:1373-1462 | for any message type, parsing encoded records is applying them in order and then parsing what follows |
| `Wire.ParseIsFold` | common/trace.pb.cc:1373-1462 | for any message type and any input: reading and applying records by turns is reading them all first and then applying them; malformed input fails |
| `Wire.ParseConcat` | common/trace.pb.cc:1373-1462 | for any message type and any well-formed input, parsing a concatenation continues from the message the first part gave, unknown fields and groups included |
| `Wire.FoldAppend` | common/trace.pb.cc:1373-1462 | applying two lists of records one after the other is applying their concatenation |
| `Wire.WriteStringField` | common/trace.pb.cc:1470-1478 | writes the field and its length behind what is there, and nothing at all when the string is empty |
| `Wire.WriteIntField` | common/trace.pb.cc:1480-1484 | writes the sign-extended number behind what is there, and nothing at all when it is zero |
| `CfgInfoCodec.FoldOfRecords` | common/trace.pb.cc:1464-1540 | applying the records the writer emits for b to a message a gives the merge of b into a, and fails exactly when a string of b is not UTF-8 |
| `CfgInfoCodec.EncodeLayout` | common/trace.pb.cc:1464-1540 | the bytes of any message: each field behind its literal tag, in field order, and nothing for a default |
| `CfgInfoCodec.UnknownIsSkipped` | common/trace.pb.cc:1445-1453 | fields with another number, or a known number with another wire type, groups included, make no difference wherever they stand in front |
| `CfgInfoCodec.DecodeMerges` | common/trace.pb.cc:1373-1462 | parsing an encoded message on top of another one merges them and goes on with whatever follows |
| `CfgInfoCodec.RoundTrip` | common/trace.pb.cc:1373-1540 | parsing the serialized message gives it back if and only if its four strings are UTF-8; otherwise parsing fails |
| `CfgInfoCodec.ConcatenationIsMerge` | common/trace.pb.cc:1630-1665 | the concatenation of two serialized messages parses to the second merged into the first |
| `CfgInfoCodec.LastOneWins` | common/trace.pb.cc:1373-1462 | for any input and any message parsed into: parsing fails exactly when the input is malformed or has a string that is not UTF-8; otherwise each field is the value of the last record of its number and wire type, narrowed to its width, or unchanged if there is none |
| `CfgInfoCodec.DecodedIsUtf8` | common/trace.pb.cc:1380-1388 | whatever was parsed has UTF-8 strings only, so it can be sent on |
| `CfgInfoCodec.DecodeIsMergeUnlessDefaultSent` | common/trace.pb.cc:1630-1665 | parsing an input on top of a message equals parsing it alone and merging, for every message, if and only if for no field the last value on the wire is the default |
| `CfgInfoCodec.ExplicitZeroIsNotMerge` | common/trace.pb.cc:1390-1395 | an explicit zero for p1 clears it when parsed on top, while a merge would keep it |
| `CfgInfoCodec.SizeAgrees` | common/trace.pb.cc:1542-1613 | the computed size, added in another order than fields are written, is the exact length of the encoding (or both are 2 GiB and more) |
| `CfgInfoCodec.CfgInfoReq.constructor` | common/trace.pb.cc:1325-1334 | a new message has every field at its default |
| `CfgInfoCodec.CfgInfoReq.Clear` | common/trace.pb.cc:1357-1371 | every field is back at its default |
| `CfgInfoCodec.CfgInfoReq.InternalParse` | common/trace.pb.cc:1373-1462 | the loop succeeds exactly when the specification does, and then leaves the message it prescribes, starting from any message |
| `CfgInfoCodec.CfgInfoReq.ParseTagged` | common/trace.pb.cc:1373-1382 | one turn of the loop: the rest of the input means the same for the new message as the whole did for the old one |
| `CfgInfoCodec.CfgInfoReq.ParseField` | common/trace.pb.cc:1379-1455 | the switch on the tag does to the message what the record on the wire prescribes, and consumes exactly that record; a known number with another wire type is skipped |
| `CfgInfoCodec.CfgInfoReq.ParseString` | common/trace.pb.cc:1380-1388 | one string case: stores the payload in the field of that tag, or fails on a bad length or text that is not UTF-8 |
| `CfgInfoCodec.CfgInfoReq.ParseScalar` | common/trace.pb.cc:1389-1402 | one integer case: stores the number, cut to the field's width, in the field of that tag |
| `CfgInfoCodec.CfgInfoReq.ParseFromString` | trace_client/cpp/tracelog.cpp:21-28 | parses into a cleared message; success and result are those of the specification |
| `CfgInfoCodec.CfgInfoReq.InternalSerialize` | common/trace.pb.cc:1464-1540 | appends to what is there exactly the encoding of the message |
| `CfgInfoCodec.CfgInfoReq.SerializeLast` | common/trace.pb.cc:1502-1532 | appends the encoding of fields 5 to 8 |
| `CfgInfoCodec.CfgInfoReq.ByteSizeLong` | common/trace.pb.cc:1542-1613 | returns the length of the encoding (or both are 2 GiB and more) |
| `CfgInfoCodec.CfgInfoReq.SerializeToString` | common/trace.pb.cc:1464-1613 | gives the encoding, and refuses exactly the messages of 2 GiB and more |
| `CfgInfoCodec.CfgInfoReq.MergeFrom` | common/trace.pb.cc:1644-1672 | each field is taken from the other message if it is not the default there, and kept otherwise |
| `CfgInfoCodec.CfgInfoReq.MergeStrings` | common/trace.pb.cc:1650-1665 | the same for the four strings; the numbers stay |
| `CfgInfoCodec.CfgInfoReq.CopyFrom` | common/trace.pb.cc:1674-1679 | becomes equal to the other message, also when that is itself |
| `LogRespCodec.DecodeTextMerges` | common/trace.pb.cc:3070-3171 | parsing an encoded LogText on top of another one merges them: texts are appended, strings replaced when not empty |
| `LogRespCodec.TextRoundTrip` | common/trace.pb.cc:3070-3171 | a LogText with any number of texts, empty ones included, is parsed back as it was, or fails when a string is not UTF-8 |
| `LogRespCodec.TextLayout` | common/trace.pb.cc:3129-3171 | the bytes of any LogText: each field behind its literal tag, in field order |
| `LogRespCodec.EncodeLayout` | common/trace.pb.cc:3415-3463 | the bytes of any GetLogResp: each field behind its literal tag, in field order, and nothing for a default |
| `LogRespCodec.UnknownIsSkipped` | common/trace.pb.cc:3395-3404 | fields a GetLogResp does not have, by number or wire type, make no difference |
| `LogRespCodec.UnknownInTextIsSkipped` | common/trace.pb.cc:3109-3119 | fields a LogText does not have, by number or wire type, make no difference |
| `LogRespCodec.DecodeMerges` | common/trace.pb.cc:3346-3463 | parsing an encoded GetLogResp on top of another one merges them and goes on with whatever follows |
| `LogRespCodec.RoundTrip` | common/trace.pb.cc:3346-3463 | a GetLogResp with any number of nested texts is parsed back as it was if and only if every string at both levels is UTF-8; otherwise parsing fails |
| `LogRespCodec.ConcatenationIsMerge` | common/trace.pb.cc:3532-3553 | the concatenation of two serialized replies parses to the second merged into the first, nested texts appended |
| `LogRespCodec.TextLastOneWins` | common/trace.pb.cc:3070-3127 | for any input: parsing a LogText fails exactly on malformed input or a string that is not UTF-8; otherwise the last strings win and all texts are appended in order |
| `LogRespCodec.LastOneWins` | common/trace.pb.cc:3346-3413 | for any input: parsing a GetLogResp fails exactly on malformed input, a message text that is not UTF-8, or a nested message that does not parse; otherwise the last values win and every nested message, parsed alone, is appended in order |
| `LogRespCodec.TextDecodeIsMergeIff` | common/trace.pb.cc:3227-3243 | parsing an input on top of a LogText equals parsing it alone and merging, for every message, if and only if neither string ends on the wire as the empty one |
| `LogRespCodec.DecodeIsMergeIff` | common/trace.pb.cc:3532-3553 | the same for a GetLogResp, if and only if no scalar and not the message text ends on the wire as its default; nested messages never matter |
| `LogRespCodec.NestedAreSmaller` | common/trace.pb.cc:3449-3458 | in a reply that can be sent every nested message is short enough for its length prefix |
| `LogRespCodec.TextSizeAgrees` | common/trace.pb.cc:3173-3210 | the computed size of a LogText is the length of its encoding (or both are 2 GiB and more) |
| `LogRespCodec.SizeAgrees` | common/trace.pb.cc:3465-3515 | the computed size of a GetLogResp, every nested length prefix included, is the length of its encoding (or both are 2 GiB and more) |
| `LogRespCodec.LogText.constructor` | common/trace.pb.cc:3033-3037 | a new message is empty |
| `LogRespCodec.LogText.Clear` | common/trace.pb.cc:3058-3068 | the message is empty again |
| `LogRespCodec.LogText.InternalParse` | common/trace.pb.cc:3070-3127 | the loop, shortcut included, succeeds exactly when the specification without shortcut does, with the same message |
| `LogRespCodec.LogText.ParseTagged` | common/trace.pb.cc:3070-3077 | one turn of the loop leaves the meaning of the rest of the input unchanged |
| `LogRespCodec.LogText.ParseField` | common/trace.pb.cc:3075-3119 | the switch on the tag does what the record prescribes and consumes exactly that record |
| `LogRespCodec.LogText.ParseString` | common/trace.pb.cc:3076-3091 | one string case: stores the payload in the field of that tag, or fails on a bad length or text that is not UTF-8 |
| `LogRespCodec.LogText.AddText` | common/trace.pb.cc:3099-3104 | one element of the repeated field, behind its tag: appends the payload, or fails on a bad length or text that is not UTF-8 |
| `LogRespCodec.LogText.ParseMoreTexts` | common/trace.pb.cc:3096-3106 | stepping over the next byte while it is 26 and reading the element at once gives, on any input, what reading the tag and switching on it for each element would give |
| `LogRespCodec.LogText.InternalSerialize` | common/trace.pb.cc:3129-3171 | appends to what is there exactly the encoding of the message |
| `LogRespCodec.LogText.ByteSizeLong` | common/trace.pb.cc:3173-3210 | returns the length of the encoding (or both are 2 GiB and more) |
| `LogRespCodec.LogText.MergeFrom` | common/trace.pb.cc:3227-3243 | appends the texts and takes the non-empty strings |
| `LogRespCodec.GetLogResp.constructor` | common/trace.pb.cc:3306-3312 | a new reply is empty |
| `LogRespCodec.GetLogResp.Clear` | common/trace.pb.cc:3332-3344 | the reply is empty again |
| `LogRespCodec.GetLogResp.InternalParse` | common/trace.pb.cc:3346-3413 | the loop, shortcut included, succeeds exactly when the specification without shortcut does, with the same reply |
| `LogRespCodec.GetLogResp.ParseTagged` | common/trace.pb.cc:3346-3353 | one turn of the loop leaves the meaning of the rest of the input unchanged |
| `LogRespCodec.GetLogResp.ParseField` | common/trace.pb.cc:3351-3405 | the switch on the tag does what the record prescribes and consumes exactly that record |
| `LogRespCodec.GetLogResp.ParseScalar` | common/trace.pb.cc:3352-3358 | one integer case: stores the number, cut to 32 bits, in the field of that tag |
| `LogRespCodec.GetLogResp.ParseNested` | common/trace.pb.cc:3384-3394 | appends the LogText that its own parser finds in exactly the announced bytes, or fails with it |
| `LogRespCodec.GetLogResp.ParseMoreNested` | common/trace.pb.cc:3384-3392 | stepping over the next byte while it is 42 and parsing the nested message at once gives, on any input, what reading the tag and switching on it for each would give |
| `LogRespCodec.GetLogResp.ParseFromString` | common/trace.pb.cc:3332-3413 | parses into a cleared reply; success and result are those of the specification |
| `LogRespCodec.GetLogResp.InternalSerialize` | common/trace.pb.cc:3415-3463 | below 2 GiB, appends to what is there exactly the encoding of the reply |
| `LogRespCodec.GetLogResp.SerializeNested` | common/trace.pb.cc:3449-3458 | below 2 GiB, writing each nested message behind its tag and the size computed for it is writing its encoding: the computed sizes are right |
| `LogRespCodec.GetLogResp.ByteSizeLong` | common/trace.pb.cc:3465-3515 | returns the length of the encoding (or both are 2 GiB and more) |
| `LogRespCodec.GetLogResp.SerializeToString` | common/trace.pb.cc:3415-3515 | gives the encoding, and refuses exactly the replies of 2 GiB and more |
| `LogRespCodec.GetLogResp.MergeFrom` | common/trace.pb.cc:3532-3553 | appends the nested messages and takes the other fields that are not the default |
| `NetBuffer.MakeSpaceBounds` | async_cgi/muduo/Buffer.h:386-405 | whenever bytes are moved inside the array, the assertion that they do not already lie at the front holds; whenever the array grows, its size stays below 8 + readable + 2 * len - writable |
| `NetBuffer.EnsureIsCheapest` | async_cgi/muduo/Buffer.h:190-197 | room is made not at all if there is some behind, by moving to index 8 if and only if that suffices, and else by growing to exactly what is needed |
| `NetBuffer.StepBound` | async_cgi/muduo/Buffer.h:190-197 | no operation makes the array larger than it was, than 8 plus twice what the operation asks for, or than a fresh one when shrinking |
| `NetBuffer.SpaceBound` | async_cgi/muduo/Buffer.h:190-197 | over any run of appends, retrieves, prepends, unwrites, reads and shrinks the array stays within its first size, a fresh one, or 8 plus twice the largest demand ever; it never gets smaller without a shrink |
| `NetBuffer.WindowFitsQueue` | async_cgi/muduo/Buffer.h:109-120 | over any run the window is as long as the queue of bytes it stands for |
| `NetBuffer.ShrinkSize` | async_cgi/muduo/Buffer.h:358-365 | a shrink leaves exactly max(1024, readable + reserve) bytes behind the first 8, with the reserve still writable |
| `NetBuffer.NetworkOrder` | async_cgi/muduo/Buffer.h:220-244 | for every width, integers and byte strings of that length correspond one to one: each conversion undoes the other; which bytes those are, NetworkBytes says |
| `NetBuffer.NetworkBytes` | async_cgi/muduo/Buffer.h:220-244 | byte i of an integer in network order, from the most significant on, negative numbers in two's complement |
| `NetBuffer.NetworkExamples` | async_cgi/muduo/Buffer.h:220-244 | 1 and -1 in four bytes, -2 in one, 258 in two |
| `NetBuffer.ReadUndoesAppend` | async_cgi/muduo/Buffer.h:250-280 | a reader that takes from the front an integer whose bytes fit finds the one put there, and leaves what stood behind it |
| `NetBuffer.Buffer.constructor` | async_cgi/muduo/Buffer.h:44-52 | an empty buffer with 8 bytes in front and the given space behind |
| `NetBuffer.Buffer.Swap` | async_cgi/muduo/Buffer.h:57-62 | arrays and indices are exchanged |
| `NetBuffer.Buffer.RetrieveAll` | async_cgi/muduo/Buffer.h:149-153 | nothing is left, and both indices are back at 8 |
| `NetBuffer.Buffer.Retrieve` | async_cgi/muduo/Buffer.h:109-120 | drops exactly the first len readable bytes by moving the reader index; the last one puts both indices back to 8 |
| `NetBuffer.Buffer.RetrieveAsString` | async_cgi/muduo/Buffer.h:160-166 | the result followed by what is left is what was there |
| `NetBuffer.Buffer.MakeSpace` | async_cgi/muduo/Buffer.h:386-405 | keeps the readable bytes and makes room, by the smaller array operation that suffices |
| `NetBuffer.Buffer.MoveToFront` | async_cgi/muduo/Buffer.h:396-400 | the overlapping copy inside the array loses no byte |
| `NetBuffer.Buffer.EnsureWritableBytes` | async_cgi/muduo/Buffer.h:190-197 | keeps the readable bytes; room for len bytes afterwards |
| `NetBuffer.Buffer.Append` | async_cgi/muduo/Buffer.h:178-183 | the new bytes stand behind the old ones |
| `NetBuffer.Buffer.Deliver` | async_cgi/muduo/Buffer.h:205-209 | bytes copied into the writable part become readable, in order |
| `NetBuffer.Buffer.CopyIn` | async_cgi/muduo/Buffer.h:181-181 | copies into the array and changes nothing outside the target |
| `NetBuffer.Buffer.Unwrite` | async_cgi/muduo/Buffer.h:211-215 | drops exactly the last len readable bytes |
| `NetBuffer.Buffer.Prepend` | async_cgi/muduo/Buffer.h:350-356 | the new bytes stand in front of the old ones |
| `NetBuffer.Buffer.Shrink` | async_cgi/muduo/Buffer.h:358-365 | keeps the readable bytes in a fresh array |
| `NetBuffer.Buffer.ReadFd` | async_cgi/muduo/Buffer.cpp:22-54 | all bytes received stand behind the old ones, in order, also when they overflow into the extra buffer |
| `NetBuffer.Buffer.AppendInt` | async_cgi/muduo/Buffer.h:220-244 | appends the integer in network order, for the widths 1, 2, 4 and 8 |
| `NetBuffer.Buffer.PrependInt` | async_cgi/muduo/Buffer.h:324-348 | puts the integer in network order in front |
| `NetBuffer.Buffer.PeekInt` | async_cgi/muduo/Buffer.h:286-319 | returns the one integer whose network order the first bytes are; changes nothing |
| `NetBuffer.Buffer.ReadInt` | async_cgi/muduo/Buffer.h:250-280 | the integer's bytes followed by what is left are what was there |
| `NetBuffer.Buffer.Run` | async_cgi/muduo/Buffer.h:109-365 | any run of the operations on one buffer acts on the readable bytes as on a plain queue, and on the window as specified |
| `NetBuffer.Buffer.Perform` | async_cgi/muduo/Buffer.h:109-365 | the same for a single operation |
| `NetBuffer.RunPair` | async_cgi/muduo/Buffer.h:57-62 | any run of operations on two buffers, swaps included, acts on them as on two plain queues, and the buffers never share an array |
| `NetBuffer.PerformOn` | async_cgi/muduo/Buffer.h:57-62 | the same for a single operation |
| `Framing.FrameIsFirst` | trace_client/python/TraceClientThread.py:60-69 | a buffer that starts with a packed message is complete, and its first message is that one |
| `Framing.FirstIsFrame` | trace_client/python/TraceClientThread.py:204-208 | the bytes of a complete frame are what packing its message gives |
| `Framing.FrameLayout` | trace_client/python/TraceClientThread.py:204-207 | a frame is four bytes of body length, four of the id, each most significant byte first, and the body |
| `Framing.ReceiveConserves` | trace_client/python/TraceClientThread.py:51-70 | one wake-up on any bytes: handled frames and buffer together hold exactly what was received |
| `Framing.RunConserves` | trace_client/python/TraceClientThread.py:51-70 | the same over any run, up to the wake-up that ends the thread |
| `Framing.HandledReturned` | trace_client/python/TraceClientThread.py:68-69 | over any run, what counts as handled is exactly what its handler returned from, given the messages before it |
| `Framing.CompletePrefix` | trace_client/python/TraceClientThread.py:60-68 | the start of a stream is complete if and only if it covers the next frame, and then that frame is what is taken out |
| `Framing.ReceiveTracks` | trace_client/python/TraceClientThread.py:51-70 | one wake-up on a stream: when the next message has become complete, it is handled and cut off, or, if its handling raises, the thread ends and the frame stays |
| `Framing.RunTracks` | trace_client/python/TraceClientThread.py:51-70 | however a stream whose messages are all handled is split into reads of 1 to 10 bytes, the messages handled are its first ones in order, and no byte is lost, also when it ends inside a frame |
| `Framing.NothingWaits` | trace_client/python/TraceClientThread.py:51-70 | if moreover every frame but the first has at least 10 bytes, no complete frame is left in the buffer after any wake-up |
| `Framing.RaisedWaits` | trace_client/python/TraceClientThread.py:60-69 | a message whose handling raises stays in the buffer for a split that is given |
| `Framing.ShortFrameWaits` | trace_client/python/TraceClientThread.py:51-70 | a frame shorter than ten bytes behind another is left waiting by a split that is given |
| `Framing.NeverWaitsIff` | trace_client/python/TraceClientThread.py:51-70 | complete frames never wait, for any split and any handlers, if and only if every message is handled without an exception and every frame behind the first has at least 10 bytes |
| `Framing.EnoughWakeUps` | trace_client/python/TraceClientThread.py:51-70 | while the bytes to come fill more than ten for each message left but one, the stream is handled in full |
| `Framing.ShortTailIsLate` | trace_client/python/TraceClientThread.py:51-70 | a tail of the stream with frames shorter than ten bytes on average is not handled in full by a split that is given |
| `Framing.HandledInFullIff` | trace_client/python/TraceClientThread.py:51-70 | a stream that has arrived in full is handled in full, for every split and any handlers, if and only if its messages can be packed and are handled without an exception, and for every i >= 1 the frames from i on have at least ten bytes each on average |
| `Framing.NeverWaitsIsStronger` | trace_client/python/TraceClientThread.py:51-70 | streams whose frames never wait are handled in full |
| `Framing.WaitingNotForEver` | trace_client/python/TraceClientThread.py:51-70 | not conversely: frames of 12, 9 and 11 bytes whose messages are handled can wait, but are handled in full |
| `PythonClient.ClearRaisesIff` | trace_client/python/TraceClientThread.py:184-187 | the loop that deletes while it counts over the first length raises if and only if an entry but the last is of that session; otherwise it removes what there is |
| `PythonClient.ReturnsIff` | trace_client/python/TraceClientThread.py:161-187 | the example client survives exactly configurations that parse, heartbeats, and clear messages that parse and name no session but that of the last entry |
| `PythonClient.ReconfiguredCannotBeCleared` | trace_client/python/mytrace.py:21-28 | a session that has just been configured can be cleared if and only if it was not configured before |
| `PythonClient.MalformedClearWaits` | trace_client/python/TraceClientThread.py:180-183 | in the base class a clear message that does not parse ends the thread and stays in the buffer, though its frame is the only one |
| `PythonClient.ShortHeartbeatsWait` | trace_client/python/TraceClientThread.py:51-70 | two heartbeats without a body: the second can wait, and can stay unhandled when all has arrived |
| `PythonClient.MyTraceClient.constructor` | trace_client/python/TraceClientThread.py:91-97 | no configurations |
| `PythonClient.MyTraceClient.Dispatch` | trace_client/python/TraceClientThread.py:161-166 | calls the handler of the message's id; an unknown id raises |
| `PythonClient.MyTraceClient.HandleCfg` | trace_client/python/mytrace.py:21-28 | appends the configuration, without erasing others of its session, or raises if it does not parse |
| `PythonClient.MyTraceClient.HandleClearSession` | trace_client/python/TraceClientThread.py:180-187 | the loop raises if and only if the message does not parse or an entry but the last is of its session; otherwise it erases the session |
| `PythonClient.MySocket.constructor` | trace_client/python/TraceClientThread.py:29-34 | an empty buffer |
| `PythonClient.MySocket.MyReceive` | trace_client/python/TraceClientThread.py:51-70 | does what the specification of a wake-up says with the example client's handlers, and reports how it ended: an empty read, an unknown id and a raising handler end the thread and leave buffer and history as they are |
| `PythonClient.MySocket.SendMsg` | trace_client/python/TraceClientThread.py:204-208 | the packed message as far as the kernel has room before it blocks, and how sending ends |
| `PythonClient.MySocket.MySend` | trace_client/python/TraceClientThread.py:42-49 | exactly the bytes the kernel has room for before it blocks are on the wire; the loop is done if that is all, and raises if the kernel blocks before |
| `LogDelivery.StepKeepsAccounts` | common/trace_typedef.h:44-45 | each of the three requests keeps, for every configuration, stored = delivered + unread and the limit, and changes the configurations as specified |
| `LogDelivery.LegalRunIff` | trace_server/helper.cpp:71-72 | a session never divides by zero if and only if logs are never requested before something has been configured |
| `LogDelivery.ExactlyOnce` | trace_server/helper.cpp:69-93 | over any run of configurations, uploads and requests each configuration has delivered exactly what it stored, once and in order, except what is unread; it never holds more than the limit |
| `LogDelivery.ReplyIsFair` | trace_server/helper.cpp:69-93 | a reply holds min(quota, unread) lines of each configuration, the first unread ones, and at most maxGetLogs in all; one more line for each would exceed it, so that with enough to take the total is above maxGetLogs less the number of configurations |
| `LogDelivery.UnreadAfterRequests` | trace_server/helper.cpp:69-93 | k requests without uploads take exactly the first k * quota unread lines of each configuration |
| `LogDelivery.Drained` | trace_server/helper.cpp:69-93 | u unread lines are used up after k requests if and only if k >= ceil(u / quota); with quota zero only if there were none |
| `LogDelivery.StarvedIff` | trace_server/helper.cpp:71-90 | however often logs are requested nothing is delivered and no index moves, if and only if there are more configurations than maxGetLogs or there is nothing to deliver |
| `LogDelivery.RunIsUtf8` | common/trace_typedef.h:38-44 | every string a session holds stays UTF-8 over any run of events that are |
| `LogDelivery.TotalAtMost` | trace_server/helper.cpp:69-93 | lists of at most quota lines each hold at most their number times quota lines |
| `LogDelivery.SizeTIsModular` | trace_server/helper.cpp:72-72 | a negative limit is taken modulo 2^64 |
| `LogDelivery.DeliveredOverTheWire` | trace_server/helper.cpp:69-93 | after any run on UTF-8 events, what a reader decodes from the serialized reply has the fd and begin time of the request, no error, and per configuration the front of its unread lines; what stays on the server follows it |
| `LogDelivery.SessionInfo.constructor` | common/trace_typedef.h:58-62 | a session without configurations |
| `LogDelivery.SessionInfo.GetLogByGnsEqually` | trace_server/helper.cpp:69-93 | appends to the reply one message per configuration with its next min(maxGetLogs / number of configurations, unread) lines, and moves every index past them |
| `LogDelivery.SessionInfo.TakeLogs` | trace_server/helper.cpp:80-90 | the inner loop returns the next min(quota, unread) lines and moves the index past them |
| `TraceClient.ClearRoundTrip` | trace_client/cpp/TraceClientThread.cpp:164-173 | the session id of a clear message is parsed back as written, or fails when it is not UTF-8 |
| `TraceClient.ClearLayout` | common/trace.proto:101-104 | the bytes of a clear message: the session id behind its literal tag |
| `TraceClient.WithoutKeeps` | trace_client/cpp/TraceClientThread.cpp:358-375 | erasing a session keeps ids unique and leaves exactly the other entries |
| `TraceClient.ClearIsWithout` | trace_client/cpp/TraceClientThread.cpp:180-203 | with unique ids, breaking at the first match erases all there is to erase |
| `TraceClient.ActLookup` | trace_client/cpp/TraceClientThread.cpp:149-178 | one message changes the entry of its own session only, as a map update or removal |
| `TraceClient.ListIsLatest` | trace_client/cpp/TraceClientThread.cpp:149-203 | after any sequence of messages ids are unique and the list is the map from sessions to their last accepted configuration not cleared since |
| `TraceClient.MatchingCounts` | trace_client/cpp/TraceClientThread.cpp:377-390 | a session occurs in the uploads of a trace once if its entry passes the check, and otherwise not |
| `TraceClient.UploadsExactly` | trace_client/cpp/tracelog.cpp:4-19 | after any history a trace for an id uploads once to each session whose latest configuration has p2 equal to it as an unsigned number, and to no other |
| `TraceClient.SessionsCounts` | trace_client/cpp/TraceClientThread.cpp:392-402 | in a list with unique ids each session occurs once among all of them |
| `TraceClient.TraceReachesAll` | trace_client/cpp/TraceClientThread.cpp:392-402 | after any history an unconditional trace uploads exactly once to each session with a configuration not cleared since, and to no other |
| `TraceClient.OthersChangeNothing` | trace_client/cpp/TraceClientThread.cpp:149-178 | exactly which messages change nothing: other ids than the two literal ones, malformed ones, and configurations with another operation than 1 |
| `TraceClient.ConfiguredOverTheWire` | trace_client/cpp/tracelog.cpp:21-39 | an encoded configuration with operation 1 that was received under its literal id: the client holds its values, and both kinds of trace reach its session once, as long as no later message names the session |
| `TraceClient.ClearedOverTheWire` | trace_client/cpp/TraceClientThread.cpp:164-173 | after an encoded clear message received under its literal id no trace reaches the session until it is configured again |
| `TraceClient.TraceLog.constructor` | trace_client/cpp/tracelog.h:11-13 | no configurations, no uploads |
| `TraceClient.TraceLog.HandleMsg` | trace_client/cpp/TraceClientThread.cpp:149-178 | dispatches by id; malformed and unknown messages change nothing |
| `TraceClient.TraceLog.SetConfig` | trace_client/cpp/tracelog.cpp:21-39 | a set-id configuration replaces that of its session and is confirmed by one upload; any other changes nothing |
| `TraceClient.TraceLog.SaveConfig` | trace_client/cpp/TraceClientThread.cpp:358-375 | erases every entry of the session, then appends the new one |
| `TraceClient.TraceLog.ClearSessionInCfg` | trace_client/cpp/TraceClientThread.cpp:180-203 | erases the first entry of the session |
| `TraceClient.TraceLog.TLogIf` | trace_client/cpp/TraceClientThread.cpp:377-390 | uploads to the sessions that pass the check, in list order |
| `TraceClient.TraceLog.TLog` | trace_client/cpp/TraceClientThread.cpp:392-402 | uploads to every session in the list, in order |
| `TraceClient.TraceLog.HandleAll` | trace_client/cpp/TraceClientThread.cpp:149-178 | the list after any sequence of messages is the one the history prescribes |
| `CgiUtils.ExtractBetween` | async_cgi/cgicc_lib/CgiUtils.cpp:210-228 | the text from behind the first occurrence of the opening separator up to the first occurrence of the closing one behind it, and nothing if either does not occur |
| `CgiUtils.BetweenIs` | async_cgi/cgicc_lib/CgiUtils.cpp:210-228 | that description fits exactly one text, the one the two searches find |
| `CgiUtils.CharToHex` | async_cgi/cgicc_lib/CgiUtils.cpp:76-91 | two hexadecimal digits that convert back to the character |
| `CgiUtils.CharOfHex` | async_cgi/cgicc_lib/CgiUtils.cpp:76-103 | two upper-case digits are converted to a character and back unchanged |
| `CgiUtils.HexDigitsAre` | async_cgi/cgicc_lib/CgiUtils.cpp:76-103 | the sixteen digits in either case, letter by letter, have their values, and the encoder writes the capital ones |
| `CgiUtils.HexIff` | async_cgi/cgicc_lib/CgiUtils.cpp:186-187 | and nothing else is a digit |
| `CgiUtils.EncodeOne` | async_cgi/cgicc_lib/CgiUtils.cpp:138-174 | what each byte is encoded as: letters, digits and nine marks as they are, a space as a plus sign, all else as a percent sign and its two digits |
| `CgiUtils.EncodeConcat` | async_cgi/cgicc_lib/CgiUtils.cpp:138-174 | encoding goes byte by byte |
| `CgiUtils.DecodeAtEscape` | async_cgi/cgicc_lib/CgiUtils.cpp:182-191 | an escape with digits of either case is decoded to the byte they name |
| `CgiUtils.DecodeElsewhere` | async_cgi/cgicc_lib/CgiUtils.cpp:179-203 | a plus sign becomes a space; a percent sign that starts no escape stays, and so does any other character |
| `CgiUtils.DecodeIgnoresCase` | async_cgi/cgicc_lib/CgiUtils.cpp:93-103 | texts that differ only in the case of the digits of their escapes are decoded alike |
| `CgiUtils.DecodeUndoesAnyCase` | async_cgi/cgicc_lib/CgiUtils.cpp:176-208 | whatever the case of the digits, what was encoded is decoded |
| `CgiUtils.DecodeUndoesEncode` | async_cgi/cgicc_lib/CgiUtils.cpp:138-208 | decoding undoes encoding on every byte string |
| `CgiUtils.EncodedAlphabet` | async_cgi/cgicc_lib/CgiUtils.cpp:138-174 | only unreserved characters, plus and percent signs come out, and at most three characters for one |
| `CgiUtils.DecodedLength` | async_cgi/cgicc_lib/CgiUtils.cpp:176-208 | on any input, malformed or not, decoding loses exactly two characters for each escape |
| `CgiUtils.EncodeUndoesDecodeIff` | async_cgi/cgicc_lib/CgiUtils.cpp:138-208 | encoding undoes decoding if and only if the input has no raw reserved character, no needless and no lower-case escape |
| `CgiUtils.FormUrlencode` | async_cgi/cgicc_lib/CgiUtils.cpp:138-174 | the loop computes the specified encoding |
| `CgiUtils.FormUrldecode` | async_cgi/cgicc_lib/CgiUtils.cpp:176-208 | the loop computes the specified decoding on any input |
| `Urlencoded.ScanIsLossless` | async_cgi/cgicc_lib/Cgicc.cpp:329-356 | on any input the raw pairs joined again, with the rest behind the last separator, are the input; names hold no equals sign, values no ampersand, the rest no equals sign |
| `Urlencoded.ScanUndoesJoin` | async_cgi/cgicc_lib/Cgicc.cpp:329-356 | that decomposition is the only one of its kind: what is joined from such pieces is scanned back into them |
| `Urlencoded.FormRoundTrip` | async_cgi/cgicc_lib/Cgicc.cpp:323-357 | any list of entries of arbitrary bytes, empty or with repeated and empty names and values, is read back from its printed form in order |
| `Cookies.CookiesAreWellFormed` | async_cgi/cgicc_lib/Cgicc.cpp:452-502 | whatever the header holds, parsed names have no equals sign, semicolon or leading space, and values no semicolon |
| `Cookies.CookieRoundTripIff` | async_cgi/cgicc_lib/Cgicc.cpp:452-502 | cookies joined by semicolon and space are read back as they were if and only if no name has an equals sign, a semicolon or leading space, and no value a semicolon |
| `Cookies.HeaderLaws` | async_cgi/cgicc_lib/Cgicc.cpp:452-502 | what any header is read as: semicolons separate, a piece without equals sign is no cookie, any other is one, whatever of the six kinds of white space stands before it |
| `Multipart.PartRoundTrip` | async_cgi/cgicc_lib/Cgicc.cpp:403-450 | a printed part, plain or file, is read back with its name, file name, type and value |
| `Multipart.FieldHeaderText` | async_cgi/cgicc_lib/Cgicc.cpp:403-423 | the header of a field, letter by letter |
| `Multipart.FileHeaderText` | async_cgi/cgicc_lib/Cgicc.cpp:403-423 | the header of a file, letter by letter |
| `Multipart.BodyLayout` | async_cgi/cgicc_lib/Cgicc.cpp:366-373 | a printed body, letter by letter |
| `Multipart.MalformedIff` | async_cgi/cgicc_lib/Cgicc.cpp:425-434 | a piece is malformed if and only if it has no empty line |
| `Multipart.StopsAtMalformed` | async_cgi/cgicc_lib/Cgicc.cpp:380-399 | pieces in front of a malformed one are read, those behind it are not |
| `Multipart.SepInSep2Iff` | async_cgi/cgicc_lib/Cgicc.cpp:366-373 | the separator is the end of the closing separator if and only if the boundary consists of hyphens |
| `Multipart.SepInLast` | async_cgi/cgicc_lib/Cgicc.cpp:380-399 | behind a last part without the separator it can occur only inside the closing separator, and only for a boundary of hyphens |
| `Multipart.BodyIsRead` | async_cgi/cgicc_lib/Cgicc.cpp:359-400 | what exactly is read from a body whose parts do not contain the separators; with a boundary of hyphens the last value keeps its line break |
| `Multipart.PreambleIsIgnored` | async_cgi/cgicc_lib/Cgicc.cpp:375-378 | what stands in front of the first separator is ignored |
| `Multipart.UnclosedLosesLast` | async_cgi/cgicc_lib/Cgicc.cpp:383-399 | without the closing separator the last part is lost, and no error is raised |
| `Multipart.WrapAround` | async_cgi/cgicc_lib/Cgicc.cpp:364-378 | where the search goes on when the first separator, or the key of the boundary, is missing: at the position that the wrap-around gives |
| `Multipart.BodySlices` | async_cgi/cgicc_lib/Cgicc.cpp:380-399 | a body is cut into at least as many pieces as it has parts, and into more if a part contains the separator |
| `Multipart.CutBody` | async_cgi/cgicc_lib/Cgicc.cpp:394-399 | a closing separator inside the last part cuts it short, so that the body is not read back |
| `Multipart.MultipartRoundTripIff` | async_cgi/cgicc_lib/Cgicc.cpp:359-400 | for any parts the header syntax can carry and any boundary on one line, the body is read back as those parts in order if and only if the boundary has a character other than a hyphen, no part contains the separator and the last not the closing one (or there are no parts) |
| `Multipart.BoundaryIsRead` | async_cgi/cgicc_lib/Cgicc.cpp:363-366 | the boundary is found in the content type, even one that contains its own key |
| `Cgicc.StringsAreEqual` | async_cgi/cgicc_lib/CgiUtils.cpp:57-74 | true if and only if both strings have n characters and agree in them but for case |
| `Cgicc.ToUpperIs` | async_cgi/cgicc_lib/CgiUtils.cpp:68-71 | the letters taken for each other are the 26 small and capital ones |
| `Cgicc.PairAt` | async_cgi/cgicc_lib/Cgicc.cpp:329-356 | one turn of the scanner: the pair at this position, then the rest |
| `Cgicc.LastPairAt` | async_cgi/cgicc_lib/Cgicc.cpp:343-352 | the last turn: everything behind the equals sign is the value |
| `Cgicc.SliceStep` | async_cgi/cgicc_lib/Cgicc.cpp:380-399 | one turn over the parts: the piece up to the next separator, or else up to the closing one |
| `Cgicc.MultipartInputIff` | async_cgi/cgicc_lib/Cgicc.cpp:310-401 | from the printed body and its literal content type to the entries: exactly those written, if and only if the boundary has a character other than a hyphen, no part contains the separator and the last not the closing one (or there are no parts) |
| `Cgicc.FormInput` | async_cgi/cgicc_lib/Cgicc.cpp:310-357 | from the printed form to the entries, under its literal content type in any case and with anything behind it, and under none: exactly those written, for any list of them |
| `Cgicc.OtherTypeIsIgnored` | async_cgi/cgicc_lib/Cgicc.cpp:310-360 | data of another type contributes nothing |
| `Cgicc.EntriesAre` | async_cgi/cgicc_lib/Cgicc.cpp:439-449 | a field joins the form data with its name and value, a file joins the files as it is |
| `Cgicc.Cgicc.constructor` | async_cgi/cgicc_lib/Cgicc.cpp:183-190 | no entries, files or cookies |
| `Cgicc.Cgicc.ReadRequest` | async_cgi/cgicc_lib/Cgicc.cpp:183-194 | the posted entries come before those of the query string, then the cookies; a malformed part ends it all |
| `Cgicc.Cgicc.ParseFormInput` | async_cgi/cgicc_lib/Cgicc.cpp:310-401 | chooses the grammar by content type and appends what it yields; entries before a malformed part stay |
| `Cgicc.Cgicc.ParseUrlencoded` | async_cgi/cgicc_lib/Cgicc.cpp:323-357 | the loop appends the pairs of the specification, names and values decoded |
| `Cgicc.Cgicc.ParseMultipart` | async_cgi/cgicc_lib/Cgicc.cpp:359-400 | finds the first separator, wrap-around included when there is none, and reads the parts behind it |
| `Cgicc.Cgicc.ParseParts` | async_cgi/cgicc_lib/Cgicc.cpp:380-399 | the loop appends what the pieces hold up to the first malformed one |
| `Cgicc.Cgicc.ParseLast` | async_cgi/cgicc_lib/Cgicc.cpp:394-399 | the part that the closing separator ends is read, and nothing without one |
| `Cgicc.Cgicc.ParseMIME` | async_cgi/cgicc_lib/Cgicc.cpp:425-450 | a piece with an empty file name is an entry, any other a file; one without an empty line fails and adds nothing |
| `Cgicc.Cgicc.ParseCookies` | async_cgi/cgicc_lib/Cgicc.cpp:452-477 | the loop appends the cookies of the specification |
| `Cgicc.Cgicc.ParseCookie` | async_cgi/cgicc_lib/Cgicc.cpp:479-502 | appends the cookie in a piece, or nothing without an equals sign; the white space skipped never reaches beyond that sign |
| `FormText.RestIsStripped` | async_cgi/cgicc_lib/FormEntry.cpp:120-157 | without newlines, from any point of the loop on, what is appended is the first free characters of the rest without its line breaks |
| `FormText.RestIsCut` | async_cgi/cgicc_lib/FormEntry.cpp:120-157 | with newlines, from any point on, what is appended is the normal form of the rest, cut at the limit but never inside a run of line breaks |
| `FormText.MakeStringIs` | async_cgi/cgicc_lib/FormEntry.cpp:114-160 | the whole result, without and with newlines, in these terms |
| `FormText.LinesAreNormalised` | async_cgi/cgicc_lib/FormEntry.cpp:125-148 | lines that all end in the same of the three ways, empty ones included, come out ended by newlines, or without newlines glued together |
| `FormText.MixedRun` | async_cgi/cgicc_lib/FormEntry.cpp:125-148 | a run that mixes the kinds is as many newlines as it has of the more frequent one |
| `FormText.MakeStringIsStable` | async_cgi/cgicc_lib/FormEntry.cpp:114-160 | with newlines: no carriage return, a prefix of the unlimited normal form and equal to it within the limit, at least as long as the limit beyond it and longer only by newlines, and making it again changes nothing |
| `FormText.NormalIsFixed` | async_cgi/cgicc_lib/FormEntry.cpp:125-148 | a text without carriage returns is its own normal form |
| `FormText.CutTwice` | async_cgi/cgicc_lib/FormEntry.cpp:120-157 | cutting twice at the same limit is cutting once |
| `FormText.FormEntry.constructor` | async_cgi/cgicc_lib/FormEntry.h:95-98 | an entry holds its name and value |
| `FormText.FormEntry.MakeText` | async_cgi/cgicc_lib/FormEntry.cpp:114-160 | the loop computes the specified text |
| `FormText.FormEntry.CountBreaks` | async_cgi/cgicc_lib/FormEntry.cpp:125-136 | the inner loop ends behind the run of line breaks, with the count of each kind |
| `SavedStream.ValueOfDigits` | async_cgi/cgicc_lib/CgiUtils.cpp:230-237 | the decimal digits of a number have its value |
| `SavedStream.DigitsAre` | async_cgi/cgicc_lib/CgiUtils.cpp:230-245 | a number is written with its decimal digits, most significant first |
| `SavedStream.NoLeadingZero` | async_cgi/cgicc_lib/CgiUtils.cpp:230-245 | and without leading zeros |
| `SavedStream.ExtractIs` | async_cgi/cgicc_lib/CgiUtils.cpp:253-253 | what a number is read as: white space before it is skipped, a minus sign negates in the 64-bit word, and a number beyond the word fails |
| `SavedStream.ExtractNeedsDigit` | async_cgi/cgicc_lib/CgiUtils.cpp:253-253 | without a digit nothing is read, and the stream fails |
| `SavedStream.ExtractUndoesDigits` | async_cgi/cgicc_lib/CgiUtils.cpp:253-254 | a number is read as it was written, stopping right behind it |
| `SavedStream.ReadUndoesWrite` | async_cgi/cgicc_lib/CgiUtils.cpp:230-282 | one value, string or number, is read back, and what follows is left untouched |
| `SavedStream.ReadAllUndoesWriteAll` | async_cgi/cgicc_lib/CgiUtils.cpp:230-282 | any sequence of writes, whatever digits and spaces the strings hold and whatever follows, is read back value by value with the remainder untouched |
| `SavedStream.WritesAreDistinct` | async_cgi/cgicc_lib/CgiUtils.cpp:230-245 | two sequences of the same kinds of values whose outputs start a stream alike are equal |
| `SavedStream.TextIsInInput` | async_cgi/cgicc_lib/CgiUtils.cpp:247-271 | on any stream, a string that is read and what is left stand next to each other in the input, behind at least two more characters; a stream on which reading threw has failed, unless the length was beyond any string's |
| `SavedStream.TooLongThrows` | async_cgi/cgicc_lib/CgiUtils.cpp:253-263 | for every length beyond any string's, reading throws and leaves a good stream with all that stood behind it |
| `SavedStream.ShortTextThrows` | async_cgi/cgicc_lib/CgiUtils.cpp:257-268 | fewer bytes than announced throw and use up the stream; on a stream that has failed before a text reads as the empty one |
| `SavedStream.OStream.WriteString` | async_cgi/cgicc_lib/CgiUtils.cpp:230-237 | appends length, space and bytes |
| `SavedStream.OStream.WriteLong` | async_cgi/cgicc_lib/CgiUtils.cpp:239-245 | appends number and space |
| `SavedStream.IStream.ReadString` | async_cgi/cgicc_lib/CgiUtils.cpp:247-271 | an empty string for length zero, the announced bytes otherwise, and an exception if there are fewer or no vector can be so long |
| `SavedStream.IStream.ReadLong` | async_cgi/cgicc_lib/CgiUtils.cpp:273-282 | the number, zero without digits and the greatest on overflow, and one character more taken; nothing about the number if the stream had failed or held only white space |

## Left out

- The Protocol Buffers runtime beyond the wire format: unknown fields are skipped but not stored, and there is no limit on the nesting of groups, no arena, reflection or cached size. Contents after a failed parse are unspecified.
- A message that ends early, by a zero tag or an end of group, counts as a failed parse, which is how every caller here treats it.
- In `GetLogResp` the nested messages are kept as values, not as objects of their own; aliasing between a reply and its nested messages is not captured. The other messages of common/trace.proto have the same shape; of `ClearSessionReq` only the meaning of its parser is modelled.
- LogDelivery.SessionInfo.GetLog: does not model the look-up of the session, its activity time and the parsing of the request; an unknown session gets an error reply.
- The configurations of a session, and the client's, are values in a list; that the client keeps pointers to them is not modelled.
- NetBuffer.Buffer.AppendInt: one method with the width as a parameter stands for the four functions of fixed width, as do the prepending, peeking and reading ones.
- Buffer's searches for line ends, `retrieveUntil` (a retrieve of a computed length), capacity, and appending bytes that lie in the buffer itself: appended bytes are values here.
- NetBuffer.Buffer.Shrink: does not model the cast of the length to an int in `toStringPiece` (async_cgi/muduo/Buffer.h:170); from 2 GiB on the code does not keep the bytes.
- A failed `readv` (it changes nothing) and `errno`.
- Framing in the C++ client (`ParseNetMsg`, `SendMsg`), which swaps header bytes in place; the Python client's trace statements; reconnection, sending of heartbeats and timers.
- PythonClient.MyTraceClient.HandleCfg: the upload that confirms a configuration is not modelled; sending it is taken to return.
- PythonClient.MySocket.MySend: the calls are a finite list; a kernel that accepts nothing for ever, on which the loop does not end, is not modelled beyond that.
- LogRespCodec.GetLogResp.InternalSerialize: says nothing from 2 GiB on, where the runtime refuses to serialize before it writes.
- LogRespCodec.GetLogResp.SerializeNested: says nothing when a nested message has 2 GiB or more.
- Lengths within 16 of 2^31 - 1, which the runtime's length reader refuses as well, are accepted here.
- Sizes computed for nested messages are computed again when they are written, not stored.
- TraceClient.TraceLog.TLogIf: an upload is recorded as its session; formatting and sending the text is not modelled. The other trace statements, and reporting the service's name, are left out.
- Login, session expiry, sending a configuration to the clients, and the connections of the server and the CGI program; FastCGI records; JSON, MD5, logging and reading of settings.
- The version of `GetLogByGnsEqually` that is compiled out (trace_server/helper.cpp:96-162).
- Multipart.MultipartRoundTripIff: the printer writes part headers that the header syntax of the parser can carry: no quote in a name, no empty line in it, no name of a file part that ends in `filename=` or contains `Content-Type: `, an encoded file name, and no carriage return in a type. What such names are parsed to is not stated.
- The disposition that `parseHeader` also extracts, which nothing uses for its entries; look-ups and rendering of entries, files and cookies.
- CgiUtils.FormUrldecode: the C library's character tests are those of the "C" locale, and the read one past the last character gives the terminating NUL.
- FormText.FormEntry.MakeText: the number of newlines is not narrowed to an int, and the read one past the last character gives the terminating NUL.
- SavedStream.IStream.ReadLong: says nothing about the number when the stream had failed before or held only white space, where the code returns an uninitialised value.
- SavedStream.IStream.ReadString: a length that a vector could have is taken to fit in memory.
- That the lines a session stores are UTF-8 when they arrive rests on the parser of `LogInfo`, which is not modelled; it has the shape of the one of `CfgInfoReq`, for which this is proved.
- Parsing of numbers from a stream is that of an unsigned 64-bit number in the "C" locale.
