# Verification of grpc_cb: messages on the wire, the db file, the code generator

This project models four parts of the repository and proves what they promise.

- **Messages on the wire.** `Wire` and `Messages` state the Protocol Buffers encoding
  for the five message types of `route_guide.proto` as functions on bytes and values;
  `MessageTheorems`, `Canonical`, `Acceptance` and `CachedSizes` prove the laws: round
  trip, concatenation is merge, one encoding for each message, exactly which bytes are
  accepted and where a parse ends otherwise, exactly when cached sizes do. `Encodings` and
  `Utf8` say what the written bytes and the valid strings are without the functions that
  compute them.
  The classes refine these functions step by step: `BufferWriter` and `BufferReader` are
  the zero-copy streams over counted blocks (`Slices`), `CodedInput` and `CodedOutput`
  the library's streams on top of them, `FieldReader`, `ScalarField` and `PointField` the
  cases the message types share, `Point`, `Rectangle`, `Feature`, `RouteNote` and
  `RouteSummary` the generated message classes, and `ProtoUtils` joins them to
  `Serialize` and `Deserialize`.
- **The db file.** `DbGrammar` is the language of the file, `DbParser` the cursor parser
  with its sticky flag, `DbTheorems` the exact language, `DbText` its white space and
  numbers without the functions that read them, and `DbPrinter` the inverse printer.
- **The code generator.** `Strings`, `Names` and `ClassNames` are its string functions,
  `Generated` the structured items it emits and what they mean, `Emission` what is emitted
  for a descriptor, `Generator` and `Plugin` the printing functions with their shared
  variables, and `StubTheorems`, `PathTheorems`, `TypeTheorems`, `DescriptorTheorems` and
  `NamespaceTheorems` what the emitted files do. `RouteGuideFiles` compares the items with
  the two generated files that stand in the repository.
- **The RouteChat reader.** `RouteChat` is the history of notes of the example server.

`dafny verify dfyconfig.toml` checks everything.

## What the proofs found in the code

- A unary stub function sends the path of method 0, so it reaches its own handler only if
  its method is the first of the service (`StubTheorems.StubReachesOwnHandler`).
- Server-streaming definitions name the type `ListFeatures_Writer` in every service, so
  header and source fit only if a method of that name has the right response class
  (`TypeTheorems.AllDeclaredIff`, `TypeTheorems.AllDefinedIff`).
- The services namespace is opened in the header only, and without descriptor methods the
  anonymous namespace of the source stays open (`NamespaceTheorems.ScopesAgree`,
  `NamespaceTheorems.SourceDepth`). The comments at the end of the source name the
  namespaces in the wrong order unless the package is a palindrome
  (`NamespaceTheorems.SourceNestsIff`).
- Without descriptor methods `GetServiceDescriptor` of every service calls a function that
  is not emitted (`DescriptorTheorems.GettersAnswer`).
- The parameter `services_namespace` without a value reads past the end of a vector
  (`Plugin.ReadRefuses`).
- Message names with underscores can collide as class names (`ClassNames.UnderscoresCollide`).
- `Skip(0)` fails at the end of the input (`BufferReader.GrpcBufferReader.Skip`).
- The comment at examples/cpp_cb/route_guide/helper.cc:71-73 asks for the exact form of a
  bracketed list. The code also accepts a list that ends in a brace and a comma, and any
  character before the final bracket (`DbTheorems.LoadedIff`); a file of at most one
  character is an empty list whatever that character is, and `[]` is an error
  (`DbTheorems.EmptyIff`). The model follows the code.

## Assumptions

- Callers of the streams obey the contract of the protobuf streams: `BackUp(n)` comes only
  right after `Next`, with n at most the size that `Next` answered.
- A slice is a view (block, offset, length) of a counted block; that the C library keeps
  short slices inline is not visible in the repository.
- A received buffer is neither changed nor destroyed while it is read; who else holds its
  blocks does not matter.
- Varints, fixed-size and length-delimited payloads follow the "Encoding" page of the
  Protocol Buffers documentation (Base 128 Varints, Message Structure, Length-Delimited
  Records, Last One Wins). Varints have at most ten bytes and are kept to 64 bits, tags to
  32; an int32 is sign-extended for writing and truncated in reading; a length is at most
  INT_MAX.
- UTF-8 validity is that of section 4 of RFC 3629. Parsing an invalid string fails, writing
  one does not.
- Unknown fields are preserved (`GetProto3PreserveUnknownsDefault()` holds), as records that
  are written again in canonical form. Groups (wire types 3 and 4) are refused.
- `ConsumedEntireMessage` holds only at the real end of the input, not at a zero tag, and a
  submessage has to end exactly at its limit.
- Assertions are enabled: the short path of `Serialize` runs its serializer inside one
  (src/cpp_cb/common/proto_utils.cc:182-184).
- The `long` of `std::stol` has 64 bits, `isspace` and `isalnum` are those of the C locale,
  and a `std::string` holds bytes.
- Descriptors come from the protobuf compiler: names are identifiers, so without dots,
  colons and slashes, and the methods of a service and the services of a file have distinct
  names.

## Model

| member | source | states |
|---|---|---|
| Wire.ReadBackVarint | examples/cpp_cb/route_guide/route_guide.pb.cc:352-408 | a varint of any number, followed by anything, is read back as that number with the rest untouched, under any byte limit that its length meets |
| Wire.VarintFits64 | examples/cpp_cb/route_guide/route_guide.pb.cc:352-408 | a 64-bit number never needs more than the ten bytes a reader accepts |
| Wire.ReadVarintExtends | examples/cpp_cb/route_guide/route_guide.pb.cc:352-408 | reading a varint does not depend on what follows it |
| Wire.VarintSize | examples/cpp_cb/route_guide/route_guide.pb.cc:458-486 | the size function is the length of the encoding |
| Wire.Int32RoundTrip | examples/cpp_cb/route_guide/route_guide.pb.cc:363-388 | an int32 that was sign-extended to 64 bits for writing is recovered by keeping the low 32 bits |
| Encodings.VarintIsVarint | examples/cpp_cb/route_guide/route_guide.pb.cc:417-424 | a varint that is written is one by the byte-level grammar, for its own number |
| Encodings.VarintIsShortest | examples/cpp_cb/route_guide/route_guide.pb.cc:468-480 | no varint of the same number is shorter than the one written |
| Encodings.SignExtendIs | examples/cpp_cb/route_guide/route_guide.pb.cc:417-424 | a reader of 64-bit two's complement numbers gets the int32 that was written |
| Encodings.ToInt32Is | examples/cpp_cb/route_guide/route_guide.pb.cc:363-388 | the int32 read differs from the number on the wire by a multiple of 2 to the 32, whatever that number is |
| Encodings.Int32FieldIs | examples/cpp_cb/route_guide/route_guide.pb.cc:416-424 | an int32 field is nothing for 0, else the one-byte tag and the varint of its two's complement; eleven bytes if it is negative |
| Encodings.StringFieldIs | examples/cpp_cb/route_guide/route_guide.pb.cc:1008-1016 | a string field is nothing if empty, else the one-byte tag, the length and the bytes |
| Encodings.MessageFieldIs | examples/cpp_cb/route_guide/route_guide.pb.cc:1018-1021 | an absent submessage is nothing; a present one, even if empty, is the one-byte tag, the length and its encoding |
| Encodings.RecordIs | examples/cpp_cb/route_guide/route_guide.pb.cc:426-429 | a record is its tag with the wire type 0, 1, 2 or 5, and its payload, with the length before a length-delimited one |
| Encodings.PointBytes | examples/cpp_cb/route_guide/route_guide.pb.cc:411-432 | two points byte by byte, one of them with a negative coordinate |
| Utf8.ValidUtf8Iff | examples/cpp_cb/route_guide/route_guide.pb.cc:957-962 | the validity check accepts exactly the encodings of sequences of Unicode code points, by groups of six bits, one to four bytes each, without surrogates |
| Utf8.PointsUnique | examples/cpp_cb/route_guide/route_guide.pb.cc:957-962 | a valid string is the encoding of one sequence of code points only |
| Wire.ReadBackRecord | examples/cpp_cb/route_guide/route_guide.pb.cc:352-408 | every legal record, encoded and followed by anything, is read back as itself: field number, wire type and payload |
| Wire.ReadRecordExtends | examples/cpp_cb/route_guide/route_guide.pb.cc:352-408 | a record that was read is the same record, with a longer rest, when more bytes follow |
| Wire.ReadRecord | examples/cpp_cb/route_guide/route_guide.pb.cc:352-408 | the end is reported exactly on empty input; every record read is legal and leaves a shorter suffix of the input |
| Wire.ReadPayload | examples/cpp_cb/route_guide/route_guide.pb.cc:392-399 | a payload read has the number and wire type of its tag and leaves a suffix; the group wire types give no payload |
| Wire.EncodeRecordsConcat | examples/cpp_cb/route_guide/route_guide.pb.cc:426-429 | records are written one after the other: the encoding of a concatenation is the concatenation of the encodings |
| Messages.Parse | examples/cpp_cb/route_guide/route_guide.pb.cc:943-999 | the parse loop as a function on any message type: what it answers is again a message of that type, with known fields never among the unknown records |
| Messages.Current | examples/cpp_cb/route_guide/route_guide.pb.h:877-884 | the submessage that parsing merges into, the default one when absent, is of its type |
| MessageTheorems.MergeAssociative | examples/cpp_cb/route_guide/route_guide.pb.cc:1108-1122 | merging is associative on all messages of a type: scalars and strings by last non-default, submessages recursively, unknown fields by appending |
| MessageTheorems.MergeIdentity | examples/cpp_cb/route_guide/route_guide.pb.cc:929-941 | the default message is a left and right identity of merging |
| MessageTheorems.MergeTyped | examples/cpp_cb/route_guide/route_guide.pb.cc:1108-1122 | merging keeps the type: the shape of the fields, and no known field among the unknown ones |
| MessageTheorems.ParseRecords | examples/cpp_cb/route_guide/route_guide.pb.cc:943-999 | parsing encoded records is applying them one by one, and parsing what follows |
| MessageTheorems.ApplyFields | examples/cpp_cb/route_guide/route_guide.pb.cc:943-999 | applying the records of a message's fields merges the fields, if all strings are valid UTF-8, and fails if one is not |
| MessageTheorems.ApplyUnknown | examples/cpp_cb/route_guide/route_guide.pb.cc:986-987 | unknown records are appended in their order |
| MessageTheorems.ParseEncode | examples/cpp_cb/route_guide/route_guide.pb.cc:943-1028 | parsing the encoding of w into v gives v merged with w, for all messages up to INT_MAX bytes, exactly if the strings of w are valid UTF-8; otherwise it fails |
| MessageTheorems.RoundTrip | examples/cpp_cb/route_guide/route_guide.pb.cc:943-1028 | parsing an encoding into a default message gives the message back, presence of submessages and unknown fields included, if and only if its strings are valid UTF-8 |
| MessageTheorems.ParseConcat | examples/cpp_cb/route_guide/route_guide.pb.cc:943-999 | parsing two byte strings in a row is parsing the second into the result of the first |
| MessageTheorems.ConcatIsMerge | examples/cpp_cb/route_guide/route_guide.pb.cc:943-999 | parsing the concatenation of two encodings gives the merge of the two messages, and fails exactly if a string of one of them is not valid UTF-8 |
| Canonical.EncodeInjective | examples/cpp_cb/route_guide/route_guide.pb.cc:1001-1028 | different messages of a type have different encodings, also those whose strings are not valid UTF-8, for which decoding fails |
| Canonical.FieldsInjective | examples/cpp_cb/route_guide/route_guide.pb.cc:1001-1028 | where the records of fields and the unknown records after them agree, so do all fields and all unknown records |
| Canonical.ParseKeepsUtf8 | examples/cpp_cb/route_guide/route_guide.pb.cc:943-999 | parsing into a message with valid strings leaves valid strings, however it ends |
| Canonical.ForwardedIsSame | examples/cpp_cb/route_guide/route_guide.pb.cc:943-1028 | any bytes accepted, overlong varints and repeated fields included, give a message that the next receiver of its encoding gets unchanged |
| Acceptance.AcceptedIff | examples/cpp_cb/route_guide/route_guide.pb.cc:943-999 | the loop reads its input to the end exactly if the bytes are a sequence of well-formed records, by a grammar stated without the loop: overlong varints and 64-bit overflow allowed, strings valid UTF-8, submessages well formed themselves |
| Acceptance.StoppedIff | examples/cpp_cb/route_guide/route_guide.pb.cc:359-394 | the loop ends early with success exactly if a well-formed prefix is followed by no tag, or by one that is 0 in its low 32 bits, both by the byte-level grammar, and it then holds the message of that prefix |
| Acceptance.FailedIff | examples/cpp_cb/route_guide/route_guide.pb.cc:943-999 | the loop fails exactly if a well-formed prefix is followed by a tag that begins no record its field accepts, by the byte-level grammar; the message of the prefix is what had been merged by then |
| Acceptance.ReadsNoTag | examples/cpp_cb/route_guide/route_guide.pb.cc:359-394 | the reader answers tag 0 exactly where the grammar has no tag or a zero one |
| Acceptance.ReadsRefused | examples/cpp_cb/route_guide/route_guide.pb.cc:359-394 | the reader or the field refuses exactly where the grammar has a tag that begins no acceptable record |
| Acceptance.RecordIsRead | examples/cpp_cb/route_guide/route_guide.pb.cc:359-394 | whatever the grammar calls a record is read as that record, also with overlong varints |
| Acceptance.ReadIsRecord | examples/cpp_cb/route_guide/route_guide.pb.cc:359-394 | whatever is read as a record is one by the grammar, and it is exactly the bytes consumed |
| Acceptance.ApplyIff | examples/cpp_cb/route_guide/route_guide.pb.cc:943-999 | a record is applied successfully exactly if it is unknown or its contents are acceptable for its field |
| CachedSizes.EncodeFields | examples/cpp_cb/route_guide/route_guide.pb.cc:1001-1028 | the encoding of a message is its fields in order of their numbers and then its unknown records |
| CachedSizes.EncodeSubmessage | examples/cpp_cb/route_guide/route_guide.pb.cc:1018-1021 | a submessage is a tag, the length of its encoding and its encoding |
| CachedSizes.EmitFresh | examples/cpp_cb/route_guide/route_guide.pb.cc:1018-1021 | with a fresh cached size a field is emitted as its encoding |
| CachedSizes.EmitIff | examples/cpp_cb/route_guide/route_guide.pb.cc:1001-1028 | what the serializers emit is the encoding if and only if every cached size of a present submessage is its encoded length |
| ParseSteps.ParseInt32 | examples/cpp_cb/route_guide/route_guide.pb.cc:363-388 | after a tag of an int32 field, parsing goes on with the field overwritten, or fails with the payload |
| ParseSteps.ParseString | examples/cpp_cb/route_guide/route_guide.pb.cc:954-967 | after a tag of a string field, parsing goes on with the field overwritten if the string is valid UTF-8, and fails if not |
| ParseSteps.ParseMessage | examples/cpp_cb/route_guide/route_guide.pb.cc:970-979 | after a tag of a submessage field, parsing goes on with the submessage merged, if the payload parses completely, and fails if not |
| ParseSteps.ParseUnknown | examples/cpp_cb/route_guide/route_guide.pb.cc:982-988 | after any other tag, parsing goes on with the record appended to the unknown ones, or fails with the payload |
| Slices.StoreElsewhere | src/cpp_cb/common/proto_utils.cc:68-81 | storing into one slice changes no byte of a slice disjoint from it |
| Slices.StoreView | src/cpp_cb/common/proto_utils.cc:68-81 | storing into a slice is a splice of the bytes it views |
| Slices.JoinLength | src/cpp_cb/common/proto_utils.cc:96 | the bytes of a list of slices are as many as the lengths add up to |
| Slices.BlockPool.Malloc | src/cpp_cb/common/proto_utils.cc:73 | a new block of the size asked for, with one reference; all earlier blocks keep their contents and counts |
| Slices.BlockPool.Put | src/cpp_cb/common/proto_utils.cc:75-79 | a client that stores in a slice changes the memory by a splice of the bytes it views and nowhere else |
| BufferWriter.NextOk | src/cpp_cb/common/proto_utils.cc:68-81 | appending the held tail or a new block keeps the views ordered inside their blocks, and the new window is disjoint from every slice in the buffer |
| BufferWriter.NextCounted | src/cpp_cb/common/proto_utils.cc:68-81 | handing out a window keeps every block's count equal to the slices viewing it plus one for the held tail |
| BufferWriter.BackUpLaws | src/cpp_cb/common/proto_utils.cc:83-94 | backing up keeps the views in order and exactly counted, and takes exactly the last bytes off the content |
| BufferWriter.BackUpCounted | src/cpp_cb/common/proto_utils.cc:83-94 | splitting a tail adds one reference and popping a whole block moves one, so counts stay exact |
| BufferWriter.StoreContent | src/cpp_cb/common/proto_utils.cc:68-81 | storing into the open window changes the content only inside the last window |
| BufferWriter.GrpcBufferWriter.constructor | src/cpp_cb/common/proto_utils.cc:56-60 | an empty buffer without held tail |
| BufferWriter.GrpcBufferWriter.Next | src/cpp_cb/common/proto_utils.cc:68-81 | the held tail is handed out again if there is one, a new block if not; the window is disjoint from everything committed, the old content is a prefix of the new, and the byte count grows by the window |
| BufferWriter.GrpcBufferWriter.BackUp | src/cpp_cb/common/proto_utils.cc:83-94 | the content loses exactly its last count bytes, the memory is untouched and the tail is held |
| BufferWriter.GrpcBufferWriter.SplitTail | src/cpp_cb/common/proto_utils.cc:88-89 | the slice is cut in two views of its block, which gets one more reference |
| BufferWriter.GrpcBufferWriter.Destroy | src/cpp_cb/common/proto_utils.cc:62-66 | afterwards each block is referenced exactly by the slices of the buffer that view it |
| BufferWriter.GrpcBufferWriter.Fill | src/cpp_cb/common/proto_utils.cc:75-79 | a client that stores inside its window changes only that part of the content: all bytes before the window stay |
| CodedOutput.CodedOutputStream.WriteRaw | src/cpp_cb/common/proto_utils.cc:191 | any number of bytes written through windows of any sizes is appended to what was written |
| CodedOutput.CodedOutputStream.WriteVarint | examples/cpp_cb/route_guide/route_guide.pb.cc:417-424 | the varint is appended to what was written |
| CodedOutput.CodedOutputStream.Trim | src/cpp_cb/common/proto_utils.cc:83-94 | after the unused end of the last window went back the buffer holds exactly what was written |
| BufferReader.FlatAt | src/cpp_cb/common/proto_utils.cc:120-141 | the slices tile the content: each stands where the lengths before it add up to |
| BufferReader.GrpcBufferReader.constructor | src/cpp_cb/common/proto_utils.cc:110-115 | nothing consumed, everything remains; windows are available if the reader could be initialised and there are slices |
| BufferReader.GrpcBufferReader.Next | src/cpp_cb/common/proto_utils.cc:120-141 | the window is the next part of the content, first what was backed up; consumed and remaining bytes always make up the whole, also after a window that itself was backed up; the reference taken for a slice is given back, so between calls every block is referenced as often as before reading |
| BufferReader.GrpcBufferReader.BackUp | src/cpp_cb/common/proto_utils.cc:145 | the last count bytes of the window remain again, and the position goes back by count |
| BufferReader.GrpcBufferReader.Skip | src/cpp_cb/common/proto_utils.cc:147-160 | true exactly if count bytes remain, and for 0 only if a window was available; then exactly count bytes are consumed, otherwise all; it terminates on any slices |
| BufferReader.GrpcBufferReader.ByteCount | src/cpp_cb/common/proto_utils.cc:162-164 | the number of bytes consumed: the whole content is its first that many bytes and the remaining ones |
| CodedInput.CodedInputStream.ReadTag | examples/cpp_cb/route_guide/route_guide.pb.cc:358-360 | the tag at the front of what is visible, 0 at the end, at an unreadable or a zero tag; the flag of a legitimate end is set exactly at the end of what is visible |
| CodedInput.CodedInputStream.ReadVarint | examples/cpp_cb/route_guide/route_guide.pb.cc:365-371 | the loop over bytes, across windows, reads the varint of the specification |
| CodedInput.CodedInputStream.ReadInt32 | examples/cpp_cb/route_guide/route_guide.pb.cc:361-372 | the value is the payload truncated to 32 bits, or none if there is no payload |
| CodedInput.CodedInputStream.ReadString | examples/cpp_cb/route_guide/route_guide.pb.cc:954-967 | the string is the length-delimited payload, collected across windows, and refused if it runs past the visible end |
| CodedInput.CodedInputStream.SkipField | examples/cpp_cb/route_guide/route_guide.pb.cc:391-397 | the whole unknown record is consumed and answered; groups and illegal tags are refused |
| CodedInput.CodedInputStream.PushLimit | examples/cpp_cb/route_guide/route_guide.pb.cc:970-979 | after it exactly the bytes of the submessage are visible, or all that were, if it claims more |
| CodedInput.CodedInputStream.PopLimit | examples/cpp_cb/route_guide/route_guide.pb.cc:970-979 | the earlier limit counts again |
| WireFormat.SerializeUnknownFields | examples/cpp_cb/route_guide/route_guide.pb.cc:426-429 | the unknown records are appended in their order |
| WireFormat.SerializeUnknownFieldsToArray | examples/cpp_cb/route_guide/route_guide.pb.cc:450-453 | the same bytes are stored in the array, and no other byte changes |
| FieldReader.ReadInt32Field | examples/cpp_cb/route_guide/route_guide.pb.cc:363-374 | the case of an int32 field: parsing the rest into the message with the field overwritten is parsing all into the message at hand, for every message type |
| FieldReader.ReadUnknownField | examples/cpp_cb/route_guide/route_guide.pb.cc:390-398 | any other tag: parsing the rest into the message with the record appended to the unknown ones is parsing all into the message at hand, for every message type |
| ScalarField.SerializeInt32Field | examples/cpp_cb/route_guide/route_guide.pb.cc:415-424 | a non-zero field is appended as its record, a zero field as nothing |
| ScalarField.SerializeInt32FieldToArray | examples/cpp_cb/route_guide/route_guide.pb.cc:440-448 | the array gets the same bytes, and no other byte changes |
| ScalarField.SerializeStringField | examples/cpp_cb/route_guide/route_guide.pb.cc:1008-1015 | a non-empty string is appended as its record, an empty one as nothing |
| ScalarField.SerializeStringFieldToArray | examples/cpp_cb/route_guide/route_guide.pb.cc:1038-1046 | the array gets the same bytes, and no other byte changes |
| ScalarField.Int32FieldSize | examples/cpp_cb/route_guide/route_guide.pb.cc:468-480 | the summand of the size is the length of the field's encoding |
| ScalarField.StringFieldSize | examples/cpp_cb/route_guide/route_guide.pb.cc:1073-1077 | the summand of the size is the length of the field's encoding |
| PointField.ReadMessage | examples/cpp_cb/route_guide/route_guide.pb.cc:970-979 | a length is read and the nested loop run under that limit; success means that the payload alone parses completely into the submessage, and exactly the record is consumed |
| PointField.MessageSize | examples/cpp_cb/route_guide/route_guide.pb.cc:1079-1084 | computing the size of a submessage makes its cached size fresh, and the summand is the length of the field's encoding |
| PointField.SerializeMessageField | examples/cpp_cb/route_guide/route_guide.pb.cc:1018-1021 | a present submessage is appended with its cached size as the length prefix, whatever that is; an absent one as nothing |
| PointField.SerializeMessageFieldToArray | examples/cpp_cb/route_guide/route_guide.pb.cc:1049-1053 | the array gets the same bytes, and no other byte changes |
| PointMessage.Point.Clear | examples/cpp_cb/route_guide/route_guide.pb.cc:340-350 | the default message |
| PointMessage.Point.MergeFrom | examples/cpp_cb/route_guide/route_guide.pb.cc:503-516 | the value is the merge of both values |
| PointMessage.Point.CopyFrom | examples/cpp_cb/route_guide/route_guide.pb.cc:525-530 | the value of the other message, also when copied from itself |
| PointMessage.Point.ReadField | examples/cpp_cb/route_guide/route_guide.pb.cc:357-399 | one turn of the loop: the switch on a tag leaves input and message so that parsing the rest is parsing all, or ends with success at a zero tag, or fails exactly if parsing does |
| PointMessage.Point.MergePartialFromCodedStream | examples/cpp_cb/route_guide/route_guide.pb.cc:352-408 | the loop over tags refines parsing on bytes: complete, stopped at a zero tag or failed as that, with the same value, whatever the windows |
| PointMessage.Point.ByteSizeLong | examples/cpp_cb/route_guide/route_guide.pb.cc:458-486 | the length of the encoding, stored as the cached size |
| PointMessage.Point.SerializeWithCachedSizes | examples/cpp_cb/route_guide/route_guide.pb.cc:410-431 | the encoding is appended |
| PointMessage.Point.InternalSerializeWithCachedSizesToArray | examples/cpp_cb/route_guide/route_guide.pb.cc:433-456 | the array gets the same bytes as the stream and changes nowhere else |
| RectangleMessage.Rectangle.Clear | examples/cpp_cb/route_guide/route_guide.pb.cc:633-648 | the default message, the submessages given up |
| RectangleMessage.Rectangle.MergeFrom | examples/cpp_cb/route_guide/route_guide.pb.cc:803-816 | the value is the merge of both values; the other message is not shared with |
| RectangleMessage.Rectangle.CopyFrom | examples/cpp_cb/route_guide/route_guide.pb.cc:825-830 | the value of the other message, also when copied from itself |
| RectangleMessage.Rectangle.MutableLo | examples/cpp_cb/route_guide/route_guide.pb.h:720-727 | the submessage at hand or a new default one, owned by this message alone |
| RectangleMessage.Rectangle.MutableHi | examples/cpp_cb/route_guide/route_guide.pb.h:770-777 | the submessage at hand or a new default one, owned by this message alone |
| RectangleMessage.Rectangle.MergeLo | examples/cpp_cb/route_guide/route_guide.pb.cc:810-812 | the field is merged with the other's, recursively if both are present |
| RectangleMessage.Rectangle.MergeHi | examples/cpp_cb/route_guide/route_guide.pb.cc:813-815 | the field is merged with the other's, recursively if both are present |
| RectangleMessage.Rectangle.ReadLoField | examples/cpp_cb/route_guide/route_guide.pb.cc:661-670 | one field consumed: parsing the rest from the new value is parsing all from the old |
| RectangleMessage.Rectangle.ReadHiField | examples/cpp_cb/route_guide/route_guide.pb.cc:673-682 | one field consumed: parsing the rest from the new value is parsing all from the old |
| RectangleMessage.Rectangle.ReadField | examples/cpp_cb/route_guide/route_guide.pb.cc:655-693 | one turn of the loop: the switch on a tag leaves input and message so that parsing the rest is parsing all, or ends with success at a zero tag, or fails exactly if parsing does |
| RectangleMessage.Rectangle.MergePartialFromCodedStream | examples/cpp_cb/route_guide/route_guide.pb.cc:650-702 | the loop over tags refines parsing on bytes: complete, stopped at a zero tag or failed as that, with the same value, whatever the windows |
| RectangleMessage.Rectangle.ByteSizeLong | examples/cpp_cb/route_guide/route_guide.pb.cc:758-786 | the length of the encoding; every cached size is fresh afterwards, whatever it was before, so that the serializers emit the encoding |
| RectangleMessage.Rectangle.SerializeWithCachedSizes | examples/cpp_cb/route_guide/route_guide.pb.cc:704-727 | what is emitted for the cached sizes at hand is appended: the encoding, if they are fresh |
| RectangleMessage.Rectangle.InternalSerializeWithCachedSizesToArray | examples/cpp_cb/route_guide/route_guide.pb.cc:729-756 | the array gets the same bytes as the stream and changes nowhere else |
| FeatureMessage.Feature.Clear | examples/cpp_cb/route_guide/route_guide.pb.cc:929-941 | the default message, the submessages given up |
| FeatureMessage.Feature.MergeFrom | examples/cpp_cb/route_guide/route_guide.pb.cc:1108-1122 | the value is the merge of both values; the other message is not shared with |
| FeatureMessage.Feature.CopyFrom | examples/cpp_cb/route_guide/route_guide.pb.cc:1131-1136 | the value of the other message, also when copied from itself |
| FeatureMessage.Feature.MutableLocation | examples/cpp_cb/route_guide/route_guide.pb.h:877-884 | the submessage at hand or a new default one, owned by this message alone |
| FeatureMessage.Feature.ReadNameField | examples/cpp_cb/route_guide/route_guide.pb.cc:954-967 | one field consumed: parsing the rest from the new value is parsing all from the old; invalid UTF-8 fails |
| FeatureMessage.Feature.ReadLocationField | examples/cpp_cb/route_guide/route_guide.pb.cc:970-979 | one field consumed: parsing the rest from the new value is parsing all from the old |
| FeatureMessage.Feature.ReadField | examples/cpp_cb/route_guide/route_guide.pb.cc:948-990 | one turn of the loop: the switch on a tag leaves input and message so that parsing the rest is parsing all, or ends with success at a zero tag, or fails exactly if parsing does |
| FeatureMessage.Feature.MergePartialFromCodedStream | examples/cpp_cb/route_guide/route_guide.pb.cc:943-999 | the loop over tags refines parsing on bytes: complete, stopped at a zero tag or failed as that, with the same value, whatever the windows |
| FeatureMessage.Feature.ByteSizeLong | examples/cpp_cb/route_guide/route_guide.pb.cc:1063-1091 | the length of the encoding; every cached size is fresh afterwards, whatever it was before, so that the serializers emit the encoding |
| FeatureMessage.Feature.SerializeWithCachedSizes | examples/cpp_cb/route_guide/route_guide.pb.cc:1001-1028 | what is emitted for the cached sizes at hand is appended: the encoding, if they are fresh |
| FeatureMessage.Feature.InternalSerializeWithCachedSizesToArray | examples/cpp_cb/route_guide/route_guide.pb.cc:1030-1061 | the array gets the same bytes as the stream and changes nowhere else |
| RouteNoteMessage.RouteNote.Clear | examples/cpp_cb/route_guide/route_guide.pb.cc:1235-1247 | the default message, the submessages given up |
| RouteNoteMessage.RouteNote.MergeFrom | examples/cpp_cb/route_guide/route_guide.pb.cc:1414-1428 | the value is the merge of both values; the other message is not shared with |
| RouteNoteMessage.RouteNote.CopyFrom | examples/cpp_cb/route_guide/route_guide.pb.cc:1437-1442 | the value of the other message, also when copied from itself |
| RouteNoteMessage.RouteNote.MutableLocation | examples/cpp_cb/route_guide/route_guide.pb.h:931-938 | the submessage at hand or a new default one, owned by this message alone |
| RouteNoteMessage.RouteNote.ReadLocationField | examples/cpp_cb/route_guide/route_guide.pb.cc:1260-1269 | one field consumed: parsing the rest from the new value is parsing all from the old |
| RouteNoteMessage.RouteNote.ReadMessageField | examples/cpp_cb/route_guide/route_guide.pb.cc:1272-1285 | one field consumed: parsing the rest from the new value is parsing all from the old; invalid UTF-8 fails |
| RouteNoteMessage.RouteNote.ReadField | examples/cpp_cb/route_guide/route_guide.pb.cc:1254-1296 | one turn of the loop: the switch on a tag leaves input and message so that parsing the rest is parsing all, or ends with success at a zero tag, or fails exactly if parsing does |
| RouteNoteMessage.RouteNote.MergePartialFromCodedStream | examples/cpp_cb/route_guide/route_guide.pb.cc:1249-1305 | the loop over tags refines parsing on bytes: complete, stopped at a zero tag or failed as that, with the same value, whatever the windows |
| RouteNoteMessage.RouteNote.ByteSizeLong | examples/cpp_cb/route_guide/route_guide.pb.cc:1369-1397 | the length of the encoding; every cached size is fresh afterwards, whatever it was before, so that the serializers emit the encoding |
| RouteNoteMessage.RouteNote.SerializeWithCachedSizes | examples/cpp_cb/route_guide/route_guide.pb.cc:1307-1334 | what is emitted for the cached sizes at hand is appended: the encoding, if they are fresh |
| RouteNoteMessage.RouteNote.InternalSerializeWithCachedSizesToArray | examples/cpp_cb/route_guide/route_guide.pb.cc:1336-1367 | the array gets the same bytes as the stream and changes nowhere else |
| RouteSummaryMessage.RouteSummary.Clear | examples/cpp_cb/route_guide/route_guide.pb.cc:1534-1544 | the default message |
| RouteSummaryMessage.RouteSummary.MergeFrom | examples/cpp_cb/route_guide/route_guide.pb.cc:1759-1778 | the value is the merge of both values |
| RouteSummaryMessage.RouteSummary.CopyFrom | examples/cpp_cb/route_guide/route_guide.pb.cc:1787-1792 | the value of the other message, also when copied from itself |
| RouteSummaryMessage.RouteSummary.ReadField | examples/cpp_cb/route_guide/route_guide.pb.cc:1551-1621 | one turn of the loop: the switch on a tag leaves input and message so that parsing the rest is parsing all, or ends with success at a zero tag, or fails exactly if parsing does |
| RouteSummaryMessage.RouteSummary.MergePartialFromCodedStream | examples/cpp_cb/route_guide/route_guide.pb.cc:1546-1630 | the loop over tags refines parsing on bytes: complete, stopped at a zero tag or failed as that, with the same value, whatever the windows |
| RouteSummaryMessage.RouteSummary.ByteSizeLong | examples/cpp_cb/route_guide/route_guide.pb.cc:1700-1742 | the length of the encoding, stored as the cached size |
| RouteSummaryMessage.RouteSummary.SerializeWithCachedSizes | examples/cpp_cb/route_guide/route_guide.pb.cc:1632-1663 | the encoding is appended |
| RouteSummaryMessage.RouteSummary.InternalSerializeWithCachedSizesToArray | examples/cpp_cb/route_guide/route_guide.pb.cc:1665-1698 | the array gets the same bytes as the stream and changes nowhere else |
| ProtoUtils.Serialize | src/cpp_cb/common/proto_utils.cc:177-195 | the status is OK and the new buffer holds exactly the encoding, in one exact slice up to 8192 bytes, beyond that in slices of 8192 bytes and a last one that is not empty; blocks are counted exactly and the message is unchanged |
| ProtoUtils.SerializeSmall | src/cpp_cb/common/proto_utils.cc:180-187 | one slice, of exactly the size computed before, holds what the array serializer emits; only the buffer's reference is left |
| ProtoUtils.SerializeToStream | src/cpp_cb/common/proto_utils.cc:188-194 | through writer, coded stream and their destructors, the buffer holds exactly the encoding |
| ProtoUtils.Deserialize | src/cpp_cb/common/proto_utils.cc:197-222 | the outcome depends on the concatenated bytes only: OK exactly if they are wholly well formed, with the parsed value; every other parse, a zero tag in the middle included, ends in 'Did not read entire message'; no buffer and an unreadable one are reported and leave the message alone, at a zero tag the message has the fields before it, and after a failure the fields of all complete records before it, at most the field at hand or the unknown records differing |
| ProtoUtils.Receive | src/cpp_cb/common/proto_utils.cc:177-222 | a message sent and received over any slicing of its bytes is OK and identical if and only if its strings are valid UTF-8; otherwise the receiver did not read it to the end |
| DbGrammar.StripConcat | examples/cpp_cb/route_guide/helper.cc:77-79 | removing white space works piece by piece |
| DbGrammar.StripIdempotent | examples/cpp_cb/route_guide/helper.cc:77-79 | removing white space twice, as the file is stripped by the caller and the parser, is removing it once |
| DbText.SpaceIs | examples/cpp_cb/route_guide/helper.cc:77-79 | white space is exactly blank, tab, newline, vertical tab, form feed and carriage return |
| DbText.StripIs | examples/cpp_cb/route_guide/helper.cc:77-79 | stripping takes out these six characters, all of them, and nothing else |
| DbText.DigitIs | examples/cpp_cb/route_guide/helper.cc:133-141 | the digits are 0 to 9, each with its own value |
| DbText.StolIs | examples/cpp_cb/route_guide/helper.cc:133-141 | a sign or none, digits and anything after them are read as that number, or are out of the 64-bit range |
| DbText.StolRefuses | examples/cpp_cb/route_guide/helper.cc:133-141 | text is an invalid argument exactly if it does not begin with a number |
| DbTheorems.ElementIsParsed | examples/cpp_cb/route_guide/helper.cc:90-122 | a feature in the exact form, followed by a brace and a comma or by the end of the list, is parsed as itself |
| DbTheorems.ElementParsedBack | examples/cpp_cb/route_guide/helper.cc:90-122 | whatever is parsed as a feature is its exact form, with numbers that std::stol reads and a name without quotes |
| DbTheorems.TextIsParsed | examples/cpp_cb/route_guide/helper.cc:90-173 | the text of any list of features, with either end, is loaded as that list |
| DbTheorems.LoadedIff | examples/cpp_cb/route_guide/helper.cc:155-173 | a non-empty list is loaded exactly if the stripped file is a bracket, the features joined by brace and comma, and an end: brace and comma, or any one character and a final bracket |
| DbTheorems.EmptyIff | examples/cpp_cb/route_guide/helper.cc:76-84 | an empty list is loaded exactly from a file of at most one character that is no white space; the text [] is an error |
| DbTheorems.RaisedIff | examples/cpp_cb/route_guide/helper.cc:137-144 | an exception of std::stol is raised exactly from a bracket, well-formed features with their separators, and a feature whose first number, or whose second after a legal first, std::stol does not read; the features before it, its latitude and the error are those of the text |
| DbTheorems.DecompositionUnique | examples/cpp_cb/route_guide/helper.cc:90-122 | a text is the text of one list of features only, with one end |
| DbPrinter.StolDecimal | examples/cpp_cb/route_guide/helper.cc:133-141 | the decimal form of a 64-bit number is read back as that number |
| DbPrinter.PrintedIsLoaded | examples/cpp_cb/route_guide/helper.cc:71-84 | features printed in the documented form, with any of the six white space characters put in or taken out anywhere, are loaded as the same features with the white space of their names removed |
| DbParser.RemoveSpaces | examples/cpp_cb/route_guide/helper.cc:77-79 | the erase loop leaves the characters that are no white space, in order |
| DbParser.Parser.constructor | examples/cpp_cb/route_guide/helper.cc:76-84 | the text is stripped, the cursor past the first character, and the flag set unless that is a bracket |
| DbParser.Parser.Match | examples/cpp_cb/route_guide/helper.cc:131-135 | true exactly if the prefix is next; the cursor moves by its length either way, and was inside the text before |
| DbParser.Parser.ReadLong | examples/cpp_cb/route_guide/helper.cc:137-144 | the text up to the next comma or brace is consumed and read by std::stol, whose two exceptions are outcomes |
| DbParser.Parser.TryParseOne | examples/cpp_cb/route_guide/helper.cc:90-122 | one feature by the grammar: a success moves the cursor strictly ahead inside the text, a failure sets the flag, and with the flag set or nothing left it fails for good |
| DbParser.Parser.MatchEnd | examples/cpp_cb/route_guide/helper.cc:115-120 | true exactly before a brace and a comma, or at one character and the final bracket; the last character is looked at first, at an index that is at most the length |
| DbParser.ParseDb | examples/cpp_cb/route_guide/helper.cc:155-173 | the list is what the grammar loads; a failure leaves it empty; an exception of std::stol leaves the features before it and one more, which has its latitude set or nothing; it terminates on every file |
| Strings.FindIsFirst | src/compiler/generator_helpers.h:66 | the pattern stands where it is found and nowhere before |
| Strings.ReplacedAtFind | src/compiler/generator_helpers.h:61-76 | left-to-right replacement keeps the text before the first occurrence, puts the new text in its place and goes on after it; without an occurrence it changes nothing |
| Strings.StringReplace | src/compiler/generator_helpers.h:61-76 | the in-place loop terminates and is the replacement of all occurrences from left to right without overlap, or of the first only |
| Strings.Tokenize | src/compiler/generator_helpers.h:82-100 | the pieces between the delimiters, one more than there are delimiters |
| Strings.JoinSplit | src/compiler/generator_helpers.h:82-100 | the pieces hold no delimiter, and joined they are the text |
| Strings.SplitJoin | src/compiler/generator_helpers.h:82-100 | pieces without the delimiter are found again after joining |
| Strings.ReplacedIsJoin | src/compiler/generator_helpers.h:61-100 | replacing one character is joining the pieces around it with the new text |
| Strings.ColonsToDots | src/compiler/cpp_generator_helpers.h:29-31 | on names without colons turning dots to colons is undone by the reverse replacement |
| Strings.DotsToColons | src/compiler/cpp_generator_helpers.h:29-31 | every dot becomes two colons |
| Strings.DotsToUnderscores | src/compiler/cpp_generator_helpers.h:33-35 | every dot becomes an underscore |
| Strings.StripSuffix | src/compiler/generator_helpers.h:32-42 | true exactly if the name ends with the suffix, which is then cut off, and otherwise nothing changes |
| Strings.StrippedTo | src/compiler/generator_helpers.h:54-59 | which file names share a base name, and so their output files: the base with either extension, or the base itself if it has none |
| Strings.StripProto | src/compiler/generator_helpers.h:54-59 | at most one of the two extensions is cut off, the longer one first |
| Names.FilenameIdentifier | src/compiler/cpp_cb_generator.cc:68-82 | the push-back loop escapes every byte in turn |
| Names.IdentifierBack | src/compiler/cpp_cb_generator.cc:68-82 | a decoder recovers every byte string from its identifier, which has only letters, digits and underscores |
| Names.AlnumIs | src/compiler/cpp_cb_generator.cc:68-82 | the characters kept are exactly the ASCII digits and letters |
| Names.GuardsDiffer | src/compiler/cpp_cb_generator.cc:101-102 | files with different names have different include guards and different descriptor functions |
| PathTheorems.SourcePaths | src/compiler/cpp_cb_generator.cc:796-799 | the tables of the source hold, service by service and method by method, a slash, the full name of the service with its package, a slash and the name of the method |
| PathTheorems.PathsDiffer | src/compiler/cpp_cb_generator.cc:796-799 | paths are equal exactly if package, service and method are, for services without dots and methods without slashes |
| PathTheorems.PathsOnce | src/compiler/cpp_cb_generator.cc:796-799 | no path stands twice in the tables of a file, for distinct services and distinct methods in each |
| ClassNames.FullNameParts | src/compiler/cpp_generator_helpers.h:44-45 | a full name is that of the outermost message and then each inner name with a dot before it, so the cut is exactly the inner part |
| ClassNames.ClassName | src/compiler/cpp_generator_helpers.h:37-52 | two colons, the package parts and the top-level name joined by colons, and each inner name with an underscore before it; unqualified, the same without the package |
| ClassNames.SameClassName | src/compiler/cpp_generator_helpers.h:37-52 | two messages share a class name exactly if their packages agree and their names joined by underscores do |
| ClassNames.ClassNamesDiffer | src/compiler/cpp_generator_helpers.h:37-52 | without underscores in the message names, different messages have different class names |
| ClassNames.UnderscoresCollide | src/compiler/cpp_generator_helpers.h:37-52 | with them they need not: A_B at the top and B inside A have one class name |
| RouteGuideFiles.HeaderIs | examples/cpp_cb/route_guide/route_guide.grpc_cb.pb.h:4-143 | for route_guide.proto the header items are those of the checked-in header: guard, namespaces, both classes, every alias and every declaration with its types, in order |
| RouteGuideFiles.SourceIs | examples/cpp_cb/route_guide/route_guide.grpc_cb.pb.cc:11-227 | for route_guide.proto the source items are those of the checked-in source: namespaces, descriptor functions, path table, getter, stubs with their indices, cases and definitions, in order |
| Generator.PrintHeaderClientMethodPublic | src/compiler/cpp_cb_generator.cc:142-210 | the function types and both stub functions of one method, by its streaming kind; of the shared variables only the three of the method change |
| Generator.PrintHeaderServiceMethod | src/compiler/cpp_cb_generator.cc:212-276 | the aliases and both declarations of one method, with result and parameter types, by its streaming kind; of the shared variables only the three of the method change |
| Generator.PrintHeaderService | src/compiler/cpp_cb_generator.cc:278-331 | the namespace of the service around the getter, class Stub with its constructor and the functions of all methods in order, and class Service with its fixed members, GetDescriptor among them, and the declarations of all methods in order |
| Generator.PrintSourceClientMethod | src/compiler/cpp_cb_generator.cc:517-592 | two stub functions with their result and parameter types that use the caller's Idx, but the literal 0 if the method does not stream |
| Generator.PrintCallMethod | src/compiler/cpp_cb_generator.cc:743-785 | a case for every method, labelled with its index; Package and Service stay |
| Generator.PrintSourceServerMethod | src/compiler/cpp_cb_generator.cc:594-678 | two member functions with their result and parameter types; those of server streaming name the type ListFeatures_Writer whatever the method |
| Generator.PrintSourceService | src/compiler/cpp_cb_generator.cc:787-838 | the table of paths, getter, stubs, fixed members, cases and definitions of all methods in order, inside the namespace of the service |
| Generator.GetHeaderServices | src/compiler/cpp_cb_generator.cc:333-357 | all services, inside the services namespace if one is asked for |
| Generator.GetHeaderEpilogue | src/compiler/cpp_cb_generator.cc:359-385 | the parts of the package closed in reverse, then the end of the guard |
| Generator.GetSourceDescriptors | src/compiler/cpp_cb_generator.cc:449-515 | the anonymous namespace is opened always and closed only with descriptor methods; only then the assignments of the descriptors and the function that runs them once are there |
| Generator.GetSourceServices | src/compiler/cpp_cb_generator.cc:840-860 | all services with the package and a dot, or nothing, before their names; the services namespace plays no part |
| Generator.GetSourceEpilogue | src/compiler/cpp_cb_generator.cc:862-879 | the parts of the package closed in the order they were opened |
| StubTheorems.StubReachesOwnHandler | src/compiler/cpp_cb_generator.cc:525-591 | for distinct method names, the path a stub function of method i sends leads through method_names and the switch to handler i if and only if the method streams in some direction or i is 0; otherwise to the first handler |
| StubTheorems.AllStubsReachOwnHandlers | src/compiler/cpp_cb_generator.cc:751-817 | all stub functions of a service reach their own handlers exactly if no method but the first is unary |
| StubTheorems.IndexReaches | src/compiler/cpp_cb_generator.cc:751-799 | an index in a stub function leads to the handler with that index |
| StubTheorems.IndexInStub | src/compiler/cpp_cb_generator.cc:814-817 | the index in the text of a stub function is that of the loop turn, or 0 if the method does not stream |
| TypeTheorems.AllDeclaredIff | src/compiler/cpp_cb_generator.cc:640-661 | the source defines only functions that the header declares, with a result and parameters of the same types, exactly if every server-streaming method has the response class of a method named ListFeatures that streams to the client |
| TypeTheorems.StreamingDeclared | src/compiler/cpp_cb_generator.cc:248-260 | a definition of one server-streaming method is declared exactly under that condition |
| TypeTheorems.CasesAreDeclared | src/compiler/cpp_cb_generator.cc:751-779 | every case of CallMethod calls a function that the header declares, with its parameter types |
| TypeTheorems.StubsAreDeclared | src/compiler/cpp_cb_generator.cc:517-592 | every stub function that the source defines is declared in class Stub with the same result and parameter types |
| TypeTheorems.StubsAreDefined | src/compiler/cpp_cb_generator.cc:142-210 | every stub function that class Stub declares is defined in the source with the same result and parameter types |
| TypeTheorems.StubTypesKnown | src/compiler/cpp_cb_generator.cc:142-210 | every type in the declaration of a stub function is one of the library's, a message class of a method, or an alias made in class Stub |
| TypeTheorems.AllDefinedIff | src/compiler/cpp_cb_generator.cc:278-331 | all that the header declares for a service, getter, constructor, stub functions, fixed members and the functions of the methods, is defined with the same types, in the source or in its class, exactly if every server-streaming method has the response class of a method named ListFeatures that streams to the client |
| DescriptorTheorems.GettersAnswer | src/compiler/cpp_cb_generator.cc:464-507 | with descriptor methods the getter of every service answers the descriptor with the index of that very service, for distinct service names; without them the function it calls is not emitted |
| DescriptorTheorems.AssignedInLoop | src/compiler/cpp_cb_generator.cc:486-491 | in the loop each descriptor variable is assigned last from the index of its own service |
| TypeTheorems.WriterMeans | src/compiler/cpp_cb_generator.cc:248-275 | the alias with the method's name means the writer of its response class, for distinct method names |
| NamespaceTheorems.HeaderNests | src/compiler/cpp_cb_generator.cc:342-380 | for every file and parameter, every brace of the header closes the namespace its comment names and none stays open; the stubs stand inside the package and the services namespace |
| NamespaceTheorems.SourceDepth | src/compiler/cpp_cb_generator.cc:422-513 | no brace of the source closes nothing, and the depth returns to zero exactly with descriptor methods; otherwise one namespace stays open |
| NamespaceTheorems.SourceNestsIff | src/compiler/cpp_cb_generator.cc:862-879 | the comments of the source name the namespaces they close exactly if there are descriptor methods and the parts of the package are a palindrome |
| NamespaceTheorems.PartsAre | src/compiler/cpp_cb_generator.cc:342-380 | the namespaces opened for a package are its pieces between the dots, and none for the empty package |
| NamespaceTheorems.ScopesAgree | src/compiler/cpp_cb_generator.cc:333-513 | header and source put the stubs into the same namespaces exactly if there is no service, or no services namespace is asked for and there are descriptor methods |
| Plugin.ReadParameters | src/compiler/cpp_cb_plugin.cc:61-79 | the parameters are read in order up to the first that is not understood |
| Plugin.ReadAccepts | src/compiler/cpp_cb_plugin.cc:64-79 | parameters are accepted exactly if each is services_namespace= and more, and the last one counts, up to its next equals sign |
| Plugin.ReadRefuses | src/compiler/cpp_cb_plugin.cc:64-79 | the first that is not decides: services_namespace alone reads past the end of the vector, anything else is an unknown parameter |
| Plugin.Generate | src/compiler/cpp_cb_plugin.cc:49-106 | the three refusals, or both files under the stripped name, each with its parts in order |
| RouteChat.Reader.OnMsg | examples/cpp_cb/route_guide/route_guide_cb_server.cc:192-200 | the earlier notes with the same coordinates are written, in the order they came, and the note is appended to the history |
| RouteChat.Chat | examples/cpp_cb/route_guide/route_guide_cb_server.cc:189-217 | one reader fed a whole stream, message by message, writes the sequence that WritesAreAnswers and TotalWrites describe |
| RouteChat.LocationIs | examples/cpp_cb/route_guide/route_guide_cb_server.cc:194-195 | the coordinates compared are the fields of the location, or of the default message if there is none |
| RouteChat.SamePlace | examples/cpp_cb/route_guide/route_guide_cb_server.cc:194-195 | two notes are at one place exactly if both coordinates of their locations agree |
| RouteChat.WritesAreAnswers | examples/cpp_cb/route_guide/route_guide_cb_server.cc:192-200 | the writes of a run are exactly the pairs of a note and an earlier one with the same coordinates, ordered by the note and then by the earlier one, each answered with that earlier note |
| RouteChat.TotalWrites | examples/cpp_cb/route_guide/route_guide_cb_server.cc:192-200 | with k notes at a place, k(k-1)/2 writes are due to it: the total is the sum over the places |

## Left out

- The reader's slices are byte strings, with the reference counts that their blocks had when reading began; the C reader's decompression is not modelled.
- ProtoUtils.Deserialize: after a failed parse the one field at hand, or the unknown records at hand, may hold part of a record, and which part is not stated, since it depends on how far the library reads; the size limit is left out, since the generated callers pass 0.
- ProtoUtils.Serialize: sizes beyond INT_MAX are excluded by its precondition, as `int byte_size` excludes them.
- DbParser.ParseDb: console output is not modelled.
- Generator.PrintHeaderClientMethodPublic: default arguments, `const` and reference marks are not among the items.
- Generator.PrintHeaderService: access levels, `virtual`, `const` and reference marks are not among the items.
- Generator.PrintHeaderServiceMethod: `virtual`, `const` and reference marks are not among the items.
- Generator.PrintSourceClientMethod: of the bodies of the stub functions only the index of the path is among the items.
- Generator.PrintSourceServerMethod: the bodies of the definitions are not among the items.
- Plugin.Generate: opening files in the generator context and writing them out are not modelled; the result is the names and items of both files.
- RouteChat.Reader.OnMsg: what Write answers is ignored, as in the code, and the writer's queue and OnEnd are not part of this model.
- The library's own fast paths (direct buffer access, WriteMessageMaybeToArray), total byte limits, recursion limits, arenas, reflection, Swap, descriptor registration and once-initialisation.
- Client and server wrappers in include/grpc_cb and grpc_cb_core, completion queues, channels, threads and timeouts: foreign or delegated.
- The text of the templates beyond the items, comment extraction, camel-case helpers and PrintSourceServerAsyncMethod, which no emitted file uses.
- Haversine distances, the RecordRoute timing, GetDbFileContent and the example clients: floating point, clocks and input/output.
- helloworld.pb.cc: the same codec with one string field, which would only add easy members.
