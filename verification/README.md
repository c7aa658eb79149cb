# Verified model of an MQTT client stack and of a CA index

The repository bridges a Modbus device to an MQTT broker over TLS and carries the OpenSSL sources it is
built with. This project models two of its parts in Dafny and proves properties of the models.

**The MQTT 3.1.1 stack** (`mqtt/`, with the thread hand-off of `modbus_task.c` and `mqtt_task.c`)

- *Wire format*: `Bytes`, `RemainingLength`, `Wire`, `PublishPackets`, `SubscribePackets`, `ConnectPackets`.
  Serialisers write into an array through a cursor and are proved to write exactly the bytes of a specification
  function. Deserialisers read an array and are proved to return the outcome of a parse function, error cases
  included. Round-trip lemmas tie the two functions together, and `PacketBytes` writes the packets out as numbers.
- *Framing*: `Transport` and `Framing`. The transport is a byte sequence plus a list of answers that decides the
  chunk sizes, the "call again" results and the errors. `SegmentOf` is the reference for what the first packet of
  a stream comes to; the resumable reader and the blocking reader are both proved against it.
- *Dispatch*: `Topics` and `Handlers`. The character loop of the matcher is proved equal to a relation on topic
  levels, and the slot array is proved to behave like a bounded map.
- *Session*: `SessionTrace`, `PacketIds`, `Client` and `SessionRuns`. The client keeps a ghost log of what was
  received, sent, accepted and closed. Its class invariant says that every state bit agrees with the log, that the
  log obeys a set of rules, and that the bytes on the wire are those of the log. Lemmas over such logs, and one
  method that runs any number of cycles, give the whole-run properties. Every failure of a client operation has a
  reason in its contract (`Blamed` for a cycle, `Explained` for the operations), told from the clock, the buffers
  and what the transport answered, so the contracts also say when an operation succeeds.
- *Hand-off*: `Handoff`, a state machine over the atomic steps of the two threads, with an invariant kept by every
  step and theorems over every interleaving.

**The certificate index of `openssl ca`** (`openssl-3.2.2/apps/ca.c` and what it calls)

- `Revocation` (the revocation field), `Serials` (serial numbers as text and as index keys), `CaDatabase` (loading,
  issuing, revoking, expiring), `CaRuns` (any sequence of these), `IndexFile` and `IndexStore` (rows as lines, the
  index as a file) and `Policy` (the subject of a new certificate).

`dafny verify dfyconfig.toml` checks the whole project.

## Where the code is not what one would expect

Each of these is proved on the code as it is.

- The deserialisers return the size of the length field when a packet is malformed. A one-byte field therefore
  reads as the success code 1. A PUBLISH without a topic is accepted exactly then (`PublishSuccessCode`,
  `EmptyPublishAccepted`), and a CONNACK brings the connection up exactly when its code is 0 or its body is too short
  to hold a code (`AcceptedExactly`, `AcceptedMeans`, `EmptyConnackAccepted`). The comments above these
  functions promise 1 for success and 0 for failure; the model follows the code.
- `MQTTPacket_len` asks for one byte too many at four lengths (`PacketLenExact`).
- The two readers part exactly on five-byte length fields that announce a packet small enough for the buffer
  (`ReadersAgree`, `ReadersDiffer`).
- A string counts and writes different lengths exactly when both of its representations are set and differ
  in length (`StrLenIsWritten`), and survives the wire exactly when it is shorter than 65536 bytes (`StringRoundTrip`).
- A CONNECT with an empty password, an empty final user name, or a password alone is rejected by the server side
  (`ConnectRoundTrip` gives the exact condition).
- The matcher accepts only what section 4.7.1 of MQTT 3.1.1 accepts. What it misses is exactly `p/#` for `p`, and a
  wildcard opposite an empty level (`MatcherAndStandard`, `ParentMissed`, `EmptyLevelMissed`).
- Which SUBACKs store the handler is stated exactly (`StoresExactly`); one with an empty body does
  (`EmptySubackStores`), and so does a refusal where `char` is signed (`RefusalStored`). Any UNSUBACK removes one
  (`Unsubscribe`), and `MQTTDeserialize_suback` compares with `maxcount` one write late (`DeserializeSuback`).
- A reading is published again exactly when nothing was stored since the last one was taken, which takes a spurious
  wake-up (`RepeatsExactly`); it can be the initial 0 (`SpuriousWakePublishes`) or a stored value
  (`SpuriousWakeRepeats`).
- Two things make the CA write an index that it refuses to load: a revocation dated outside UTCTime, so from 2050 on
  (`RevokedRowOk`), and revoking or adding a foreign certificate whose expiry date cannot be read, because
  `do_revoke` copies it as it is (`NewRowOk`, `UnreadableRecorded`). Nothing else does (`CaDb.Revoke`, `RunOps`).
- `do_updatedb` gives up at the first valid row with an unreadable date, with the rows before it already expired
  (`CaDb.UpdateDb`).
- Index keys are texts: one serial number can stand in two rows of an index that loads, in upper and in lower case
  (`SameNumberTwice`). Among serial numbers the CA wrote itself it cannot (`NumbersDistinct`).
- The index survives being written and read exactly when no field holds a newline, no row starts with `#`, and no
  field but the last of its row ends in a backslash (`FileRoundTrip`). Whatever was read from a file meets that
  (`ReadStorable`, `RewriteKeeps`), and the operations keep it for plain arguments (`Perform`), so it is a condition
  on what operators and certificates bring in. An empty index cannot be saved (`SaveAndLoad`).

## Modelling choices

- Integers that the source keeps in 8 or 16 bits are typed or truncated explicitly; `int` lengths are unbounded,
  with the 128^4 limit of MQTT stated where it matters.
- Reads past a buffer are modelled as an outcome of the parse functions (`OutOfBounds` and the like). The methods
  require that this outcome does not occur, which is the exact condition for the C code to stay inside the buffer.
- The client's read buffer has two readable bytes behind the size it was announced with, because an identifier may
  be read there, and at least five bytes, because the length is put back before the size is checked.
- The array for granted QoS values has two elements in the model; the C code passes one and `maxcount` 1.
- Out-parameters that the source leaves unassigned are arbitrary.
- Time is an integer that never decreases. The timeout arguments of the network functions are ignored, as they are
  in the source.
- Hash tables of `TXT_DB` are maps. What the ASN.1 library decides (which strings are times or object identifiers,
  which times are past) is a parameter, `Library`.
- Whether `char` is signed is a parameter of the members that read one.
- Message handlers are numbers and do not call back into the client.

## Model

| member | source | states |
|---|---|---|
| `Bytes.HeaderFields` | mqtt/MQTTPacket/MQTTPacket.h:53-73 | the four bit-fields of the header byte are recovered from the byte they were packed into |
| `RemainingLength.EncodeLengthValue` | mqtt/MQTTPacket/MQTTPacket.c:28-44 | decoding the encoded remaining length gives the number back, for every number |
| `RemainingLength.EncodeLengthSize` | mqtt/MQTTPacket/MQTTPacket.c:28-44 | the field takes 1 to 4 bytes with the breaks of section 2.2.3 of MQTT 3.1.1, and is continuation bytes and one final byte |
| `RemainingLength.EncodeLengthShortest` | mqtt/MQTTPacket/MQTTPacket.c:28-44 | no field for the same value is shorter than the encoder's |
| `RemainingLength.EncodeInto` | mqtt/MQTTPacket/MQTTPacket.c:28-44 | the do/while encoder puts exactly the specified field at the cursor and touches nothing else |
| `RemainingLength.DecodeBuf` | mqtt/MQTTPacket/MQTTPacket.c:53-116 | the decoding loop returns the base-128 value of the field and its size, and 5 after four continuation bytes |
| `RemainingLength.DecodeEncoded` | mqtt/MQTTPacket/MQTTPacket.c:53-116 | a field written by the encoder is decoded to its value and size wherever it stands in memory |
| `RemainingLength.PacketLenExact` | mqtt/MQTTPacket/MQTTPacket.c:83-97 | the size estimate is the size written, but one more at 127, 16383, 2097150 and 2097151 |
| `Wire.StrLenIsWritten` | mqtt/MQTTPacket/MQTTPacket.c:193-250 | the counted length is the written length if and only if the two representations agree |
| `Wire.IntRoundTrip` | mqtt/MQTTPacket/MQTTPacket.c:124-169 | a 16-bit integer that was written is read back |
| `Wire.StringRoundTrip` | mqtt/MQTTPacket/MQTTPacket.c:193-233 | a length-prefixed string is read back if and only if it is shorter than 65536 bytes |
| `Wire.FrameHead` | mqtt/MQTTPacket/MQTTPacket.c:112-116 | a deserialiser finds header, length and body of a packet where a serialiser put them |
| `Wire.WriteChar` | mqtt/MQTTPacket/MQTTPacket.c:151-155 | one byte is put at the cursor, everything else stays |
| `Wire.WriteInt` | mqtt/MQTTPacket/MQTTPacket.c:163-169 | the high and the low byte are put at the cursor in that order, higher bits lost |
| `Wire.WriteText` | mqtt/MQTTPacket/MQTTPacket.c:177-183 | length and characters are put at the cursor |
| `Wire.WriteMqttString` | mqtt/MQTTPacket/MQTTPacket.c:193-205 | the representation that takes precedence is the one written |
| `Wire.ReadInt` | mqtt/MQTTPacket/MQTTPacket.c:124-130 | the value is the big-endian number at the cursor, which moves by two |
| `Wire.ReadLenString` | mqtt/MQTTPacket/MQTTPacket.c:214-233 | succeeds exactly when length and characters end in time, with those characters and the cursor behind them |
| `PublishPackets.SerializePublish` | mqtt/MQTTPacket/MQTTSerializePublish.c:30-90 | either the whole packet is written within `buflen`, or, exactly when the size estimate exceeds it, nothing is |
| `PublishPackets.DeserializePublish` | mqtt/MQTTPacket/MQTTDeserializePublish.c:36-69 | return code and every field are those of the parse function, for other packet types and missing topics too |
| `PublishPackets.PublishRoundTrip` | mqtt/MQTTPacket/MQTTDeserializePublish.c:36-69 | dup, QoS, retain, topic, payload and (QoS above 0) identifier of every PUBLISH come back |
| `PublishPackets.PublishSuccessCode` | mqtt/MQTTPacket/MQTTDeserializePublish.c:36-69 | the code 1 is returned if and only if the packet was parsed or its length field is one byte |
| `PublishPackets.EmptyPublishAccepted` | mqtt/MQTTPacket/MQTTDeserializePublish.c:36-69 | a PUBLISH without a body gets the success code |
| `PublishPackets.SerializeAck` | mqtt/MQTTPacket/MQTTSerializePublish.c:103-126 | four bytes are written, with the QoS bit of PUBREL, unless the buffer is shorter |
| `PublishPackets.DeserializeAck` | mqtt/MQTTPacket/MQTTDeserializePublish.c:82-106 | type, dup and identifier are those of the packet; a short body gets the size of the length field as code |
| `PublishPackets.AckRoundTrip` | mqtt/MQTTPacket/MQTTDeserializePublish.c:82-106 | type, dup and identifier survive for every acknowledgement |
| `SubscribePackets.RequestLength` | mqtt/MQTTPacket/MQTTSubscribeClient.c:27-35 | the length loop counts the bytes the serialiser will write, for SUBSCRIBE and UNSUBSCRIBE |
| `SubscribePackets.WriteEntries` | mqtt/MQTTPacket/MQTTSubscribeClient.c:75-79 | every filter (and QoS) is written in order |
| `SubscribePackets.SerializeRequest` | mqtt/MQTTPacket/MQTTSubscribeClient.c:49-85 | the whole request within `buflen`, or nothing |
| `SubscribePackets.DeserializeRequest` | mqtt/MQTTPacket/MQTTSubscribeServer.c:34-69 | dup, identifier, count and every entry are those of the parse function; an entry cut short ends the list with an error code |
| `SubscribePackets.ReadEntries` | mqtt/MQTTPacket/MQTTUnsubscribeServer.c:33-65 | the loop fills the arrays with the entries found and says whether the body was used up |
| `SubscribePackets.EntriesRoundTrip` | mqtt/MQTTPacket/MQTTSubscribeServer.c:54-63 | a list of entries of any length is read back complete and in order |
| `SubscribePackets.RequestRoundTrip` | mqtt/MQTTPacket/MQTTSubscribeServer.c:34-69 | SUBSCRIBE and UNSUBSCRIBE round trip for lists of any length |
| `SubscribePackets.SerializeSuback` | mqtt/MQTTPacket/MQTTSubscribeServer.c:81-109 | identifier and all codes are written; too short exactly when `buflen` is below the body length |
| `SubscribePackets.DeserializeSuback` | mqtt/MQTTPacket/MQTTSubscribeClient.c:99-134 | identifier, codes, count and return code, with `maxcount` exceeded by one before it is noticed and the rest of the array left alone |
| `SubscribePackets.SubackRoundTrip` | mqtt/MQTTPacket/MQTTSubscribeClient.c:99-134 | identifier and the whole list of codes come back |
| `SubscribePackets.SerializeUnsuback` | mqtt/MQTTPacket/MQTTUnsubscribeServer.c:75-99 | the four bytes of an UNSUBACK, so that the acknowledgement round trip applies to it |
| `SubscribePackets.DeserializeUnsuback` | mqtt/MQTTPacket/MQTTUnsubscribeClient.c:91-103 | every UNSUBACK is a success, with its identifier when it has one |
| `ConnectPackets.ConnectLengthExact` | mqtt/MQTTPacket/MQTTConnectClient.c:26-47 | the computed length is the length of the body written, for both protocol versions |
| `ConnectPackets.SerializeConnect` | mqtt/MQTTPacket/MQTTConnectClient.c:57-120 | the whole CONNECT within `buflen`, or nothing |
| `ConnectPackets.FlagFields` | mqtt/MQTTPacket/MQTTConnect.h:41-67 | all connect flags are recovered from the flags byte |
| `ConnectPackets.DeserializeConnect` | mqtt/MQTTPacket/MQTTConnectServer.c:51-108 | accepts exactly what the parse function accepts, with its fields |
| `ConnectPackets.LoginRoundTrip` | mqtt/MQTTPacket/MQTTConnectServer.c:93-103 | user name and password are recovered exactly when neither trips the three-byte test |
| `ConnectPackets.ConnectRoundTrip` | mqtt/MQTTPacket/MQTTConnectServer.c:51-108 | clean session, keep-alive, client identifier, will and login are recovered if and only if the login survives, otherwise the packet is rejected |
| `ConnectPackets.SerializeConnack` | mqtt/MQTTPacket/MQTTConnectServer.c:119-147 | the four bytes of a CONNACK, refused only below two bytes of room |
| `ConnectPackets.DeserializeConnack` | mqtt/MQTTPacket/MQTTConnectClient.c:131-158 | session flag and code of the packet; a short body changes neither and returns the size of the length field |
| `ConnectPackets.ConnackRoundTrip` | mqtt/MQTTPacket/MQTTConnectClient.c:131-158 | session flag and code come back |
| `ConnectPackets.SerializeZero` | mqtt/MQTTPacket/MQTTConnectClient.c:168-189 | two bytes for PINGREQ and DISCONNECT, unless the buffer is shorter |
| `PacketBytes.LengthNumbers` | mqtt/MQTTPacket/MQTTPacket.c:28-44 | 321 is written 193, 2 and the largest length 255, 255, 255, 127 |
| `PacketBytes.AckNumbers` | mqtt/MQTTPacket/MQTTSerializePublish.c:103-126 | acknowledgements as numbers: 0x40, 0x50, 0x62, 0x70 and 0xB0, the length 2, the identifier high byte first |
| `PacketBytes.ZeroNumbers` | mqtt/MQTTPacket/MQTTConnectClient.c:168-189 | PINGREQ is 0xC0 0, PINGRESP 0xD0 0, DISCONNECT 0xE0 0 |
| `PacketBytes.PublishNumbers` | mqtt/MQTTPacket/MQTTSerializePublish.c:51-90 | every PUBLISH with a one-byte length field as numbers: header bits, length, topic, identifier, payload |
| `PacketBytes.RequestNumbers` | mqtt/MQTTPacket/MQTTSubscribeClient.c:49-85 | SUBSCRIBE and UNSUBSCRIBE for one filter as numbers |
| `PacketBytes.RequestStarts` | mqtt/MQTTPacket/MQTTSubscribeClient.c:62-70 | requests of any length start with 0x82 and 0xA2, plus 8 for a duplicate |
| `PacketBytes.ReplyNumbers` | mqtt/MQTTPacket/MQTTSubscribeServer.c:81-109 | SUBACK and CONNACK as numbers |
| `PacketBytes.DefaultConnect` | mqtt/MQTTPacket/MQTTConnectClient.c:57-120 | the fourteen bytes of the CONNECT for the default options |
| `PacketBytes.FullConnect` | mqtt/MQTTPacket/MQTTConnectClient.c:57-120 | a CONNECT with will, user name and password: flags 0xEE and the order of the fields |
| `Transport.Network.Read` | mqtt/MQTTInterface.c:157-183 | takes exactly as many bytes as the library lets through, in order; succeeds if and only if that is all of them |
| `Transport.Network.Write` | mqtt/MQTTInterface.c:243-272 | everything goes on the wire, or -1 with exactly the prefix that got through; the answers left over are stated |
| `Transport.Network.Expired` | mqtt/MQTTInterface.c:305-311 | a timer has expired when its end is not in the future |
| `Transport.MovedAll` | mqtt/MQTTInterface.c:243-272 | a transport that answers often enough without an error, and moves something each time, lets everything through |
| `Transport.BrokeUsed` | mqtt/MQTTInterface.c:243-272 | a failure is put down to the transport only when it was asked to write, or had no answer left |
| `Framing.SegmentStable` | mqtt/MQTTPacket/MQTTPacket.c:361-410 | data that arrives later never changes a finished packet |
| `Framing.FrameIsSegment` | mqtt/MQTTPacket/MQTTPacket.c:361-410 | every packet a serialiser writes is one segment, byte for byte, wherever the stream goes on |
| `Framing.FrameTooBig` | mqtt/MQTTPacket/MQTTPacket.c:380-388 | a packet that does not fit is an error after its length field, which stands in the buffer in shortest form |
| `Framing.FrameIncomplete` | mqtt/MQTTPacket/MQTTPacket.c:361-410 | a packet of which any part is missing is no segment yet |
| `Framing.SegmentsOfStream` | mqtt/MQTTPacket/MQTTPacket.c:361-410 | a stream of packets is recovered completely and in order |
| `Framing.CutAnywhere` | mqtt/MQTTPacket/MQTTPacket.c:361-410 | wherever a stream that begins with a list of packets is cut, the finished segments are the first packets of the list or go on after all of them |
| `Framing.ReadersAgree` | mqtt/MQTTPacket/MQTTPacket.c:289-410 | on length fields of at most four bytes the two readers agree on result, buffer and consumption; on longer ones they agree on code and consumption exactly when the packet does not fit, and what each leaves in the buffer is stated |
| `Framing.ReadersDiffer` | mqtt/MQTTPacket/MQTTPacket.c:289-410 | a stream on which the two readers part |
| `Framing.FrameReader.constructor` | mqtt/MQTTPacket/MQTTPacket.c:361-370 | any idle state value starts a run |
| `Framing.FrameReader.DecodeNb` | mqtt/MQTTPacket/MQTTPacket.c:323-351 | the length field is resumed byte by byte; a fifth byte is an error, "call again" keeps the partial value |
| `Framing.FrameReader.ReadHeader` | mqtt/MQTTPacket/MQTTPacket.c:366-377 | state 0: the header byte, or nothing changes |
| `Framing.FrameReader.ReadField` | mqtt/MQTTPacket/MQTTPacket.c:380-388 | state 1: the field is put back in shortest form, and a packet too big for the buffer is given up |
| `Framing.FrameReader.ReadBody` | mqtt/MQTTPacket/MQTTPacket.c:390-409 | state 2: chunks of the body are put one after the other until none is missing |
| `Framing.FrameReader.ReadNb` | mqtt/MQTTPacket/MQTTPacket.c:361-410 | for every chunking and any number of "call again" answers, a call adds the next segment of the reference or keeps its place, and loses or invents no byte; it asks to be called again only when the transport brought nothing or a part of the body |
| `Framing.FrameReader.RunDelivers` | mqtt/MQTTPacket/MQTTPacket.c:323-410 | over whole runs, on packets that fit with anything behind them, the results are the first of these packets or go on after them, and all are there once the stream is read |
| `Framing.DecodeFrom` | mqtt/MQTTClient.c:82-107 | the value of the bytes taken, whether the field arrived in full or the source failed |
| `Framing.FetchPacket` | mqtt/MQTTClient.c:110-144 | header, length and body land in the buffer as the reference says, unless the transport fails; no header or a short body only after a failure, too big only for a length that does not fit |
| `Framing.ReadBlocking` | mqtt/MQTTPacket/MQTTPacket.c:289-315 | result, buffer and consumption are those of the reference |
| `Topics.IsTopicMatched` | mqtt/MQTTClient.c:147-175 | for every well-formed filter the pointer loop decides the level-wise relation |
| `Topics.SkipLevel` | mqtt/MQTTClient.c:162-167 | the inner loop moves to the last character of the level |
| `Topics.ScanIsLevelsMatch` | mqtt/MQTTClient.c:147-175 | literal levels match equal ones, `+` one non-empty level, a final `#` one or more levels of which the first is not empty |
| `Topics.AcceptsOnlyMatches` | mqtt/MQTTClient.c:147-175 | whatever the relation accepts, section 4.7.1 of MQTT 3.1.1 accepts |
| `Topics.StandardByPosition` | mqtt/MQTTClient.c:147-175 | the relation of section 4.7.1 level by level: every level `+` or equal, a final `#` for whatever is left, and as many levels as the name without it |
| `Topics.MissesExactly` | mqtt/MQTTClient.c:147-175 | for every filter and name, the relation is the standard's without the wildcards opposite an empty level and without `p/#` for `p` |
| `Topics.MissesOnlyParent` | mqtt/MQTTClient.c:147-175 | on names without empty levels it differs from the standard only in `p/#` not matching `p` |
| `Topics.MatcherAndStandard` | mqtt/MQTTClient.c:147-175 | the exact difference to section 4.7.1 for every well-formed filter and every name as character strings |
| `Topics.EmptyLevelMissed` | mqtt/MQTTClient.c:158-159 | `+/+` and `/f` match by the standard and not by the code |
| `Topics.ParentMissed` | mqtt/MQTTClient.c:174 | `p/#` and `p` match by the standard and not by the code |
| `Handlers.Lookup` | mqtt/MQTTClient.c:480-492 | searching the slots is looking up the map they stand for |
| `Handlers.FullTable` | mqtt/MQTTClient.c:497-504 | no free slot if and only if there are as many filters as slots |
| `Handlers.SetMeans` | mqtt/MQTTClient.c:474-513 | setting is a map update when the filter is there or a slot is free, and no change otherwise |
| `Handlers.RemoveMeans` | mqtt/MQTTClient.c:474-513 | removing takes this filter out of the map and nothing else |
| `Handlers.SetConsistent` | mqtt/MQTTClient.c:474-513 | no filter in two slots and no occupied slot without a handler, kept by set and remove |
| `Handlers.MatchingSlots` | mqtt/MQTTClient.c:178-208 | each slot whose filter passes the test and that has a handler is called once, in ascending order, and no other |
| `Handlers.DeliveredExactly` | mqtt/MQTTClient.c:178-208 | with well-formed filters a slot is called if and only if its filter is the name or matches it level by level, in ascending order; the default handler if and only if there is no such slot |
| `Handlers.HandlerTable.constructor` | mqtt/MQTTClient.c:56-63 | an initialised table stands for the empty map |
| `Handlers.HandlerTable.SetMessageHandler` | mqtt/MQTTClient.c:474-513 | a bounded map: set fails only when the filter is absent and the table full, remove only when it is absent |
| `Handlers.HandlerTable.Clean` | mqtt/MQTTClient.c:238-244 | the map becomes empty, the handler pointers stay |
| `Handlers.HandlerTable.DeliverMessage` | mqtt/MQTTClient.c:178-208 | the handlers of exactly the slots whose filter is the name or matches it by levels, in slot order, or the default one if and only if there is none; fails when nothing was called |
| `SessionTrace.PingDiscipline` | mqtt/MQTTClient.c:211-253 | between two PINGREQs of any run lies a PINGRESP, a close or a new connection |
| `SessionTrace.AcceptedMeans` | mqtt/MQTTClient.c:412-464 | the connection goes up only after a complete CONNECT, with a CONNACK of code 0 or without a code as the last packet since, and nothing closed in between |
| `SessionTrace.AcceptedExactly` | mqtt/MQTTClient.c:440-448 | over all packets the client can log, exactly the CONNACKs with code 0 or with a body shorter than two bytes are accepted |
| `SessionTrace.EmptyConnackAccepted` | mqtt/MQTTClient.c:440-448 | a CONNACK without a body is accepted as well |
| `SessionTrace.AckCorrespondence` | mqtt/MQTTClient.c:256-337 | over any run, the acknowledgements sent are those the packets received call for, in order, with their identifiers, and no others |
| `SessionTrace.ReplyToPublish` | mqtt/MQTTClient.c:276-301 | a QoS 1 PUBLISH calls for PUBACK and a QoS 2 PUBLISH for PUBREC with its own identifier, QoS 0 for nothing |
| `SessionTrace.ReplyToAck` | mqtt/MQTTClient.c:302-317 | PUBREC calls for PUBREL and PUBREL for PUBCOMP with the same identifier, nothing else calls for an answer |
| `PacketIds.IdAfterIs` | mqtt/MQTTClient.c:28-30 | the n-th identifier is 1 + n mod 65535, so never 0 and always 16 bits |
| `PacketIds.IdsDistinct` | mqtt/MQTTClient.c:28-30 | an identifier comes back after 65535 calls and not before |
| `Client.PublishInMemory` | mqtt/MQTTClient.c:282-283 | parsing the read buffer is parsing the packet in it; which PUBLISHes are handed on, and with which topic |
| `Client.MqttClient.constructor` | mqtt/MQTTClient.c:56-79 | a fresh client satisfies the invariant with an empty log and an empty handler table, whatever was in it |
| `Client.MqttClient.GetNextPacketId` | mqtt/MQTTClient.c:28-30 | the next identifier of the sequence |
| `Client.MqttClient.SendPacket` | mqtt/MQTTClient.c:33-53 | the packet goes out whole and restarts the send timer, or the call fails, for lack of time or a transport error and for nothing else |
| `Client.MqttClient.ReadPacket` | mqtt/MQTTClient.c:110-144 | the next segment of the stream is logged and in the buffer; an error only when the transport failed or the packet is too big; the receive timer is restarted by a whole packet and by nothing else |
| `Client.MqttClient.Keepalive` | mqtt/MQTTClient.c:211-235 | one PINGREQ is tried when a timer has run out and none is outstanding, failure when one is, nothing otherwise; it fails only with a timer run out, and without an outstanding ping only when its own was not sent |
| `Client.MqttClient.SendPing` | mqtt/MQTTClient.c:222-230 | a ping goes out, or fails for lack of time or a transport error; no room for it is no error |
| `Client.MqttClient.CloseSession` | mqtt/MQTTClient.c:247-253 | connection and ping flags fall, and the handlers go in a clean session only |
| `Client.MqttClient.HandlePublish` | mqtt/MQTTClient.c:276-301 | the handlers matching the topic are called and the acknowledgement that is owed is sent, or the call fails for a stated reason; a PUBLISH without a topic is dropped unless its length field is one byte |
| `Client.MqttClient.HandleAck` | mqtt/MQTTClient.c:302-317 | PUBREC and PUBREL are answered with their identifier, or the call fails for a stated reason |
| `Client.MqttClient.Dispatch` | mqtt/MQTTClient.c:263-324 | which packet types are answered, which reset the ping, which end the cycle; a packet that passes fails only when its answer was not sent |
| `Client.MqttClient.Respond` | mqtt/MQTTClient.c:263-329 | when it succeeds: a packet that passes fails only when its answer was not sent, or the keep-alive was reached with a timer run out and a ping unanswered or refused; and it does fail in each case with a ping unanswered |
| `Client.MqttClient.Cycle` | mqtt/MQTTClient.c:256-337 | the result is the packet type unless the packet passes and one of these reasons holds; with the answer sent or none due and no timer run out it succeeds and the flag stays; one packet, at most one answer, at most one ping; every cycle that reaches the keep-alive with a ping unanswered and either timer run out closes the session |
| `Client.MqttClient.BlamedExplained` | mqtt/MQTTClient.c:256-337 | the reasons for a failed cycle, told from the buffer, the clock, the transport and the timers |
| `Client.PassNumbers` | mqtt/MQTTClient.c:263-324 | the packet types that pass, as numbers |
| `Client.MqttClient.WaitFor` | mqtt/MQTTClient.c:394-407 | the wanted packet was received during the call, or it fails for a stated reason: the time is over, a transport error, a packet too big or not answerable, or a keep-alive timer run out; the handler table changes only by closing a clean session |
| `Client.MqttClient.Yield` | mqtt/MQTTClient.c:340-358 | succeeds only after the given time, and fails only with the session closed and for one of these reasons |
| `Client.MqttClient.Connect` | mqtt/MQTTClient.c:412-464 | the connection is up exactly when the call succeeds; then CONNECT with the options given, or the defaults for none, was the first and the acceptance the last event; every other result is the CONNACK's code, or a failure for a stated reason |
| `Client.MqttClient.AwaitConnack` | mqtt/MQTTClient.c:440-457 | the code of the CONNACK decides whether the connection comes up; without a CONNACK a failure for a stated reason |
| `Client.MqttClient.Publish` | mqtt/MQTTClient.c:616-675 | success means this message, not marked as a duplicate, went out under a fresh identifier and PUBACK or PUBCOMP came in after it; failure closes the session and happens only without a connection, without room for the packet, or for one of the reasons above |
| `Client.MqttClient.Subscribe` | mqtt/MQTTClient.c:516-561 | success means the request went out, a SUBACK came in after it, its grant is returned, and the handler was stored exactly when the SUBACK says so, in the table as it was or, after a close in between, as it was left; failure only for a stated reason, one of them a handler table without room |
| `Client.MqttClient.TakeSuback` | mqtt/MQTTClient.c:540-550 | the grant returned and the slots after a SUBACK of any shape; fails if and only if the handler is to be stored and cannot be |
| `Client.StoresExactly` | mqtt/MQTTClient.c:540-549 | over all SUBACKs the client can log, which ones store the handler |
| `Client.RefusalStored` | mqtt/MQTTClient.c:547-548 | a refusal is taken for a grant where `char` is signed, and only there |
| `Client.EmptySubackStores` | mqtt/MQTTClient.c:545-549 | a SUBACK without a body stores the handler |
| `Client.MqttClient.Unsubscribe` | mqtt/MQTTClient.c:572-613 | success means the request went out, an UNSUBACK came in, and exactly this filter left the table, also after a close in between; failure only for a stated reason |
| `Client.MqttClient.Disconnect` | mqtt/MQTTClient.c:678-699 | the session is closed in any case, after a DISCONNECT when it could be sent |
| `SessionRuns.OneCycle` | mqtt/MQTTClient.c:256-337 | a successful cycle writes the answer its packet calls for and at most one PINGREQ |
| `SessionRuns.NextFrame` | mqtt/MQTTClient.c:110-144 | a cycle over an intact transport takes exactly the next packet off the stream |
| `SessionRuns.Run` | mqtt/MQTTClient.c:365-383 | for any packets that fit, in any chunks and with anything behind them, n successful cycles consume the first n packets and put their answers on the wire in order, each followed by at most one PINGREQ |
| `Handoff.StepKeepsMutex` | modbus_task.c:100-103 | the mutex is held exactly by the thread inside its section |
| `Handoff.StepKeepsValues` | modbus_task.c:82-126 | every value taken was stored by the iteration it is filed under |
| `Handoff.StepKeepsOrder` | mqtt_task.c:204-212 | a signalled publisher has a newer value to take than all it took before |
| `Handoff.StepKeepsCount` | modbus_task.c:106-111 | the register counts up while every access succeeds and nobody else writes it |
| `Handoff.RunKeepsInv` | modbus_task.c:82-126 | the invariant holds in every state of every interleaving |
| `Handoff.PublishedInOrder` | mqtt_task.c:204-238 | values published are genuine (or the initial 0 after a spurious wake-up) and iterations never go back |
| `Handoff.RepeatsExactly` | mqtt_task.c:204-238 | a take repeats the iteration of the one before if and only if nothing was stored in between, and then the wake-up was spurious |
| `Handoff.NoReadingTwice` | mqtt_task.c:204-238 | in particular, without spurious wake-ups iterations strictly increase |
| `Handoff.PublishedValues` | modbus_task.c:82-126 | with only this task on the register, what is published counts up from the first reading modulo 65536 |
| `Handoff.SpuriousWakePublishes` | mqtt_task.c:207-212 | a run in which a spurious wake-up publishes a value nobody stored |
| `Handoff.SpuriousWakeRepeats` | mqtt_task.c:207-212 | a run in which a spurious wake-up publishes the value of one iteration twice |
| `Revocation.FindReason` | openssl-3.2.2/apps/ca.c:2360-2366 | the first reason equal but for case |
| `Revocation.ReasonIsFound` | openssl-3.2.2/apps/ca.c:2322-2336 | each reason is found under its own number even when case is ignored |
| `Revocation.Assemble` | openssl-3.2.2/apps/ca.c:2405-2428 | the allocated buffer holds the whole field, nothing is cut off by the bounded copies |
| `Revocation.MakeRevocationStr` | openssl-3.2.2/apps/ca.c:2347-2429 | the field for valid arguments, none for invalid ones |
| `Revocation.FieldTexts` | openssl-3.2.2/apps/ca.c:2373-2404 | which arguments are refused, and the field written out, for a revocation without reason, with a hold instruction and with a compromise time |
| `Revocation.ReasonTexts` | openssl-3.2.2/apps/ca.c:2360-2372 | a reason is accepted if and only if it is one of RFC 5280 but for case, and written as in the list |
| `Revocation.CutInPlace` | openssl-3.2.2/apps/ca.c:2545-2564 | overwriting two commas in a copy leaves the three pieces as C strings |
| `Revocation.UnpackRevinfo` | openssl-3.2.2/apps/ca.c:2534-2643 | date, reason code, hold instruction and compromise time of the field, or failure |
| `Revocation.CutField` | openssl-3.2.2/apps/ca.c:2545-2564 | cutting undoes putting together, also for arguments with commas |
| `Revocation.RevocationRoundTrip` | openssl-3.2.2/apps/ca.c:2534-2643 | date, argument and the reason code of section 5.3.1 of RFC 5280 come back, if and only if the date is a UTCTime |
| `Revocation.UnpackExactly` | openssl-3.2.2/apps/ca.c:2566-2640 | a field is read if and only if its date is a UTCTime and its reason is absent, a CRL reason, or a pseudo reason with an argument of its kind |
| `Serials.SerialTextOk` | openssl-3.2.2/apps/ca.c:702-720 | every serial number the CA writes passes its load check |
| `Serials.HexBytesValue` | openssl-3.2.2/crypto/bn/bn_conv.c:17-45 | the hexadecimal text stands for the number |
| `Serials.SerialTextMeans` | openssl-3.2.2/apps/ca.c:1788-1803 | the text starts with a minus sign exactly for a negative number and has its absolute value behind it |
| `Serials.KeyIs` | openssl-3.2.2/apps/lib/apps.c:1465-1473 | the key is the text without its leading zeros; another zero in front changes nothing |
| `Serials.KeysDistinct` | openssl-3.2.2/apps/lib/apps.c:1465-1473 | two serial numbers have the same index key if and only if they are equal |
| `CaDatabase.CheckSerial` | openssl-3.2.2/apps/ca.c:702-720 | accepts an optional sign and an even number of at least two hexadecimal digits, and nothing else |
| `CaDatabase.LoadCheck` | openssl-3.2.2/apps/ca.c:684-721 | succeeds if and only if every row passes |
| `CaDatabase.NewRowOk` | openssl-3.2.2/apps/ca.c:1909-1916 | a row for a new certificate passes the load check if and only if its expiry date can be read |
| `CaDatabase.RevokedRowOk` | openssl-3.2.2/apps/ca.c:2187-2197 | a row passes the load check after revocation if and only if it did before and the date is a UTCTime |
| `CaDatabase.CaDb.NoClash` | openssl-3.2.2/apps/lib/apps.c:1736-1758 | the index keys of the serial numbers are pairwise distinct, and so are valid subjects when they must be |
| `CaDatabase.CaDb.NumbersDistinct` | openssl-3.2.2/apps/lib/apps.c:1465-1473 | no number stands twice among the serial numbers the CA wrote itself |
| `CaDatabase.CaDb.Insert` | openssl-3.2.2/crypto/txt_db/txt_db.c:234-277 | the row is added and indexed unless a key clashes, then nothing changes |
| `CaDatabase.CaDb.Issue` | openssl-3.2.2/apps/ca.c:1781-1934 | recorded if and only if nothing clashes with its serial number and subject and the operator agrees; the row added is V, with the expiry date, no revocation date, the serial text and the subject, or the serial text for an empty one; the load check stands if and only if the expiry date can be read |
| `CaDatabase.CaDb.Revoke` | openssl-3.2.2/apps/ca.c:2099-2203 | succeeds exactly under the stated condition on serial number and subject, its insert-and-retry ends, only the certificate's own row changes, the row says R with the field made of the arguments, and an index that passed the load check still does exactly for a UTCTime and, when a row was added, a readable expiry date |
| `CaDatabase.CaDb.RevokeRow` | openssl-3.2.2/apps/ca.c:2176-2197 | succeeds if and only if the row has the certificate's subject (or serial text for an empty one), is not revoked and the arguments are valid; then its type is R, its revocation field theirs, and all else as it was |
| `CaDatabase.CaDb.UpdateDb` | openssl-3.2.2/apps/ca.c:2272-2320 | up to the first valid row with an unreadable date, exactly the rows of type V whose time is past become E with all else as it was; the result is the number of such rows, or -1 when there is an unreadable one |
| `CaDatabase.ChangedCounts` | openssl-3.2.2/apps/ca.c:2285-2318 | the counter of the loop is the number of rows that expire |
| `CaDatabase.CaDb.Load` | openssl-3.2.2/apps/ca.c:684-730 | loading succeeds if and only if every row passes and no keys clash |
| `CaRuns.Perform` | openssl-3.2.2/apps/ca.c:2099-2203 | one operation of any kind keeps the index sound, decides over the load check by its dates, and keeps rows saveable for plain arguments |
| `CaRuns.RunOps` | openssl-3.2.2/apps/ca.c:1781-2320 | after any sequence of issuing, revoking and expiring, keys are distinct, revoked rows are unchanged, only valid rows have expired, no row is lost, and the load check holds again if and only if no revocation took effect outside a UTCTime and every added row has a readable expiry date |
| `CaRuns.IssueAgain` | openssl-3.2.2/apps/ca.c:1805-1834 | after a certificate was issued, any operations later, another with its serial number or, with unique subjects, with its subject is refused |
| `CaRuns.IssueRevokeRevoke` | openssl-3.2.2/apps/ca.c:2099-2203 | a certificate that was issued is revoked exactly for valid arguments, its row says so in every field, and any operations later it cannot be revoked again |
| `CaRuns.UnreadableRecorded` | openssl-3.2.2/apps/ca.c:2133-2172 | revoking a foreign certificate with an unreadable expiry date succeeds and leaves an index that does not load |
| `CaRuns.Lifetime` | openssl-3.2.2/apps/ca.c:678-730 | an index loaded from any file, worked on by any operations with plain arguments and saved loads again if and only if it is not empty and none of them spoiled it, and comes back row by row |
| `CaRuns.SameNumberTwice` | openssl-3.2.2/apps/ca.c:702-720 | two rows that load together with one serial number in upper and lower case |
| `IndexFile.WriteRow` | openssl-3.2.2/crypto/txt_db/txt_db.c:198-226 | the line of a row, within the buffer asked for |
| `IndexFile.ReadRow` | openssl-3.2.2/crypto/txt_db/txt_db.c:77-107 | the fields of a line; a single empty extra field is tolerated, any other count is an error |
| `IndexFile.FieldsOfLine` | openssl-3.2.2/crypto/txt_db/txt_db.c:84-101 | each field that ends in a backslash swallows the separator behind it |
| `IndexFile.LineRoundTrip` | openssl-3.2.2/crypto/txt_db/txt_db.c:84-107 | a line gives its fields back if and only if no field but the last ends in a backslash, and is an error otherwise |
| `IndexFile.WrongCount` | openssl-3.2.2/crypto/txt_db/txt_db.c:77-107 | what becomes of a line with any number of fields: only the right number, or an empty one too many, is accepted |
| `IndexFile.EscapeIs` | openssl-3.2.2/crypto/txt_db/txt_db.c:212-219 | text without tabs is written as it is, and a backslash before each tab |
| `IndexFile.RowLine` | openssl-3.2.2/apps/include/apps.h:200-205 | the columns of the file in order |
| `IndexStore.ReadIndex` | openssl-3.2.2/crypto/txt_db/txt_db.c:20-125 | the loop over pieces of a file: lines put together in a growing buffer, comment pieces skipped, a last line without newline dropped |
| `IndexStore.WriteIndex` | openssl-3.2.2/crypto/txt_db/txt_db.c:187-232 | the file is the lines of the rows in order |
| `IndexStore.ReadLine` | openssl-3.2.2/crypto/txt_db/txt_db.c:55-76 | a line of any length is parsed whole, however many pieces it is read in |
| `IndexStore.CommentSkipped` | openssl-3.2.2/crypto/txt_db/txt_db.c:64-66 | a line that starts with # is skipped as far as the buffer reaches, and what is beyond is read as a new line |
| `IndexStore.LastLineDropped` | openssl-3.2.2/crypto/txt_db/txt_db.c:62-72 | a last line without newline is dropped, of any length |
| `IndexStore.ReadStorable` | openssl-3.2.2/crypto/txt_db/txt_db.c:55-107 | whatever the file, every row read has the right width, no newline, no comment sign at its start, and no field before a separator that ends in a backslash |
| `IndexStore.FileRoundTrip` | openssl-3.2.2/crypto/txt_db/txt_db.c:20-232 | the whole index is read back if and only if no field holds a newline, no row starts with `#` and no field but the last of a row ends in a backslash |
| `IndexStore.RewriteKeeps` | openssl-3.2.2/crypto/txt_db/txt_db.c:20-232 | whatever was read from some file survives every further round of writing and reading |
| `IndexStore.SaveableRowIs` | openssl-3.2.2/crypto/txt_db/txt_db.c:198-226 | what makes a row of the index survive the file, field by field |
| `IndexStore.SaveAndLoad` | openssl-3.2.2/apps/lib/apps.c:1670-1801 | a sound index whose rows survive the file comes back row by row, and loads again if and only if it is not empty and its rows pass the load check |
| `Policy.IndexByObj` | openssl-3.2.2/crypto/x509/x509name.c:71-90 | the first entry of the type after the given position, or -1 |
| `Policy.FindMatch` | openssl-3.2.2/apps/ca.c:1603-1629 | finds the CA's entry of this type and value if there is one |
| `Policy.ApplyLine` | openssl-3.2.2/apps/ca.c:1565-1645 | a line passes exactly when it is satisfied, and adds all entries of its type in order |
| `Policy.BuildSubject` | openssl-3.2.2/apps/ca.c:1553-1646 | succeeds if and only if every line is known and satisfied; the subject is the entries of the request whose type is that of a line, each as often as such a line occurs, in the order of the lines and for each line in the order of the request |
| `Policy.SubjectDrawn` | openssl-3.2.2/apps/ca.c:1553-1646 | the map from positions of the subject to pairs of line and entry is ascending and covers exactly the pairs of the same type |
| `Policy.SelectPicks` | openssl-3.2.2/apps/ca.c:1565-1645 | the entries of a type in the order of the request, all of them |
| `Policy.DropEmail` | openssl-3.2.2/apps/ca.c:1754-1779 | deleting while iterating removes exactly the e-mail entries and keeps the rest, position by position in order |
| `Policy.SelectAndWithout` | openssl-3.2.2/apps/ca.c:1754-1779 | taking and dropping a type share out the entries, none lost and none twice |

## Left out

- TLS and socket set-up, the Modbus library and thread creation: foreign calls.
- `MQTTFormat.c`, `main.c`, `utilis.c`, `MQTTPacket_equals`, `MQTTIsConnected` and the thin wrappers around modelled functions: easy members.
- The other OpenSSL applications, and in `ca.c` option parsing, signing, certificate parsing, prompts, file rotation, `get_certificate_status` and CRL generation.
- The `preserve` flag, RDN set numbers and string-type checks of `do_body`: the subject is modelled for the default settings.
- Matching an acknowledgement with the request it answers: the client does not compare identifiers.
- Two threads inside one client: each client operation is one atomic step, as in its mutex variant.
- SerializePublish: does not cover strings whose two representations differ, nor bodies of 128^4 bytes or more.
- RequestLength: does not cover filters whose two representations differ.
- SerializeRequest: does not cover strings whose two representations differ, nor bodies of 128^4 bytes or more.
- SerializeConnect: does not cover protocol versions other than 3 and 4, whose length the source does not count.
- Connect: does not cover options with a protocol version other than 3 and 4, with strings whose two representations differ, or with a body of 128^4 bytes or more.
- SerializeSuback: the room for the packet is required of the caller, because the source checks for less than it writes.
- SerializeConnack: the room for the packet is required of the caller, because the source checks for less than it writes.
- SerializeUnsuback: the room for the packet is required of the caller, because the source checks for less than it writes.
- DeserializeRequest: room for every entry is required of the caller, because the source never looks at `maxcount`.
- HandlePublish: says nothing about the handlers called for a PUBLISH without a topic and with a one-byte length field, because the source then matches an unassigned topic.
- Lifetime: saves after any operations, while the CA saves only after those that succeeded.
- Run: bounds the endless loop of `MQTTRun` by a number of rounds, any number.
- ReadIndex: texts are C strings, so a file with a NUL character is not covered.
- Revoke: memory failures are not modelled, as nowhere in this project; nor are the attribute file and the file rotation around SaveAndLoad.
- RevokeRow: a row with an empty type field is revoked by giving it the type R; the source writes past the end of the empty string there.
