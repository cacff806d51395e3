# Telemetry framing of the ground system, in Dafny

This project models the packet framing used by the ground system's telemetry downlink and proves properties of it.

A frame carries four parts, in this order:
- a big-endian int16 type mask;
- a 4-byte timestamp;
- one payload block for each catalog flag set in the mask, in ascending flag order;
- a 4-byte big-endian footer holding the CRC-16 of everything before it.

The model covers four parts of the source:
- the channel catalog and the frame encoder of `serial_test/packet_util.py` (`PACKET_TYPE_*`, `PAYLOAD_SIZE`, `PAYLOAD_FORMAT`, `get_packet_types`, `create_packet`);
- the stream decoder `IliadDataController`: its constructor and the parse/commit body of `update`;
- the decoder's receive buffer and its per-channel series lists;
- the port settings of `SerialDataController` (defaults, `get_config`, `set_config`).

Modules:

- `Results`, `Wire`: the Option and Result types, and big-endian int16/int32 in two's complement.
- `Crc16`: bitwise CRC-16 with polynomial 0x1021 (ITU-T Recommendation V.41), most significant bit first, from a zero register.
- `Bits`: `get_packet_types` as a method with its loop, proved against `SetBits`. `SetBits` is the ascending list of the mask's set bits.
- `Fields`, `Catalog`:
  - Python `struct` packing for the codes `?`, `h` and `f`. A float is kept as its four raw bytes.
  - The twelve flags, `PAYLOAD_SIZE` and `PAYLOAD_FORMAT`.
  - The if/elif chain that maps a flag to its catalog entry.
- `Encoder`:
  - `create_packet` as a method with its loop, proved against the left fold `EncodeBlocks` over the yielded flags.
  - The fold is related to `EncodePrefix`, a recursion over catalog positions.
- `Decoder`:
  - Pure functions describe one `update`: `Step`, `ScanPrefix`, `Commit` and `Points`.
  - The class `IliadDataController` has fields `buffer`, `cursor` and `series`. Its methods follow the source's loops and are proved against those functions.
- `DecoderProperties`:
  - What one attempt consumes, keeps and commits.
  - A frame with a bad CRC still leaves its points in the series.
- `RoundTrip`: the decoder applied to a frame built by the encoder.
- `SerialConfig`: the port settings as a class, with `set_config` proved against `ApplyConfig`.

Outcomes of one `update` (`Decoder.Outcome`):

| outcome | when | buffer | cursor |
|---|---|---|---|
| `Idle` | the buffer holds at most 10 bytes | unchanged | unchanged |
| `Hang` | the mask is negative (see "Left out") | unchanged | 0 |
| `MissingFooter` | fewer than 4 bytes remain for the footer | unchanged | left advanced |
| `Accepted` | the footer matches the CRC | drops the whole frame | 0 |
| `Rejected` | the footer does not match | drops one byte | 0 |

- `MissingFooter` is where the source raises, because `packet_checksum` was never bound. Points already appended stay in the series.
- Under `Rejected`, the points the attempt appended also stay.

Behaviour of the code worth knowing:
- A present flag whose block does not fit is skipped without moving the cursor. The attempt goes on with the next flag rather than waiting for more bytes. The frame then usually fails its CRC and loses one byte.
- A missing footer raises. The attempt has already appended its points.
- Points are appended before the CRC check, so a rejected frame still leaves its values in the series. `DecoderProperties.CorruptFrameStillStores` exhibits one such frame.
- The decoder does not walk the flags decomposed from the mask. It walks the fixed list of the twelve catalog flags. Mask bits without a catalog entry (4096, 8192, 16384) are never visited. The encoder's if/elif chain skips those bits too. So a `create_packet` frame is accepted once the buffer holds more than 10 bytes (`RoundTrip.RoundTrip`). A frame with no blocks is exactly 10 bytes: on its own it waits as `Idle` until more bytes arrive (`RoundTrip.EmptyFrameWaits`).
- Only six packet types reach a series: arm status, altitude, acceleration, GPS coordinates, board temperature and board voltage. Blocks of the other six are consumed and checksummed but not stored.
- The footer is read as a signed int32 (`'>i'`) and compared with the 16-bit CRC. A CRC is below 2^16, so this equals comparing the zero-extended CRC (`Wire.Int32SmallValue`).

## Model

| member | source | states |
|---|---|---|
| `Catalog.Flag` | serial_test/packet_util.py:7-18 | the flag of catalog entry t is 2^Index(t) |
| `Catalog.CatalogFlags` | serial_test/packet_util.py:7-18 | there are 12 flags, entry i has flag 2^i, the flags are distinct and lie in 1..2048 |
| `Catalog.FlagsDistinct` | serial_test/packet_util.py:7-18 | two entries with the same flag are the same entry |
| `Catalog.Index` | serial_test/packet_util.py:7-18 | each packet type has a catalog position below 12 |
| `Catalog.EntryIndex` | serial_test/packet_util.py:7-18 | catalog entry i sits at position i |
| `Catalog.IndexEntry` | serial_test/packet_util.py:7-18 | every packet type is the catalog entry at its own position |
| `Catalog.PayloadSize` | serial_test/packet_util.py:20-33 | every `PAYLOAD_SIZE` entry is positive |
| `Catalog.Codes` | serial_test/packet_util.py:35-48 | every `PAYLOAD_FORMAT` is a valid big-endian layout of `?`, `h` and `f` codes |
| `Catalog.PayloadWidth` | serial_test/packet_util.py:20-48 | every `PAYLOAD_SIZE` equals the byte width of its `PAYLOAD_FORMAT` (`?`=1, `h`=2, `f`=4) |
| `Catalog.LayoutWidths` | serial_test/packet_util.py:36-47 | the widths of the formats used: `???`=3, `ff`=8, `fff`=12, `ffff`=16, `h`=2, `f`=4 |
| `Catalog.PackValues` | serial_test/packet_util.py:67-111 | a packed block is exactly `PAYLOAD_SIZE` bytes long |
| `Catalog.UnpackValues` | data_controllers/iliad_data_controller.py:100 | unpacking a block yields one value per format field |
| `Catalog.TypeOfFlag` | serial_test/packet_util.py:65-112 | a flag that selects a branch selects the entry whose flag it is |
| `Catalog.TypeOfFlagInverts` | serial_test/packet_util.py:65-112 | every catalog flag selects its own branch |
| `Catalog.TypeOfPow2` | serial_test/packet_util.py:65-112 | the flag 2^k selects entry k for k < 12 and no branch for k >= 12 |
| `Bits.LowestSetBit` | serial_test/packet_util.py:54 | `n & (~n+1)` of a non-zero n is positive, and at most n when n > 0 |
| `Bits.PacketTypes` | serial_test/packet_util.py:52-56 | the loop terminates for n >= 0 and yields exactly `SetBits(n)` |
| `Bits.SetBitsDecompose` | serial_test/packet_util.py:52-56 | the yielded flags strictly increase, sum to n, and each is a power of two whose bit is set in n |
| `Bits.SetBitsAreTheSetBits` | serial_test/packet_util.py:52-56 | 2^j is yielded iff bit j of n is set, and nothing else is yielded |
| `Bits.BitsFromContains` | serial_test/packet_util.py:52-56 | 2^j is among the flags of n scaled by 2^k iff bit j-k of n is set |
| `Bits.BitsFromElements` | serial_test/packet_util.py:52-56 | every yielded flag is 2^j for a set bit j |
| `Bits.BitsFromIncreasing` | serial_test/packet_util.py:52-56 | the yielded flags strictly increase (no repeats) |
| `Bits.BitsFromSum` | serial_test/packet_util.py:52-56 | the yielded flags sum to n |
| `Bits.LowestSetBitSplit` | serial_test/packet_util.py:53-56 | one iteration yields the lowest set bit, then continues with `n ^ b` |
| `Bits.SetBitsSplit` | serial_test/packet_util.py:52-56 | the flags of m are the flags of its low k bits followed by those of its higher bits |
| `Bits.NegativeMaskNeverClears` | serial_test/packet_util.py:52-56 | for n < 0, `n ^= b` keeps n negative after any number of steps, so the loop never ends |
| `Wire.Int16Value` | data_controllers/iliad_data_controller.py:74 | `'>h'` decodes to [-32768, 32768), negative iff the high byte is >= 0x80 |
| `Wire.Int16Bytes` | serial_test/packet_util.py:59 | `'>h'` packs to two bytes that decode back to the value |
| `Wire.Int32Value` | data_controllers/iliad_data_controller.py:153 | `'>i'` decodes to the int32 range, negative iff the first byte is >= 0x80 |
| `Wire.Int32Bytes` | serial_test/packet_util.py:115 | `'>i'` packs to four bytes that decode back to the value |
| `Wire.Int32SmallValue` | serial_test/packet_util.py:114-115 | a footer reads as a 16-bit CRC c iff its bytes are 0, 0, c / 256, c % 256 |
| `Crc16.Checksum` | serial_test/packet_util.py:114 | the CRC is below 2^16 |
| `Crc16.Register` | serial_test/packet_util.py:114 | the CRC register stays below 2^16 after any input |
| `Fields.PackField` | serial_test/packet_util.py:67 | a packed field has its code's width; `?` never fails; a value of the field's own type fails only as an `h` out of int16 range |
| `Fields.UnpackField` | data_controllers/iliad_data_controller.py:100 | unpacking yields a value of the code's own type |
| `Fields.Normalized` | serial_test/packet_util.py:67 | a value of the field's own type comes back unchanged |
| `Fields.UnpackPackField` | serial_test/packet_util.py:67 | unpacking a packed field gives the value as the field stores it |
| `Fields.Pack` | serial_test/packet_util.py:67 | a packed layout has exactly the layout's width |
| `Fields.Unpack` | data_controllers/iliad_data_controller.py:100 | unpacking yields one value of the right type per code |
| `Fields.UnpackPack` | serial_test/packet_util.py:67 | unpacking a packed layout gives each value as its field stores it |
| `Encoder.CreatePacket` | serial_test/packet_util.py:58-117 | the loop over the yielded flags computes `Encode` |
| `Encoder.PackBody` | serial_test/packet_util.py:62-112 | the flag loop computes the fold `EncodeBlocks`, where the first error wins |
| `Encoder.PackFlag` | serial_test/packet_util.py:66-112 | one pass appends the flag's block and advances `idx_data`, or does nothing for an unlisted flag |
| `Encoder.PackBlock` | serial_test/packet_util.py:66-112 | too few values left raises `MissingValue`; a packed block has `PAYLOAD_SIZE` bytes and uses `FieldCount` values |
| `Encoder.PackBlockUnpacks` | serial_test/packet_util.py:66-112 | unpacking the packed block gives value `idx+j` of the data, as field j stores it |
| `Encoder.Encode` | serial_test/packet_util.py:58-117 | a mask above 32767 fails exactly with `MaskOutOfRange`; a frame is at least 10 bytes |
| `Encoder.EncodeBlocksErrorSticks` | serial_test/packet_util.py:65-112 | once a flag raises, the whole loop raises that error |
| `Encoder.EncodeBlocksError` | serial_test/packet_util.py:65-112 | the flag loop never fails with the mask error |
| `Encoder.FlagStepError` | serial_test/packet_util.py:65-112 | one pass never fails with the mask error |
| `Encoder.PackNeverMaskError` | serial_test/packet_util.py:67 | packing a block never fails with the mask error |
| `Encoder.UnlistedFlagsAddNothing` | serial_test/packet_util.py:65-112 | flags without a branch add no bytes and consume no data values |
| `Encoder.HighFlagsUnlisted` | serial_test/packet_util.py:65-112 | every flag of bit 12 or above has no branch |
| `Encoder.EncodeUsesCatalogBits` | serial_test/packet_util.py:63-112 | for masks up to 32767 the loop equals the catalog-position recursion `EncodePrefix` |
| `Encoder.EncodePrefixIsLoop` | serial_test/packet_util.py:63-112 | the loop over the flags of the low k bits equals `EncodePrefix` through entry k |
| `Encoder.AppendCatalogFlag` | serial_test/packet_util.py:65-112 | appending a catalog flag to the flag list adds that entry's block step |
| `Encoder.CatalogFlagStep` | serial_test/packet_util.py:65-112 | a catalog flag's pass is its entry's block step |
| `Encoder.EncodePrefixShape` | serial_test/packet_util.py:63-112 | the body through entry k is as long as the payload sizes of the set entries, and has used their field counts |
| `Encoder.EncodePrefixExtends` | serial_test/packet_util.py:63-112 | shorter prefixes succeed too, and their body is a prefix of the longer body |
| `Encoder.EncodePrefixEntry` | serial_test/packet_util.py:66-112 | entry k appends exactly its packed block when its bit is set, and nothing otherwise |
| `Encoder.EncodePrefixGrows` | serial_test/packet_util.py:66-112 | entry k grows the body by `PAYLOAD_SIZE` when its bit is set, and leaves it alone otherwise |
| `Encoder.EntryBlock` | serial_test/packet_util.py:66-112 | the bytes entry k adds are its block packed from the data at index `CatalogFields` |
| `Encoder.EntryPacked` | serial_test/packet_util.py:66-112 | in a body that packed, every set entry packed from the data at index `CatalogFields` |
| `Encoder.EncodedLength` | serial_test/packet_util.py:58-117 | the frame length is 6, plus the payload sizes of the set catalog flags, plus 4 |
| `Encoder.EncodeValue` | serial_test/packet_util.py:58-117 | the frame is the header (mask, time), the catalog-ordered body and `'>i'` of the CRC over both |
| `Encoder.FrameLayout` | serial_test/packet_util.py:58-117 | bytes 0-1 hold the mask, bytes 2-5 the time, then the body; the footer's first two bytes are 0 and it reads as the CRC |
| `Decoder.ChannelsFit` | data_controllers/iliad_data_controller.py:16-47 | no type has more series lists than fields, and a stored type has one list per field |
| `Decoder.AllChannelsAreChannels` | data_controllers/iliad_data_controller.py:16-47 | the channel table lists exactly the controller's 32 series lists |
| `Decoder.Channels` | data_controllers/iliad_data_controller.py:113-148 | the lists bound to type t are its fields 0, 1, ... in order |
| `Decoder.ScanStep` | data_controllers/iliad_data_controller.py:95-104 | one pass never moves the cursor back or past the buffer, and consumes at most its own entry |
| `Decoder.ScanPrefix` | data_controllers/iliad_data_controller.py:81-104 | the cursor stays between the header end and the buffer end |
| `Decoder.NotYetConsumed` | data_controllers/iliad_data_controller.py:81-104 | the passes before an entry's own pass never consume it |
| `Decoder.Step` | data_controllers/iliad_data_controller.py:58-173 | every block an attempt consumes has its payload size |
| `Decoder.Commit` | data_controllers/iliad_data_controller.py:151-173 | the footer phase ends as `MissingFooter`, `Accepted` or `Rejected`, and keeps the time and the blocks |
| `Decoder.IliadDataController.constructor` | data_controllers/iliad_data_controller.py:10-47 | the buffer is empty, the cursor 0 and every series list empty |
| `Decoder.IliadDataController.Update` | data_controllers/iliad_data_controller.py:58-173 | outcome, buffer and cursor are those of `Step`, and each list gains exactly `Points` |
| `Decoder.IliadDataController.ParseFrame` | data_controllers/iliad_data_controller.py:60-173 | one attempt ends as `Commit` of the full flag loop and appends `Points` |
| `Decoder.IliadDataController.ParseBlocks` | data_controllers/iliad_data_controller.py:81-148 | the loop leaves cursor, payload and blocks equal to `ScanPrefix` over all 12 entries, and appends `Points` |
| `Decoder.IliadDataController.ParseBlock` | data_controllers/iliad_data_controller.py:95-148 | one pass is `ScanStep`; a consumed block has its payload size and appends `BlockPoints` |
| `Decoder.IliadDataController.StoreBlock` | data_controllers/iliad_data_controller.py:113-148 | a stored type appends field i of the unpacked block to its i-th list, and others append nothing |
| `Decoder.IliadDataController.StorePacketData` | data_controllers/iliad_data_controller.py:106-111 | each list named in `fields` gains `(timestamp, payload[i])` for its position i |
| `Decoder.IliadDataController.CommitFrame` | data_controllers/iliad_data_controller.py:151-173 | the footer phase leaves buffer and cursor as `Commit` says |
| `Decoder.ChannelsHits` | data_controllers/iliad_data_controller.py:106-111 | storing to a type's lists gives list c exactly its field's point when c.field < k |
| `Decoder.RoutedHits` | data_controllers/iliad_data_controller.py:113-148 | storing a routed block gives each list exactly its `BlockPoints` |
| `Decoder.StoredPoints` | data_controllers/iliad_data_controller.py:81-148 | consuming one more block adds exactly its `BlockPoints` to `Points` |
| `Decoder.StoredChannel` | data_controllers/iliad_data_controller.py:81-148 | one list's history after one more block is its start plus `Points` of the larger map |
| `Decoder.StoredStep` | data_controllers/iliad_data_controller.py:81-148 | the loop invariant "each list gained `Points` of the blocks so far" survives a stored block |
| `DecoderProperties.ScanShape` | data_controllers/iliad_data_controller.py:81-104 | the cursor is 6 plus the accumulated payload, which is the buffer's bytes from 6 to the cursor |
| `DecoderProperties.ShapeStep` | data_controllers/iliad_data_controller.py:95-104 | one pass keeps the payload equal to the bytes read since the header |
| `DecoderProperties.ScanConsumes` | data_controllers/iliad_data_controller.py:81-104 | an entry is consumed iff its flag is in the mask and its block fits at its cursor; the block is those bytes, and later passes keep it |
| `DecoderProperties.OwnPassConsumes` | data_controllers/iliad_data_controller.py:95-104 | an entry's own pass consumes it iff present and fitting, reading the bytes at the cursor |
| `DecoderProperties.LaterPassKeeps` | data_controllers/iliad_data_controller.py:81-104 | later passes keep what an entry's pass decided |
| `DecoderProperties.LaterPassBlocks` | data_controllers/iliad_data_controller.py:81-104 | a later pass leaves an earlier entry's block unchanged |
| `DecoderProperties.ConsumeStep` | data_controllers/iliad_data_controller.py:95-104 | one pass touches only its own entry, consuming the payload-size bytes at the cursor iff present and fitting |
| `DecoderProperties.StepBuffer` | data_controllers/iliad_data_controller.py:58-173 | at most 10 bytes: nothing changes; a negative mask hangs; a rejection drops one byte; an acceptance drops at least 10 bytes from the front |
| `DecoderProperties.StepProgress` | data_controllers/iliad_data_controller.py:58-173 | the buffer shrinks iff the attempt reached a CRC verdict |
| `DecoderProperties.StepStoresOnlyAfterHeader` | data_controllers/iliad_data_controller.py:58-80 | an attempt that never parses a header stores nothing |
| `DecoderProperties.MissingFooterRepeats` | data_controllers/iliad_data_controller.py:60-158 | without new bytes, a missing footer repeats the same attempt, appending the same points again |
| `DecoderProperties.AcceptedIffChecksum` | data_controllers/iliad_data_controller.py:151-159 | the footer is missing iff fewer than 4 bytes remain; otherwise the frame is accepted iff the CRC of the bytes read equals the footer as int32 |
| `DecoderProperties.AcceptedFooter` | data_controllers/iliad_data_controller.py:151-170 | an accepted footer is 0, 0 and the CRC's two bytes; the buffer keeps exactly what follows it |
| `DecoderProperties.CorruptFrameStillStores` | data_controllers/iliad_data_controller.py:103-173 | a 13-byte arm-status frame with a wrong footer is rejected, yet arm list 1 gains `(0.0, True)` |
| `DecoderProperties.ArmStatusAllSet` | data_controllers/iliad_data_controller.py:100 | the block 1 1 1 unpacks to three `True` values |
| `DecoderProperties.FlagsAfterArmStatusAbsent` | data_controllers/iliad_data_controller.py:81-104 | with only flag 1 present, the passes after the first consume nothing |
| `RoundTrip.FlagPresent` | data_controllers/iliad_data_controller.py:75-95 | a catalog flag is in the decomposed mask iff its bit is set |
| `RoundTrip.ScanReadsBody` | data_controllers/iliad_data_controller.py:81-104 | over an encoded frame, the flag loop through entry k reads exactly the encoder's body through entry k |
| `RoundTrip.ReadStep` | data_controllers/iliad_data_controller.py:95-104 | each pass reads exactly the block the encoder wrote for that entry |
| `RoundTrip.StepReads` | data_controllers/iliad_data_controller.py:95-104 | a present flag reads on to the next prefix of the body, and an absent one reads nothing |
| `RoundTrip.ConsumedBlock` | data_controllers/iliad_data_controller.py:95-104 | an entry is consumed iff present, and its block is what the encoder's body adds there |
| `RoundTrip.DecodedBlock` | data_controllers/iliad_data_controller.py:81-104 | the decoder consumes an entry iff its mask bit is set, and reads the block the encoder packed for it |
| `RoundTrip.RoundTrip` | data_controllers/iliad_data_controller.py:58-173 | a `create_packet` frame plus any later bytes is accepted, leaves exactly those bytes, and recovers the time and every packed block |
| `RoundTrip.PointsOfSentBlocks` | data_controllers/iliad_data_controller.py:106-148 | blocks holding exactly the packed entries give each list the points the sender meant for it |
| `RoundTrip.RoundTripPoints` | data_controllers/iliad_data_controller.py:106-148 | after the round trip each stored list gains the sent field value, as its format stores it, and nothing else |
| `RoundTrip.EmptyFrameWaits` | data_controllers/iliad_data_controller.py:58 | a frame with no blocks is 10 bytes, so on its own it is left untouched until more bytes arrive |
| `RoundTrip.ArmStatusRoundTrip` | data_controllers/iliad_data_controller.py:217-223 | `create_packet(1, t, (True, True, True))` is accepted and gives `[(t, True)]` on each arm list |
| `RoundTrip.ArmStatusFrame` | serial_test/packet_util.py:58-117 | that frame is 13 bytes |
| `RoundTrip.ArmStatusSent` | serial_test/packet_util.py:66-68 | that frame sends `True` for each arm field |
| `SerialConfig.SerialDataController.constructor` | data_controllers/serial_data_controller.py:15-20 | the settings start as name `''`, baud 9600, stop bits 1, parity `'N'` and byte size 8, which are valid |
| `SerialConfig.DefaultsValid` | data_controllers/serial_data_controller.py:15-20 | the defaults are valid settings |
| `SerialConfig.ConfigDict` | data_controllers/serial_data_controller.py:23-30 | `get_config` has exactly the five keys |
| `SerialConfig.SerialDataController.GetConfig` | data_controllers/serial_data_controller.py:23-30 | it reports the current settings, and feeding it back to `set_config` changes nothing |
| `SerialConfig.SerialDataController.SetConfig` | data_controllers/serial_data_controller.py:33-52 | the new settings are `ApplyConfig` of the old, and valid settings stay valid |
| `SerialConfig.StopBitsAccepted` | data_controllers/serial_data_controller.py:42-44 | stop bits are taken iff the value is an int, bool or float equal to 1, 1.5 or 2 |
| `SerialConfig.ParityAccepted` | data_controllers/serial_data_controller.py:46-48 | parity is taken iff the value is one of the strings N, E, O, M, S |
| `SerialConfig.ByteSizeAccepted` | data_controllers/serial_data_controller.py:50-52 | byte size is taken iff the value is an int or float equal to 5, 6, 7 or 8 |
| `SerialConfig.TypeChecks` | data_controllers/serial_data_controller.py:34-40 | a bool is not taken as baud rate, any int is (zero and negatives too), and a non-str is not taken as port name |
| `SerialConfig.AbsentKeysKeep` | data_controllers/serial_data_controller.py:33-52 | a setting whose key is absent keeps its value |
| `SerialConfig.KeysIndependent` | data_controllers/serial_data_controller.py:33-52 | dropping one key changes no other setting's outcome |
| `SerialConfig.ApplyKeepsValid` | data_controllers/serial_data_controller.py:33-52 | `set_config` keeps stop bits, parity and byte size among their options |
| `SerialConfig.ConfigRoundTrip` | data_controllers/serial_data_controller.py:23-52 | `set_config(get_config())` leaves valid settings unchanged |
| `SerialConfig.ApplyIdempotent` | data_controllers/serial_data_controller.py:33-52 | applying the same dictionary twice equals applying it once |

## Left out

- Serial I/O is not modelled:
  - the `is_open` test and the polling of `port.in_waiting` / `read_all` in `update`, which become the `newBytes` argument of `Update`;
  - `open`, `is_open` and `close`;
  - the pyserial `Serial` objects.
- `add_config_menu` and its GUI widgets are not modelled.
- `serial_test/monitor.py` and `serial_test/data_controller.py` are not part of this model. The first is a script on a live port; the second is a base class of empty stubs.
- The in-file `test()` needs real ports and is not modelled. `RoundTrip.ArmStatusRoundTrip` states its arm-status expectation for one `update`. The float expectations need IEEE arithmetic.
- Floating point is not modelled. Timestamps and `f` fields are their four raw big-endian bytes, so the round trip is byte-exact. `math.isclose` and float rounding are left out.
- The CRC is assumed to be the `crc` package's CCITT configuration with a zero initial register, no reflection and no final XOR. That package is not part of this model.
- `Encoder.Encode`: an int given for an `f` field fails with `IntAsFloat`. The int-to-float32 conversion `struct.pack` would perform is not modelled.
- `Encoder.Encode` requires a non-negative mask, so `create_packet` on a negative mask is not modelled:
  - from -32768 to -1, `get_packet_types` yields flags forever (`Bits.NegativeMaskNeverClears`). `create_packet` consumes them lazily. It raises as soon as a catalog block fails: `IndexError` when `data` holds too few values, or `struct.error` for a bad value. Otherwise it never returns.
  - below -32768, `struct.pack('>h')` raises first.
- `Decoder.Step`: a negative mask read by `update` is the outcome `Hang`, with buffer and series unchanged and the cursor reset to 0. The source loops forever in `get_packet_types` instead.
- `idx_cursor` is not set by `__init__` in the source. The model starts it at 0, which `update` overwrites before use.
- `IliadDataController` inherits the port settings of `SerialDataController`. The model keeps them in the separate class `SerialConfig.SerialDataController`.
- The decoder imports `utils.packet_util`, which is not part of this model. It is taken to be `serial_test/packet_util.py`, which defines the same names.
- `set_config` is not modelled for values that are objects with their own `__eq__`, for str or int subclasses, or for NaN and infinite floats (`PyOther` equals nothing).
