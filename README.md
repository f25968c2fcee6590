# WS3 weather-station bridge, modelled in Dafny

`esphome/ws3.h` is an ESPHome component. It reads the serial line of a WS3
weather station, which sends one ASCII packet per reading in "basic" mode:

    c000s000g000t069r000p000h49b09945*38<CR><LF>

That is eight tagged, fixed-width decimal fields (33 bytes), then `*`, then
the XOR of the 33 payload bytes as two hexadecimal digits, then CR and LF.
The component frames the bytes into packets at each line feed. It checks the
delimiter and the checksum, and it decodes the fields of every accepted
packet into its `WS3Packet` record. From there `update()` publishes them.

The project models that core and proves what it does. It has six modules:

- `ArduinoString` (`arduino_string.dfy`) gives the byte-level semantics of
  the library calls the core relies on:
  - `String::indexOf`, `substring`, `charAt` and `toInt` (which is `atol`);
  - `strtoul(., 16)`.
  - `long` and `unsigned long` are 32 bits wide.
- `Validator` (`validator.dfy`) covers `validate_packet` as a method with its
  XOR loop, and the decision `process_packet` takes about a frame.
- `Decoder` (`decoder.dfy`) covers `parse_packet` and the `WS3Packet` fields
  as a value, `Reading`.
- `Transmitter` (`transmitter.dfy`) is the station's side of the protocol.
  It lays out the packet for a reading. It is the reference the validator and
  the decoder are proved against: a sent packet is accepted and decodes back
  to its reading. The round trip covers readings whose fields fit their widths
  without a sign (`Transmitter.Sendable`); a signed group such as `t-05` is
  covered on the decoding side by `Decoder.FieldOfNegative`.
- `Bridge` (`bridge.dfy`) holds the component itself:
  - class `WS3` with the `pkt_str`, `payload` and `pkt_ok` state and the
    `privPkt` record;
  - its `loop`, `process_packet` and `parse_packet`;
  - the `WS3Packet` class that `parse_packet` writes through a pointer.
- `QuotedPacket` (`quoted_packet.dfy`) is the packet quoted in `loop`. The
  bridge frames it whole, accepts it and reads 69 °F, 49 % and 994.5 hPa
  from it.

Bytes are `bv8`. The byte stream `available()`/`read()` becomes the
`input` parameter of `WS3.Loop`: `input` is the bytes available during one
call.

`ws3.h` is lenient in these places:

- The framer keeps the line feed, and the CR before it, in the frame it
  hands on.
- A missing tag is not an error. `indexOf` gives -1, so the field is read
  from offset 0. For a payload that starts with `c`, that reads 0
  (`Decoder.AbsentTagReadsFromStart`, `Decoder.AbsentTagReadsZero`).
- Non-hexadecimal checksum digits are not an error either. `strtoul` reads
  the longest hexadecimal prefix and gives 0 when there is none.
- Non-numeric field text is not an error. `toInt` reads the longest decimal
  prefix after white space and a sign.
- Decoding never fails; every field gets a value.
- Only the "basic" layout exists; the particulate variant is not in
  `ws3.h`.

## Model

| member | source | states |
|---|---|---|
| ArduinoString.IndexOf | esphome/ws3.h:190 | `indexOf`: -1 exactly when the tag is not in the C string (the bytes before the first NUL), otherwise the position of its first occurrence |
| ArduinoString.Substring | esphome/ws3.h:192 | `substring`: length after swapping reversed bounds and clamping to the string, and each byte is the source byte at the start offset plus its index |
| ArduinoString.CharAt | esphome/ws3.h:278 | `charAt`: the byte at the index, or NUL past the end |
| ArduinoString.ToInt | esphome/ws3.h:192 | `toInt` (`atol`) always lies in the 32-bit `long` range |
| ArduinoString.StrToULHex | esphome/ws3.h:289 | `strtoul(., 16)` always lies in the 32-bit `unsigned long` range |
| ArduinoString.IndexOfFirst | esphome/ws3.h:190 | when a tag occurs at k with neither the tag nor NUL before it, `indexOf` returns k |
| ArduinoString.ToIntOfDigits | esphome/ws3.h:192 | one to nine decimal digits are read by `toInt` as their decimal value |
| ArduinoString.ToIntNoDigits | esphome/ws3.h:192 | `toInt` of text that starts with no digit, space or sign is 0 |
| ArduinoString.ToIntNegative | esphome/ws3.h:192 | a minus sign followed by one to nine digits is read by `toInt` as the negated value of the digits |
| ArduinoString.ToIntBounds | esphome/ws3.h:192 | `toInt` of at most `width` bytes (1 to 9) lies strictly between -10^(width-1) and 10^width, so it never saturates |
| ArduinoString.StrToULHexOfPair | esphome/ws3.h:285-289 | two hexadecimal digits of either case read as the byte they spell (`3`,`D` gives 0x3D) |
| ArduinoString.StrToULHexNoDigits | esphome/ws3.h:289 | `strtoul(., 16)` of empty text, or of text whose first byte is no hex digit, white space or sign, is 0 |
| ArduinoString.StrToULHexOfSpace | esphome/ws3.h:289 | `strtoul(., 16)` of text that is only white space, or empty, is 0 |
| Validator.ValidatePacket | esphome/ws3.h:231-266 | `validate_packet` returns true exactly when the running XOR of all payload bytes, from 0, equals the checksum; the loop invariant ties the accumulator to the XOR of the bytes seen so far |
| Validator.HasDelimiter | esphome/ws3.h:278 | the delimiter test passes exactly when the frame is longer than 33 bytes and byte 33 is `*` |
| Validator.TransmittedChecksum | esphome/ws3.h:289 | the checksum read from bytes 34-35 lies in the 32-bit `unsigned long` range |
| Validator.PayloadOf | esphome/ws3.h:293 | the payload is bytes 0-32 of a frame of at least 33 bytes, and the whole frame when it is shorter |
| Validator.Validate | esphome/ws3.h:269-301 | a frame is rejected for its delimiter exactly when it is at most 33 bytes long or byte 33 is not `*`; accepted frames carry bytes 0-32 as payload and their XOR equals the checksum read at 34-35; mismatches carry both values, which differ |
| Validator.XorFoldAppend | esphome/ws3.h:247-255 | the XOR of a concatenation is the XOR of the parts' XORs |
| Validator.XorFoldUpdate | esphome/ws3.h:247-255 | replacing byte i changes the XOR by exactly the old byte XOR the new one |
| Validator.ChecksumAndPayload | esphome/ws3.h:277-293 | with `*` at 33 and two hex digits after it, the checksum is the byte they spell, the payload is bytes 0-32, and the frame is accepted exactly when the payload XOR equals it |
| Validator.SingleByteChangeRejected | esphome/ws3.h:257-265 | changing any one payload byte of an accepted frame makes it a checksum mismatch |
| Validator.MissingChecksumDigitsReadAsZero | esphome/ws3.h:289 | a 33-byte payload followed by `*` and only white space (or nothing) is accepted whenever its XOR is 0, since `strtoul` then reads 0 |
| Decoder.FieldStart | esphome/ws3.h:190-192 | the slice starts at 0 exactly when the tag is absent, otherwise one past the tag's first occurrence |
| Decoder.FieldText | esphome/ws3.h:190-192 | the slice `substring(idx+1, idx+1+width)` holds at most `width` bytes |
| Decoder.Field | esphome/ws3.h:190-192 | a field of `width` digits lies strictly between -10^(width-1) and 10^width |
| Decoder.Decode | esphome/ws3.h:185-229 | the eight fields are bounded by their widths (3,3,3,3,3,3,2,5) |
| Decoder.FieldAt | esphome/ws3.h:190-192 | when the first tag is at k with no NUL before it, the field is `toInt` of the `width` bytes after it |
| Decoder.FieldOfDigits | esphome/ws3.h:190-192 | when the first tag is at k and `width` digits follow, the field is their decimal value |
| Decoder.FieldOfNegative | esphome/ws3.h:190-192 | when the first tag is at k and a minus sign and digits follow it (a temperature group such as `t-05`), the field is the negated value of the digits |
| Decoder.AbsentTagReadsFromStart | esphome/ws3.h:190-192 | a field whose tag is absent is `toInt` of the first `width` bytes of the payload |
| Decoder.AbsentTagReadsZero | esphome/ws3.h:190-192 | in a payload starting with `c`, a field whose tag is absent reads 0 |
| Decoder.FieldAfterPrefix | esphome/ws3.h:190-192 | a tag preceded by neither itself nor NUL yields the decimal value of the digits after it, whatever follows |
| Decoder.FieldInLayout | esphome/ws3.h:185-229 | in a sequence of tagged digit groups, the field of a tag no earlier group uses is the value of that group's digits |
| Decoder.ByteNotInLayout | esphome/ws3.h:119 | a byte that is neither a tag nor a digit (such as the line feed) never occurs in a payload of tagged digit groups |
| Decoder.BasicLayoutLength | esphome/ws3.h:187 | the station's layout is eight tag bytes plus the digits of each field |
| Decoder.BasicGroupsDistinct | esphome/ws3.h:190-225 | the eight tags `c s g t r p h b` are pairwise distinct, and none is NUL or a digit |
| Decoder.FieldLocal | esphome/ws3.h:190-192 | a field depends only on the payload up to the end of its digits: two payloads that agree there, with the tag first found at k and no NUL before it, read the same value whatever follows |
| Decoder.DecodeLayout | esphome/ws3.h:185-229 | eight well-formed groups with the station's tags, order and widths decode to the decimal values of their digits |
| Decoder.DecodeBasicLayout | esphome/ws3.h:187-227 | a payload in the station's layout decodes, field by field, to the values of its digit groups |
| Transmitter.DecodeEncode | esphome/ws3.h:185-229 | decoding the payload the station sends for a reading gives that reading back, for every reading whose fields fit their widths without a sign |
| Transmitter.ValidateEncode | esphome/ws3.h:269-301 | the packet the station sends for a reading is accepted with its own payload |
| Transmitter.PacketHasOneLineFeed | esphome/ws3.h:119-121 | a sent packet's only line feed is its last byte |
| Transmitter.LineFeedOnlyAtEnd | esphome/ws3.h:119-121 | a payload free of line feeds, followed by `*`, two hex digits, CR and LF, has its only line feed at the end |
| Transmitter.XorFoldLayout | esphome/ws3.h:247-255 | the payload checksum can be taken group by group |
| Bridge.ReadLength | esphome/ws3.h:110-122 | what one `loop` call takes: up to and including the first line feed, or everything when there is none |
| Bridge.ReadLengthFirstLineFeed | esphome/ws3.h:110-122 | a prefix that ends in a line feed and holds no other is exactly what `loop` takes |
| Bridge.WS3Packet.constructor | esphome/ws3.h:173 | a new record holds zero in every member |
| Bridge.WS3Packet.Store | esphome/ws3.h:185-229 | every member of the record is written |
| Bridge.WS3.constructor | esphome/ws3.h:40-46 | the bridge starts with empty `pkt_str` and `payload`, `pkt_ok` false, and a fresh zeroed record |
| Bridge.WS3.ParsePacket | esphome/ws3.h:185-229 | after `parse_packet`, the record is the decoding of the payload, whatever it held before |
| Bridge.WS3.ProcessPacket | esphome/ws3.h:269-301 | returns true exactly when the frame is accepted; `payload` is cut only when the delimiter is there; the record is written only for an accepted frame, with the payload's decoding |
| Bridge.WS3.Loop | esphome/ws3.h:107-153 | takes no byte while a packet is pending, else exactly `ReadLength` bytes; a frame completed by a line feed (kept in the frame) is processed and the buffer and flag are reset; a frame without one stays buffered and nothing else changes; the record changes only for an accepted frame |
| Bridge.FramedPayloadAccepted | esphome/ws3.h:107-153 | any 33-byte payload without a line feed, followed by `*`, its checksum, CR and LF, is framed whole and accepted with that payload |
| Bridge.StationPacketDelivered | esphome/ws3.h:107-153 | a packet the station sends, followed by anything, is framed whole, accepted, and decodes to the reading it was built from |
| QuotedPacket.GroupValues | esphome/ws3.h:125 | the digit groups `000`, `069`, `49` and `09945` have the values 0, 69, 49 and 9945 |
| QuotedPacket.PayloadDecodes | esphome/ws3.h:124-125 | the quoted payload decodes to wind 0, temperature 69, rain 0, humidity 49 and pressure 9945 tenths of a hPa |
| QuotedPacket.PayloadChecksum | esphome/ws3.h:125 | the quoted payload's XOR is 0x38, the `38` after its `*` |
| QuotedPacket.FrameAccepted | esphome/ws3.h:124-125 | the quoted packet, with CR and LF, is 38 bytes, framed whole and accepted with its payload |

## Left out

- The UART: `available()` and `read()` become the `input` parameter of `Bridge.WS3.Loop`, which is the bytes available during one call.
- `setup()`, `reserve` and `init_buf`: they only size buffers and fill the log buffer.
- `update()` and the sensors: publishing the record is outside the core.
- Logging (`ESP_LOGD`/`ESP_LOGE`, `logbuf`, `toCharArray`): it has no effect on the state modelled here.
- Floating point: `rain_1h`, `rain_24h` and `air_pressure` are `float`s scaled by 0.01 and 0.1. The model keeps the integer `toInt` read from the wire, in hundredths of an inch and tenths of a hPa.
- The particulate-sensor packet variant: `ws3.h` has only the "basic" layout.
- `privPkt` is the component's private record (`ws3.h:173`), created zero-initialised by `new WS3Packet()`; the model makes it `Bridge.WS3.privPkt`, allocated by the constructor. Sharing of that record with other code is not modelled.
- `pkt_str`, `payload` and `pkt_ok` are file-scope globals in `ws3.h` (lines 40-46), shared by every `WS3` instance. The model makes them per-instance fields of `Bridge.WS3`, so it does not capture two components interleaving on the same buffer.
- ArduinoString.Substring: follows the `String::substring` of the ESP8266 and ESP32 cores, which copies by length and keeps embedded NUL bytes. Cores whose `substring` copies a C string (the AVR core) stop at the first NUL; there `payload = pkt.substring(0, 33)` is cut short at a NUL and `validate_packet` folds fewer bytes, which the model does not capture (`Validator.SingleByteChangeRejected` holds only for the length-based copy).
- Memory exhaustion: failure of `String` allocation while appending to `pkt_str` or cutting substrings is not modelled, and neither is an unbounded `pkt_str` running out of memory.
- The signedness of `char` is not modelled. Bytes are unsigned, which matches the comparisons the core makes (`'\n'`, `'*'`, the XOR compared as a `byte`).
- Decode determinism is not a separate lemma: `Decoder.Decode` is a function, and `Bridge.WS3.ParsePacket` states that the record afterwards depends on the payload only.
