# Faros streamer — a verified model of the frame path

The Faros streamer connects to a Faros ECG/accelerometer sensor over
Bluetooth. It reads the device's settings string and derives the size of a
streamed frame from it. A receiving thread cuts the byte stream into frames,
keeps the frames that start with the signature `MEP` and carry a matching
CRC-16 trailer, and unpacks each frame's sections (ECG, accelerometer, marker,
RR interval, temperature) onto Lab Streaming Layer outlets.

This project models that path in Dafny and proves properties of it:

- `bytes.dfy` (`Results`, `Bytes`): exceptions as a `Result`. It also holds the
  little-endian fields of the wire format: unsigned and signed 16-bit, unsigned
  32-bit, and arrays of signed 16-bit values.
- `settings.dfy` (`SettingsCodec`): the character tables and
  `unpack_settings`. Also `inv_lookup` and `mode_to_str`, with both round
  trips between a settings string and its decoded values.
- `layout.dfy` (`FrameLayout`): `get_packet_size` and the byte offsets of
  every section in a frame.
- `frame.dfy` (`FrameDecoder`): the header format, `unpack_data` and the
  regrouping of channel-major samples into per-sample rows. It also builds the
  frame a device sends for a reading and proves that decoding it gives the
  reading back.
- `clock.dfy` (`DeviceClock`): `binary_time_to_unix_time`.
- `streamer.dfy` (`Streamer`): `StreamerThread.run` and `stop`. The receive
  loop is a class method. It is proved against `Feed`, a function that takes
  the chunks received to the receive state, the frames passed on and the
  rejections. The lemmas about `Feed` state what the loop promises.

Facts about the code that the model follows:

- The packet number is a 32-bit field with `swapped = True`. That reverses its
  bytes, so it is a plain unsigned little-endian u32.
- With several ECG channels, the samples are regrouped into `n_ecg_s` rows of
  one value per channel.
- The marker sample is pushed when the signed marker value is greater than 0;
  a negative value pushes nothing.
- The settings `32100t00` put the accelerometer at 20 Hz, since the table maps
  `t` to 20. The frame is therefore 652 bytes (`FrameLayout.ExampleLayout`).
- Recovery from a rejected frame needs a received chunk that begins with
  `MEP`. Without one nothing is passed on again (`Streamer.ResyncSkips`).
- After a resync the chunk that begins with `MEP` becomes the whole buffer.
  When each received chunk is one whole frame (possible only for frames of at
  most 300 bytes, since run() reads at most 300 bytes at a time), each later
  frame is passed on only when the next chunk arrives: delivery lags one frame
  (`Streamer.LaggedDelivery`, `Streamer.Recovery`). When the chunk that ends
  the resync is shorter than a frame, as it always is for the 652-byte frame
  above, the thread continues exactly like a fresh stream that starts with
  that chunk, and nothing is delayed (`Streamer.ShortRestart`).
- run() keeps no count of rejected frames. The model's `rejected` counter in
  each trace belongs to the model alone; it lets `Conservation` and
  `Recovery` say how many rejections a stream went through.
- run() always reads the trailer signed (`SignedLE`). The model's thread takes
  the trailer reading as a parameter; `UnsignedLE` is the corrected reading of
  "## Findings".

## Model

| member | source | states |
|---|---|---|
| Bytes.I16 | faros_streamer/libfaros.py:469-470 | a signed little-endian 16-bit field lies in [-32768, 32768), is negative exactly when the high byte's top bit is set, and agrees with the unsigned reading modulo 2^16 |
| Bytes.U16RoundTrip | faros_streamer/libfaros.py:436-441 | unsigned 16-bit encoding and decoding are inverse in both directions |
| Bytes.I16RoundTrip | faros_streamer/libfaros.py:469-470 | signed 16-bit encoding and decoding are inverse in both directions |
| Bytes.U32RoundTrip | faros_streamer/libfaros.py:345-348 | the `<L` reading and its encoding are inverse in both directions |
| Bytes.I16s | faros_streamer/libfaros.py:469-470 | `Array(n, SLInt16)` yields n values, value i read from bytes 2i and 2i+1 |
| Bytes.EncodeI16s | faros_streamer/libfaros.py:469-470 | an array of signed 16-bit values takes two bytes per value |
| Bytes.I16sRoundTrip | faros_streamer/libfaros.py:469-470 | reading back an encoded array of signed 16-bit values gives the values |
| Bytes.EncodedAt | faros_streamer/libfaros.py:469-470 | value i of an encoded array sits at bytes 2i and 2i+1 |
| SettingsCodec.DecimalDigits | faros_streamer/libfaros.py:230 | str() of a non-negative int is a non-empty digit string, of two or more digits from 10 on |
| SettingsCodec.LookupSound | faros_streamer/libfaros.py:116-181 | `d[c]` on a table (`Lookup`) succeeds exactly on the table's keys and yields the value of the last pair with that key, as a dictionary literal keeps the later of two equal keys |
| SettingsCodec.InvLookupSound | faros_streamer/libfaros.py:228-231 | for a dictionary literal without repeated keys, inv_lookup (`InvLookup`) succeeds exactly on the renderings of the table's values and yields the key of the last pair whose value renders that way |
| SettingsCodec.LookupAt | faros_streamer/libfaros.py:116-181 | with distinct keys, each key looks up its own value |
| SettingsCodec.InvLookupAt | faros_streamer/libfaros.py:228-231 | for a dictionary literal without repeated keys or repeated renderings, each value's rendering reverse-looks-up its own key |
| SettingsCodec.TableRoundTrip | faros_streamer/libfaros.py:228-231 | on a bijective table inv_lookup undoes the lookup and the lookup undoes inv_lookup; inv_lookup fails exactly on strings no value renders to |
| SettingsCodec.DecimalInjective | faros_streamer/libfaros.py:230 | distinct ints have distinct str() renderings |
| SettingsCodec.StrInjective | faros_streamer/libfaros.py:230 | distinct numeric values, or distinct on/off words, render distinctly |
| SettingsCodec.DistinctValuesRender | faros_streamer/libfaros.py:230 | a table of distinct numbers, or of distinct on/off words, has distinct renderings, so the inverted dictionary loses no entry |
| SettingsCodec.TablesBijective | faros_streamer/libfaros.py:116-181 | each of the seven tables has distinct keys and distinctly rendered values |
| SettingsCodec.EcgFsBijective | faros_streamer/libfaros.py:116-127 | the ECG rate table is bijective |
| SettingsCodec.EcgResBijective | faros_streamer/libfaros.py:130-136 | the ECG resolution table is bijective |
| SettingsCodec.EcgHpBijective | faros_streamer/libfaros.py:138-144 | the ECG high-pass table is bijective |
| SettingsCodec.EcgRrBijective | faros_streamer/libfaros.py:147-153 | the RR on/off table is bijective |
| SettingsCodec.AccFsBijective | faros_streamer/libfaros.py:156-167 | the accelerometer rate table is bijective |
| SettingsCodec.AccResBijective | faros_streamer/libfaros.py:170-176 | the accelerometer resolution table is bijective |
| SettingsCodec.TempBijective | faros_streamer/libfaros.py:179-181 | the temperature on/off table is bijective |
| SettingsCodec.Positions | faros_streamer/libfaros.py:262-273 | positions 1..n-1 decode left to right; success iff all are valid; each value is its character's table entry; failure is the first failing position's exception |
| SettingsCodec.UnpackSettings | faros_streamer/libfaros.py:258-273 | succeeds iff the string after its 3-character prefix has 8 positions valid for their tables; position 0 is kept as the channel character; each field is its table's value; otherwise the first exception |
| SettingsCodec.ModeToStr | faros_streamer/libfaros.py:234-255 | the result has one character per looked-up setting plus the copied texts; a failure is a KeyError naming one of the five looked-up arguments |
| SettingsCodec.ModeToStrDefined | faros_streamer/libfaros.py:245-250 | mode_to_str succeeds iff each of the five looked-up arguments renders a value of its table; the ECG rate is looked up first, then the ECG resolution |
| SettingsCodec.FlagTables | faros_streamer/libfaros.py:147-153 | the RR and temperature tables accept exactly '0' and '1', mapping them to off and on |
| SettingsCodec.UnpackOf | faros_streamer/libfaros.py:258-273 | a string whose characters decode to given settings unpacks to those settings |
| SettingsCodec.EncodeChars | faros_streamer/libfaros.py:245-250 | each table value reverse-looks-up to a character that looks up to that value |
| SettingsCodec.EncodeCode | faros_streamer/libfaros.py:245-253 | mode_to_str of table values gives the 8 characters of their keys |
| SettingsCodec.DecodeOfCode | faros_streamer/libfaros.py:258-273 | a string built from table characters decodes to their values, the flags as off/on |
| SettingsCodec.RoundTripAt | faros_streamer/libfaros.py:228-231 | each value of a bijective table has a character that both lookups agree on |
| SettingsCodec.InverseAt | faros_streamer/libfaros.py:228-231 | a decoded position reverse-looks-up to the character it came from |
| SettingsCodec.EncodeThenDecode | faros_streamer/libfaros.py:234-273 | mode_to_str of any table values gives an 8-character string that unpack_settings decodes back to those values |
| SettingsCodec.DecodeThenEncode | faros_streamer/libfaros.py:234-273 | re-encoding what unpack_settings decoded gives back the 8 characters after the prefix |
| FrameLayout.DigitValue | faros_streamer/libfaros.py:189 | int() of one character succeeds exactly on an ASCII digit and gives back its value |
| FrameLayout.TableRatesExact | faros_streamer/libfaros.py:186-187 | every ECG and accelerometer rate of the tables is a multiple of 5 |
| FrameLayout.GetPacketSize | faros_streamer/libfaros.py:184-225 | succeeds iff the channel count is a digit; the layout is then well formed (consistent section sizes, frame a multiple of 4 bytes) |
| FrameLayout.Sized | faros_streamer/libfaros.py:192-213 | the sizes built from the sample counts are well formed and keep those counts |
| FrameLayout.PacketSizeExact | faros_streamer/libfaros.py:184-225 | the sample counts are the rates divided by 5; the channel count is the settings digit; the RR and temperature slots exist iff those settings are on; padding exists iff the unpadded size is not a multiple of 4 |
| FrameLayout.FieldsInsideFrame | faros_streamer/libfaros.py:391-431 | header, ECG, accelerometer, marker, RR and temperature follow one another without overlap and end before the 2-byte trailer |
| FrameLayout.ExampleSettings | faros_streamer/libfaros.py:258-273 | the reply `wms32100t00` decodes to 3 channels, 500 Hz ECG, 20 Hz accelerometer, RR and temperature off |
| FrameLayout.ExampleLayout | faros_streamer/libfaros.py:184-225 | those settings give 652-byte frames of 100 ECG samples, 4 accelerometer samples and 2 padding bytes |
| FrameDecoder.ParseHeader | faros_streamer/libfaros.py:448-466 | the header keeps the 3 signature bytes; its flag bits, most significant first, recompose the flag byte; the packet number is the little-endian value of bytes 4-7 |
| FrameDecoder.BitsOfByte | faros_streamer/libfaros.py:454-462 | a byte is the weighted sum of its eight bits |
| FrameDecoder.FlagBits | faros_streamer/libfaros.py:454-462 | reading a flag byte bit by bit gives back the eight header bits |
| FrameDecoder.EncodeHeader | faros_streamer/libfaros.py:448-466 | a header takes 8 bytes |
| FrameDecoder.HeaderRoundTrip | faros_streamer/libfaros.py:448-466 | header parsing and encoding are inverse in both directions |
| FrameDecoder.Transpose | faros_streamer/libfaros.py:398 | `[xs[i::n] for i in range(n)]` has n rows |
| FrameDecoder.StridedLength | faros_streamer/libfaros.py:398 | `xs[start::step]` has as many elements as strides from start land inside xs |
| FrameDecoder.StridedElem | faros_streamer/libfaros.py:398 | element j of `xs[start::step]` is `xs[start + j*step]` whenever that index lies inside xs |
| FrameDecoder.RowAt | faros_streamer/libfaros.py:398 | regrouping c blocks of n samples gives rows of c values; row i holds sample i of every block |
| FrameDecoder.CellOf | faros_streamer/libfaros.py:407 | regrouping loses nothing: value k is found in row k mod n, column k div n |
| FrameDecoder.ParsersFor | faros_streamer/streamer.py:143-181 | a section's parser and outlet exist iff the layout gives it samples; the marker parser always exists |
| FrameDecoder.UnpackData | faros_streamer/libfaros.py:370-434 | a frame produces at most five pushes; which ones, the gating lemmas below state |
| FrameDecoder.MarkerGating | faros_streamer/libfaros.py:412-417 | the marker sample is pushed iff the signed marker value is positive |
| FrameDecoder.RrGating | faros_streamer/libfaros.py:419-425 | RR is pushed iff its parser exists and the header's rr_in_packet bit is set, and only with the slot's value |
| FrameDecoder.TempGating | faros_streamer/libfaros.py:427-434 | temperature is pushed iff its parser exists, and only with its slot's raw value |
| FrameDecoder.EcgGating | faros_streamer/libfaros.py:393-402 | ECG is pushed iff its parser exists: the flat samples for one channel, per-sample rows for several |
| FrameDecoder.AccGating | faros_streamer/libfaros.py:404-410 | the accelerometer is pushed, as per-sample rows, iff its parser exists |
| FrameDecoder.EncodeFrame | faros_streamer/libfaros.py:370-434 | a frame built from a reading is exactly the layout's frame size |
| FrameDecoder.UnpackEncoded | faros_streamer/libfaros.py:370-434 | for every well-formed layout, unpacking the frame built from any reading, with the parsers streamer.py creates, pushes exactly the reading's values, gated as above |
| FrameDecoder.DecodedParts | faros_streamer/libfaros.py:391-431 | every section read from a built frame (header, ECG, accelerometer, marker, RR, temperature) is the reading's own |
| FrameDecoder.EncodedSections | faros_streamer/libfaros.py:395-406 | the header, ECG and accelerometer slices of a built frame are the encodings of the reading's values |
| FrameDecoder.SlotsOf | faros_streamer/libfaros.py:412-431 | the marker, RR and temperature slots of a built frame hold the reading's values |
| DeviceClock.StripLeft | faros_streamer/libfaros.py:347 | strip's left half removes a whitespace-only prefix and stops at a non-whitespace byte |
| DeviceClock.StripRight | faros_streamer/libfaros.py:347 | strip's right half removes a whitespace-only suffix and stops at a non-whitespace byte |
| DeviceClock.TimeReply | faros_streamer/libfaros.py:358-363 | the device's time reply is 8 bytes |
| DeviceClock.DeviceTimeRoundTrip | faros_streamer/libfaros.py:345-348 | the corrected reading (`DeviceTime`) recovers the time of every reply |
| DeviceClock.StripAgrees | faros_streamer/libfaros.py:347 | as written (`BinaryTimeToUnixTime`), the time is read iff neither the first nor the last time byte is whitespace; it then agrees with the corrected reading |
| DeviceClock.SpaceInLowByte | faros_streamer/libfaros.py:347 | time 0x03020120: the reading as written fails, the corrected one returns the time |
| Streamer.Feed | faros_streamer/utilities.py:132-171 | every frame passed on is exactly ps bytes |
| Streamer.FramesAcceptable | faros_streamer/utilities.py:148-164 | every frame passed on starts with MEP and its trailer equals the CRC of the bytes before it |
| Streamer.Advance | faros_streamer/utilities.py:133-171 | one pass of the receive loop; the model's rejection counter (run() keeps none) grows exactly when the pass starts a resync |
| Streamer.AdvanceFrames | faros_streamer/utilities.py:135-164 | a chunk passes on at most one frame, and none during a resync; the frame is appended after the earlier ones and is acceptable |
| Streamer.AdvanceShift | faros_streamer/utilities.py:132-171 | a receive step does not depend on the frames already passed on |
| Streamer.FeedAppend | faros_streamer/utilities.py:132-171 | receiving two runs of chunks in turn is receiving their concatenation: the frames of the first run come first |
| Streamer.AdvanceKeeps | faros_streamer/utilities.py:133-138 | outside a resync, a chunk that causes no rejection keeps every byte in order |
| Streamer.Conservation | faros_streamer/utilities.py:133-138 | without a rejection, the frames passed on followed by the buffer are the first buffer followed by every chunk: nothing lost, duplicated or reordered |
| Streamer.ResyncSkips | faros_streamer/utilities.py:166-171 | during a resync, chunks not starting with MEP are dropped and nothing is passed on |
| Streamer.ResyncToMep | faros_streamer/utilities.py:166-171 | the first resync chunk that starts with MEP becomes the whole buffer and ends the resync |
| Streamer.AlignedDelivery | faros_streamer/utilities.py:132-164 | a stream whose chunks are each one acceptable frame has every frame passed on, in order, with an empty buffer left |
| Streamer.LaggedDelivery | faros_streamer/utilities.py:133-171 | after a resync, each further frame-sized chunk passes on the frame before it, so delivery lags one chunk and the newest frame stays in the buffer |
| Streamer.Recovery | faros_streamer/utilities.py:133-171 | streaming recovers from a rejection: acceptable frames, one rejected chunk, chunks not starting with MEP, then acceptable frames give the earlier frames, one rejection and every later frame but the newest |
| Streamer.ShortRestart | faros_streamer/utilities.py:133-171 | a resync ending with a chunk shorter than a frame continues exactly like a fresh stream that starts with that chunk |
| Streamer.RejectionResyncs | faros_streamer/utilities.py:135-171 | a candidate that is not acceptable is never passed on: it is counted and starts a resync |
| Streamer.Sealed | faros_streamer/utilities.py:142-143 | a sealed frame is the body plus its 2-byte CRC |
| Streamer.SealedAcceptance | faros_streamer/utilities.py:128 | a sealed MEP frame is accepted when the trailer is read unsigned; read signed it is accepted iff its CRC is below 0x8000 |
| Streamer.SignedTrailerRejectsHighCrc | faros_streamer/utilities.py:128 | read signed, no frame whose CRC is 0x8000 or more is accepted |
| Streamer.HighCrcStream | faros_streamer/utilities.py:128-171 | a frame with CRC of 0x8000 or more is delivered with the unsigned trailer; with the signed one it is rejected and the thread resyncs |
| Streamer.EmitAll | faros_streamer/utilities.py:148-164 | each frame passed on adds at most five pushes to the outlets |
| Streamer.ShortStep | faros_streamer/utilities.py:133-135 | a chunk leaving less than a frame is appended and pushes nothing |
| Streamer.DeliverStep | faros_streamer/utilities.py:135-164 | an acceptable candidate is cut from the buffer and its pushes follow the earlier ones |
| Streamer.RejectStep | faros_streamer/utilities.py:135-171 | any other candidate is cut, starts a resync and pushes nothing |
| Streamer.ResyncStep | faros_streamer/utilities.py:166-171 | a resync chunk starting with MEP replaces the buffer; any other is dropped; nothing is pushed |
| Streamer.StreamerThread.constructor | faros_streamer/streamer.py:183-198 | a new thread is not streaming, has pushed nothing, and has the parsers that follow its layout; its trailer reading is `SignedLE` for the program as written and `UnsignedLE` for the corrected reading of "## Findings" |
| Streamer.StreamerThread.Stop | faros_streamer/utilities.py:174-175 | stop() clears the streaming flag and pushes nothing |
| Streamer.StreamerThread.Run | faros_streamer/utilities.py:114-171 | run() sets the streaming flag. It ends in the receive state `Feed` gives for the chunks received. The outlets' log grows by the pushes of `unpack_data` for exactly the frames `Feed` passes on, in order |

## Left out

- Bluetooth I/O is not modelled: `connect`, `disconnect`, `send_command`, `get_property` and `get_properties`. The commands run() sends before its loop (`wbaoms`, `wbaom7`) are left out with it.
- The socket's `recv(300)` is modelled by the sequence of chunks received. The model does not bound a chunk's length by 300 bytes, so its lemmas also cover chunks the socket cannot deliver. The model ends when the chunks run out; a blocking receive that never returns is not modelled.
- `set_device_time`, `get_device_time`, `unix_time_to_ts` and `binary_time_to_str` are left out: they use the clock, the time zone and time formatting. Only the byte-level reading of the reply is modelled.
- `crc16.crc16xmodem` is external code. It is a parameter of the model, and its `None` result stands for the TypeError run() catches.
- Threading is not modelled. `Stop` cannot interleave with `Run`, so a stop during a run is not captured.
- The LSL outlets are modelled as one log of push events. Stream names, channel formats and sampling rates are not modelled, and neither is `create_lsl_outlet`.
- FrameDecoder.TempGating: the pushed temperature is the raw slot value. The floating-point conversion to degrees Celsius is not modelled.
- DeviceClock.BinaryTimeToUnixTime: returns the unsigned integer. The `float()` of it is exact and is not modelled.
- FrameLayout.GetPacketSize: requires rates that are multiples of 5, which every table rate is (`TableRatesExact`). For other rates Python 3's `/` gives a fraction; that case is not modelled.
- FrameLayout.DigitValue: treats only ASCII digits as digits. Python's `int()` also accepts other Unicode digits and surrounding whitespace.
- SettingsCodec.ModeToStr: takes every argument as its text (`str(v)`). The default argument values are not modelled.
- The device-list file reader, `blink_device`, `configure_device`, `print_error` and the command-line front end are outside the modelled core.
- Streamer.StreamerThread.Run: the pushes of the frames are collected locally and reach the outlets' log when the chunks run out, not frame by frame. The order and content of the log are the same.
- FrameDecoder.Transpose: its own contract gives only the row count. The contents of the rows are stated by `StridedLength`, `StridedElem`, `RowAt` and `CellOf`.

## Findings

| source | as written | input that shows it | evidently intended | confidence | as-written member | corrected member |
|---|---|---|---|---|---|---|
| faros_streamer/utilities.py:128 | the CRC trailer is read as a signed 16-bit value (`Int16sl`) and compared with the unsigned CRC-16 of the frame | any MEP frame whose CRC-16 is 0x8000 or more: its trailer reads negative and never equals the CRC, so the frame is rejected and the thread resyncs | read the trailer unsigned, as the commented-out checksum code at libfaros.py:438 does with `ULInt16` | high (not executed) | Streamer.HighCrcStream | Streamer.SealedAcceptance |
| faros_streamer/libfaros.py:347 | `strip()` is applied to the four raw time bytes, so whitespace-valued bytes at either end are removed | the reply `wba` + time 0x03020120 + `\r`: its low time byte is 0x20, strip leaves 3 bytes and `struct.unpack("<L")` raises | take the four bytes after the 3-byte echo, whatever their values | high (not executed) | DeviceClock.SpaceInLowByte | DeviceClock.DeviceTimeRoundTrip |
