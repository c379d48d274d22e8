# Verified model of the RC boat firmware

This Dafny project models the firmware of the two computers of the boat, the Pico
(sensor hub) and the Zero, and proves what their code promises: a link that delivers,
a log that loses nothing, a store that is a map, parsers that find every frame, and
small state machines that keep their word over every run.

`dafny verify dfyconfig.toml` checks all of it.

## The parts

- **Link** (`common/comm`). `Bytes` and `Crc16` hold the byte encodings and the
  checksum as bit-vector arithmetic. `Frames` is the parser as a pure scan of a byte
  stream, `Codec` the messages, `Endpoint` the endpoint as a value, `Link` two of them
  back to back. `Layout` gives the bytes of every message, `Reactions` what every frame
  that arrives brings about. `Cursor` and `Comm` are the code itself: a writer and a reader that
  advance over data, and an endpoint with its buffer and counter arrays updated in
  place, proved against the others.
- **Log** (`pico/lib/log`). `LogSpec` is the queue and its stop-and-wait sender,
  `PicoLog` the linked list that implements it, `LogProtocol` the whole system: both
  endpoints, the log, and two channels that may lose any frame, with the real counters
  of 8 bits. `LogProgress` counts the rounds that bring everything across,
  `LogTiming` says when lines go out.
- **Store** (`pico/lib/storage`). `Crc32`, `StoreSpec` and `StoreProofs` say what every
  flash image means, corrupt ones included, `StoreLayout` its bytes; `Storage` is the
  code over a byte array.
  `Settings` is what `pico/main.c` keeps in it, over runs of requests and restarts,
  `SettingResults` the answers.
- **UBX** (`pico/lib/gps`). The byte-at-a-time parser, the builder and the checksum;
  `UbxSound` shows that the parser makes nothing up.
- **Command socket** (`rpi/main.c`). `SocketSpec` and `Socket`: the line splitter, the
  one request that may wait, and the order of the reader loop; `SocketLaws` is one pass
  in bytes and milliseconds.
- **Commands and calibration** (`pico/main.c`, `pico/lib/imu`). `CommandSpec`,
  `CommandLaws`, `Commands` and `Calib`.
- **CAN ring** (`pico/lib/can`). `CanRing`.
- **Rotation** (`pico/lib/imu`). `Rotation`, over `Vectors`.

Where the code works step by step the model is a class or a method with the same
fields, loops and order; its contract names a function of the old state, and the
promises are lemmas about that function.

## What the model assumes

- One session of the link: neither side restarts while the other runs, since counters
  and the record of seen types start fresh.
- A channel drops whole frames but does not reorder or make up frames. Damage inside
  frames is the subject of `Frames` and `Crc16`.
- One received frame is handled in one step, with the calls it makes. A message that a
  handler sends is a step of its own.
- Memory may be short at any time; whether an allocation succeeds is a parameter of the
  call (`room` for the entry of a log line), or the field `heap` of an endpoint,
  constant during one call.
- Log text has no zero byte, as `vsnprintf` makes it. A line over 65533 bytes stays at
  the head and is tried again for ever; progress is stated for lines that fit.
- Whether the flash or a save succeeds is a parameter. A flash operation that fails has
  not written.
- What a device does with a rate is a parameter of each call: it takes it, refuses it, or
  takes it without the answer getting through, which the caller sees as a failure. Of the
  IMUs only an ICM-20948 holds a rate or can refuse one (`pico/lib/imu/imu.c:100-106`),
  and there is at most one (`pico/main.c:85-101`).
- `now` is one reading of the clock for a call, or for a pass of the loop.
- Words in the store are little-endian, as both computers are. The gain `beta` is
  compared by its bits, which order positive IEEE 754 floats as their values.
- Calibration and rotation are over exact reals. The square root is a parameter with
  the one property that is used: it is positive and its square is the argument.
- The flag bits of a CAN id are bits 31 and 30; the header of the CAN library that
  defines them is not part of this model.

## Where the code differs from its documentation

- The repository's README.md:520-521 says the Zero writes a line and then confirms it. The code confirms
  before it calls the handler (`common/comm/comm.c:522-527`); the model follows it.
- The repository's README.md:495-496 says a frame with a wrong CRC is discarded. The code discards one
  byte of it and searches again (`common/comm/comm.c:563-571`), which is what makes
  `Frames.Resynchronises` true.

## Claims that hold under a condition

- A gap in the counters of a type is reported unless a multiple of 256 messages is
  missing (`Endpoint.LossNoticedIff`).
- A built UBX frame is delivered only from the parser's start (`Ubx.DeliveredIff`): one
  stray sync byte in front of it loses it (`Ubx.StraySyncLosesFrame`).
- The checksum of a frame finds all damage within two adjacent bytes behind the length,
  except at one place: it is computed high bit first but sent low byte first, so one change of the
  last covered byte and the first checksum byte goes unnoticed in every frame
  (`Frames.EdgeDamageIff`).
- The CAN ring survives the wrap of its indices only if its capacity divides 2^32
  (`CanRing.FaithfulIff`); the default of 32 does.
- A reply can answer a later request of the same type and id after a timeout
  (`SocketSpec.OwnReplyIff`; `SocketSpec.LateReplyAnswersNext` is such a run).
- A client whose pipelined requests fill the buffer is dropped (`SocketSpec.DroppedIff`).
- A restart leaves a running gyro calibration without its reply
  (`CommandSpec.RunAnswers` counts those).
- A device keeps a rate that memory and flash do not have when the restoring call is
  refused, or is not made because a GPS receiver did not answer (`Settings.InSyncIff`;
  `Settings.ImuLeftBehind` is such a request).
- A start uses stored settings unchecked (`Settings.BootInRange`).

## Model

| member | source | states |
|---|---|---|
| Bytes.U32Digits | common/comm/comm.c:45-48 | Byte i of a 32-bit word as it travels is the word divided by 256^i, modulo 256 |
| Bytes.U64Digits | common/comm/comm.c:50-53 | The same for the eight bytes of a 64-bit word |
| Crc16.Compute | common/comm/comm.c:100-109 | The nested loop computes the CRC-16 function, for data of every length |
| Crc16.BytesRefineBits | common/comm/comm.c:100-109 | The byte-wise register is the bit-serial division register of the generator polynomial, fed the same bits in order |
| Crc16.BurstDetected | common/comm/comm.c:100-109 | Equal-length inputs that differ only within 16 consecutive bits, most significant bit of a byte first, have different checksums, at every length |
| Crc16.TwoBytesDetected | common/comm/comm.c:100-109 | Equal-length inputs that differ only within 2 adjacent bytes have different checksums, in whatever order their bits travel |
| Crc16.EdgeChangeIff | common/comm/comm.c:182-182 | Of all changes of the last covered byte together with the first checksum byte sent exactly one keeps the checksum valid, whatever the message |
| Crc16.SealedIsEven | common/comm/comm.c:100-109 | The bit parity of data followed by its checksum is constant, so parity is carried by the checksum |
| Crc16.OddFlipsDetected | common/comm/comm.c:563-571 | An odd number of flipped bits anywhere in the covered bytes and the checksum is always detected |
| Crc16.CheckValue | common/comm/comm.c:100-109 | The digits 1 to 9 in ASCII have the published check value 0x29B1 |
| Frames.FrameBytes | common/comm/comm.c:163-187 | A sent frame byte by byte: marker, length, type, counter, data, and the checksum of all but the marker, both numbers low byte first |
| Frames.JudgeStable | common/comm/comm.c:536-575 | What the parser decides about a buffer (skip, good, bad) does not change when more bytes follow |
| Frames.ScanResumes | common/comm/comm.c:536-584 | Scanning a stream is scanning its first part and then the leftover with the rest |
| Frames.ChunksDoNotMatter | common/comm/comm.c:578-584 | Any cutting of a byte stream into reads gives the same deliveries, the same CRC reports and the same leftover |
| Frames.ScanWire | common/comm/comm.c:163-187 | A concatenation of sent frames is scanned into exactly those packets, nothing left over |
| Frames.GoodIsEncoded | common/comm/comm.c:559-575 | A buffer judged good starts with exactly the bytes the sender makes for the packet that is delivered |
| Frames.ScanIsSound | common/comm/comm.c:536-576 | Delivered packets occur in the stream as whole encoded frames, in order and without overlap: none is made up |
| Frames.BurstRejected | common/comm/comm.c:563-571 | A frame whose covered bytes behind the length are damaged within 16 consecutive bits, most significant bit of a byte first, is judged bad: reported and not delivered |
| Frames.AdjacentBytesRejected | common/comm/comm.c:563-571 | A frame damaged within 2 adjacent bytes behind its length and before its checksum is judged bad |
| Frames.EdgeDamageIff | common/comm/comm.c:163-187 | Where data meets checksum a two-byte change is accepted for exactly one pair of changes, in every frame: the checksum goes low byte first |
| Frames.OddFlipsRejected | common/comm/comm.c:563-571 | A frame with an odd number of flipped bits behind its length field is judged bad |
| Frames.Resynchronises | common/comm/comm.c:536-576 | Noise in which no valid frame starts costs only error reports; the frame behind it is delivered intact once FRAME_MAX - 1 bytes have come from its start |
| Codec.WordsRoundTrip | common/comm/comm.c:45-61 | Little-endian words read back as written |
| Codec.ImuRoundTrip | common/comm/comm.c:189-403 | IMU samples survive packing and unpacking |
| Codec.ImuOnto | common/comm/comm.c:189-403 | Every 84-byte block is the packing of the sample it unpacks to |
| Codec.GpsRoundTrip | common/comm/comm.c:214-424 | GPS fixes survive packing and unpacking |
| Codec.GpsOnto | common/comm/comm.c:214-424 | Every 30-byte block is the packing of the fix it unpacks to |
| Codec.CanRoundTrip | common/comm/comm.c:231-443 | CAN frames survive, with data bytes past the length zeroed |
| Codec.CanOnto | common/comm/comm.c:231-443 | Received CAN data is reproduced by sending it back if and only if it has no stray flag bits |
| Codec.PackUnpack | common/comm/comm.c:243-315 | Every message of every type that can be packed unpacks to its normal form, and unpacks to itself exactly if a CAN frame has zeros behind its data and a command a sample count only with id 3 |
| Codec.UnpackPack | common/comm/comm.c:479-521 | Unpacking is inverted by packing exactly on the canonical data: no stray CAN flags, two more command bytes only behind id 3 and not both zero |
| Codec.PackedLength | common/comm/comm.c:279-307 | Packed data of every fixed-length type fits the buffer of 84 bytes |
| Layout.ImuBytes | common/comm/comm.c:189-212 | Every field of an IMU sample at its offset in the 84 bytes, low byte first |
| Layout.GpsBytes | common/comm/comm.c:214-229 | Every field of a GPS fix at its offset in the 30 bytes |
| Layout.CanBytes | common/comm/comm.c:231-241 | Id, flag bits, length and data of a CAN frame in place; exactly frames of over 8 data bytes are refused |
| Layout.TextBytes | common/comm/comm.c:251-260 | A text is severity, source and the text itself |
| Layout.ReplyBytes | common/comm/comm.c:284-290 | Type, id and result of a reply in place |
| Layout.SettingBytes | common/comm/comm.c:299-304 | Id and value bits of a setting in place |
| Layout.CommandBytes | common/comm/comm.c:291-298 | A command is its id alone, but for a gyro calibration with a sample count, which follows low byte first |
| Layout.CommandArrives | common/comm/comm.c:502-506 | A gyro calibration arrives with its sample count, whatever it is, and every other command with none |
| Layout.AckBytes | common/comm/comm.c:305-305 | A confirmation is the counter it confirms |
| Cursor.Writer.PutU16 | common/comm/comm.c:40-43 | Appends the two bytes of the value, low byte first |
| Cursor.Writer.PutU32 | common/comm/comm.c:45-48 | Appends the four bytes of the value in order |
| Cursor.Writer.PutU64 | common/comm/comm.c:50-53 | Appends the eight bytes of the value in order |
| Cursor.Writer.PackImu | common/comm/comm.c:189-212 | The sequence of puts writes exactly the packed sample |
| Cursor.Writer.PackGps | common/comm/comm.c:214-229 | The sequence of puts writes exactly the packed fix |
| Cursor.Writer.PackCan | common/comm/comm.c:231-241 | Writes the packed frame, or fails for more than 8 data bytes |
| Cursor.PackData | common/comm/comm.c:279-307 | The type switch fills a buffer of 84 bytes with the packed message, in bounds, and fails exactly when packing does |
| Cursor.Reader.GetU8 | common/comm/comm.c:68-74 | Gives the next byte, and zero past the end |
| Cursor.Reader.GetU64 | common/comm/comm.c:86-89 | Gives the next eight bytes as one value, low half first, with zeros for those past the end |
| Cursor.Reader.UnpackImu | common/comm/comm.c:376-403 | The sequence of gets yields the unpacking function, or nothing for a wrong length |
| Cursor.Reader.UnpackGps | common/comm/comm.c:405-424 | The sequence of gets yields the unpacking function, or nothing for a wrong length |
| Cursor.Reader.UnpackCan | common/comm/comm.c:426-443 | Yields the unpacking function; a length field that is over 8 or disagrees with the data gives nothing |
| Cursor.UnpackData | common/comm/comm.c:470-514 | The type switch yields the unpacking function, nothing meaning a length error |
| Endpoint.RunSplit | common/comm/comm.c:449-528 | Handling a list of parser events is handling its two parts one after the other |
| Endpoint.ReceiveResumes | common/comm/comm.c:578-584 | Receiving a stream is receiving its first part and then, with the state reached, the leftover and the rest |
| Endpoint.ReceiveStep | common/comm/comm.c:536-576 | One parser decision followed by receiving what remains is receiving the whole |
| Endpoint.LossNoticedIff | common/comm/comm.c:457-467 | When message n + g of a type comes after message n, the loss is reported exactly unless g is 1 modulo 256; a text a multiple of 256 later counts as the same text |
| Reactions.LengthIs | common/comm/comm.c:470-514 | Data is refused exactly when its length does not fit its type, with the lengths of all types as numbers |
| Reactions.SlotsDiffer | common/comm/comm.c:112-127 | Each of the eleven types has counters of its own |
| Reactions.UnknownReported | common/comm/comm.c:449-455 | A type outside the eleven gives exactly a type report, if anyone listens, and changes nothing |
| Reactions.RepeatConfirmed | common/comm/comm.c:457-462 | A text with the counter of the last one gives exactly a new confirmation and no delivery |
| Reactions.LengthReported | common/comm/comm.c:463-520 | Data of a wrong length counts as the message of its counter, gives a report of the gap before it if there is one, then a length report, and neither confirmation nor delivery |
| Reactions.MessageHandled | common/comm/comm.c:463-528 | Any other message gives, in this order, a report of a gap, for a text its confirmation, and the delivery if its type has a handler; only the counters of its own type move |
| Reactions.DamageReported | common/comm/comm.c:563-571 | In every stream the checksum reports are exactly the damaged frames found, in order and with their types; without an error handler nothing at all is reported |
| Link.EndToEnd | common/comm/comm.c:243-528 | For endpoints in step and any list of sendable messages of mixed types, the receiver calls its handlers with exactly those messages in order, reports no error, leaves no byte, and the counters agree again, through their wrap-around |
| Link.FreshEndToEnd | common/comm/comm.c:129-137 | The same for two freshly opened endpoints |
| Link.AcceptedIff | common/comm/comm.c:243-315 | Every message of its type can be sent, but for CAN frames of over 8 bytes and texts of over 65533 |
| Link.ArrivesAsSent | common/comm/comm.c:243-528 | Messages of any mix are delivered exactly as they were sent, unless a CAN frame has data behind its length or a command that is no gyro calibration has a sample count |
| Link.GyroCalArrives | common/comm/comm.c:291-298 | A gyro calibration sent with any sample count is delivered with that count |
| Comm.Comm.constructor | common/comm/comm.c:129-137 | A new endpoint has zero counters, an empty buffer and made no call |
| Comm.BuildFrame | common/comm/comm.c:168-182 | The buffer that is filled in place holds exactly the encoded frame |
| Comm.Comm.SendFrame | common/comm/comm.c:163-187 | One frame goes out, unless the data is over 65535 bytes or memory is short |
| Comm.Comm.Send | common/comm/comm.c:243-315 | The counter is returned and advanced only when the frame went out; otherwise nothing changes |
| Comm.Comm.SendText | common/comm/comm.c:349-363 | A text is sent as a message of type text with the next counter |
| Comm.Comm.ResendText | common/comm/comm.c:365-372 | The text is sent again with the given counter and no counter advances |
| Comm.Comm.HandleFrame | common/comm/comm.c:449-528 | Counters, acks, error reports and the handler call are those of the specification, in its order |
| Comm.Comm.Drop | common/comm/comm.c:530-533 | The first n bytes leave the buffer and the rest keeps its order |
| Comm.Comm.Parse | common/comm/comm.c:536-576 | The in-place parser takes every complete frame out of the buffer, makes the specified calls, and stops at a prefix that needs more bytes; the loop ends |
| Comm.Comm.Read | common/comm/comm.c:578-584 | Reading bytes one by one is receiving the old buffer followed by all of them; the buffer never overflows |
| PicoLog.PicoLog.Pop | pico/lib/log/log.c:28-36 | The head leaves the linked list and the byte count stays the sum of the line lengths |
| PicoLog.PicoLog.SendHead | pico/lib/log/log.c:38-46 | The head line is sent and marked in flight with its counter and time, or nothing changes |
| PicoLog.PicoLog.OnAck | pico/lib/log/log.c:48-60 | Only the ack of the line in flight pops it and sends the next; every other ack changes nothing |
| PicoLog.PicoLog.Poll | pico/lib/log/log.c:79-92 | Sends a waiting head, or resends the one in flight after the resend time |
| PicoLog.PicoLog.Full | pico/lib/log/log.c:94-95 | Full exactly when the queued text reaches the limit |
| PicoLog.PicoLog.VLog | pico/lib/log/log.c:97-125 | With memory for its entry the line is appended at the tail and the log polled, past the limit too; without, -1 is returned, nothing is queued and nothing is sent |
| LogProtocol.StepKeeps | pico/lib/log/log.c:28-125 | The protocol invariant holds after every step of either side, every loss, every other message and every change of memory |
| LogProtocol.ExactlyOnce | common/comm/comm.c:449-528 | In every run over lossy first-in first-out channels the lines on the Zero are a prefix of the lines logged on the Pico, those popped or one more; none is skipped, repeated, popped undelivered or reported lost |
| LogProtocol.ResendsRepeat | pico/lib/log/log.c:38-92 | The text frames ever sent carry lines 0, 0, ..., 1, 1, ... in this order, as recorded with each sending: each frame repeats the line of the one before or carries the next, line n under the counter n mod 256, up to the line in flight; so no counter comes back with another text before 255 other lines went out |
| LogTiming.ResendsSpaced | pico/lib/log/log.c:79-92 | In every run with a clock that does not go back, frames of one line go out at least 100 ms apart, whatever caused the poll |
| LogTiming.ResentIffDue | pico/lib/log/log.c:79-92 | In every run with memory a poll of the main loop sends the line in flight again if and only if 100 ms have passed since it was last sent |
| LogTiming.FirstGoesOut | pico/lib/log/log.c:97-125 | With memory and an empty queue a logged line is sent in the same step, under the next counter |
| LogTiming.NextGoesOut | pico/lib/log/log.c:48-60 | A confirmation that removes a line puts the next one in flight in the same step |
| LogTiming.FailedResendWaits | pico/lib/log/log.c:87-92 | A resend that fails for lack of memory is not tried again before another 100 ms |
| LogTiming.ElapsedIs | pico/lib/log/log.c:87-87 | The time passed is right across the wrap of the 64-bit clock |
| LogTiming.LostAckWarning | pico/main.c:329-332 | A gap in the confirmations is logged as the warning "lost text ack" of the link |
| LogProgress.RoundPopsHead | pico/lib/log/log.c:38-92 | From every reachable state a round without loss removes exactly the head line from the queue |
| LogProgress.EveryLineArrives | pico/lib/log/log.c:28-125 | As many such rounds as lines are queued bring every one of them to the Zero, whatever the rounds add to the log |
| LogProgress.QueueEmpties | pico/lib/log/log.c:28-125 | From every reachable state at most queued lines + frames under way + 1 rounds without loss leave the queue empty, the warnings the rounds log included |
| Crc32.Compute | pico/lib/storage/storage.c:48-57 | The nested loop computes the CRC-32 function, for data of every length |
| Crc32.BytesRefineBits | pico/lib/storage/storage.c:48-57 | The byte-wise register is the bit-serial division register, fed the bits low end first |
| Crc32.BurstDetected | pico/lib/storage/storage.c:48-57 | Equal-length inputs that differ only within 32 consecutive bits have different checksums |
| Crc32.FourBytesDetected | pico/lib/storage/storage.c:48-57 | Equal-length inputs that differ only within 4 consecutive bytes have different checksums |
| Crc32.CheckValue | pico/lib/storage/storage.c:48-57 | The digits 1 to 9 in ASCII have the published check value 0xCBF43926 |
| StoreLayout.HeaderBytes | pico/lib/storage/storage.c:18-36 | The header is the eight bytes of magic word, version 1 and two zeros |
| StoreLayout.EntryBytes | pico/lib/storage/storage.c:38-42 | Tag, length and checksum of an entry in place, low byte first, then the data, then erased bytes up to a multiple of four, and no more than three |
| StoreLayout.SavedBytes | pico/lib/storage/storage.c:121-174 | A save gives the header, the entries of the other tags unchanged and in order, the new entry, and erased bytes |
| StoreLayout.FirstSave | pico/lib/storage/storage.c:135-150 | Of a region without a valid header nothing is kept, so the new entry alone must fit |
| StoreLayout.NoHeaderNothing | pico/lib/storage/storage.c:67-70 | A region is read only if it starts with the six bytes of magic word and version 1; of any other nothing loads |
| StoreLayout.FoundAligned | pico/lib/storage/storage.c:74-97 | Entries are found at multiples of four |
| StoreProofs.FindIsLookup | pico/lib/storage/storage.c:74-97 | On every image the walk finds the last entry of a tag, and it is intact exactly when the map holds it |
| StoreProofs.LoadIsLookup | pico/lib/storage/storage.c:176-196 | On every image, corrupt or not, a load succeeds exactly when the map holds data of that length under the tag |
| StoreProofs.SaveRefinesMap | pico/lib/storage/storage.c:121-174 | On every image a save is the update of one key of the map |
| StoreProofs.SaveThenLoad | pico/lib/storage/storage.c:121-196 | The saved data loads back, and every other load gives what it gave before |
| StoreProofs.OthersLength | pico/lib/storage/storage.c:137-150 | The kept entries take at most the room of all entries less that of the replaced one |
| StoreProofs.RewriteFits | pico/lib/storage/storage.c:137-156 | Data of a length already stored under its tag always fits again |
| StoreProofs.DamageIsSeen | pico/lib/storage/storage.c:182-192 | Damage within 4 consecutive payload bytes of the entry a load returns makes every load of that tag fail |
| Storage.Storage.FindEntry | pico/lib/storage/storage.c:74-97 | The loop returns the position the walk finds and the end of the entries |
| Storage.Storage.Load | pico/lib/storage/storage.c:176-196 | Returns the loaded data of the specification, or -1 |
| Storage.Storage.CopyOthers | pico/lib/storage/storage.c:137-150 | The new image gets the header and every other entry in order; the write position never passes the read position and nothing is copied out of bounds |
| Storage.Storage.Save | pico/lib/storage/storage.c:121-174 | Succeeds if and only if the tag and length are valid, header, kept entries and new entry fit, and memory and flash are available; otherwise the flash is unchanged |
| Settings.PicoSettings.LoadSettings | pico/main.c:118-137 | Memory gets each stored word of the right length, and the default otherwise |
| Settings.PicoSettings.Start | pico/main.c:416-445 | A start is the specified one: settings from flash, then the IMU, the filter and a present GPS receiver are told |
| Settings.PicoSettings.DoSetting | pico/main.c:244-297 | Result, flash, memory and what the devices hold are those of the specification for every outcome of each device call, memory and flash |
| Settings.SetChanges | pico/main.c:244-297 | A request that succeeds changes its setting in memory and flash and nothing else; any other outcome changes neither |
| SettingResults.ResultIff | pico/main.c:244-297 | Each answer to a settings request if and only if its guard holds, in numbers: unknown id, value out of range, no receiver, success exactly when the device took the value and the word can be stored, else failure |
| SettingResults.StoredWord | pico/main.c:255-261 | After success the flash has the four bytes of the value, low byte first, under tag 3, 4 or 5 |
| SettingResults.RestartIs | pico/main.c:416-445 | A restart has each stored word of four bytes, and without one 100 Hz, 5 Hz and a gain of 0.1; the devices it finds hold these values unless they refuse |
| Settings.InSyncIff | pico/main.c:244-297 | A request leaves every device holding what memory holds, except exactly when a device takes a new rate that is not kept and the restoring call is refused, or is not made because the GPS receiver did not answer |
| Settings.ImuLeftBehind | pico/main.c:255-258 | A request that does so: the IMU takes the rate, the flash fails, the IMU refuses the old rate; the answer is Failed, memory and flash keep the old rate, the IMU runs at the new one |
| Settings.CatchesUp | pico/main.c:244-297 | A device that was left behind is back in step after the next request for its setting that succeeds |
| Settings.RunInSync | pico/main.c:244-297 | Over any run without such a request, and with starts whose devices take their rates, every device holds what memory holds |
| Settings.RunKeeps | pico/main.c:118-137 | Over any run of requests, failing saves, calibration saves and restarts, memory equals what a start would read back, and values in range stay in range |
| Settings.CalibrationKept | pico/main.c:205-213 | Over any run the flash holds for each chip the calibration whose save succeeded last, or what it held before: no setting, failed save or calibration of the other chip disturbs it |
| SettingResults.CalibrationStored | pico/lib/imu/imu.c:147-161 | A calibration is stored under tag 1 or 2 exactly when it fits and memory and flash are available, and nothing else changes |
| Settings.BootInRange | pico/main.c:118-137 | The values of a start are in range exactly when the stored ones are: the start does not check them |
| Settings.EveryRunInRange | pico/main.c:470-470 | From in-range or absent entries every run keeps the rates and the gain in range, so the division by the IMU rate is defined |
| Ubx.ComputeChecksum | pico/lib/gps/ubx.c:19-28 | The loop computes the two running sums |
| Ubx.ChecksumIs | pico/lib/gps/ubx.c:19-28 | For n bytes d(i) the checksum bytes are the sum of all d(i) and the sum of all (n - i) d(i), both modulo 256 |
| Ubx.Build | pico/lib/gps/ubx.c:30-45 | The buffer holds exactly the frame of the message |
| Ubx.FrameBytes | pico/lib/gps/ubx.c:30-45 | A built frame byte by byte: sync, class, id, length low byte first, payload, and the two sums over all from the class on |
| Ubx.UbxParser.Parse | pico/lib/gps/ubx.c:52-103 | One byte moves the fields to the state of the specification and reports completion as it does; payload bytes stay in the buffer |
| Ubx.BackAtStart | pico/lib/gps/ubx.c:52-103 | From every state the parser is back at its start within 107 bytes |
| Ubx.SealedBody | pico/lib/gps/ubx.c:86-100 | After a whole body the frame completes exactly for the right two checksum bytes |
| Ubx.FrameRoundTrip | pico/lib/gps/ubx.c:30-103 | From the start a built frame completes at its last byte and not before, with its class, id and payload |
| Ubx.StreamReceived | pico/lib/gps/ubx.c:30-103 | Any concatenation of built frames is received as exactly those messages in order |
| Ubx.DeliveredIff | pico/lib/gps/ubx.c:52-103 | A built frame is delivered if and only if the parser is at its start when the frame begins |
| Ubx.StraySyncLosesFrame | pico/lib/gps/ubx.c:59-60 | A stray first sync byte in front of a frame loses that frame: the second sync state falls back without looking at the byte again |
| Ubx.TwoBytesDetected | pico/lib/gps/ubx.c:19-28 | A change confined to two adjacent checksummed bytes changes the checksum |
| Ubx.DamagedFrameRejected | pico/lib/gps/ubx.c:90-100 | A frame with two adjacent damaged bytes, its length kept, is never delivered |
| UbxSound.CompletedIsFrame | pico/lib/gps/ubx.c:52-103 | Whatever comes: when the parser completes a message, the bytes up to there end with the whole frame of that message, checksum and all |
| UbxSound.NoiseSkipped | pico/lib/gps/ubx.c:54-58 | Bytes without a first sync byte leave the parser at its start |
| SocketSpec.SplitIsUnique | rpi/main.c:436-454 | The segmentation of a byte stream is the only way to write it as lines that fit, overlong pieces, and a rest with nothing to take |
| SocketSpec.ProcessKeeps | rpi/main.c:436-454 | The loop takes lines until one waits for the Pico or nothing complete is left |
| SocketSpec.PassKeeps | rpi/main.c:745-775 | After every pass of the reader loop a request waits within its time, or no complete line is buffered |
| SocketSpec.OneAnswerPerLine | rpi/main.c:436-490 | After any run the segments taken from the live client are a prefix of the segmentation of all its bytes; each but the waiting one has exactly one answer, in order and of the right kind; the requests sent are those of the taken lines |
| SocketSpec.DroppedIff | rpi/main.c:745-775 | A whole pass of the reader loop drops the client exactly when it reads the end of its stream, or its requests fill the buffer while one still waits after the replies of that pass |
| SocketSpec.OwnReplyIff | rpi/main.c:266-278 | After any run, with the replies to the last requests sent still to come in order, the waiting request is answered by its own reply if and only if no earlier one of these requests has its type and id |
| SocketSpec.LateReplyAnswersNext | rpi/main.c:266-278 | A reachable run: a request times out, the client asks the same again, and the late reply to the first answers the second, whose own reply is still to come |
| SocketLaws.SecondClientRefused | rpi/main.c:466-471 | While a client is served, one more that connects changes nothing |
| SocketLaws.FirstClientServed | rpi/main.c:461-474 | With no client, one that connects starts clean: no byte, request or answer of an earlier client is left |
| SocketLaws.ReadsWhatFits | rpi/main.c:477-490 | A pass reads as many of the bytes ready as the buffer has room for after the replies of that pass, in order, and nothing otherwise |
| SocketLaws.PassTimed | rpi/main.c:297-300 | A request that a pass leaves waiting, and that was not waiting before, has two seconds from that pass |
| SocketLaws.TimesOutAfter | rpi/main.c:772-775 | A waiting request without a reply stays untouched up to its deadline and is answered with a timeout by the first pass after it |
| SocketLaws.SendsWithMemory | rpi/main.c:289-294 | A pass with memory answers no request with a failed send; a pass without sends none |
| Socket.CommandSocket.FindNewline | rpi/main.c:438-438 | Finds the first line end of the buffer |
| Socket.CommandSocket.TakeLine | rpi/main.c:445-451 | The line leaves the front of the buffer and what follows keeps its order |
| Socket.CommandSocket.ProcessClientLines | rpi/main.c:436-454 | The shifting loop does what the specification does to buffer, pending request and answers |
| Socket.CommandSocket.SendRequest | rpi/main.c:290-301 | The request goes out and waits with its deadline, or is answered at once when it can not be sent |
| Socket.CommandSocket.OnReply | rpi/main.c:266-278 | Only the reply with the type and id of the waiting request answers it |
| Socket.CommandSocket.ReadClient | rpi/main.c:479-490 | Reads as much as fits and handles it; no room reads as the end of the stream |
| Socket.CommandSocket.LoopPass | rpi/main.c:745-775 | Replies, lines, a new client, the client and the timeout are handled in the order of the loop |
| Calib.GyroCentred | pico/lib/imu/calib.c:17-38 | After a calibration the bias is the mean of its readings, and the readings corrected with it sum to zero |
| Calib.NothingCollected | pico/lib/imu/calib.c:31-34 | A calibration without a reading keeps the bias |
| Calib.MagCollects | pico/lib/imu/calib.c:40-56 | Minimum and maximum bound every reading on each axis and are reached |
| Calib.MagCentred | pico/lib/imu/calib.c:58-85 | Every corrected reading lies within the average radius, half the mean width of the box, on each axis, and both ends are reached on every axis |
| Calib.Calibrator.UpdateGyro | pico/lib/imu/calib.c:24-29 | The loop adds the reading to the sums on all three axes |
| Calib.Calibrator.EndGyro | pico/lib/imu/calib.c:31-38 | The loop divides the sums by the count, and does nothing without readings |
| Calib.Calibrator.UpdateMag | pico/lib/imu/calib.c:47-56 | The loop widens the box on all three axes |
| Calib.Calibrator.EndMag | pico/lib/imu/calib.c:58-78 | Offsets and scales are set on all axes, or on none if an axis saw no two values |
| Calib.Calibrator.Apply | pico/lib/imu/calib.c:80-85 | The loop corrects both readings on all three axes |
| CommandSpec.StepKeeps | pico/main.c:160-242 | Magnetometer and gyro calibration never run together, only with an ICM-20948, and a running gyro calibration has readings left |
| CommandLaws.VerdictIff | pico/main.c:160-218 | Each answer to a command if and only if its guard holds; a save command fails exactly when an IMU was not saved; only commands that begin a calibration or end one change anything |
| CommandSpec.RunAnswers | pico/main.c:220-242 | Over any run the commands other than accepted gyro calibrations have exactly one reply each, in order and each with its own result; of the accepted gyro calibrations all have theirs but the one running on a command and those cut off by a restart |
| CommandSpec.GyroCalSucceeds | pico/main.c:336-355 | An accepted gyro calibration runs, whatever other commands come, until it has its number of readings; then the bias is their mean and the reply is sent |
| CommandSpec.GyroCalFails | pico/main.c:342-354 | A failed reading ends the calibration, keeps the bias, and the reply says so |
| CommandLaws.MagCalApplies | pico/main.c:162-182 | A magnetometer calibration begun and ended by commands, whatever else comes between: corrected, its readings fill the same range on every axis, or without spread on some axis nothing changes |
| CommandLaws.StartIs | pico/main.c:423-434 | A start has the stored calibration or none, and calibrates exactly an ICM-20948 whose bias was never measured, with 500 readings |
| CommandLaws.BootCalSucceeds | pico/main.c:336-355 | The calibration of a start sets the bias to the mean of its 500 readings and sends no reply |
| Commands.PicoCommands.OnCommand | pico/main.c:220-230 | A reply at once, except for an accepted gyro calibration |
| Commands.PicoCommands.SaveCal | pico/main.c:202-210 | The loop over the IMUs answers success exactly when each one there was saved |
| Commands.PicoCommands.CalibrationStep | pico/main.c:336-355 | State and reply of one pass are those of the specification |
| Commands.PicoCommands.CalibrateAtBoot | pico/main.c:429-434 | Run on the fields of a new object it gives the specified start: an ICM-20948 without a stored bias calibrates without a reply |
| CanRing.NewestUnread | pico/lib/can/can.c:32-44 | The drop-oldest queue holds the newest frames, at most its capacity, and every frame that arrived was read, dropped or is unread |
| CanRing.ReadInOrder | pico/lib/can/can.c:109-122 | What is read are frames that arrived, in their order and none twice, and all of them if none was dropped |
| CanRing.RingIsQueue | pico/lib/can/can.c:19-45 | If the capacity divides 2^32 the ring gives the frames and counts the errors of the queue for ever, across the wrap of its indices |
| CanRing.FaithfulIff | pico/lib/can/can.c:32-38 | The ring reads as the queue in every run if and only if its capacity divides 2^32 |
| CanRing.BusRoundTrip | pico/lib/can/can.c:90-107 | A frame put on the bus is received as sent, its id cut to its width and its data to its length |
| CanRing.ReceivedIs | pico/lib/can/can.c:19-45 | A message from the bus in numbers: kind of id from bit 31, remote request from bit 30, id modulo 2^29 or 2^11, length at most 8 |
| CanRing.SentIs | pico/lib/can/can.c:90-107 | A frame for the bus in numbers, zeros behind its data; exactly lengths over 8 are refused |
| CanRing.CanReceiver.RxCallback | pico/lib/can/can.c:19-45 | An error counts, a frame goes into the ring, anything else changes nothing |
| CanRing.CanReceiver.Receive | pico/lib/can/can.c:109-122 | Gives the oldest unread frame, or nothing |
| Rotation.PivotAtLeastOne | pico/lib/imu/imu.c:212-241 | Whatever the matrix, the chosen branch takes the root of at least 1, so no branch divides by a number below 2 |
| Rotation.RotToQuatExact | pico/lib/imu/imu.c:212-241 | For every proper rotation the result is a unit quaternion with exactly that rotation, in all four branches |
| Rotation.RotToQuatInverts | pico/lib/imu/imu.c:212-241 | From the matrix of a unit quaternion the result is that quaternion or its negative |
| Rotation.NormOfMul | pico/lib/imu/imu.c:243-252 | The norm of a product is the product of the norms |
| Rotation.QuatMulAssoc | pico/lib/imu/imu.c:243-252 | The product is associative |
| Rotation.RotOfMul | pico/lib/imu/imu.c:243-252 | Composing quaternions composes their rotations |
| Rotation.FrameChange | pico/lib/imu/bno055.c:74-90 | A reading in the boat frame turned by the boat orientation is the chip reading turned by the chip orientation, for every mounting rotation |
| Rotation.Rotate | pico/lib/imu/imu.c:202-210 | The vector is replaced in place by its image |

## Left out

- Restarts of one side of the link: counters start again, and the code makes no promise for them.
- Power loss between erasing and programming the flash: the code makes no atomicity claim there.
- Request syntax of the command socket (`rpi/main.c:305-433`): what a line asks for is a parameter, so the claims hold for any syntax.
- Choosing the length and text of a log line (`vsnprintf`), name tables, timestamps and the Zero's log file.
- Registering handlers, except that each type has one or has none.
- The Madgwick filter, Euler angles and averaging of samples: they rest on float rounding and trigonometry.
- Rounding of floats in calibration and rotation: the model is exact.
- LoRa packets and register settings, and the LoRa line queue: single-branch arithmetic, and an easier repeat of the log queue and the CAN ring.
- Settings.InSyncIff: a device holds a rate whole or not at all; an ICM-20948 that takes only some of its rate registers (`pico/lib/imu/icm20948.c:108-111`) is not modelled, since device registers are not.
- Device registers, rate dividers, IMU detection, UART, I2C, SPI, GPIO, watchdog and PIO set-up.
- The wrap of the 32-bit count of readings and of the queued bytes: no reachable value comes near it.
- Frames.Resynchronises: the noise must hold no position at which a valid frame starts, since a valid frame in the noise would be delivered.
- Saving a calibration while one runs stores it half done; the store treats its bytes as opaque.
