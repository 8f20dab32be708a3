# O-Buddy telemetry core in Dafny

A model of the two pieces of the O-Buddy iOS client that carry its logic:

- **The ELM327 adapter session.** It covers:
  - assembling the chunks the Bluetooth transport delivers into prompt-terminated replies;
  - cleaning them;
  - the fixed-offset decoders for the SAE J1979 service 01 PIDs 0D (vehicle speed, A km/h), 0C (engine speed, (256 A + B) / 4 rpm) and 0A (fuel pressure, 3 A kPa), carried in ISO 15765-4 frames from response identifier `7E8`;
  - the protocol-number lookup;
  - the session state machine: a nine-command setup handshake, then round-robin PID polling, then stop and reset.
- **The hard-braking detector** (`BrakingViewModel`) and the `BrakingEvent` record it produces.

The session appears in three revisions.

- **The current revision** (`O-Buddy/Services/OBD`): each reply triggers the next PID request, polling over three PIDs. The caller owns the in-flight flag. A failed decode resets the reading to 0. Replies are trimmed.
- **The legacy revisions**: the monolithic `PROVAOBDService/OBDService.swift` and its later split into `PROVAOBDService/OBD`. Both are modelled by one module, with a `Revision` tag for the two places where they differ. In these revisions:
  - a 0.3 s timer polls two PIDs;
  - `sendCommand` owns the in-flight flag;
  - every notification lowers that flag on exit;
  - a failed decode keeps the previous reading;
  - replies are not trimmed.

Each handler is a pure function from one immutable record to the next. What the session writes to the adapter is logged in the record's `sent` field, oldest first. Transport events become explicit inputs:
- connected;
- write characteristic found;
- chunk received (`None` for undecodable data);
- timer tick;
- disconnected;
- Bluetooth unavailable.

For the detector, the clock is a parameter `now: real` and the fresh event identifier a parameter `freshId: nat`. Swift `Double` is `real`, `Int` is `int`.

Modules (one per file):

| file | module | models |
|---|---|---|
| wrappers.dfy | Wrappers | Swift optionals |
| text.dfy | Text | `replacingOccurrences`, `trimmingCharacters(in: .whitespacesAndNewlines)`, `dropFirst(k).prefix(n)`, `Int(_:radix: 16)` |
| cleaning.dfy | Cleaning | `cleanResponse`, both revisions |
| frame_codec.dfy | FrameCodec | `parseSpeed`, `parseRPM`, `parseFuelPressure` (decode part) and the frames an adapter prints |
| protocol_names.dfy | ProtocolNames | `mapProtocolNumber`, both revisions |
| commands.dfy | Commands | the setup and poll lists, the wire framing |
| assembler.dfy | Assembler | chunk buffering up to the `>` prompt |
| obd_session.dfy, obd_session_properties.dfy | ObdSession, ObdSessionProperties | the current session and its multi-step properties |
| legacy_session.dfy, legacy_session_properties.dfy | LegacySession, LegacySessionProperties | the legacy sessions and their multi-step properties |
| braking_event.dfy | BrakingEvents | `BrakingEvent` |
| braking_detector.dfy, braking_detector_properties.dfy | BrakingDetector, BrakingDetectorProperties | `BrakingViewModel` |

Behaviours of the source that the model reproduces rather than repairs:

- **The legacy handshake stalls** after `ATZ` when the reply arrives in a single chunk.
  - The next setup command is offered from inside the notification, while the flag raised for `ATZ` is still up, so it is dropped.
  - Nothing else ever sends it, because the timer only starts after the handshake.
  - A reply split before its prompt does not stall: the first chunk lowers the flag.
  - See `LegacySessionProperties.SingleChunkReplyStalls`, `LegacySessionProperties.HandshakeStalls` and `LegacySessionProperties.Handshake`.
- **The legacy in-flight guard is weaker than it looks.**
  - A partial chunk lowers the flag, so the next tick writes a second request while the first reply is still arriving.
  - A dropped request still advances the PID index, so two unanswered ticks skip engine speed.
  - See `LegacySessionProperties.PartialChunkReopensSending` and `LegacySessionProperties.BackToBackTicksSkipPid`.
- **The current handshake never takes the "index past the end" branch of `sendNextSetupCommand`.** The reply to `0100` completes initialization without moving the index (see `ObdSessionProperties.Handshake`).
- **Swift's `Int(_:radix: 16)` accepts a sign.** So a reply with a payload of `-` and one hex digit decodes to a negative speed (see `FrameCodec.SignedSpeedPayload`). A stripped reply of exactly 10 (or, for engine speed, 12) characters yields a one-digit payload.
- **A braking event records a stale intensity.** The intensity is published asynchronously, after the handler returns. The event built during the handler therefore records the intensity of the previous evaluated sample (see `BrakingDetectorProperties.EventIntensityIsStale`).

Where the design description of the system and the code disagree, the model follows the code:
- the code has no sliding window of samples: the rate compares two successive samples, and only an interval strictly between 0.1 s and 2 s is evaluated;
- no fuel-loss figure and no return speed is ever computed;
- the legacy cleaning does not trim;
- the current `sendCommand` does not check the in-flight flag;
- an undecodable chunk is dropped while the buffer is kept.

## Model

| member | source | states |
|---|---|---|
| Text.ReplaceChar | O-Buddy/Services/OBD/OBDService+Parsing.swift:83-86 | a one-character input becomes the replacement when it is the target and stays otherwise; the result holds no target when the replacement has none, only replacement characters or non-target input characters, and is the input when the target is absent |
| Text.ReplaceCharOne | O-Buddy/Services/OBD/OBDService+Parsing.swift:83-86 | on one character, a target becomes the replacement and any other character stays; with the concatenation lemma this fixes the result on every string |
| Text.ReplaceCharByChar | O-Buddy/Services/OBD/OBDService+Parsing.swift:85 | replacing by one character keeps the length; each target position holds that character and every other position is unchanged |
| Text.ReplaceCharRemoves | O-Buddy/Services/OBD/OBDService+Parsing.swift:84 | replacing by nothing removes every target and keeps every other character exactly as often as it occurs |
| Text.ReplaceCharCounts | PROVAOBDService/OBD/OBDService+Parsing.swift:62 | replacing a character by another moves the target's count onto the replacement character and leaves every other count alone |
| Text.ReplaceCharAppend | PROVAOBDService/OBD/OBDService+Parsing.swift:60-63 | replacing in a concatenation is concatenating the replaced parts |
| Text.Trim | O-Buddy/Services/OBD/OBDService+Parsing.swift:87 | the result has no whitespace or newline at either end, is a contiguous part of the input with only whitespace around it, and is the input itself when that is already trimmed |
| Text.TrimIdempotent | O-Buddy/Services/OBD/OBDService+Parsing.swift:87 | trimming twice is trimming once |
| Text.Field | O-Buddy/Services/OBD/OBDService+Parsing.swift:96-99 | `dropFirst(k).prefix(n)` has length min(n, max(0, len − k)) and holds the characters from offset k |
| Text.StripSpaces | O-Buddy/Services/OBD/OBDService+Parsing.swift:91 | no space is left, the text never grows, and a text without spaces is returned unchanged |
| Text.StripSpacesOne | O-Buddy/Services/OBD/OBDService+Parsing.swift:91 | on one character, a space disappears and any other character stays |
| Text.StripSpacesAppend | O-Buddy/Services/OBD/OBDService+Parsing.swift:91 | stripping a concatenation is concatenating the stripped parts, so the kept characters stay in order |
| Text.StripSpacesCounts | O-Buddy/Services/OBD/OBDService+Parsing.swift:91 | every space goes and every other character is kept exactly as often as it occurs |
| Text.ParseHexInt | O-Buddy/Services/OBD/OBDService+Parsing.swift:99 | `Int(_:radix: 16)` is nil on empty text, on a lone sign, and on anything but an optional sign followed by at least one hex digit; on all-hex text it is the digits' value; after a sign of `-` or `+` it is the negated or plain value of the digits; two characters give a value in −15..255 |
| Text.ParseHex2 | O-Buddy/Services/OBD/OBDService+Parsing.swift:99 | a byte printed as two upper-case hex digits parses back to the byte |
| Cleaning.CleanLegacy | PROVAOBDService/OBD/OBDService+Parsing.swift:59-65 | the cleaned reply holds no CR, LF or prompt; CRs and prompts are dropped and every LF is counted as an extra space, with all other characters kept as often as they occur; a reply already on one line is unchanged |
| Cleaning.CleanLegacyOne | PROVAOBDService/OBD/OBDService+Parsing.swift:59-65 | on one character: CR and `>` disappear, LF becomes a space, anything else stays; with the chunk lemma this fixes the legacy cleaning on every reply |
| Cleaning.CleanLegacyLineFeed | PROVAOBDService/OBD/OBDService+Parsing.swift:62 | a line feed cleans to one space |
| Cleaning.Clean | O-Buddy/Services/OBD/OBDService+Parsing.swift:82-88 | as the legacy cleaning, and the result is also trimmed; a trimmed one-line reply is unchanged |
| Cleaning.CleanLegacyIdempotent | PROVAOBDService/OBD/OBDService+Parsing.swift:59-65 | legacy cleaning twice is cleaning once |
| Cleaning.CleanIdempotent | O-Buddy/Services/OBD/OBDService+Parsing.swift:82-88 | current cleaning twice is cleaning once |
| Cleaning.CleanLegacyAppend | PROVAOBDService/OBDService.swift:207-213 | legacy cleaning of a reply assembled from chunks is the concatenation of the cleaned chunks |
| Cleaning.RevisionsAgreeIffTrimmed | PROVAOBDService/OBD/OBDService+Parsing.swift:64 | the revisions' cleanings agree exactly when the legacy result has no surrounding whitespace |
| Cleaning.CleanPromptedLine | O-Buddy/Services/OBD/OBDService+Parsing.swift:82-88 | a line followed by CR CR `>` cleans to the line (legacy) or to the trimmed line (current) |
| ProtocolNames.ProtocolName | O-Buddy/Services/OBD/OBDService+Parsing.swift:155-164 | each of the four names is returned exactly when the trimmed number is 6, 3, 4 or A; any other number gives "Protocollo " and the untrimmed text |
| ProtocolNames.ProtocolNameLegacy | PROVAOBDService/OBD/OBDService+Parsing.swift:109-116 | each of the three names is returned exactly on the untrimmed 6, 3 or 4; "AUTO" never; anything else gives the generic name |
| ProtocolNames.RevisionsAgree | PROVAOBDService/OBDService.swift:257-264 | on a trimmed number other than A the two lookups agree |
| ProtocolNames.RevisionsDiffer | O-Buddy/Services/OBD/OBDService+Parsing.swift:156-161 | on A, or on a known number with surrounding whitespace, only the current lookup finds a name |
| Commands.Wire | O-Buddy/Services/OBD/OBDService+Commands.swift:35 | the payload is the command followed by one carriage return |
| Commands.WireAll | O-Buddy/Services/OBD/OBDService+Commands.swift:35-38 | the payloads of a command list, one per command, in order |
| Commands.SetupCommandsDistinct | O-Buddy/Services/OBD/OBDService.swift:40-42 | no setup command appears twice, so a reply can be attributed by the last command |
| FrameCodec.SwiftDiv | O-Buddy/Services/OBD/OBDService+Parsing.swift:127 | Swift's `/` on `Int` truncates toward zero: the remainder is in [0, b) for a non-negative dividend and in (−b, 0] for a negative one |
| FrameCodec.HeaderMatchesPrefix | O-Buddy/Services/OBD/OBDService+Parsing.swift:94-98 | the length check, `hasPrefix("7E8")` and the fields at offsets 3, 5 and 7 hold exactly when the first nine characters are the expected header |
| FrameCodec.DecodeSpeed | O-Buddy/Services/OBD/OBDService+Parsing.swift:90-109 | decoding succeeds exactly when the space-free reply has at least 10 characters, starts `7E803410D` and has a hex payload at offset 9; with two hex digits there, in either case and whatever follows, the speed is their value; at exactly 10 characters it is the one digit's value; any value lies in −15..255 |
| FrameCodec.RpmFromBytes | O-Buddy/Services/OBD/OBDService+Parsing.swift:127 | the value is (256 A + B) / 4 truncated toward zero: 4 times it is within 3 of 256 A + B, on the side of zero; it lies in −963..16383 |
| FrameCodec.RpmFromUnsignedBytes | O-Buddy/Services/OBD/OBDService+Parsing.swift:127 | on unsigned bytes the truncating division is floor division of 256 A + B by 4 |
| FrameCodec.DecodeRpm | O-Buddy/Services/OBD/OBDService+Parsing.swift:111-132 | decoding succeeds exactly when the space-free reply has at least 12 characters, starts `7E804410C` and has hex payloads at offsets 9 and 11; with two hex digits at each, whatever follows, the value is the engine speed of those two bytes; any value lies in −963..16383 |
| FrameCodec.DecodeFuelPressure | O-Buddy/Services/OBD/OBDService+Parsing.swift:134-153 | decoding succeeds exactly when the space-free reply has at least 10 characters, starts `7E803410A` and has a hex payload at offset 9; with two hex digits there, whatever follows, the value is three times theirs; any value is a multiple of 3 in −45..765 |
| FrameCodec.DecodersIgnoreSpaces | O-Buddy/Services/OBD/OBDService+Parsing.swift:91 | the decoders give the same result with or without the spaces in a reply |
| FrameCodec.SpeedRoundTrip | O-Buddy/Services/OBD/OBDService+Parsing.swift:90-109 | the reply an adapter prints with spaces for any speed 0..255 decodes to that speed |
| FrameCodec.DecodeSpeedPayload | O-Buddy/Services/OBD/OBDService+Parsing.swift:90-109 | any reply whose space-free text is the speed header, two hex digits in either case, and anything after them decodes to the digits' value |
| FrameCodec.SpeedExample | O-Buddy/Services/OBD/OBDService+Parsing.swift:93-99 | `7E8 03 41 0D 3C` decodes to 60 km/h |
| FrameCodec.RpmRoundTrip | O-Buddy/Services/OBD/OBDService+Parsing.swift:111-132 | the printed reply for data bytes A and B decodes to (256 A + B) / 4 |
| FrameCodec.DecodeRpmPayload | O-Buddy/Services/OBD/OBDService+Parsing.swift:111-132 | any reply whose space-free text is the engine-speed header, two two-digit hex bytes A and B in either case, and anything after them decodes to (256 A + B) / 4 |
| FrameCodec.FuelPressureRoundTrip | O-Buddy/Services/OBD/OBDService+Parsing.swift:134-153 | the printed reply for data byte A decodes to 3 A |
| FrameCodec.DecodeFuelPressurePayload | O-Buddy/Services/OBD/OBDService+Parsing.swift:134-153 | any reply whose space-free text is the fuel-pressure header, two hex digits in either case, and anything after them decodes to three times the digits' value |
| FrameCodec.SignedSpeedPayload | O-Buddy/Services/OBD/OBDService+Parsing.swift:99 | a payload of `-` and one hex digit is accepted and decodes to a negative speed |
| Assembler.Feed | O-Buddy/Services/OBD/OBDService+Parsing.swift:16-28 | the completed reply and the new buffer together are the old buffer plus the chunk; a reply completes exactly when the buffer then holds `>`, and the buffer is then empty; an undecodable chunk leaves the buffer as it was |
| Assembler.FeedAllConserves | O-Buddy/Services/OBD/OBDService+Parsing.swift:22-28 | over any chunk stream the completed replies followed by the buffer are exactly the decoded chunk text |
| Assembler.FeedAllSplitsAtPrompts | O-Buddy/Services/OBD/OBDService+Parsing.swift:25 | every completed reply holds a prompt and a prompt never stays in the buffer |
| ObdSession.Initial | O-Buddy/Services/OBD/OBDService.swift:14-55 | readings 0, disconnected, uninitialized, not waiting, both indices 0, empty buffer, nothing sent |
| ObdSession.SendCommand | O-Buddy/Services/OBD/OBDService+Commands.swift:27-40 | without a write characteristic nothing changes; otherwise the command becomes the last command and its payload is written; nothing else changes, the in-flight flag included |
| ObdSession.SendNextPidCommand | O-Buddy/Services/OBD/OBDService.swift:110-124 | nothing happens unless connected, initialized and not waiting; then the PID at the index is written, a reply is awaited and the index moves on modulo 3 |
| ObdSession.StartPollingPIDs | O-Buddy/Services/OBD/OBDService.swift:102-107 | polling restarts from the speed PID |
| ObdSession.SendNextSetupCommand | O-Buddy/Services/OBD/OBDService+Commands.swift:14-25 | inside the list, with a write characteristic, exactly the entry at the index is written and becomes the last command, with the flag and initialization untouched; past the end the session initializes with the ready status, and a connected idle session writes the speed request; the index and readings never change and at most one payload is written |
| ObdSession.ApplyPidReply | O-Buddy/Services/OBD/OBDService+Parsing.swift:63-76 | exactly the reading of the PID last sent is set to its decoded value, or to 0 when decoding fails |
| ObdSession.CaptureSetupReply | O-Buddy/Services/OBD/OBDService+Parsing.swift:44-50 | an `ATI` reply becomes the adapter version and an `ATDPN` reply the protocol name |
| ObdSession.AdvanceSetup | O-Buddy/Services/OBD/OBDService+Parsing.swift:52-61 | on `0100` the session initializes and starts polling without moving the index; on another setup command the index moves by one and the next command is sent; otherwise nothing changes; at most one payload is written |
| ObdSession.ProcessCompleteResponse | O-Buddy/Services/OBD/OBDService+Parsing.swift:32-80 | the flag is lowered before routing; before initialization the reply is captured and the handshake advances; after it, the reply is parsed and the next PID requested; a flag left up means a connected, initialized session |
| ObdSession.Received | O-Buddy/Services/OBD/OBDService+Parsing.swift:33-41 | the flag is down whatever it was, the raw reply is published and the cleaned one is a single trimmed line; nothing is written and the last command and initialization are kept |
| ObdSession.OnChunk | O-Buddy/Services/OBD/OBDService+Parsing.swift:14-30 | an undecodable chunk changes nothing; a chunk without prompt only grows the buffer; otherwise the whole buffer is processed and emptied |
| ObdSession.StopDrivingSession | O-Buddy/Services/OBD/OBDService.swift:58-82 | disconnected, uninitialized, not waiting, no write characteristic, both indices 0, readings 0, texts empty; buffer, last command, adapter version and protocol name kept |
| ObdSession.StartDrivingSession | O-Buddy/Services/OBD/OBDService.swift:85-99 | only the status text changes: scanning, Bluetooth off, or already connected |
| ObdSession.OnConnected | O-Buddy/Services/OBD/OBDService+Bluetooth.swift:60-65 | the session is connected and discovering services; nothing is written and the handshake state is kept |
| ObdSession.OnWriteCharacteristicFound | O-Buddy/Services/OBD/OBDService+Bluetooth.swift:97-100 | the write characteristic is known; inside the list the entry at the index is written and becomes the last command, so a fresh session writes `ATZ` |
| ObdSession.OnDisconnected | O-Buddy/Services/OBD/OBDService+Bluetooth.swift:68-79 | the session stops: disconnected, uninitialized, not waiting, no write characteristic, both indices and all readings 0, with the disconnected status; nothing is written |
| ObdSession.OnBluetoothUnavailable | O-Buddy/Services/OBD/OBDService+Bluetooth.swift:33-46 | a connected session stops; otherwise only the status text changes |
| ObdSessionProperties.OnChunkBeforeInit | O-Buddy/Services/OBD/OBDService+Parsing.swift:44-61 | before initialization a completed reply is captured and advances the handshake |
| ObdSessionProperties.OnChunkAfterInit | O-Buddy/Services/OBD/OBDService+Parsing.swift:63-79 | after initialization a completed reply is parsed and the next PID requested |
| ObdSessionProperties.AdvanceSetupStep | O-Buddy/Services/OBD/OBDService+Parsing.swift:57-61 | the reply to any setup command but the last sends exactly the next list entry |
| ObdSessionProperties.AdvanceSetupFinal | O-Buddy/Services/OBD/OBDService+Parsing.swift:53-56 | the reply to `0100` initializes the session and requests the speed |
| ObdSessionProperties.SetupReplyAdvances | O-Buddy/Services/OBD/OBDService+Parsing.swift:53-61 | mid-handshake, a reply moves the index by exactly one and writes the next setup command |
| ObdSessionProperties.SetupReplyCompletes | O-Buddy/Services/OBD/OBDService+Parsing.swift:53-56 | the reply to `0100` initializes without moving the index, writes the speed request and enters polling |
| ObdSessionProperties.SetupRun | O-Buddy/Services/OBD/OBDService+Parsing.swift:57-61 | any run of replies during the handshake writes the following setup commands in list order, one per reply |
| ObdSessionProperties.SetupToPolling | O-Buddy/Services/OBD/OBDService+Parsing.swift:53-61 | nine replies from the first setup command write the rest of the list and the speed request and enter polling |
| ObdSessionProperties.Handshake | O-Buddy/Services/OBD/OBDService+Commands.swift:15-24 | from a fresh session, nine replies write the setup list in order and then the speed request; the index stops at the last entry, so the past-the-end branch is not taken |
| ObdSessionProperties.HandshakeStarts | O-Buddy/Services/OBD/OBDService+Bluetooth.swift:97-100 | a fresh session that connects and finds the write characteristic writes `ATZ` |
| ObdSessionProperties.RestartAfterStop | O-Buddy/Services/OBD/OBDService.swift:70-73 | after a stop, reconnecting starts the handshake over from `ATZ` |
| ObdSessionProperties.RestartAfterDisconnect | O-Buddy/Services/OBD/OBDService+Bluetooth.swift:68-79 | a disconnect is a stop with the disconnected status, and reconnecting afterwards writes `ATZ` and restarts the handshake from index 0 |
| ObdSessionProperties.NextPid | O-Buddy/Services/OBD/OBDService.swift:123 | the poll index step is adding one modulo 3 |
| ObdSessionProperties.PidAfterIsModular | O-Buddy/Services/OBD/OBDService.swift:123 | n index steps add n modulo 3 |
| ObdSessionProperties.PidStep | O-Buddy/Services/OBD/OBDService.swift:111-123 | an idle, initialized session writes the PID at the index, awaits its reply and moves the index on |
| ObdSessionProperties.PollReplyAdvances | O-Buddy/Services/OBD/OBDService+Parsing.swift:77-78 | a reply while polling writes the next PID in turn and keeps polling |
| ObdSessionProperties.PollReplyReadings | O-Buddy/Services/OBD/OBDService+Parsing.swift:65-72 | a reply while polling sets exactly the reading of the PID it answers, to 0 when it does not decode |
| ObdSessionProperties.PollRun | O-Buddy/Services/OBD/OBDService.swift:117-123 | any run of replies while polling keeps polling and writes the PIDs round-robin from the index |
| ObdSessionProperties.PollCycle | O-Buddy/Services/OBD/OBDService.swift:46 | three replies from the speed PID write speed, engine speed and fuel pressure in order and return to speed |
| ObdSessionProperties.StopIdempotent | O-Buddy/Services/OBD/OBDService.swift:58-82 | stopping twice is stopping once |
| ObdSessionProperties.SendCommandIgnoresWaitingFlag | O-Buddy/Services/OBD/OBDService+Commands.swift:27-40 | `sendCommand` neither reads nor writes the in-flight flag |
| ObdSessionProperties.PartialChunkOnlyBuffers | O-Buddy/Services/OBD/OBDService+Parsing.swift:22-25 | a chunk that leaves the reply incomplete only grows the buffer |
| LegacySession.Initial | PROVAOBDService/OBD/OBDService.swift:15-58 | readings 0, uninitialized, not waiting, timer stopped, both indices 0, empty buffer, nothing sent |
| LegacySession.SendCommand | PROVAOBDService/OBD/OBDService+Commands.swift:26-40 | while waiting or without a write characteristic nothing changes; otherwise the flag goes up, the command becomes the last command and its payload is written; a payload is written only when no reply was awaited |
| LegacySession.SendNextSetupCommand | PROVAOBDService/OBD/OBDService+Commands.swift:14-24 | inside the list, with the flag down and a write characteristic, the entry at the index is written and the flag raised; with the flag up nothing at all changes (the stall); past the end the session initializes and starts the timer with nothing written; the indices never change |
| LegacySession.SendNextPidRequest | PROVAOBDService/OBD/OBDService+Commands.swift:49-54 | the split layout does nothing before initialization; otherwise the index always changes, moving on modulo 2, and with the flag down and a write characteristic the PID at the old index is written and the flag raised; while waiting nothing is written and the flag stays up; initialization and the timer are kept |
| LegacySession.OnTick | PROVAOBDService/OBD/OBDService+Commands.swift:42-47 | before the timer is scheduled a tick does nothing; a tick writes at most one payload, only with the timer running and the flag down, and it is the PID at the index; after initialization the index moves on modulo 2 |
| LegacySession.Route | PROVAOBDService/OBD/OBDService+Parsing.swift:40-51 | the reply is routed by the last command whatever the initialization state; a failed decode keeps the previous reading |
| LegacySession.ProcessCompleteResponse | PROVAOBDService/OBD/OBDService+Parsing.swift:32-57 | the reply is published and routed; the handshake advances by one only before initialization, and in the split layout only on a setup command's reply; the flag is left as it is |
| LegacySession.OnChunk | PROVAOBDService/OBD/OBDService+Parsing.swift:14-30 | the flag is down on every exit; an undecodable chunk changes nothing else; a chunk without prompt grows the buffer; otherwise the buffer is processed and emptied |
| LegacySession.OnConnected | PROVAOBDService/OBDService.swift:89-94 | the session is connected and discovering services; nothing is written and the handshake and timer state are kept |
| LegacySession.OnWriteCharacteristicFound | PROVAOBDService/OBDService.swift:111-114 | the write characteristic is known; inside the list with the flag down the entry at the index is written and the flag raised, so a fresh session writes `ATZ`; with the flag up nothing is written |
| LegacySessionProperties.InitialKeepsTimerInvariant | PROVAOBDService/OBD/OBDService+Commands.swift:14-20 | a new session has no timer before initialization |
| LegacySessionProperties.ChunkKeepsTimerInvariant | PROVAOBDService/OBD/OBDService+Commands.swift:14-20 | a chunk never starts the timer without initializing |
| LegacySessionProperties.ProcessKeepsTimerInvariant | PROVAOBDService/OBD/OBDService+Commands.swift:14-20 | processing a reply never starts the timer without initializing |
| LegacySessionProperties.EventsKeepTimerInvariant | PROVAOBDService/OBD/OBDService+Commands.swift:14-20 | ticks and transport events never start the timer without initializing |
| LegacySessionProperties.TickGuardRedundant | PROVAOBDService/OBD/OBDService+Commands.swift:50 | while the timer runs only after initialization, the split layout's tick guard changes nothing |
| LegacySessionProperties.NoSendWhileWaiting | PROVAOBDService/OBD/OBDService+Commands.swift:27-30 | while a reply is awaited neither a tick nor a setup step writes anything |
| LegacySessionProperties.PartialChunkReopensSending | PROVAOBDService/OBD/OBDService+Parsing.swift:15 | a chunk without prompt lowers the flag, so the next tick writes another request while a reply is still arriving |
| LegacySessionProperties.SetupReplyProcessed | PROVAOBDService/OBD/OBDService+Parsing.swift:53-56 | a reply to a setup command moves the index by one and offers the next command, or on `0100` initializes with nothing written |
| LegacySessionProperties.RouteKeepsHandshake | PROVAOBDService/OBD/OBDService+Parsing.swift:40-51 | routing touches neither the handshake state nor what was sent |
| LegacySessionProperties.SetupReplyAdvances | PROVAOBDService/OBD/OBDService+Parsing.swift:53-56 | a one-chunk reply while the flag is down writes the next setup command and moves the index by one |
| LegacySessionProperties.SetupReplyCompletes | PROVAOBDService/OBD/OBDService+Commands.swift:15-20 | the reply to `0100` initializes and starts the timer, writing nothing |
| LegacySessionProperties.SingleChunkReplyStalls | PROVAOBDService/OBD/OBDService+Parsing.swift:15-56 | a one-chunk reply while its own command's flag is up moves the index but writes nothing, and leaves nothing in flight and no timer: the handshake stalls |
| LegacySessionProperties.SplitReplyAdvances | PROVAOBDService/OBD/OBDService+Parsing.swift:15-29 | the same reply split before its prompt writes the next setup command |
| LegacySessionProperties.SetupRun | PROVAOBDService/OBD/OBDService+Parsing.swift:53-56 | with the flag down, one-chunk replies write the following setup commands in list order |
| LegacySessionProperties.HandshakeStarts | PROVAOBDService/OBDService.swift:111-114 | finding the write characteristic writes `ATZ` and raises the flag |
| LegacySessionProperties.HandshakeStalls | PROVAOBDService/OBDService.swift:163-204 | a fresh session whose first reply arrives in one chunk writes only `ATZ`, in both layouts, and a tick then does nothing |
| LegacySessionProperties.Handshake | PROVAOBDService/OBD/OBDService+Parsing.swift:14-56 | a first reply in two chunks and eight one-chunk replies write the whole setup list in order, then initialize and start the timer with nothing in flight |
| LegacySessionProperties.HandshakeFinishes | PROVAOBDService/OBD/OBDService+Commands.swift:14-24 | from the second setup command, eight replies write the rest of the list and start the timer |
| LegacySessionProperties.StrayReplyBeforeSetup | PROVAOBDService/OBDService.swift:201-204 | a reply to a command outside the setup list advances the monolithic handshake but not the split one |
| LegacySessionProperties.NextLegacyPid | PROVAOBDService/OBD/OBDService+Commands.swift:53 | the index step always changes the index |
| LegacySessionProperties.NextLegacyPidIsModular | PROVAOBDService/OBD/OBDService+Commands.swift:53 | the index step is adding one modulo 2 |
| LegacySessionProperties.LegacyPidAfterIsModular | PROVAOBDService/OBD/OBDService+Commands.swift:53 | n index steps add n modulo 2 |
| LegacySessionProperties.TickAndReply | PROVAOBDService/OBD/OBDService+Commands.swift:49-54 | a tick answered in one chunk writes the PID at the index, sets its reading (keeping the previous one if decoding fails) and moves to the other PID |
| LegacySessionProperties.PollReplyRouted | PROVAOBDService/OBD/OBDService+Parsing.swift:40-56 | after initialization a reply is only routed |
| LegacySessionProperties.BackToBackTicksSkipPid | PROVAOBDService/OBDService.swift:155-159 | two ticks without a reply write one request, yet the index comes back to the same PID |
| LegacySessionProperties.PollRun | PROVAOBDService/OBD/OBDService+Commands.swift:49-54 | answered ticks write speed and engine speed alternately from the index |
| LegacySessionProperties.PollCycle | PROVAOBDService/OBD/OBDService.swift:57 | two answered ticks from speed write the whole poll list once and return to speed |
| BrakingEvents.NewEvent | O-Buddy/Models/BreakingEvent.swift:26-37 | the given fields are stored; the defaults are intensity 0, empty address, no fuel figures, no return speed; latitude and longitude both come from the location or are both absent |
| BrakingEvents.Location | O-Buddy/Models/BreakingEvent.swift:41-46 | the computed location is present exactly when both coordinates are, and then carries them |
| BrakingEvents.WithLocation | O-Buddy/ViewModels/BrakingViewModel.swift:107 | setting the location changes only the coordinates, both present or both absent with it |
| BrakingEvents.LocationRoundTrip | O-Buddy/Models/BreakingEvent.swift:32-46 | the location given to the initializer is the location read back |
| BrakingEvents.SetLocationRoundTrip | O-Buddy/ViewModels/BrakingViewModel.swift:107 | a location set is the location read back, and the identity fields are unchanged |
| BrakingEvents.LocationWriteBack | O-Buddy/Models/BreakingEvent.swift:41-46 | writing back the location read from an event changes nothing |
| BrakingDetector.Init | O-Buddy/ViewModels/BrakingViewModel.swift:15-22 | no events, not braking, intensity 0, previous speed 0, last update at creation |
| BrakingDetector.Clamp01 | O-Buddy/ViewModels/BrakingViewModel.swift:70 | the result lies in [0, 1], is the input inside it and the nearer bound outside |
| BrakingDetector.DecelerationRate | O-Buddy/ViewModels/BrakingViewModel.swift:66-67 | rate times interval is the speed drop; the rate is positive exactly when the speed fell |
| BrakingDetector.HandleBrakingEvent | O-Buddy/ViewModels/BrakingViewModel.swift:85-97 | braking is reported; an event with the rate, speed, time and previously published intensity is appended exactly when the debounce allows it |
| BrakingDetector.CheckBrakingParameters | O-Buddy/ViewModels/BrakingViewModel.swift:54-83 | previous speed and time are always refreshed; outside the window nothing else changes; inside it the intensity is the clamped rate / 30 and only a rate above 10 can record an event |
| BrakingDetector.AddLocationToLastEvent | O-Buddy/ViewModels/BrakingViewModel.swift:105-109 | on no events nothing changes; otherwise only the last event's location and address change |
| BrakingDetectorProperties.InitValid | O-Buddy/ViewModels/BrakingViewModel.swift:15-22 | a new detector satisfies the invariant |
| BrakingDetectorProperties.AppendKeepsValid | O-Buddy/ViewModels/BrakingViewModel.swift:89-96 | an event the debounce lets through keeps the events spaced and the intensities in range |
| BrakingDetectorProperties.StepKeepsValid | O-Buddy/ViewModels/BrakingViewModel.swift:54-97 | one sample keeps the intensity in [0, 1], every recorded intensity in [0, 1] and events more than 3 s apart |
| BrakingDetectorProperties.RunKeepsValid | O-Buddy/ViewModels/BrakingViewModel.swift:54-97 | over any trace the invariant holds, earlier events are kept as they were, and at most one event is added per sample |
| BrakingDetectorProperties.StepAppendsAtMostOne | O-Buddy/ViewModels/BrakingViewModel.swift:85-97 | a sample keeps the existing events and adds at most one |
| BrakingDetectorProperties.EventIffHardBraking | O-Buddy/ViewModels/BrakingViewModel.swift:59-96 | a sample records an event exactly when the interval is in the window, the rate exceeds 10 and the debounce allows it; the event holds the rate, new speed, time, identifier and previous intensity |
| BrakingDetectorProperties.NoEventWithoutDeceleration | O-Buddy/ViewModels/BrakingViewModel.swift:66-79 | a speed that did not drop never records an event |
| BrakingDetectorProperties.EventIntensityIsStale | O-Buddy/ViewModels/BrakingViewModel.swift:72-95 | samples 100 km/h then 70 km/h one second apart record a 30 km/h/s event with intensity 0 while 1 is published |
| BrakingDetectorProperties.EventCarriesPreviousIntensity | O-Buddy/ViewModels/BrakingViewModel.swift:70-94 | an event records the clamped intensity of the sample before it |
| BrakingDetectorProperties.AddLocationKeepsValid | O-Buddy/ViewModels/BrakingViewModel.swift:105-109 | attaching a location keeps the invariant and every event's id, time, rate and speed |

## Left out

- Bluetooth scanning, peripheral matching by name, service and characteristic discovery and notification set-up are not modelled; only their outcomes (connected, write characteristic found) are events.
- The current revision's `centralManagerDidUpdateState` power-on branch (rescan or "connected" status) is not modelled; power-off and unavailability are, as `ObdSession.OnBluetoothUnavailable`.
- LegacySession: the legacy power-state and disconnect handling is not modelled; those revisions never stop a session.
- The split legacy layout's Bluetooth file is not part of this model; its "connected" and "write characteristic found" events are modelled like the monolithic file's handlers.
- The 0.3 s repeating timer is a tick event; `dataTimer?.invalidate()` and the timer's scheduling time are not modelled.
- `DispatchQueue.main.async` publication is modelled as an assignment made in program order. The one exception is the braking intensity, whose late publication is made explicit.
- BrakingDetector.HandleBrakingEvent: the reset of `isBraking` two seconds later (`asyncAfter`) is not modelled, so `isBraking` only ever becomes true.
- BrakingDetector.CheckBrakingParameters: the three separate `Date()` reads of one sample are one `now`; `Double` arithmetic is exact real arithmetic, so rounding at the 0.1 s and 2 s bounds is not reproduced.
- The UUID of a new event is the caller's `freshId`; uniqueness is left to the caller.
- The RPM and fuel-pressure sinks and thresholds of `BrakingViewModel` only store values nobody reads; they are not modelled.
- Fuel-loss figures and the return speed are fields of `BrakingEvent` that no code computes; they keep their initializer values.
- BrakingEvents.WithLocation: the source assigns to the get-only computed `location`, which Swift rejects; the model takes the evident intent of setting both coordinates from the location, as the initializer does.
- Swift's `String` counts, drops and takes prefixes by grapheme cluster (`Character`), while `string` here is a sequence of Unicode scalars. So `count >= 10` and `dropFirst(k).prefix(n)` (O-Buddy/Services/OBD/OBDService+Parsing.swift:94-99) and `Text.Field` count scalars. The two agree on the ASCII replies an adapter sends, but not on text holding `"\r\n"` or a letter with a combining mark, each of which Swift counts as one character.
- The ASCII-then-UTF-8 decoding of a chunk is reduced to `Some(text)` or `None`; bytes and encodings are not modelled.
- Console logging and `deinit` are not modelled.
