# Verified model of the sensor and panel firmware

Two ESP32 nodes talk over a WebSocket: a sensor node that publishes readings and drives port expanders and
PWM channels, and a panel (HMI) node that shows them and sends commands. This project models the protocol
stack that the two share and the parts of each node that the stack feeds, in Dafny, and proves what the
code promises about them. `dafny verify dfyconfig.toml` checks everything.

## What is modelled

- **Secure frame channel.** `SecureFrame` is the envelope of `common/net/ws_security.c`, as a value (`Seal`,
  `Open`) and in place (`Context`, with the overlapping move of the plaintext). `Channel` runs one sender
  against any number of connections that come and go, over a network that drops, repeats, reorders and
  corrupts frames, their type included: only binary frames go through the cipher, data of any other type is
  handed on as it came. AES-GCM is a pair of functions with the law that opening inverts sealing
  (section 7 of NIST SP 800-38D). Authenticity is an assumption on runs: a frame the cipher accepts is one
  that this sender sealed.
- **Handshake.** `Handshake` builds the client's headers, `Headers` reads them back, `Authorize` decides in the
  order of `authorize_request`. `Totp` has the one-time codes, `NonceCache` the in-place replay cache,
  `ReplayProtection` its runs on wrapping ticks and `RequestRuns` runs of whole requests. HMAC and Base64 are
  functions with length and inverse laws.
- **Codecs.** `ShiftRegister` is a linear feedback register over any word type; `Crc32` and `Sht20` are
  instances of it. `Base32` decodes through a wrapping accumulator. `Printing` is the bounded printer; `Json`
  a reader after sections 2 to 7 of RFC 8259 with the compact printed form it reads back, `JsonGrammar` that grammar
  with all its spellings and `JsonReading` the proof that the reader reads exactly these; `Commands`, `SensorUpdates`
  and `SensorDecoding` the two messages, `WireTexts` two of their texts in full; `UpdateLength` how long an update can
  get; `FramePath` a message on its whole way through checksum and envelope; `ChannelMessages` the messages read over
  whole runs of the channel; `ZeroChecksum`, `FrameDamage` and `BorderBurst` what damage the checksum does not
  show.
- **Ring buffer.** `RingBuffer` refines a bounded queue that forgets its oldest bytes.
- **Keepalive, reconnect, update.** `ClientTable` is the server's table as a map from descriptors; `Keepalive`
  follows one client and `TableRuns` ties runs of the table to it; `Sessions` follows the sealed frames of one client
  on the table and ties its entry to a connection of `Channel`; `Backoff` the reconnection delays; `Ota` the
  update task and its log.
- **I/O pipeline and publisher.** `PortBits`, `Gpio` and `GpioPath` lead from a switch on the panel to a latch
  bit of an expander; `Publishing` is the double-buffered data model and its loop.

`Bytes`, `Arithmetic`, `BitStrings`, `Numerals`, `JsonText` and `Lookup` are shared by these.

State that the firmware changes in place is a class or an array here, and each method is tied to a function of
the old state; the theorems about whole runs are about those functions.

## What the proofs found

- The envelope adds 22 + 16 = 38 bytes (`common/net/ws_security.h:9-13`); README.md:203 of the firmware says 28.
- Encryption covers binary frames only. Whatever their sender, data frames of another type reach the application
  unopened and with the checksum test off, so everything delivered was sealed if and only if every data frame that
  arrived was binary (`Channel.AllOpenedExactlyWhen`). A text frame holding
  `{"write_gpio":{"dev":"mcp0","port":"A","mask":1,"value":1}}` is read as that command although nothing was sent
  (`ChannelMessages.TextFrameIsRead`).
- The server reads the bearer header into 192 bytes, so it refuses its own client exactly when the token is
  longer than 184 characters (`Authorize.OwnHandshakeIsAccepted`).
- A stored nonce is refused within its lifetime only while no more than `capacity` nonces were stored since,
  itself included; with distinct store times this is exact (`ReplayProtection.ReplayIsRefusedExactlyWhen`).
- The Base32 decoder is not injective on symbols: one spare zero symbol is accepted whenever at most two fill
  bits are needed (`Base32.DecodedExactlyWhen`).
- A checksum field of 0 switches the checksum test off. Damage within 32 consecutive bits of a text is accepted
  exactly if the checksum was 0 and the text still starts with a value (`Lookup.DamagedPayloadExactlyWhen`). It
  happens: the command with time 1067751, sequence number 11098 and nothing else has checksum 0, and with its last
  time digit changed it is accepted and read as another command (`ZeroChecksum.DamageIsAccepted`).
- The checksum travels in front of the text, so a burst may hit both; `FrameDamage.DamageIsAcceptedExactlyWhen` has the
  exact condition for any damage. A burst of 32 bits across the border of field and text does go unnoticed: there
  is one for every text of 43 characters that starts as an object with a field does, and some commands have such texts
  (`BorderBurst.BorderBurstGoesUnnoticed`).
- A ring buffer without capacity is never full, although nothing fits into it (`RingBuffer.RingBuf.IsFull`).
- Only numbers, ports and PWM state decide whether the node publishes; a sensor that becomes invalid without its
  numbers moving is not published (`Publishing.FlagChangeGoesUnseen`), nor is a changed id or ROM code
  (`Publishing.NameChangeGoesUnseen`). After a publication whose sequence number wrapped to 0 the node publishes again
  in any case (`Publishing.DataModel.ShouldPublish`).
- A newly counted reading is compared with the empty slot of the last update, so a sensor that appears with nothing
  else moving is not published if and only if its reading is within the threshold of 0, for an ambient sensor both of
  them (`Publishing.NewProbeUnseenExactlyWhen`, `Publishing.NewAmbientUnseenExactlyWhen`). A first probe at 0.1 degrees
  stays unknown to the receiver (`Publishing.ProbeNearZeroIsMissed`).
- Of a presented handshake signature of 32 to 64 bytes only the first 32 matter (`Authorize.SignatureTailIsIgnored`).
- The sample command of common/proto/tests/test_messages.c:42-74 sets its port twice, to 1 and then to 0. The last one
  counts, so it reads back as port 0, although the test expects 1 (`WireTexts.SampleCommandIsForPortA`).
- A request with a right handshake and a wrong one-time code is refused but uses up its nonce
  (`Authorize.NonceIsStoredExactlyWhen`).
- The screen decodes pins from the expander's pin register, and the firmware sets every pin up as an input, so what it
  shows is not the latch; the theorems about switches speak of latch bits (`GpioPath.SwitchReachesLatch`).
- The first wait of the update task is the initial one even when that is above the ceiling (`Ota.WaitsDouble`).

## Model

| member | source | states |
|---|---|---|
| ShiftRegister.WordInputIsBitSerial | common/proto/proto_crc32.c:6-11 | for every lawful register, xoring a whole word in and then shifting once per bit equals feeding the bits one by one |
| ShiftRegister.FeedLinear | common/proto/proto_crc32.c:3-14 | the register is linear in start word and input together |
| ShiftRegister.BurstSeparates | common/proto/proto_crc32.c:3-14 | inputs of any length that differ only within one register width never end in the same word |
| Crc32.RegisterIsLawful | common/proto/proto_crc32.c:8-11 | the reflected CRC-32 step is linear and loses no word |
| Crc32.PlacesAreIndependent | common/proto/proto_crc32.c:8-11 | the 32 input places are linearly independent |
| Crc32.ProtoCrc32 | common/proto/proto_crc32.c:3-14 | the nested loops with the mask trick compute the bit-serial checksum of every byte array |
| Crc32.BurstDetected | common/proto/proto_crc32.c:3-14 | different messages of one length whose differences lie within 32 consecutive bits have different checksums |
| Crc32.ChecksumDifference | common/proto/proto_crc32.c:3-14 | the checksum is affine: how two checksums differ depends only on which bits differ |
| Crc32.TableDriven | common/proto/proto_crc32.c:3-14 | the table-driven form of section 8 of RFC 1952 gives the same register for every message |
| Sht20.Sht20Crc8 | sensor_node/main/drivers/sht20.c:26-40 | the loops compute the bit-serial CRC-8, although the polynomial is xored in nine bits wide |
| Sht20.ChecksumExamples | sensor_node/main/drivers/sht20.c:26-40 | the checksums of a byte and of two words |
| Sht20.AcceptedMeansZero | sensor_node/main/drivers/sht20.c:76 | a response is accepted exactly when the register, fed with all its bytes, returns to zero |
| Sht20.BurstRejected | sensor_node/main/drivers/sht20.c:76 | no error burst of up to eight bits in data, checksum or both is accepted |
| Sht20.ReadMeasurement | sensor_node/main/drivers/sht20.c:67-102 | the value comes from the first of five responses whose checksum holds, else the last failure is reported; soft resets follow every failure from the third on, and the waits are the base times 2^failures - 1 plus one delay per acknowledged reset |
| Sht20.Conversion | sensor_node/main/drivers/sht20.c:81-88 | temperature and humidity are linear in the upper 14 bits, status bits do not count, and humidity is cut to 0 and 100 |
| RingBuffer.PushWindow | common/util/ringbuf.c:41-49 | storing at the head and advancing appends to the queue, and on a full buffer forgets its oldest byte, across wraparound |
| RingBuffer.RingBuf.Size | common/util/ringbuf.c:19-29 | the pointer arithmetic gives the number of queued bytes |
| RingBuffer.RingBuf.IsEmpty | common/util/ringbuf.c:31-34 | true exactly for the empty queue |
| RingBuffer.RingBuf.IsFull | common/util/ringbuf.c:36-39 | true exactly for a queue at a capacity above zero |
| RingBuffer.RingBuf.Write | common/util/ringbuf.c:57-65 | leaves the last capacity bytes of old contents plus data, for every capacity, and touches nothing beyond the capacity |
| RingBuffer.RingBuf.Read | common/util/ringbuf.c:67-75 | returns the oldest bytes and removes exactly those |
| RingBuffer.RingBuf.Reset | common/util/ringbuf.c:77-82 | empties the queue |
| RingBuffer.RunReadsInOrder | common/util/ringbuf.c:5-82 | over every sequence of operations, what was read is an in-order selection of what was written before what is still held, and what is held is the end of the stream |
| RingBuffer.LosslessRun | common/util/ringbuf.c:5-82 | without overflow and reset, output plus contents is exactly the input |
| SecureFrame.SealedFields | common/net/ws_security.c:109-155 | a sealed frame is 38 bytes longer than its plaintext: version 1, flags 0, the counter in bytes 2 to 9 with its low byte first, the nonce in bytes 10 to 21, ciphertext and tag of exactly this header and plaintext, the tag in the last 16 bytes |
| SecureFrame.SealOpens | common/net/ws_security.c:157-212 | a receiver opens a sealed frame exactly when its counter is above the last accepted one, and then gets the plaintext |
| SecureFrame.Context.Encrypt | common/net/ws_security.c:109-155 | needs exactly 38 bytes more than the plaintext, writes a frame of that layout under the next counter, or reports the failure; nothing beyond the frame is written |
| SecureFrame.Context.ResetCounters | common/net/ws_security.c:283-289 | restarts the sender's counter |
| SecureFrame.Context.Decrypt | common/net/ws_security.c:157-212 | refuses fewer than 38 bytes, another version, flags, an old counter and what the cipher refuses, each with its error and without touching the counter; else leaves the plaintext at the front with its length and the counter |
| SecureFrame.MoveToFront | common/net/ws_security.c:204 | the overlapping move puts the block at the front unchanged |
| Channel.Transmit | common/net/ws_security.c:109-155 | the sender of the runs is the envelope in place: one call is one step of the run, also when the cipher fails |
| Channel.StepKeepsInvariant | common/net/ws_security.c:109-212 | every step of sender, network and connections keeps counters in order and every connection explained by the frames, of whatever type, that arrived on it |
| Channel.RunKeepsInvariant | common/net/ws_server.c:1088-1129 | the invariant holds after every run |
| Channel.DeliveredIsSubsequence | common/net/ws_server.c:783-812 | in every run and for each of many connections, whenever it joined, the plaintexts delivered from sealed (binary) frames are a subsequence of what was sent: in order, none twice, none invented |
| Channel.AllOpenedExactlyWhen | common/net/ws_server.c:783-810 | in every run, everything a connection delivered went through the cipher if and only if every data frame that arrived was binary |
| Channel.InOrderArrivalsAreDelivered | common/net/ws_client.c:340-359 | if a connection's binary frames are sealed ones in order with none repeated, every one is delivered, whatever frames of other types arrive in between |
| Channel.UnsealedDataIsDelivered | common/net/ws_client.c:340-359 | a payload that is not empty in a frame that is not binary is delivered although nothing was sent, on either end, except for what a server answers itself |
| ChannelMessages.CommandsReadAreCommandsSent | common/net/ws_server.c:787-811 | in every run and for every connection, the commands read from sealed frames are a subsequence of the commands sent, normalised: in order, none twice, none invented, none unreadable |
| ChannelMessages.UpdatesReadAreUpdatesSent | common/net/ws_client.c:340-359 | the same for broadcast sensor updates read from sealed frames, up to rounding |
| ChannelMessages.InOrderCommandsAreRead | common/net/ws_server.c:787-811 | if the binary frames that arrive are sealed ones in order with none repeated, the command of every one is read |
| ChannelMessages.OnlySentCommandsAreRead | common/net/ws_server.c:783-810 | if every data frame that arrived was binary, everything delivered is read as the command sent at its place, in order and none twice |
| ChannelMessages.OnlySentUpdatesAreRead | common/net/ws_client.c:340-359 | the same for sensor updates |
| ChannelMessages.UnopenedReadsAsItStands | common/net/ws_server.c:783-810 | the text of a payload that was not opened is read as it stands, with the checksum test off |
| ChannelMessages.TextFrameIsRead | sensor_node/main/net/ws_server.c:34-52 | a text frame with one particular command is read as that command although nothing was sent |
| NonceCache.Cache.CheckDuplicate | common/net/ws_server.c:415-434 | finds a live equal nonce exactly if there is one, and drops just the expired entries scanned before it |
| NonceCache.Cache.Store | common/net/ws_server.c:436-462 | takes the first free slot, else the first slot of greatest wrapped age |
| NonceCache.Oldest | common/net/ws_server.c:443-454 | the evicted slot has the greatest age, and is the first one that does |
| ReplayProtection.AgeIsExact | common/net/ws_server.c:425 | wrapped tick subtraction is the true age below 2^32 ticks |
| ReplayProtection.RunIsSound | common/net/ws_server.c:415-462 | over every run, each valid slot holds a store made within the lifetime, and no store is held twice |
| ReplayProtection.ReplayIsRefused | common/net/ws_server.c:618-630 | a stored nonce is refused throughout its lifetime unless more than capacity nonces were stored since, itself included; ties allowed |
| ReplayProtection.OnlyStoredNoncesAreRefused | common/net/ws_server.c:415-434 | a nonce that was never stored is never refused |
| ReplayProtection.CrowdedMeansGone | common/net/ws_server.c:436-462 | with distinct store times, capacity later stores always evict |
| ReplayProtection.ReplayIsRefusedExactlyWhen | common/net/ws_server.c:618-630 | with distinct store times and nonces, a replay within the lifetime is refused if and only if the store is among the last capacity ones |
| RequestRuns.CacheIsModelled | common/net/ws_server.c:567-657 | over every sequence of requests with all checks in place, the cache is that of the replay model's run of the requests that reach the nonce check |
| RequestRuns.AcceptedIsLogged | common/net/ws_server.c:624-630 | every accepted request has stored its nonce |
| RequestRuns.AcceptedOnce | common/net/ws_server.c:567-657 | a request that presents the nonce of an accepted one within its lifetime is refused, unless more than capacity nonces, that one included, were stored since |
| Numerals.HexRoundTrip | common/net/ws_server.c:354-380 | parsing the printed form of any bytes, in either case, gives them back |
| Numerals.BytesToHex | common/net/ws_client.c:49-57 | prints every byte in lower case and terminates the text |
| Numerals.ParseHex | common/net/ws_server.c:366-380 | accepts exactly hexadecimal texts and fills in their bytes |
| Numerals.DecimalRoundTrip | common/proto/messages.c:105-107 | the printed decimal of any number has that number as value |
| Numerals.ParseDecimalHeader | common/net/ws_server.c:382-401 | accepts exactly texts of 1 to 8 digits of the configured length, and yields their value without overflow |
| Headers.LineRoundTrip | common/net/ws_client.c:72-125 | a written header line is read back as its name and value, in front of what follows |
| Headers.StripMeans | common/net/ws_server.c:572 | from a header's value exactly the blanks at both ends are taken off |
| Totp.Pow10U32 | common/util/totp.c:6-13 | the power of ten does not wrap for up to eight digits |
| Totp.Compute | common/util/totp.c:15-59 | the byte loop and truncation give the code of section 5.3 of RFC 4226 for step time/period: four bytes of the digest, most significant first, from the place that the last four bits name, without the uppermost bit, modulo 10^digits |
| Totp.TruncatedBytes | common/util/totp.c:50-54 | the truncated word has exactly those four bytes, most significant first |
| Totp.TruncationExample | common/util/totp.c:50-57 | the example of section 5.4 of RFC 4226 gives 872921 |
| Totp.BigEndianRoundTrip | common/util/totp.c:20-25 | bytes of a number, most significant first, and number of bytes are inverse to each other |
| Totp.BigEndianOrder | common/util/totp.c:20-25 | the most significant of eight bytes comes first |
| Totp.Verify | common/util/totp.c:61-95 | reports a match exactly when some offset in the window has the code, for usable configurations |
| Totp.SkipLosesNoStep | common/util/totp.c:73-83 | an offset is skipped near the epoch exactly when its step would be negative, and otherwise lands in exactly that step |
| Totp.LaterStepNeedsRoom | common/util/totp.c:73-83 | a later offset lands in its step exactly while the shifted time fits 64 bits |
| Totp.WindowIsSteps | common/util/totp.c:61-95 | the window accepts exactly the codes of steps T-w to T+w that are not negative |
| Totp.DriftWithinWindow | common/util/totp.c:61-95 | clocks at most window times period seconds apart are at most window steps apart |
| Handshake.BlockHasHeaderLen | common/net/ws_client.c:483-506 | the lines sum exactly to the length computed at start, for every token, nonce, time and feature set |
| Handshake.HeaderBuilder.Regenerate | common/net/ws_client.c:59-131 | builds the whole block on first and later attempts and never reports a size error |
| Handshake.NonceIsLowerCase | common/net/ws_client.c:49-57 | the nonce is printed in lower case, two digits a byte |
| Authorize.CheckTotp | common/net/ws_server.c:633-655 | accepts exactly a code of the configured length that matches in the signed window; a negative one is empty |
| Authorize.AuthorizeRequest | common/net/ws_server.c:567-657 | decides as specified and leaves the replay cache as specified, in the order of the source; accepts if and only if the headers show the token, a nonce that is not remembered, a signature whose first 32 bytes sign nonce and token, and a code of the window, as far as each is asked for |
| Authorize.AcceptedExactlyWhen | common/net/ws_server.c:567-657 | the same as a statement about every header map, cache and time |
| Authorize.ShownCodeIsOfStepInWindow | common/net/ws_server.c:633-655 | on a clock with room, an accepted code is all digits, of the configured length, and that of a step within the window; and every such code is accepted |
| Authorize.NonceIsStoredExactlyWhen | common/net/ws_server.c:618-630 | a request that passes the handshake stores its nonce in one slot whether its code is right or not; any other, such as one with a wrong signature, stores nothing; all other entries stay or have expired |
| Authorize.RequestIsCall | common/net/ws_server.c:618-630 | every request that reaches the nonce check is a call of the replay model, and a refused call is never accepted |
| Authorize.SignatureTailIsIgnored | common/net/ws_security.c:256-271 | a presented signature of 32 to 64 bytes is treated exactly as its first 32 bytes are |
| Authorize.BlockParses | common/net/ws_client.c:59-131 | the server reads back exactly the fields the client wrote |
| Authorize.SmallDriftAgrees | common/net/ws_server.c:633-655 | a drift of at most window times period seconds keeps the clocks in agreement |
| Authorize.OwnCodeIsAccepted | common/net/ws_server.c:633-655 | the client's zero-padded code passes the server's parser and window |
| Authorize.OwnHandshakeIsAccepted | common/net/ws_server.c:567-657 | with everything shared, a new nonce and agreeing clocks, the client's headers are accepted if and only if the token has at most 184 characters |
| Base32.ShiftInLowBits | common/util/base32_utils.c:42-50 | wrapping never disturbs the accumulator bits that are still needed |
| Base32.Alphabet | common/util/base32_utils.c:6-18 | the alphabet of section 6 of RFC 4648 |
| Base32.SpacesAre | common/util/base32_utils.c:35 | the six white space characters of the C locale |
| Base32.Decode | common/util/base32_utils.c:20-61 | succeeds exactly when all symbols before padding are legal, leftover bits are zero and the output fits, and says which of these failed; then writes the first 5n/8 bytes of the symbols' bits |
| Base32.EncodingDecodes | common/util/base32_utils.c:20-61 | decoding inverts the encoding of section 6 of RFC 4648 for every byte string |
| Base32.DecodedExactlyWhen | common/util/base32_utils.c:30-60 | exactly which symbol strings decode to given bytes |
| Base32.TextDecodesExactlyWhen | common/util/base32_utils.c:20-61 | exactly which texts decode to given bytes: up to case, white space and what follows the first equals sign, only their encoding, or that and one letter A where at most two fill bits are needed |
| Base32.TextRoundTrip | common/util/base32_utils.c:30-41 | the inversion holds in any case, with or without padding, with white space anywhere |
| ClientTable.Table.AddClient | common/net/ws_server.c:526-548 | takes the first free slot if there is one; a descriptor that is not in use is added, all others stay and descriptors stay distinct |
| ClientTable.Table.DropClient | common/net/ws_server.c:489-505 | removes that descriptor and no other |
| ClientTable.Table.FindClient | common/net/ws_server.c:470-481 | the slot of a descriptor, or none exactly if it is not in the table |
| ClientTable.Table.HandleFrame | common/net/ws_server.c:766-812 | changes the sender's entry by frame type and no other: every frame renews the time, pong and plain data answer a ping, a sealed frame of a verified client sets the counter it opened under or removes the client |
| ClientTable.Table.MarkVerified | common/net/ws_server.c:550-559 | verifies one entry and restarts its counter |
| ClientTable.Table.PingTimer | common/net/ws_server.c:684-717 | for every entry by its own age, although entries are freed during the scan: dropped if it owes an answer for the timeout, pinged if quiet for the interval, dropped if that fails |
| ClientTable.Table.Broadcast | common/net/ws_server.c:1114-1125 | every active client gets the frame once, and exactly those it cannot be sent to are dropped |
| ClientTable.LookupThinned | common/net/ws_server.c:684-717 | freeing entries keeps descriptors distinct and forgets just the freed ones |
| ClientTable.DescriptorsFit | common/net/ws_server.c:526-548 | there are never more descriptors than slots |
| Keepalive.SilentClientIsDropped | common/net/ws_server.c:684-717 | with callbacks every P and timeout T, a client silent since s is out of the table before s + max(3P, T + P), across tick wraparound |
| Keepalive.AnsweringClientStays | common/net/ws_server.c:684-717 | a client that answers each ping before the next callback is never dropped by the timer while sends succeed |
| TableRuns.Perform | common/net/ws_server.c:684-813 | one event of the table acts on any watched client as the model of a single client says |
| TableRuns.RunTable | common/net/ws_server.c:684-813 | over any run of timer callbacks, frames, broadcasts and clients that come and go, each client fares as that model says, and at most capacity descriptors are in the table |
| TableRuns.RunWithSilentClient | common/net/ws_server.c:684-717 | after any such run a client silent since s is not in the table once s + max(3P, T + P) has passed |
| TableRuns.RunWithAnsweringClient | common/net/ws_server.c:684-717 | after any such run a client that answers each ping in time is in the table |
| Sessions.TakeFrame | common/net/ws_server.c:786-802 | a binary frame of a verified client is opened under the counter in its entry: the new counter takes its place, or the client is removed; no other frame touches the counter |
| Sessions.RunSession | common/net/ws_server.c:766-813 | over any run after a handshake, with timers, broadcasts and other clients in between, the counters accepted from a client strictly increase, each frame opens under the one before, the entry holds the last, a binary frame that does not open removes the client, and the entry agrees with the connection of the channel's runs |
| Backoff.Reconnector.constructor | common/net/ws_client.c:514-519 | zero means the defaults, and the ceiling is the larger of the configured or default one and the least delay |
| Backoff.Reconnector.OnConnected | common/net/ws_client.c:317-323 | a connection resets the delay |
| Backoff.Reconnector.OnDisconnected | common/net/ws_client.c:324-339 | the n-th wait in a row is min(max, min times 2^n), without overflow |
| Backoff.Reconnector.Run | common/net/ws_client.c:316-339 | over any run of events every wait is that of its position since the last connection |
| Ota.Updater.PerformUpdate | common/ota/ota_update.c:97-181 | the error is that of the first of six stages that does not pass: begin, descriptor, validator, transfer, completeness, finish; the handle is finished exactly if five pass and aborted if at least one does; a rejected image and a failed final check are not tried again, every other failure is |
| Ota.Updater.Task | common/ota/ota_update.c:183-278 | there is a number of attempts that explains the run: each but the last is one to be tried again, handles are begun, finished and aborted by the stages each attempt passes, the version is stored exactly if the last one succeeds and it reaches the flash, the restart comes last, and the waits double up to the ceiling |
| Ota.NothingCompleteNothingStored | common/ota/ota_update.c:158-162 | without a complete image nothing is finished and the stored version stays |
| Ota.LastAttemptIsFirstFinal | common/ota/ota_update.c:224-274 | attempts go on exactly while they may be retried and the limit is not reached |
| Ota.VersionChangesExactlyWhen | common/ota/ota_update.c:231-239 | the stored version changes exactly when the last attempt succeeds and its version reaches the flash, reported or not, and then to that image's version |
| Ota.HandlesAreClosed | common/ota/ota_update.c:118-171 | every begun handle is closed before anything else happens, and nothing else is closed |
| Ota.EachHandleOnce | common/ota/ota_update.c:118-171 | each attempt begins at most one handle and closes it exactly once, by finish or abort |
| Ota.WaitsDouble | common/ota/ota_update.c:257-270 | one wait between two attempts: the initial one, then min(max, initial times 2^k); never more than the limit allows |
| Printing.BoundedPrint | common/proto/messages.c:26-32 | prints the text or its part that fits, terminates it, returns the full length and writes nothing outside the room |
| Printing.JsonAppend | common/proto/messages.c:21-36 | succeeds exactly when the text and its zero fit; cursor plus remaining is conserved |
| Json.PrintedIsRead | common/proto/messages.c:491 | every printed document is read back as its value, and reading stops where it ends |
| JsonGrammar.TreeIsRead | common/proto/messages.c:491 | every spelling of a value, with any blanks, escapes, surrogate pairs, fractions and exponents, is read as that value |
| JsonReading.ValueIsSpelled | common/proto/messages.c:491 | whatever is read is spelled as the grammar says |
| JsonReading.ReadExactlyWhen | common/proto/messages.c:491 | the reader reads a value in front of a delimiter if and only if that is one of the spellings of this value in the grammar of sections 2 to 7 of RFC 8259 |
| JsonGrammar.Utf8Bytes | common/proto/messages.c:491 | the bytes of an escaped code are those of section 3 of RFC 3629 |
| Json.CStringMeans | common/proto/messages.c:514 | a text is cut at its first zero character and nowhere else |
| Lookup.FindAt | common/proto/messages.c:496-517 | the first field whose name agrees but for case is the one found |
| Lookup.SameNameExactlyWhen | common/proto/messages.c:496-517 | names are the same if and only if they differ at most in the case of letters |
| Lookup.DamagedPayloadIsRefused | common/proto/messages.c:362-368 | with a checksum other than 0, a payload changed within 32 consecutive bits is refused |
| Lookup.DamagedPayloadExactlyWhen | common/proto/messages.c:362-368 | such a payload is accepted if and only if the checksum is 0 and the payload starts with a value |
| ZeroChecksum.ZeroChecksumOccurs | common/proto/messages.c:97-141 | a real command has checksum 0 |
| ZeroChecksum.DamageIsAccepted | common/proto/messages.c:355-368 | that command's text with one digit changed is accepted under its checksum and read as another command |
| FrameDamage.FieldIsSent | hmi_node/main/net/ws_client.c:576-578 | the field in the damage theorems is what the sender puts in front of the text, low byte first |
| FrameDamage.DamageIsAcceptedExactlyWhen | common/proto/messages.c:362-368 | whatever happens to the checksum field and the text, the message is accepted exactly if it starts with a value and the field became 0 or changed just as the change of the text changes the checksum |
| FrameDamage.BurstIsAcceptedExactlyWhen | common/net/ws_server.c:803-809 | a burst of up to 32 bits in the text is accepted only if the checksum was 0; one in the field only if it makes the field 0, and then the text is unharmed |
| BorderBurst.BorderBurstGoesUnnoticed | common/proto/messages.c:362-368 | for every text of 43 characters that starts with a brace and a quote, some burst within 32 bits across the border of field and text leaves a message that is accepted and read as the number 3 |
| BorderBurst.DifferenceOfChecksums | common/proto/proto_crc32.c:3-14 | how the checksum of a 43-byte message changes with its first byte, whatever the other bytes are |
| BorderBurst.SomeCommandHas43 | common/proto/messages.c:97-141 | some command has a text of that length, and the number 3 is read as a command that asks for nothing |
| Commands.EncodeCommand | common/proto/messages.c:97-141 | succeeds exactly when the full text is shorter than the buffer, returns text, length and checksum, and else leaves the length |
| Commands.CommandFits | common/proto/messages.h:7 | no command's text exceeds 179 characters, so the callers' buffer always suffices |
| Commands.CommandTextIsPrinted | common/proto/messages.c:105-134 | the pieces the encoder prints make up one JSON document |
| Commands.DecodeCommand | common/proto/messages.c:355-523 | accepts exactly payloads with a right or absent checksum that start with a JSON value, and interprets that value |
| Commands.FieldsAreInterpreted | common/proto/messages.c:496-519 | the fields of a command's document are interpreted as the normalised command |
| Commands.NamesAreRead | common/proto/messages.c:511-515 | only the name mcp1 is the second expander, and exactly the ports that start with a B are port B |
| Commands.PartsMustBeObjects | common/proto/messages.c:499-519 | a part that is not an object counts as missing |
| Commands.CommandRoundTrip | common/proto/messages.c:355-523 | every command's text, with its checksum or 0, is accepted and read as the command with device and port collapsed to 0 or 1 and absent parts zero |
| WireTexts.SampleCommand | common/proto/tests/test_messages.c:44-63 | the text of the test's command, character by character |
| WireTexts.SampleCommandIsForPortA | common/proto/tests/test_messages.c:57-72 | that command reads back as port 0 |
| SensorUpdates.TwoPlacesError | common/proto/messages.c:54 | two printed places are off by at most 0.005 |
| SensorUpdates.SignIsPrinted | common/proto/messages.c:54 | a minus sign is printed exactly for negative values, also for those that are rounded to zero |
| SensorUpdates.RomText | common/proto/messages.c:65-68 | the byte loop prints the ROM code in upper-case hexadecimal |
| SensorUpdates.AppendJoined | common/proto/messages.c:51-59 | the list loop appends all pieces with commas between, or fails exactly when they do not fit |
| SensorUpdates.EncodeSensorUpdate | common/proto/messages.c:38-95 | succeeds exactly when the full text is shorter than the buffer, returns text, length and checksum, and else leaves the length |
| SensorUpdates.UpdateTextIsPrinted | common/proto/messages.c:46-86 | the pieces the encoder prints make up one JSON document |
| WireTexts.SampleUpdate | common/proto/tests/test_messages.c:8-24 | the text of the test's update, character by character |
| SensorDecoding.ParseRom | common/proto/messages.c:339-353 | fills in the bytes scanned before the first pair that does not scan and keeps the other bytes; blanks, signs and 0x prefixes as the C library scans them |
| SensorDecoding.DigitsScan | common/proto/messages.c:347 | two hexadecimal digits scan to their byte, one in front of something else to its value |
| SensorDecoding.SignsScan | common/proto/messages.c:347 | signs, blanks, 0x prefixes and other letters in a pair |
| SensorDecoding.RomIsFilledIn | common/proto/messages.c:339-353 | byte by byte: what the pair scans to if it and all before it scan, else what was there |
| SensorDecoding.RomRoundTrip | common/proto/messages.c:339-353 | the printed ROM code is read back, whatever was there before |
| SensorDecoding.ReadSht20s | common/proto/messages.c:752-774 | reads at most two readings and leaves the rest empty |
| SensorDecoding.PartsOfReading | common/proto/messages.c:759-772 | a part of a reading that is missing or of the wrong type is zero, empty or invalid; only true is valid |
| SensorDecoding.ReadDs18b20s | common/proto/messages.c:776-794 | reads at most four readings and leaves the rest empty |
| SensorDecoding.ReadDuties | common/proto/messages.c:814-825 | reads at most sixteen duties and leaves the rest zero |
| SensorDecoding.DecodeSensorUpdate | common/proto/messages.c:744-829 | accepts exactly payloads with a right or absent checksum that start with a JSON value, and interprets that value |
| SensorDecoding.NothingAboveCounts | common/proto/messages.c:752-794 | in whatever is read, slots above the counts are empty |
| SensorDecoding.SensorRoundTrip | common/proto/messages.c:744-829 | every update's text is read back: integers, flags, ids, ROM codes, ports and duties exactly, temperatures and humidities within 0.005 |
| UpdateLength.UpdateFits | sensor_node/main/data_model.c:181-185 | an update with finite readings needs at most 872 characters, so encoding into 2048 bytes never fails |
| FramePath.PackedIsUnpacked | hmi_node/main/net/ws_client.c:576-578 | the checksum put in front as four bytes comes back with the text |
| FramePath.SealedTextArrives | common/net/ws_server.c:787-809 | a sealed message with a new counter reaches the reader as text and checksum unchanged |
| FramePath.CommandArrives | hmi_node/main/net/ws_client.c:555-580 | every command sent through checksum and envelope is accepted and read as its normalised form |
| FramePath.UpdateArrives | sensor_node/main/net/ws_server.c:149-165 | every sensor update sent through checksum and envelope is accepted and read back up to rounding |
| PortBits.MergeBit | sensor_node/main/drivers/mcp23017.c:91 | a masked update takes each bit from the value where the mask is set and from the old word elsewhere |
| PortBits.SingleBit | hmi_node/main/display/ui_screens.c:278 | the mask of a pin has exactly that bit |
| PortBits.ShownIsBit | hmi_node/main/display/ui_screens.c:881-884 | shifting and testing the lowest bit reads the bit of the pin |
| Gpio.Expander.WriteGpio | sensor_node/main/drivers/mcp23017.c:87-93 | merges the masked bits into the latch bytes that the write reaches, even when it is reported as bad, and nothing when the read fails |
| Gpio.PortsOfWord | sensor_node/main/drivers/mcp23017.c:25-45 | port A is the lower half of an expander's word, and port B the upper one |
| Gpio.IoTask.Send | sensor_node/main/tasks/t_io.c:165-177 | queues the command exactly if there is room among sixteen |
| Gpio.IoTask.Drain | sensor_node/main/tasks/t_io.c:65-95 | works off the whole queue in order onto latches, duties and frequency |
| Gpio.PlacedBit | sensor_node/main/tasks/t_io.c:84-90 | only the low eight bits of a command count, and they act on the port it names |
| Gpio.GoodUpdateReaches | sensor_node/main/drivers/mcp23017.c:25-29 | an update whose two transfers are reported as good reaches every bit |
| Gpio.ReachedExactlyWhen | sensor_node/main/drivers/mcp23017.c:87-93 | an update whose read works reaches all bits if it is reported as good, and else those of the bytes that landed, low byte first |
| Gpio.LastWriterWins | sensor_node/main/tasks/t_io.c:65-95 | each latch bit of each expander ends up as the last command says whose mask covers it and whose write reached it |
| Gpio.UncoveredStays | sensor_node/main/tasks/t_io.c:65-95 | a latch bit that no command covers and reaches keeps its value |
| Gpio.RoundsCompose | sensor_node/main/tasks/t_io.c:63-95 | several rounds of the loop act as one over all their commands |
| Gpio.LastDutyWins | sensor_node/main/tasks/t_io.c:67-72 | each channel's duty is that of the last command for it, channels taken modulo sixteen |
| Gpio.LastFrequencyWins | sensor_node/main/tasks/t_io.c:73-81 | the frequency is that of the last command for it |
| GpioPath.Receive | sensor_node/main/net/ws_server.c:34-52 | hands over the parts of a command in order; those that find no room are lost |
| GpioPath.ScreenShowsBit | hmi_node/main/display/ui_screens.c:879-885 | the screen decodes pin p from bit p of the word that is reported for an expander |
| GpioPath.ToggleIsRead | hmi_node/main/display/ui_screens.c:271-281 | the message of a switch is read back as exactly one order for its pin |
| GpioPath.ToggleSetsOneBit | hmi_node/main/display/ui_screens.c:271-281 | that order sets the bit of that pin on that expander, and no other bit of either |
| GpioPath.SwitchReachesLatch | hmi_node/main/display/ui_screens.c:271-281 | a switch flipped on the screen, sent, read, queued behind up to fifteen other commands and worked off with them sets the latch bit of its pin to its value and leaves every other latch bit of either expander as those commands do; on a full queue the order is lost |
| GpioPath.CommandTakesEffect | sensor_node/main/net/ws_server.c:34-52 | any command that is sent, read and finds room in the queue for its parts: its duty, its frequency and its masked latch bits end up as it says, everything else as the commands before it leave it |
| Publishing.DataModel.SetSht20 | sensor_node/main/data_model.c:32-51 | stores one reading with its id cut to 15 characters and raises the count if needed |
| Publishing.DataModel.SetDs18b20 | sensor_node/main/data_model.c:53-69 | stores one reading and raises the count if needed |
| Publishing.DataModel.SetPwm | sensor_node/main/data_model.c:84-99 | takes over at most sixteen duties and the frequency |
| Publishing.DataModel.ShouldPublish | sensor_node/main/data_model.c:130-170 | says yes exactly when nothing was published yet or under a sequence number that wrapped to 0, or a counted reading has moved by more than its threshold, or a port, a duty or the frequency is different |
| Publishing.DataModel.Build | sensor_node/main/data_model.c:172-201 | succeeds exactly when the text fits, always for finite readings; the buffer handed out before stays as it was, and the staged buffer holds the text of the update last published |
| Publishing.DataModel.Tick | sensor_node/main/app_main.c:101-108 | after a pass the published update is within the thresholds of the state, unless a build failed |
| Publishing.RunLoop | sensor_node/main/app_main.c:101-108 | over every run with any edits in between, after every pass the published update is within the thresholds of the state and counts no reading that the state does not, and slots above a count are empty; in fewer than 2^32 passes the published sequence number is never 0 |
| Publishing.ReceiverIsClose | sensor_node/main/data_model.c:130-201 | for every reading the state counts, what a receiver reads from the last payload is within threshold plus 0.005; one that the payload does not contain is an empty slot there, and the state is that close to 0; ports, duties and frequency are equal |
| Publishing.FlagChangeGoesUnseen | sensor_node/main/data_model.c:142-150 | a flipped validity flag alone is never a reason to publish |
| Publishing.NewProbeUnseenExactlyWhen | sensor_node/main/data_model.c:151-157 | with nothing else moved, a newly counted probe is no reason to publish if and only if it reads within the threshold of 0 |
| Publishing.NewAmbientUnseenExactlyWhen | sensor_node/main/data_model.c:142-150 | with nothing else moved, a newly counted ambient sensor is no reason to publish if and only if both its values are within their thresholds of 0 |
| Publishing.ProbeAppears | sensor_node/main/data_model.c:130-170 | right after a publication, storing a new probe makes the node publish exactly if its reading is further than the threshold from 0 |
| Publishing.ProbeNearZeroIsMissed | sensor_node/main/data_model.c:151-157 | a state with a probe at 0.1 degrees is within the thresholds of an update without probes, and the receiver of that update sees none |
| Publishing.NameChangeGoesUnseen | sensor_node/main/data_model.c:142-157 | a changed id or ROM code alone is never a reason to publish |

## Left out

- The CBOR halves of the messages: they rest on a library that is not part of this model.
- mbedtls, the HTTP and WebSocket libraries and the JSON library themselves: AES-GCM, HMAC and Base64 are functions
  with stated laws, headers are read after section 3.2 of RFC 7230, JSON after RFC 8259.
- Authenticity of the cipher: an assumption on the runs of `Channel`, not a theorem.
- Claims across connections or directions: the client's counter restarts with each connection and one key serves both.
- Control frames: `Keepalive` and `TableRuns` assume that pongs reach the server's handler. The endpoint is registered
  without asking for control frames (common/net/ws_server.c:1023-1028), and the HTTP library, which is not part of this
  model, answers those by default itself.
- Frames that arrive in fragments or do not fit the receive buffer: they count as dropped.
- Tasks and locks: each handler, timer callback and queue operation is one atomic step.
- Floating point: readings and thresholds are real numbers, so rounding of single precision and negative zero are not
  modelled; a reading that is not a number, which the encoder prints as text that no JSON reader takes, is excluded.
- Casts of numbers outside a field's range: undefined in C, 0 here; a number missing from a reading is 0 here, where the
  code has a value that is not a number.
- Texts with characters that JSON must escape: the encoders do not escape, so round trips are stated for ids without them.
- Wi-Fi, discovery, certificates, stored preferences, time synchronisation, the rest of the user interface and the drivers
  of the other sensors: input and output, or arithmetic on small finite domains.
- PWM hardware writes and reading the pins back: the pins are set up as inputs, so claims are about the output latches.
- A replay lifetime of zero ticks, which the code takes as unlimited: runs are stated for positive lifetimes.
- The 2^64-th frame of one counter: runs are shorter than that.
- Resetting or erasing flash during an update, and a transfer that reports progress for ever.
- SecureFrame.Context.Decrypt: what a failed cipher call leaves in the ciphertext area is not specified.
- Totp.Verify: the two window values whose signed form overflows are excluded, since C leaves that undefined.
- Commands.DecodeCommand: texts outside RFC 8259 that the JSON library may accept all the same, such as a number that ends in its decimal point, count as unreadable.
- SensorDecoding.DecodeSensorUpdate: the same.
- Authorize.CheckTotp: with one-time codes on, the two windows of `Totp.Verify` are excluded.
- Authorize.AuthorizeRequest: the same.
