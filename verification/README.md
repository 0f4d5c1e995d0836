# ESP8266 AT command engine

A Dafny model of the AT command/response engine of the `ESP8266ATLib`
Arduino library. It covers how the library drives an ESP8266 Wi-Fi module
over a serial link:

- commands are written as lines;
- the module's reply is read back one line at a time into a 255-byte buffer;
- the station IP address is picked out of `STAIP`/`APIP` lines as they pass;
- replies are classified (error, busy, key seen, nothing yet) under a budget
  of trials;
- the `+IPD` data frames and link ids are parsed;
- the setup and send choreographies are built from these parts.

The model is organised in modules that follow the C++ file:

- `Text`: the Arduino `String` and C-string operations the code relies on.
  These are `indexOf`, `substring` and `toInt`, `strstr`, the NUL-terminated
  view of a buffer, and decimal rendering.
- `Engine`: the object's state (`Session`) and the serial link (`Channel`).
  Also the constructor, the accessors, and `sendCommand`/`sendData`.
- `Reader`: `readResponse`, as a functional polling loop over a 255-slot
  buffer. It includes the out-of-bounds store as an explicit `Overrun`
  outcome, the wrap-around of the 16-bit `--timeout`, and the IP capture.
- `ReaderArray`: the same reader written over a mutable array with nested
  loops. It is proved equal to `Reader.ReadResponse`.
- `Classifier`: `waitForResponse` and its trial budget.
- `Parsers`: `espListenToServer`, both `espListenToClient` forms and
  `extractLinkID`.
- `Choreography`: `begin`, `espReset`, `espVersion`, `espConnectAP`,
  `espStartAP`, `getLocalIP`, `setupTcpServer` and `setupTcpClient`. Also the
  three send paths and the two close operations.

The serial link is a `Channel`, made of three parts:

- `avail`: the bytes already waiting;
- `arrivals`: one chunk per later polling round;
- `out`: everything written so far.

Every operation returns its value together with the next `Session`, or
`Overrun` when the C++ would store past the end of `mReplyBuffer`. Properties
about what is written are stated over `out`, as an exact transcript.

## Model

| member | source | states |
|---|---|---|
| Engine.Init | src/ESP8266ATLib.cpp:21-30 | A new object has an all-zero reply buffer (so an empty C string), empty IP/SSID/password, debug and soft-AP off, and a wait time of 200 |
| Engine.AccessorsRoundTrip | src/ESP8266ATLib.cpp:102-120 | `getWaitTime` returns what `setWaitTime` stored and `isDebug` is true after `setDebug`; each setter changes nothing else |
| Engine.SendCommand | src/ESP8266ATLib.cpp:484-494 | The bytes already waiting are discarded and later arrivals are kept; exactly the command and CR LF are appended to the output; the object's other fields are unchanged |
| Engine.SendData | src/ESP8266ATLib.cpp:496-503 | The same as for commands, but the data is written raw with no line terminator |
| Reader.Drain | src/ESP8266ATLib.cpp:454-467 | The drain never moves the store index backwards or past 255; it consumes a prefix of the input; it stops with input left over only after a line feed that follows stored bytes |
| Reader.DrainContent | src/ESP8266ATLib.cpp:454-467 | The bytes stored are exactly the consumed input without CR and LF, placed from the start index on; slots outside the written range keep their old contents; an early stop consumed a line feed |
| Reader.DrainSkipLeading | src/ESP8266ATLib.cpp:459-461 | Carriage returns and line feeds before the first stored byte are skipped without effect |
| Reader.DrainLine | src/ESP8266ATLib.cpp:454-467 | A line that fits is stored without its CR bytes; the drain ends just after its LF with the rest of the input untouched |
| Reader.DrainOverflow | src/ESP8266ATLib.cpp:465-466 | Input with more than 255 storable bytes before its LF makes the drain store out of bounds; the drain has no capacity check of its own |
| Reader.QuotedFieldBetween | src/ESP8266ATLib.cpp:470-473 | The captured address is exactly the text between the first two double quotes |
| Reader.QuotedField | src/ESP8266ATLib.cpp:470-473 | The captured address never contains a quote, and is empty when the line has no quote (the 65535 index clipped by `substring`) |
| Reader.ReadLoop | src/ESP8266ATLib.cpp:451-478 | The polling loop never lowers the store index or lets it pass 255 |
| Reader.DrainFraming | src/ESP8266ATLib.cpp:454-467 | Within one round, an LF before the last consumed byte comes only while nothing is stored yet; the round stops early exactly when its last consumed byte is an LF that ends a line |
| Reader.ReadLoopFraming | src/ESP8266ATLib.cpp:451-478 | Over the whole loop, an LF before the last consumed byte comes only while nothing is stored yet; unless the consumed bytes end with an LF that ends a line, the loop ran all its rounds (or out of chunks) and left nothing unconsumed |
| Reader.ReadLoopFacts | src/ESP8266ATLib.cpp:451-478 | A loop that finishes takes at most as many chunks as the timeout allows rounds (65535 for a timeout of 0, otherwise timeout-1); it takes them from the front and writes nothing; it stores exactly the consumed bytes minus CR/LF |
| Reader.ReadResponse | src/ESP8266ATLib.cpp:447-482 | A read writes nothing; it consumes at least as many bytes as the reply holds; it changes no field but the buffer, the IP address and the link |
| Reader.ReadResponseEffect | src/ESP8266ATLib.cpp:447-482 | The reply is the consumed bytes without CR/LF, up to the first NUL. It is what the buffer now holds as a C string and is shorter than 255. The round bound and the no-writes fact from the loop hold. The read stops at the first LF that follows a stored byte; if the consumed bytes do not end with such an LF, the read used every allowed round (or every chunk there was) and consumed all it was offered. The new buffer is the stored bytes over the old contents with a NUL after them. The IP field is unchanged when no round ran; otherwise it agrees with the IP check of the last round's buffer. It is also unchanged when none of the buffers the IP check can have read during the read mentions `STAIP` or `APIP` |
| Reader.ReadLoopIp | src/ESP8266ATLib.cpp:469-474 | However many rounds ran and however the line was split across them, the IP field at the end of the loop is the quoted field of the last round's buffer whenever that buffer mentions `STAIP` or `APIP` |
| Reader.ReadLoopIpFrame | src/ESP8266ATLib.cpp:469-474 | A polling loop none of whose rounds' buffers mention `STAIP` or `APIP` ends with the IP field it started with |
| Reader.OkLeavesIp | src/ESP8266ATLib.cpp:469-474 | Reading the chunk `\r\nOK\r\n` into a buffer of NULs leaves the IP field unchanged |
| Reader.ReadCapturesIp | src/ESP8266ATLib.cpp:469-474 | For any completed read, including lines split across rounds, lines after empty rounds and lines taken from bytes an earlier read left: when the reply mentions `STAIP` or `APIP` and holds two quotes, `getIpAddress` afterwards returns the text between the first two quotes |
| Reader.ReadTakesFirstLine | src/ESP8266ATLib.cpp:447-482 | With the single chunk `\r\nOK\r\n` waiting, a completed read takes the whole chunk and answers `OK` |
| Reader.DefaultReadRounds | src/ESP8266ATLib.cpp:449-452 | With the default timeout of 1000, a read takes at most 999 polling rounds of input |
| Reader.ReadOneLine | src/ESP8266ATLib.cpp:447-482 | A round carrying leading line ends, a line of fewer than 255 bytes, an LF and a tail has an exact result. The reply is the line without CR. The tail waits for the next read. The buffer and IP are as the loop left them |
| Reader.FullLineOverruns | src/ESP8266ATLib.cpp:452-480 | A line of exactly 255 stored bytes makes the terminating NUL go out of bounds |
| Reader.LongChunkOverruns | src/ESP8266ATLib.cpp:454-466 | A round carrying more than 255 storable bytes before any LF stores out of bounds |
| Reader.IpCheckSeesLeftovers | src/ESP8266ATLib.cpp:469-474 | The IP check runs on the new line followed by whatever an earlier, longer reply left behind it up to a NUL. So stale bytes can supply `STAIP` or the address |
| Reader.IpFromLine | src/ESP8266ATLib.cpp:469-474 | A line containing `STAIP` or `APIP` sets the IP address to the text between its first two quotes |
| ReaderArray.ReadResponseInPlace | src/ESP8266ATLib.cpp:447-482 | The array implementation computes exactly the functional reader's result and session |
| ReaderArray.ReadLoopInPlace | src/ESP8266ATLib.cpp:451-478 | The outer loop over the array ends in the functional loop's state, with the array holding its buffer |
| ReaderArray.DrainInto | src/ESP8266ATLib.cpp:454-467 | The inner loop over the array gives the functional drain's result |
| Classifier.ClassifyPrecedence | src/ESP8266ATLib.cpp:409-433 | A reply is rejected iff it mentions `wrong syntax` or `ERROR`; it is busy iff it mentions `busy s...` and neither of those; the key is seen only when present, and presence alone never leaves it unmatched |
| Classifier.WaitForResponse | src/ESP8266ATLib.cpp:402-445 | A zero budget fails at once with nothing read; a wait writes nothing, never adds pending input and changes no field but buffer, IP and link |
| Classifier.WaitStep | src/ESP8266ATLib.cpp:404-439 | One trial: a match succeeds and an error fails, each right after that read; a busy reply retries without being charged; any other reply retries with one trial fewer |
| Classifier.WaitEndsOnMatch | src/ESP8266ATLib.cpp:402-432 | A successful wait ended on a read whose reply matched the key: no `wrong syntax`, `ERROR` or `busy s...`, and the key present. The wait's final state is the state that read left |
| Classifier.WaitSound | src/ESP8266ATLib.cpp:402-445 | A successful wait has a reply sequence with these properties: the last reply matches; all earlier replies are busy or unmatched; fewer unmatched replies than the budget. The wait ends in the state after that sequence |
| Classifier.WaitComplete | src/ESP8266ATLib.cpp:402-445 | Conversely, whenever such a winning reply sequence exists, the wait succeeds and ends right after it |
| Classifier.DefaultBudget | src/ESP8266ATLib.h:91 | With the default budget of 50, a wait succeeds iff some prefix of the replies ends in a match with only busy/unmatched replies before it, fewer than 50 of them unmatched |
| Classifier.BusyNotCharged | src/ESP8266ATLib.cpp:422-427 | Any number of busy replies before a match succeed on a budget of one: busy replies are not charged |
| Classifier.WaitRejectsError | src/ESP8266ATLib.cpp:409-421 | An `ERROR` or `wrong syntax` reply ends the wait with failure at once, whatever budget is left |
| Classifier.ReadReply | src/ESP8266ATLib.cpp:447-482 | A reply framed as CR LF, text, CR LF in one round is read back as exactly the text |
| Parsers.IpdPayload | src/ESP8266ATLib.cpp:245-256 | A reply without `+IPD` yields an empty string; the payload is never longer than the reply |
| Parsers.IpdRoundTrip | src/ESP8266ATLib.cpp:245-256 | The single-connection frame `+IPD,<len>:<payload>` parses back to exactly the payload |
| Parsers.IpdSingleLink | src/ESP8266ATLib.cpp:248-251 | A single-connection frame announcing n bytes yields the first n payload bytes (all that are there if fewer) |
| Parsers.IpdMultiLink | src/ESP8266ATLib.cpp:248-251 | A multi-connection frame `+IPD,<id>,<len>:<payload>` is cut to as many bytes as the link id's value, because the length is read from offset 5 |
| Parsers.IpdMultiLinkExample | src/ESP8266ATLib.cpp:248-251 | The frame `+IPD,0,5:HELLO` yields the empty string |
| Parsers.IpdNoColon | src/ESP8266ATLib.cpp:249-251 | A reply with no colon yields nothing (the colon index is stored as 65535) |
| Parsers.ExtractLinkID | src/ESP8266ATLib.cpp:340-343 | The link id is the single character at offset 5, or empty when the string is too short |
| Parsers.LinkIdOfFrame | src/ESP8266ATLib.cpp:340-343 | On a multi-connection frame the extracted link id is the frame's link digit |
| Parsers.ListenToServer | src/ESP8266ATLib.cpp:245-256 | The result is the `+IPD` payload of a line that one read with the default budget of 1000 completed with (every fact of `Reader.ReadResponseEffect`); listening writes nothing, changes no field but buffer, IP and link, and hands back fewer than 255 bytes |
| Parsers.ListenToClient | src/ESP8266ATLib.cpp:258-261 | The reply handed back is the line of one completed read with the default budget of 1000 (every fact of `Reader.ReadResponseEffect`): shorter than 255 bytes, no NUL, CR or LF, nothing written |
| Parsers.ListenToClientWithId | src/ESP8266ATLib.cpp:263-268 | The reply is the line of one completed read with the default budget of 1000; the link id has one character iff the reply is longer than five, and then it is the reply's sixth character |
| Parsers.ListenMultiLink | src/ESP8266ATLib.cpp:245-268 | When a multi-connection frame arrives, `espListenToClient(&id)` returns the frame and its link digit, but `espListenToServer` returns the payload cut to link-id bytes |
| Choreography.RunStepsFailure | src/ESP8266ATLib.cpp:39-58 | A failed command sequence has a first failing step: every step before it succeeded and it did not |
| Choreography.BeginIsSteps | src/ESP8266ATLib.cpp:32-62 | `begin` is the sequence `AT`, `AT+RST`, `ATE0`, `AT+GMR`, each awaiting `OK`, stopping at the first failure |
| Choreography.BeginWrites | src/ESP8266ATLib.cpp:32-62 | A successful `begin` writes exactly `AT`, `AT+RST`, `ATE0`, `AT+GMR`, each with CR LF |
| Choreography.BeginStopsAtFailure | src/ESP8266ATLib.cpp:39-58 | A failed `begin` failed at one of its four steps, and writes exactly the commands up to and including that step and nothing after it |
| Choreography.EspResetWrites | src/ESP8266ATLib.cpp:77-100 | A successful reset writes exactly `AT+RST` then `ATE0` |
| Choreography.EspVersionWrites | src/ESP8266ATLib.cpp:64-75 | The version query writes exactly `AT+GMR` |
| Choreography.GetLocalIP | src/ESP8266ATLib.cpp:195-210 | `AT+CIFSR` is written. The value returned is what `getIpAddress` returns afterwards, whether or not the wait succeeded |
| Choreography.LocalIpFromReply | src/ESP8266ATLib.cpp:195-210 | When the address wait succeeds, it ended on a read whose reply mentions `STAIP` in station mode or `APIP` in soft-AP mode. `getLocalIP` then returns the text between that reply's first two quotes |
| Choreography.AddressOfMatch | src/ESP8266ATLib.cpp:469-474 | A read whose reply matched `STAIP` or `APIP` leaves the text between the reply's first two quotes as the IP address |
| Choreography.LocalIpExample | src/ESP8266ATLib.cpp:195-210 | In station mode, with `+CIFSR:STAIP,"192.168.4.2"` as the next reply line, `getLocalIP` returns `192.168.4.2` |
| Choreography.ThenLocalIP | src/ESP8266ATLib.cpp:149-150 | After a successful join, the IP query runs and leaves the success verdict unchanged; a failure is passed on untouched |
| Choreography.ConnectAP | src/ESP8266ATLib.cpp:122-152 | The SSID and password are stored, as their C strings, before any command, whether or not joining succeeds; soft-AP mode and debug are untouched |
| Choreography.ConnectAPWrites | src/ESP8266ATLib.cpp:128-150 | A successful join writes exactly: `AT+CWMODE=1`; `AT+CWJAP="<ssid>","<pass>"`; `AT+CIFSR` |
| Choreography.StartAP | src/ESP8266ATLib.cpp:154-188 | SSID and password are stored and soft-AP mode is set before any command, so it stays set even when setup fails |
| Choreography.SoftApReported | src/ESP8266ATLib.cpp:190-193 | `isSoftAP` is true after `espStartAP`, whatever its outcome, and unchanged by `espConnectAP` |
| Choreography.SsidReported | src/ESP8266ATLib.cpp:212-215 | `getSSID` returns the C string of the SSID given to the last `espConnectAP` or `espStartAP` |
| Choreography.StartAPWrites | src/ESP8266ATLib.cpp:162-186 | A successful soft-AP start writes exactly: `AT+CWMODE=3`; `AT+CWSAP="<ssid>","<pass>",1,3`; `AT+CIFSR` |
| Choreography.SetupTcpServerWrites | src/ESP8266ATLib.cpp:219-243 | A successful server setup writes exactly `AT+CIPMUX=1` then `AT+CIPSERVER=1,<port>` |
| Choreography.SetupTcpClient | src/ESP8266ATLib.cpp:347-367 | A client setup writes exactly `AT+CIPSTART="TCP","<server>",<port>` |
| Choreography.CloseClientConnection | src/ESP8266ATLib.cpp:329-338 | Closing a link writes `AT+CIPCLOSE=<id>` with its own CR LF plus the one `println` adds, and changes no other field |
| Choreography.CloseServerConnection | src/ESP8266ATLib.cpp:394-397 | Closing the server connection writes `+++` followed by two CR LF pairs and changes nothing else |
| Choreography.CloseWrites | src/ESP8266ATLib.cpp:519-531 | After a failed send, the close that the termination handler issues writes exactly that link's or server's close text |
| Choreography.Send | src/ESP8266ATLib.cpp:270-292 | A send writes one of three transcripts. Success: announcement then payload. Failure: the announcement alone, or announcement, payload and close text |
| Choreography.PromptFailureWritesNoPayload | src/ESP8266ATLib.cpp:276-280 | When the `>` prompt is not seen, the send fails having written only the announcement: no payload |
| Choreography.SendOkFailureCloses | src/ESP8266ATLib.cpp:284-288 | When `SEND OK` is not seen, the send fails and writes the close text right after the payload |
| Choreography.SendMessageToClient | src/ESP8266ATLib.cpp:270-292 | A message to a client: the three transcripts, with `AT+CIPSENDBUF=<id>,<length>` as the announcement and `AT+CIPCLOSE=<id>` as the close |
| Choreography.SendBinaryToClient | src/ESP8266ATLib.cpp:294-327 | A payload over 2048 bytes fails at once having written nothing; a success wrote the announcement and the payload bytes; a failure wrote one of the two failure transcripts |
| Choreography.SendMessageToServer | src/ESP8266ATLib.cpp:369-391 | A message to the server: the three transcripts, with `AT+CIPSENDBUF=<length>` as the announcement and `+++` as the close |
| Choreography.StageAsWritten | src/ESP8266ATLib.cpp:304-307 | Storing the terminator at index len+1 of the len+1 byte staging copy is out of bounds for every payload, the empty one included |
| Choreography.StageCorrected | src/ESP8266ATLib.cpp:304-307 | With the terminator at index len, the staging copy is the payload followed by one NUL, and its first len bytes are the payload |

## Left out

- The serial hardware, the baud rate, `delay(mWaitTime)` and the
  `TIMING_ADJUST` microsecond pauses. Timing is only the count of polling
  rounds, with one arriving chunk per round; the stored wait time is kept
  but has no effect.
- `printf`, `debugPrint` and `fatalError`. They only print. Their `getLocalIP`
  argument is still evaluated and is modelled by `Choreography.ThenLocalIP`.
- The `ESP_DEBUG` echo of each byte, and the debug-only stop in `fatalError`,
  which is commented out.
- UDP (`setupUdpClient`, `sendUdpMessageToServer`), `readBinResponse` and
  `isConnected`. They are outside this core. `isConnected` is declared in
  `src/ESP8266ATLib.h` but has no definition in `src/ESP8266ATLib.cpp`, and
  `mConnected` is never assigned.
- `espListenToUdpServer` (`src/ESP8266ATLib.h:84`),
  `closeUdpServerConnection` (`src/ESP8266ATLib.h:88`) and
  `sendData(const uint8_t*, int)` (`src/ESP8266ATLib.h:96`). They are
  declared but have no definition in `src/ESP8266ATLib.cpp`, so there is no
  behaviour to model.
- `malloc`/`free` in `sendBinaryToClient`. Only the staging copy's contents
  and its out-of-bounds terminator are modelled (see Findings).
- The global `esp8266at` instance. Operations take and return a `Session`
  value.
- Classifier.WaitForResponse: the model terminates because the link carries
  finitely many chunks. On the device, an endless stream of `busy s...`
  replies loops forever, since busy replies are never charged.
- Reader.IpCheckSeesLeftovers: `strstr` on a buffer with no NUL inside its
  255 bytes reads past the array, which is undefined behaviour. The model
  then takes the whole 255 bytes as the string.
- Text.ToInt: `String::toInt` is modelled as the value of the leading decimal
  digits. Leading whitespace, a sign and overflow of `long` are not modelled,
  so the model differs from the code when the text at offset 5 of a `+IPD`
  reply starts with whitespace or a sign: `+IPD, 5:HELLO` yields the empty
  string in the model, while `String::toInt` of `" 5"` is 5 (it reads the
  number as `atol` does) and the code returns `HELLO`.
  A well-formed single-connection `+IPD` frame has a digit at offset 5.
- Characters stand in for the bytes of an Arduino `String`: a Dafny `char`
  is one C `char`. So `msg.length()` in `sendMessageToClient` and
  `sendMessageToServer` is modelled as `|msg|`, and that count is the
  `<length>` of `AT+CIPSENDBUF`. A `String` holding non-ASCII text has more
  bytes than characters, and the model then differs from the code.
- Reader.ReadResponse: its own contract states only the channel and frame
  facts. The content of the reply is stated by `Reader.ReadResponseEffect`,
  to keep the unfolding of the reader cheap.
- Choreography.EspReset, Choreography.EspVersion, Choreography.Begin and
  Choreography.SetupTcpServer: their own contracts state only the frame. The
  transcripts are stated by the `...Writes` lemmas listed above.
- Choreography.SendBinaryToClient: `len` is a 16-bit parameter, so payloads
  of 65536 bytes or more are excluded by the precondition. The staging copy
  is modelled as if `src/ESP8266ATLib.cpp:307` stored its terminator at
  index `len`; the out-of-bounds store the code makes at `len+1` is shown by
  `Choreography.StageAsWritten` (see Findings).

## Findings

| source | as written | input that shows it | evidently intended | confidence | as-written member | corrected member |
|---|---|---|---|---|---|---|
| src/ESP8266ATLib.cpp:304-307 | The staging copy of the payload has len+1 bytes, but its terminator is stored at index len+1, one past the end of the allocation | Any payload, e.g. len = 0: a 1-byte allocation written at index 1 | Terminator at index len, the last allocated byte | not executed | Choreography.StageAsWritten | Choreography.StageCorrected |
