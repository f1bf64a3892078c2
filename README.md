# ESP8266 AT-command driver, FIFO and network adapter — a Dafny model

This project models the communication core of an STM32 light-sensor node that
reaches an MQTT broker through an ESP8266 Wi-Fi module:

- **the receive FIFO** (`Src/fifo.c`): a power-of-two byte ring with
  free-running 32-bit `in`/`out` cursors indexed through `& mask`, with
  short writes and short reads. It is the class `Fifo.Ring` over an array,
  with the ghost field `Contents` (the bytes stored, oldest first). Every
  operation is proved against `Contents`. The function `Fifo.Replay` states
  a trace of calls on values. The lemma `Fifo.ReplayRoundTrip` proves that
  the bytes it reads equal the bytes accepted, in order. The method
  `Fifo.RunTrace` runs the same trace through `Ring.In` and `Ring.Out` and
  is proved to match `Replay`.
- **the AT-command engine** (`Src/ESP8266Client/src/ESP8266Client.c`).
  `Esp8266Protocol` states every driver routine as a function on the
  driver's static state (`EspState`). That covers the response accumulator
  and its `front`/`back` cursors, the CR-LF line splitter, the token
  classifier, the resolution rule of `ESP82_checkResponse`, the re-entrant
  `switch` state machines and the `+IPD` frame parser. `Esp8266Client.Engine`
  is the same driver as a class: the response buffer is an array that is
  scanned and rewritten in place, and the FIFO is drained through `Fifo.Ring`.
  Each method is proved to have exactly the effect of its function.
  `Esp8266Properties` proves what the protocol promises: how a response made
  of lines is judged, timeouts, the `"\r\n> "` cursor, the CR restoration of
  an exported response, that every command fits its 128-byte buffer, and that
  a `+IPD` frame is delivered intact when the call that reads its length
  comes before the receive timer runs out, at whatever times the calls are made.
- **the network adapter** (`Src/ESP8266Client/src/networkwrapper.c`): the
  class `NetworkWrapper.Network` owns an engine. `network_send` is a 6-state
  bootstrap (init, join, settle, verify, open socket, send) whose transition
  and fallback rule is the function `SendTransition`. `network_recv` stages
  one packet and drains it through two cursors.
- **the topic helper** (`Inc/topic_name_helper.h`): the topic-name lookup
  and the one-digit payload parse, as pure functions.

Conventions:
- Bytes are Dafny `char`.
- The millisecond clock is a `now` parameter, read once per call.
- The UART transmitter is the append-only log `sent` of the commands and
  payloads handed to it.
- The FIFO's `& mask` is written `% (mask + 1)`, which is the same thing
  because `mask + 1` is a power of two.
- The 32-bit cursor and clock arithmetic is written modulo 2^32.

## Model

| member | source | states |
|---|---|---|
| `LibC.Min` | Inc/fifo.h:13-15 | the `min` macro: at most both arguments and equal to one of them |
| `LibC.FindChar` | Src/ESP8266Client/src/ESP8266Client.c:654 | `memchr`: the first position in the window holding the character, or none when no position in the window holds it |
| `LibC.AtoiIsLeadingValue` | Src/ESP8266Client/src/ESP8266Client.c:656-657 | `atoi` of the length text is the decimal value of its leading run of digits |
| `LibC.AtoiDecimal` | Src/ESP8266Client/src/ESP8266Client.c:656-657 | reading back a number printed with `%i` and followed by a non-digit gives the number |
| `Fifo.Ring.constructor` | Inc/fifo.h:20-25 | a zero-initialised `struct fifo`: both cursors and the mask 0, no storage, nothing stored |
| `Fifo.Ring.Used` | Src/fifo.c:19-22 | `fifo_used` is `in - out` in 32-bit unsigned arithmetic, which is the number of stored bytes |
| `Fifo.Ring.Unused` | Src/fifo.c:14-17 | `fifo_unused` is `(mask + 1) - used`; with `used` it adds up to the capacity |
| `Fifo.Ring.Init` | Src/fifo.c:61-77 | a size that is not a power of two gives -1 and changes nothing; size 1 leaves the mask at 0 and gives -1; otherwise `in = out = 0`, `mask = size - 1`, the storage is adopted, the FIFO is empty and the result is 0 |
| `Fifo.Ring.Alloc` | Src/fifo.c:24-50 | the same checks as `Init`, but the cursors start at 1 and the storage is a fresh array of `size` bytes; size 1 gets no storage |
| `Fifo.Ring.Free` | Src/fifo.c:52-59 | `in`, `out` and `mask` become 0 and the storage is released |
| `Fifo.MemCopy` | Src/fifo.c:88-89 | `memcpy`: the destination range gets the source bytes in order and every other destination byte is unchanged |
| `Fifo.Ring.CopyIn` | Src/fifo.c:79-90 | byte i of the source lands in slot `(off + i) & mask`, through two copies split at the end of storage; no other slot changes |
| `Fifo.Ring.In` | Src/fifo.c:92-104 | `fifo_in` accepts exactly `min(len, unused)` bytes and returns that count; `in` advances by it modulo 2^32; `out`, the mask and the storage stay; the contents gain exactly the accepted prefix of the source |
| `Fifo.AppendKeepsRing` | Src/fifo.c:92-104 | writing at `in` and advancing it keeps every stored byte at its slot and puts the new bytes after them, so the ring invariant (`used <= mask + 1`, each byte at `(out + i) & mask`) holds afterwards |
| `Fifo.Ring.CopyOut` | Src/fifo.c:106-116 | the destination gets the `len` bytes stored from slot `off & mask` on, wrapping at the end of storage; nothing else in the destination changes |
| `Fifo.Ring.Peek` | Src/fifo.c:118-128 | `fifo_out_peek` copies the oldest `min(len, used)` bytes in order; it changes neither cursor nor the storage, only that destination range |
| `Fifo.Ring.Out` | Src/fifo.c:130-135 | `fifo_out` delivers the same bytes as peek, then advances `out` by the returned count only; the contents lose exactly those bytes and `in` stays |
| `Fifo.ReadKeepsRing` | Src/fifo.c:130-135 | advancing `out` by at most `used` keeps the ring invariant and drops the oldest bytes |
| `Fifo.ReplayRoundTrip` | Src/fifo.c:92-135 | for any trace of `fifo_in`/`fifo_out` calls, the bytes delivered so far followed by the bytes still stored are exactly the bytes accepted, in order, and the FIFO never holds more than its capacity |
| `Fifo.RunTrace` | Src/fifo.c:92-135 | running a trace of `fifo_in`/`fifo_out` calls on an empty `Ring` in place delivers exactly the bytes `Replay` delivers and leaves exactly the contents it predicts, so the delivered bytes followed by those still stored are the bytes accepted |
| `Fifo.DrainedTraceDeliversAll` | Src/fifo.c:92-135 | once the FIFO is empty, everything it accepted has been delivered, in order |
| `Esp8266Protocol.Expired` | Src/ESP8266Client/src/ESP8266Client.c:128-131 | expiry is strict (`interval < now - t0`), with the clock difference taken modulo 2^32 |
| `Esp8266Protocol.FindCrLf` | Src/ESP8266Client/src/ESP8266Client.c:176-177 | `strstr(&buf[front], "\r\n")`: the first CR-LF before the NUL terminator, or none in that NUL-free stretch |
| `Esp8266Properties.FindCrLfOfLine` | Src/ESP8266Client/src/ESP8266Client.c:176-177 | a clean line followed by CR-LF is found exactly at its end |
| `Esp8266Properties.FindCrLfOfUnterminated` | Src/ESP8266Client/src/ESP8266Client.c:176-177 | a clean line followed by the NUL terminator yields no CR-LF |
| `Esp8266Client.Engine.ReadLine` | Src/ESP8266Client/src/ESP8266Client.c:168-191 | when a CR-LF follows the search position, its CR becomes NUL, the position moves past the LF and the text in between is returned; otherwise nothing changes and none is returned |
| `Esp8266Protocol.Classify` | Src/ESP8266Client/src/ESP8266Client.c:228-274 | a line reports at most one event, and only OK, ERROR, FAIL, busy or an event the caller expects |
| `Esp8266Protocol.EventsAppend` | Src/ESP8266Client/src/ESP8266Client.c:226-275 | the events of consecutive runs of lines are ORed together, independent of how the lines are split between polls |
| `Esp8266Protocol.ScanLines` | Src/ESP8266Client/src/ESP8266Client.c:226-275 | the line loop keeps the buffer size and only moves `front` forward |
| `Esp8266Protocol.ScanTakesLine` | Src/ESP8266Client/src/ESP8266Client.c:262-267 | a waited-for `SEND OK` line ends the scan right after itself, leaving later bytes unparsed; any other line is followed by the scan of the rest |
| `Esp8266Protocol.ScanStopsAtNul` | Src/ESP8266Client/src/ESP8266Client.c:209-210 | the scan never moves `front` past the NUL written at `back` |
| `Esp8266Properties.ScanAtNul` | Src/ESP8266Client/src/ESP8266Client.c:222-226 | with `front` at the terminator no line is taken and nothing changes |
| `Esp8266Protocol.Resolve` | Src/ESP8266Client/src/ESP8266Client.c:277-322 | an ERROR, FAIL or BUSY event gives ERROR even when all expected events are there; otherwise SUCCESS exactly when every expected event arrived; otherwise ERROR with the flags set to `TIMEOUT` plus the expected events once the timeout expired, else INPROGRESS; only INPROGRESS leaves the operation in progress |
| `Esp8266Protocol.Taken` | Src/ESP8266Client/src/ESP8266Client.c:209 | the drain takes everything pending unless it reaches the last slot, which is kept for the NUL |
| `Esp8266Protocol.DrainFifo` | Src/ESP8266Client/src/ESP8266Client.c:608-609 | the bytes taken from the FIFO land at `back`, `back` moves past them, the rest stays in the FIFO, and no other state changes |
| `Esp8266Client.Engine.Drain` | Src/ESP8266Client/src/ESP8266Client.c:608-609 | the in-place drain through `fifo_out` has exactly the effect `DrainFifo` states |
| `Esp8266Protocol.BeginPoll` | Src/ESP8266Client/src/ESP8266Client.c:205-210 | the timeout start is captured only on a poll where no operation is in progress; the drained bytes follow the old ones and a NUL follows them |
| `Esp8266Client.Engine.BeginPoll` | Src/ESP8266Client/src/ESP8266Client.c:205-210 | the in-place poll entry equals `BeginPoll` |
| `Esp8266Protocol.ParseResponse` | Src/ESP8266Client/src/ESP8266Client.c:212-276 | either the cursor test or the line scan runs; flags are only added; only the buffer, `front` and the flags change |
| `Esp8266Client.Engine.ReadEvent` | Src/ESP8266Client/src/ESP8266Client.c:226-275 | one turn of the line loop takes one line and ORs its event into the flags, advancing `front`; the rest of the scan is unchanged by it |
| `Esp8266Client.Engine.ReadLines` | Src/ESP8266Client/src/ESP8266Client.c:226-275 | the in-place line loop leaves the buffer and `front` as `ScanLines` does and adds exactly the events of the lines taken |
| `Esp8266Client.Engine.ParseResponse` | Src/ESP8266Client/src/ESP8266Client.c:212-276 | the in-place parse equals `ParseResponse` |
| `Esp8266Protocol.Conclude` | Src/ESP8266Client/src/ESP8266Client.c:277-322 | the verdict only changes the flags and the in-progress flag; in progress exactly when the code is INPROGRESS |
| `Esp8266Protocol.CheckResponse` | Src/ESP8266Client/src/ESP8266Client.c:203-323 | one poll returns SUCCESS, INPROGRESS or ERROR and stays in progress exactly on INPROGRESS; it consumes exactly `Taken` bytes from the FIFO and touches no state-machine variable |
| `Esp8266Client.Engine.CheckResponse` | Src/ESP8266Client/src/ESP8266Client.c:203-323 | the in-place poll equals `CheckResponse`; on SUCCESS the consumed response is exported to the caller's buffer, otherwise that buffer is untouched |
| `Esp8266Protocol.Export` | Src/ESP8266Client/src/ESP8266Client.c:296-299 | the exported bytes are the buffer's bytes with every NUL turned back into CR |
| `Esp8266Client.Engine.CopyResponse` | Src/ESP8266Client/src/ESP8266Client.c:286-305 | copies `min(front, max)` exported bytes and writes a NUL after them only when that length is below `max`; nothing else in the output changes |
| `Esp8266Properties.ExportRestoresResponse` | Src/ESP8266Client/src/ESP8266Client.c:296-299 | export undoes the line scan: a response without NUL bytes is delivered exactly as the module sent it |
| `Esp8266Properties.ScanOnlyClearsCr` | Src/ESP8266Client/src/ESP8266Client.c:168-191 | the line scan changes no byte except CRs, which it turns into NULs |
| `Esp8266Properties.ScanLinesOfLines` | Src/ESP8266Client/src/ESP8266Client.c:226-275 | a run of complete clean lines ending at the terminator is taken line by line, exactly those lines, and the scan stops at the terminator |
| `Esp8266Properties.PollOfLines` | Src/ESP8266Client/src/ESP8266Client.c:203-323 | a response of whole lines arriving at once gives SUCCESS exactly when no line reported ERROR, FAIL or busy and every expected event was seen, ERROR whenever one was reported, and consumes every byte |
| `Esp8266Properties.EchoThenOk` | Src/ESP8266Client/src/ESP8266Client.c:228-274 | an example of `PollOfLines`: an echoed command and an empty line report nothing, and OK reports OK |
| `Esp8266Properties.BusyOverridesOk` | Src/ESP8266Client/src/ESP8266Client.c:277-281 | an example of `PollOfLines`: a `busy p...` line fails the command even with the expected OK present |
| `Esp8266Properties.JunkThenOk` | Src/ESP8266Client/src/ESP8266Client.c:228-233 | an example of `PollOfLines`: `"junk\r\nOK\r\n"` concludes a command waiting for OK with SUCCESS |
| `Esp8266Properties.ErrorReplyFails` | Src/ESP8266Client/src/ESP8266Client.c:277-281 | an example of `PollOfLines`: `"\r\nERROR\r\n"` gives ERROR whatever is expected, the `"> "` cursor aside |
| `Esp8266Properties.UnterminatedLineTimesOut` | Src/ESP8266Client/src/ESP8266Client.c:313-322 | a line without CR-LF stays unparsed: INPROGRESS before the timeout, then ERROR with the flags `TIMEOUT` plus expected |
| `Esp8266Properties.CursorPoll` | Src/ESP8266Client/src/ESP8266Client.c:215-220 | while `"> "` is waited for with 4 or more bytes buffered, no line is read and the poll succeeds exactly when the last 4 bytes received are `"\r\n> "` |
| `Esp8266Protocol.SendCmd` | Src/ESP8266Client/src/ESP8266Client.c:139-160 | the command is appended to the transmit log; with `clearBuffers` both cursors and the flags are reset, otherwise they are kept; every other field of the driver state is unchanged |
| `Esp8266Client.Engine.constructor` | Src/ESP8266Client/src/ESP8266Client.c:82-90 | the driver statics at reset: empty accumulator, no flags, nothing in progress, every state machine in state 0 |
| `Esp8266Client.Engine.SendCmd` | Src/ESP8266Client/src/ESP8266Client.c:139-160 | the in-place command send equals `SendCmd` |
| `Esp8266Protocol.Delay` | Src/ESP8266Client/src/ESP8266Client.c:390-399 | the start time is captured only when nothing is in progress; SUCCESS exactly when the delay expired since then, otherwise INPROGRESS with the operation in progress |
| `Esp8266Client.Engine.Delay` | Src/ESP8266Client/src/ESP8266Client.c:390-399 | the in-place delay equals `Delay` |
| `Esp8266Client.Engine.Init` | Src/ESP8266Client/src/ESP8266Client.c:407-413 | `ESP82_Init` clears the in-progress flag and changes nothing else |
| `Esp8266Protocol.Execute` | Src/ESP8266Client/src/ESP8266Client.c:366-383 | a call with nothing in progress, or before any execute has run, transmits the command exactly once and restarts the accumulator at the reply; a call while anything holds `inProgress` after the first execute (another operation's poll included, since the flag is shared) resumes: it transmits nothing and keeps accumulating; the other state machines stay; SUCCESS, INPROGRESS or ERROR, in progress exactly on INPROGRESS |
| `Esp8266Client.Engine.Execute` | Src/ESP8266Client/src/ESP8266Client.c:366-383 | the in-place execute has exactly the effect of `Execute`: the command is transmitted on a fresh start only, then one poll decides |
| `Esp8266Properties.ExecuteOfLines` | Src/ESP8266Client/src/ESP8266Client.c:366-383 | a fresh command whose reply arrives whole as lines is sent once and concludes with SUCCESS exactly when no line reported a failure and every expected event was seen |
| `Esp8266Protocol.SendData` | Src/ESP8266Client/src/ESP8266Client.c:331-355 | the payload is the only thing ever transmitted, at most once, and it goes out exactly when a fresh call's poll for the `"> "` cursor succeeds; the other state machines stay; in progress exactly on INPROGRESS |
| `Esp8266Client.Engine.SendData` | Src/ESP8266Client/src/ESP8266Client.c:331-355 | the in-place send-data step has exactly the effect of `SendData`: the payload goes out only after the cursor poll succeeds |
| `Esp8266Protocol.Send` | Src/ESP8266Client/src/ESP8266Client.c:574-587 | the engine is claimed for sending; on a fresh or foreign start `AT+CIPSEND=<len>` goes out and then at most `data[..len]`; on a resumed call at most `data[..len]` goes out |
| `Esp8266Client.Engine.Send` | Src/ESP8266Client/src/ESP8266Client.c:574-587 | the in-place send has exactly the effect of `Send`: `AT+CIPSEND=<len>` on entry, then at most the first `len` bytes |
| `Esp8266Properties.SendWaitsForCursor` | Src/ESP8266Client/src/ESP8266Client.c:574-587 | on an idle engine the data goes out in the same call exactly when the last 4 bytes received are `"\r\n> "`; otherwise only `AT+CIPSEND` is sent |
| `Esp8266Properties.CipsendFits` | Src/ESP8266Client/src/ESP8266Client.c:582 | `AT+CIPSEND` for any 8-bit length fits the 128-byte command buffer |
| `Esp8266Protocol.ConnectSettle` | Src/ESP8266Client/src/ESP8266Client.c:436-446 | state 0: before the 2000 ms settle delay expires the call is INPROGRESS and sends nothing; every later transmission is a command of the sequence (`AT+RESTORE` only when reset, `AT+CWMODE=1`, or `AT+CWJAP` with fitting credentials) |
| `Esp8266Client.Engine.ConnectSettle` | Src/ESP8266Client/src/ESP8266Client.c:436-446 | the in-place state 0 has exactly the effect of `ConnectSettle`: nothing is sent before the delay expires |
| `Esp8266Protocol.ConnectRestore` | Src/ESP8266Client/src/ESP8266Client.c:447-457 | state 1: a fresh command first transmits `AT+RESTORE` when a reset is asked for and `AT+CWMODE=1` otherwise; only commands of the sequence follow |
| `Esp8266Client.Engine.ConnectRestore` | Src/ESP8266Client/src/ESP8266Client.c:447-457 | the in-place state 1 has exactly the effect of `ConnectRestore`: `AT+RESTORE` only with reset |
| `Esp8266Protocol.ConnectRestoreDelay` | Src/ESP8266Client/src/ESP8266Client.c:458-468 | state 2: after a reset, nothing is sent until the second delay expires; without a reset `AT+CWMODE=1` is the first thing sent |
| `Esp8266Client.Engine.ConnectRestoreDelay` | Src/ESP8266Client/src/ESP8266Client.c:458-468 | the in-place state 2 has exactly the effect of `ConnectRestoreDelay` |
| `Esp8266Protocol.ConnectMode` | Src/ESP8266Client/src/ESP8266Client.c:469-479 | state 3: a fresh command first transmits `AT+CWMODE=1`; without credentials nothing else is ever sent; with them only `AT+CWJAP` may follow |
| `Esp8266Client.Engine.ConnectMode` | Src/ESP8266Client/src/ESP8266Client.c:469-479 | the in-place state 3 has exactly the effect of `ConnectMode` |
| `Esp8266Protocol.ConnectJoinCommand` | Src/ESP8266Client/src/ESP8266Client.c:480-492 | state 4: credentials longer than 111 characters together give `false` (= INPROGRESS) with nothing sent, nothing consumed and `inProgress` unchanged; otherwise the saved command is `AT+CWJAP="ssid","pass"` and it is what a fresh command transmits; nothing else is ever sent |
| `Esp8266Client.Engine.ConnectJoinCommand` | Src/ESP8266Client/src/ESP8266Client.c:480-492 | the in-place state 4 has exactly the effect of `ConnectJoinCommand` |
| `Esp8266Protocol.ConnectJoin` | Src/ESP8266Client/src/ESP8266Client.c:493-495 | state 5: the saved `AT+CWJAP` is transmitted on a fresh command and nothing otherwise; in progress exactly on INPROGRESS |
| `Esp8266Client.Engine.ConnectJoin` | Src/ESP8266Client/src/ESP8266Client.c:493-495 | the in-place state 5 has exactly the effect of `ConnectJoin` |
| `Esp8266Protocol.ConnectWifi` | Src/ESP8266Client/src/ESP8266Client.c:430-502 | the transmit log only grows, and only by commands of the sequence from the resumed state on; a fresh call only starts the settle delay (INPROGRESS, nothing sent); resuming at state 4 with credentials that do not fit gives INPROGRESS with nothing sent or consumed |
| `Esp8266Client.Engine.ConnectWifi` | Src/ESP8266Client/src/ESP8266Client.c:430-502 | the in-place connect has exactly the effect of `ConnectWifi` |
| `Esp8266Properties.CwjapFits` | Src/ESP8266Client/src/ESP8266Client.c:482-487 | the credential check is exact: `AT+CWJAP` and its NUL fit the 128-byte buffer if and only if the check passes |
| `Esp8266Client.Engine.CheckPresence` | Src/ESP8266Client/src/ESP8266Client.c:419-421 | equals `ConnectWifi` without reset and without credentials: a fresh call transmits nothing and starts the settle delay, and from the states up to the mode step it transmits at most `AT+CWMODE=1`; resumed at state 5, which only a credentialed connect reaches, it may send the saved `cmd` as `ConnectWifi` allows |
| `Esp8266Client.Engine.IsConnectedWifi` | Src/ESP8266Client/src/ESP8266Client.c:508-510 | `AT+CIPSTATUS`, waiting for `STATUS:2` |
| `Esp8266Protocol.StartTcpCheck` | Src/ESP8266Client/src/ESP8266Client.c:526-543 | state 0: a host longer than 94 characters or a keepalive above 7200 gives `false` (= INPROGRESS) with nothing sent, nothing consumed and `inProgress` unchanged; otherwise the saved command is `AT+CIPSTART`, and a fresh command first transmits `AT+CIPSSLSIZE=4096` for SSL or `AT+CIPSTART` for TCP |
| `Esp8266Client.Engine.StartTcpCheck` | Src/ESP8266Client/src/ESP8266Client.c:526-543 | the in-place state 0 has exactly the effect of `StartTcpCheck` |
| `Esp8266Protocol.StartTcpSsl` | Src/ESP8266Client/src/ESP8266Client.c:544-553 | state 1: only `AT+CIPSSLSIZE=4096` (for SSL only) and the saved `AT+CIPSTART` are ever transmitted; for TCP exactly `AT+CIPSTART` on a fresh command |
| `Esp8266Client.Engine.StartTcpSsl` | Src/ESP8266Client/src/ESP8266Client.c:544-553 | the in-place state 1 has exactly the effect of `StartTcpSsl` |
| `Esp8266Protocol.StartTcpOpen` | Src/ESP8266Client/src/ESP8266Client.c:554-556 | state 2: the saved `AT+CIPSTART` is transmitted on a fresh command and nothing otherwise; in progress exactly on INPROGRESS |
| `Esp8266Client.Engine.StartTcpOpen` | Src/ESP8266Client/src/ESP8266Client.c:554-556 | the in-place state 2 has exactly the effect of `StartTcpOpen` |
| `Esp8266Protocol.StartTcp` | Src/ESP8266Client/src/ESP8266Client.c:520-558 | the transmit log only grows, by commands of the sequence from the resumed state on; a fresh call with a host or keepalive out of bounds gives INPROGRESS with nothing sent, nothing consumed and nothing in progress; a fresh call within bounds saves `AT+CIPSTART` and first transmits `AT+CIPSSLSIZE=4096` for SSL or `AT+CIPSTART` for TCP |
| `Esp8266Client.Engine.StartTcp` | Src/ESP8266Client/src/ESP8266Client.c:520-558 | the in-place socket open has exactly the effect of `StartTcp` |
| `Esp8266Properties.CipstartFits` | Src/ESP8266Client/src/ESP8266Client.c:528-540 | a host of at most 94 characters and a keepalive of at most 7200 keep `AT+CIPSTART` and its NUL within 128 bytes for every port |
| `Esp8266Properties.CipstartBoundIsTight` | Src/ESP8266Client/src/ESP8266Client.c:528 | 95 characters of host with port 65535 would overflow, so the bound is the largest safe one |
| `Esp8266Client.Engine.CloseTcp` | Src/ESP8266Client/src/ESP8266Client.c:564-566 | `AT+CIPCLOSE`, waiting for OK |
| `Esp8266Protocol.ClaimReceive` | Src/ESP8266Client/src/ESP8266Client.c:600-604 | receiving claims the engine; a claim from another owner clears `inProgress`, a repeated claim keeps it; nothing else changes |
| `Esp8266Client.Engine.Claim` | Src/ESP8266Client/src/ESP8266Client.c:600-604 | the in-place claim has exactly the effect of `ClaimReceive` |
| `Esp8266Protocol.StartReceive` | Src/ESP8266Client/src/ESP8266Client.c:614-625 | a receive already under way is left as it is; otherwise the timer starts at `now` and state 1 is entered; either way the engine is in progress and nothing else changes |
| `Esp8266Client.Engine.Start` | Src/ESP8266Client/src/ESP8266Client.c:614-625 | the in-place start has exactly the effect of `StartReceive` |
| `Esp8266Protocol.BeginReceive` | Src/ESP8266Client/src/ESP8266Client.c:600-625 | after the entry the engine is owned by receive and in progress in state 1 to 3; state 3 only when resuming a checked payload; `front` stays and the drained bytes follow the old ones |
| `Esp8266Client.Engine.BeginReceive` | Src/ESP8266Client/src/ESP8266Client.c:600-625 | the in-place entry has exactly the effect of `BeginReceive` |
| `Esp8266Protocol.ReceiveTimeout` | Src/ESP8266Client/src/ESP8266Client.c:691-699 | ERROR exactly when the 15 s receive budget since the timer start expired, and it ends the operation; otherwise INPROGRESS with nothing changed; nothing is delivered |
| `Esp8266Client.Engine.ReceiveTimeout` | Src/ESP8266Client/src/ESP8266Client.c:691-699 | the in-place timeout check has exactly the effect of `ReceiveTimeout` |
| `Esp8266Protocol.ReceiveHeader` | Src/ESP8266Client/src/ESP8266Client.c:626-649 | with 7 or more bytes that are not `"\r\n+IPD,"`: ERROR and the operation ends; with the header: it is consumed, state 2 is entered and the timeout decides ERROR; with no byte: RECEIVE_NOTHING and the operation ends; with 1 to 6 bytes: nothing is consumed and the timeout decides; nothing is delivered or sent |
| `Esp8266Client.Engine.ReceiveHeader` | Src/ESP8266Client/src/ESP8266Client.c:626-649 | the in-place header step has exactly the effect of `ReceiveHeader`, comparing the 7 bytes at `front` with `"\r\n+IPD,"` |
| `Esp8266Properties.HeaderMatches` | Src/ESP8266Client/src/ESP8266Client.c:628-635 | a complete `+IPD` header is consumed and state 2 is entered; the receive timer alone decides ERROR or INPROGRESS, at any time |
| `Esp8266Properties.FrameArrives` | Src/ESP8266Client/src/ESP8266Client.c:600-625 | a whole frame reaching an engine not already receiving is drained behind `front`, the timer starts and state 1 is entered |
| `Esp8266Properties.ReceiveFrameHeader` | Src/ESP8266Client/src/ESP8266Client.c:595-649 | the first call on a whole frame consumes the `+IPD,` header and returns INPROGRESS in state 2, leaving `<n>:<payload>` |
| `Esp8266Properties.ReceiveInState` | Src/ESP8266Client/src/ESP8266Client.c:612-686 | after the entry, one `Receive` call is exactly the step of the state it is in: the header step in state 1, the length step in state 2, the payload step in state 3 |
| `Esp8266Properties.ResumeReceive` | Src/ESP8266Client/src/ESP8266Client.c:600-686 | a call resuming state 2 or 3 with nothing new pending is the length step or the payload step |
| `Esp8266Protocol.ReceiveLength` | Src/ESP8266Client/src/ESP8266Client.c:650-674 | with fewer than 2 bytes or no `':'` it only checks the receive timer; with a `':'` the length `atoi` reads before it is stored and the `':'` becomes NUL; 0 or above the maximum is ERROR and ends the operation; 1 to the maximum moves `front` past the `':'` into state 3, ERROR exactly when the timer has run out; state 3 is reached only with a length between 1 and the maximum |
| `Esp8266Properties.ColonAfterDigits` | Src/ESP8266Client/src/ESP8266Client.c:652-654 | in `<n>:` the `memchr` finds the colon right after the digits, and at least 2 bytes are buffered |
| `Esp8266Properties.AtoiBeforeColon` | Src/ESP8266Client/src/ESP8266Client.c:655-657 | replacing the colon with NUL makes `atoi` read back exactly n |
| `Esp8266Properties.LengthAtColon` | Src/ESP8266Client/src/ESP8266Client.c:650-674 | once the colon is found and the length read, at any time: 1 to max enters state 3 with exactly the bytes after the colon left, ERROR exactly when the receive timer has run out, the timer's start kept; 0 or above max is ERROR and ends the operation |
| `Esp8266Client.Engine.ReceiveLength` | Src/ESP8266Client/src/ESP8266Client.c:650-674 | the in-place length step equals `ReceiveLength` |
| `Esp8266Protocol.AcceptLength` | Src/ESP8266Client/src/ESP8266Client.c:656-671 | a parsed length of 0 or above the maximum gives ERROR and ends the operation; otherwise `front` moves past the `':'` and state 3 is entered, ERROR exactly when the receive timer has run out; the whole new state in each case |
| `Esp8266Client.Engine.AcceptLength` | Src/ESP8266Client/src/ESP8266Client.c:656-671 | the in-place length check equals `AcceptLength` |
| `Esp8266Properties.LengthAccepted` | Src/ESP8266Client/src/ESP8266Client.c:650-674 | a decimal length followed by `':'` is read back exactly, at any time; 1 to max moves on to the payload, ERROR exactly when the receive timer has run out; 0 or above max is ERROR |
| `Esp8266Properties.ReceiveFrameLength` | Src/ESP8266Client/src/ESP8266Client.c:595-674 | the second `Receive` call on `<n>:<payload>`, at any time, accepts n between 1 and max and leaves the payload, ERROR exactly when the receive timer has run out; it refuses 0 or above max with ERROR |
| `Esp8266Protocol.ReceivePayload` | Src/ESP8266Client/src/ESP8266Client.c:675-685 | once the announced number of bytes is buffered, exactly those bytes are delivered, their count is returned, `front` moves past them and the operation ends; with fewer bytes buffered the step is only the receive timeout check; a positive result always means exactly the announced bytes |
| `Esp8266Client.Engine.ReceivePayload` | Src/ESP8266Client/src/ESP8266Client.c:675-685 | the payload is `memcpy`ed to the caller's buffer, with exactly the effect `ReceivePayload` states |
| `Esp8266Properties.ReceiveFramePayload` | Src/ESP8266Client/src/ESP8266Client.c:675-685 | once the announced bytes are buffered, the call returns their count, delivers exactly them, moves `front` past them and ends the operation |
| `Esp8266Protocol.Receive` | Src/ESP8266Client/src/ESP8266Client.c:595-700 | a positive result is at most the caller's maximum and the number of bytes delivered; nothing is delivered otherwise; nothing is transmitted |
| `Esp8266Client.Engine.Receive` | Src/ESP8266Client/src/ESP8266Client.c:595-700 | the in-place receive equals `Receive`; on a positive result the caller's buffer starts with the payload, otherwise it is untouched |
| `Esp8266Properties.ReceiveFrame` | Src/ESP8266Client/src/ESP8266Client.c:595-700 | a `"\r\n+IPD,<n>:<payload>"` frame arriving whole on an idle engine is delivered by three calls at any three times, the payload exactly as sent with its length as the result, when 1 <= n <= max and the second call comes before the receive timer started by the first runs out; if it comes later, the second call reports ERROR and ends the operation; a longer or empty payload is refused with ERROR on the second call |
| `Esp8266Properties.ReceiveFrameRest` | Src/ESP8266Client/src/ESP8266Client.c:650-685 | after the header, the second and third calls on `<n>:<payload>`, at any times, deliver the payload whole for 1 <= n <= max when the second comes before the receive timer runs out, give ERROR on the second call when it comes later, and refuse any other length with ERROR |
| `Esp8266Properties.ReceiveAcceptedFrame` | Src/ESP8266Client/src/ESP8266Client.c:650-685 | once a length between 1 and max is accepted before the receive timer runs out, the next call, whenever it comes, returns that length, delivers exactly the payload and ends the operation |
| `Esp8266Properties.DrainAsWrittenLosesBytes` | Src/ESP8266Client/src/ESP8266Client.c:83-84 | with 8-bit cursors, 256 bytes drained between two polls leave `back` where it was (see Findings) |
| `Esp8266Properties.DrainKeepsBytes` | Src/ESP8266Client/src/ESP8266Client.c:205-210 | with wide cursors, the unparsed window after a drain is the old window followed by every byte taken from the FIFO, with the NUL after it |
| `NetworkWrapper.SendTransition` | Src/ESP8266Client/src/networkwrapper.c:64-138 | in states 0 to 4 engine SUCCESS moves one state on and returns 0; in state 5 it returns the count and stays; engine ERROR returns -1 and goes to state 0 below state 4, to state 3 from state 4 on; an unknown state resets to 0 |
| `NetworkWrapper.Network.SendEngineCall` | Src/ESP8266Client/src/networkwrapper.c:67-116 | the in-place driver call of send state `k` (init, join, settle delay, status check, socket open, send) has exactly the effect of `SendEngine` on the driver state and the FIFO, and keeps the FIFO's storage |
| `NetworkWrapper.SendEngine` | Src/ESP8266Client/src/networkwrapper.c:67-116 | the engine call of each send state keeps the engine invariants; state 0 (`ESP82_Init`) always succeeds |
| `NetworkWrapper.Network.Send` | Src/ESP8266Client/src/networkwrapper.c:64-138 | one `network_send` runs the engine call of the current state and then moves as `SendTransition` says |
| `NetworkWrapper.SendLengthAsWrittenLosesBytes` | Src/ESP8266Client/src/networkwrapper.c:109-116 | as written, 300 bytes put 44 on the wire while 300 are reported (see Findings) |
| `NetworkWrapper.SendLength` | Src/ESP8266Client/src/networkwrapper.c:111 | the corrected length never exceeds the request, equals it below 256, and is positive for a non-empty request |
| `NetworkWrapper.SendKeepsProgress` | Src/ESP8266Client/src/networkwrapper.c:123-134 | without an engine ERROR the bootstrap never loses a state it has reached |
| `NetworkWrapper.SendSucceeds` | Src/ESP8266Client/src/networkwrapper.c:68-116 | n engine successes in a row move the bootstrap n states on, up to the steady state 5 |
| `NetworkWrapper.Network.constructor` | Src/ESP8266Client/src/networkwrapper.c:35-40 | the adapter's statics at reset, with the engine at reset |
| `NetworkWrapper.Network.Connect` | Src/ESP8266Client/src/networkwrapper.c:49-62 | stores host, port, keepalive and SSL, resets both state machines to 0 and returns 0 |
| `NetworkWrapper.RecvCode` | Src/ESP8266Client/src/networkwrapper.c:187-205 | engine ERROR gives -1, RECEIVE_NOTHING gives -2, anything else 0 |
| `NetworkWrapper.Network.RecvStage` | Src/ESP8266Client/src/networkwrapper.c:149-159 | a positive engine result stages that many bytes (`back` = result, `front` = 0) and moves to state 1; otherwise the state stays 0 and the result is `RecvCode` |
| `NetworkWrapper.Network.RecvExtract` | Src/ESP8266Client/src/networkwrapper.c:161-180 | copies `min(back - front, maxbytes)` staged bytes in order, advances `front` by that count, returns it, and goes back to state 0 exactly when the stage is drained |
| `NetworkWrapper.Network.Recv` | Src/ESP8266Client/src/networkwrapper.c:140-206 | `network_recv` stages in state 0 and drains in state 1, with the effects above |
| `Topic.TopicCode` | Inc/topic_name_helper.h:13-22 | codes 1 to 4 for exactly `leds`, `ledh`, `light` and `mode`; no code for any other name |
| `Topic.TopicCodeOfName` | Inc/topic_name_helper.h:3-21 | a name gets a code exactly when it is that code's name in the table |
| `Topic.TopicCodesDistinct` | Inc/topic_name_helper.h:3-6 | distinct names get distinct codes |
| `Topic.PayloadValue` | Inc/topic_name_helper.h:24-27 | the first character minus 48, so 0 to 9 for a leading digit; an empty payload reads its NUL |
| `Topic.PayloadOfDigit` | Inc/topic_name_helper.h:24-27 | a payload starting with digit d has value d, whatever follows |

## Findings

| source | as written | input that shows it | evidently intended | confidence | as-written member | corrected member |
|---|---|---|---|---|---|---|
| Src/ESP8266Client/src/ESP8266Client.c:83-84 | `ESP82_resBufferFront`/`Back` (and `availableLength` at line 610) are `uint8_t` while the buffer is 1024 bytes and a drain may take up to 1023; `back += fifo_out(...)` wraps modulo 256 | 256 bytes pending at a poll with `back = 0`: all are taken from the FIFO, yet `back` is 0 again, the NUL lands on the first byte and none of them is parsed | cursors wide enough for the buffer | not executed; high | `Esp8266Properties.DrainAsWrittenLosesBytes` | `Esp8266Properties.DrainKeepsBytes` |
| Src/ESP8266Client/src/networkwrapper.c:109-116 | `network_send` passes its `unsigned int bytes` to the `uint8_t` length of `ESP82_Send` and returns `bytes` on success | `bytes = 300`: `AT+CIPSEND=44` goes out, 44 bytes are sent and 300 is reported | send at most 255 bytes per call and report that count, so the caller resends the rest | not executed; high | `NetworkWrapper.SendLengthAsWrittenLosesBytes` | `NetworkWrapper.SendLength` |

The engine and the adapter use the corrected versions: `Esp8266Client.Engine`
keeps natural-number cursors below 1024, and `NetworkWrapper.Network.Send`
hands `SendLength(bytes)` to the engine and reports that count.

## Left out

- UART transmit by DMA and the debug echo in `ESP82_sendCmd`: the transmitter is the append-only log `sent`; the debug copy is not modelled.
- `HAL_UART_IdleCpltCallback`, the interrupt that fills the FIFO: the producer side is only the bytes already in `Fifo.Ring.Contents` when a driver call starts. The single-writer-per-cursor discipline between the interrupt and the polling loop is not modelled as concurrency.
- The clock: `now` is one reading per call. The source reads the clock separately in `ESP82_timeoutBegin` and `ESP82_timeoutIsExpired`, and those readings may differ within one call.
- `ESP82_Init`'s baud rate, parity and time-provider handler: only its reset of the in-progress flag is modelled.
- `Fifo.Ring.Alloc`: `malloc` never fails here; the source's null-storage failure branch (mask 0, result -1) is not modelled.
- `sprintf` and `atoi`: commands are built by sequence concatenation with `%i` as the decimal text of a non-negative number. `atoi` reads only a leading run of digits, so leading white space and signs are not modelled.
- `wifi_credentials.h` is not part of this model: the SSID and password are a constructor parameter of `NetworkWrapper.Network`.
- `network_init` and `network_close` have empty bodies and are not modelled.
- The received-flags bit set is a set of events; the unused `WIFI DISCONNECT` event is declared but never set, as in the source.
- The `default` branches of the engine's `switch` statements are unreachable while the state invariant `StateOk` holds, so they are not modelled. The `network_send` default branch is modelled in `SendTransition`. `network_recv` in state 1 with an empty stage would return an uninitialised value; that state is excluded by `Network.Valid`.
- `NetworkWrapper.Network.Connect`: requires the host to fit the 32-byte `network_host` array, which the source's `strcpy` would overflow.
- `Esp8266Client.Engine.Receive`, `Esp8266Protocol.Receive`, `Esp8266Protocol.ReceivePayload`: require that a call resuming a payload passes a maximum at least the length already accepted, since the source's `memcpy` would overrun the caller's buffer otherwise.
- `Esp8266Client.Engine.CheckPresence`: if another operation left `inProgress` set with the connect state at 4, the source resumes at state 4 and takes `strlen` of a NULL SSID; the model returns INPROGRESS with nothing sent there.
- Bytes are modelled as `char`. The CR restoration on export is proved only for responses without NUL bytes (`ExportRestoresResponse`); a genuine NUL in a response is exported as CR, as in the source.
