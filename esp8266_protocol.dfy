/**
 * The AT-command protocol engine of Src/ESP8266Client/src/ESP8266Client.c,
 * as functions on the engine's state. Every static variable of the driver
 * is a field of `EspState`; the bytes waiting in the receive FIFO are passed
 * in as `pending` and what a call leaves there is handed back. The clock is
 * the parameter `now`, one reading per call, and the UART transmitter is
 * the append-only log `sent`. The class in esp8266_client.dfy carries out
 * these functions on a buffer in place.
 */
module Esp8266Protocol {
  import opened LibC

  // Result codes (ESP8266Client.h).
  const ERROR: int := -1
  const INPROGRESS: int := 0
  const SUCCESS: int := 1
  const RECEIVE_NOTHING: int := -2

  // Timing settings in milliseconds.
  const TIMEOUT_MS_CMD: u16 := 2500
  const TIMEOUT_MS_RECEIVE: u16 := 15000
  const TIMEOUT_MS_DATA_SEND: u16 := 15000
  const TIMEOUT_MS_RESTART: u16 := 2000
  const TIMEOUT_MS_AP_CONNECT: u16 := 20000
  const TIMEOUT_MS_HOST_CONNECT: u16 := 10000

  // Buffer settings.
  const BUFFERSIZE_RESPONSE: nat := 1024
  const BUFFERSIZE_CMD: nat := 128

  /** The events a response line can report; `receivedFlags` is a set of them. */
  datatype Flag =
    | Ok | Error | Fail | Busy | WifiConnected | WifiGotIp | StatusGotIp
    | WifiDisconnect | SendOk | SendBegin | Closed | Timeout

  /** Any of these in the received set makes the operation fail. */
  const FailureFlags: set<Flag> := {Error, Fail, Busy}

  // Event strings.
  const OK_STR: string := "OK"
  const ERROR_STR: string := "ERROR"
  const FAIL_STR: string := "FAIL"
  const BUSYP_STR: string := "busy p..."
  const BUSYS_STR: string := "busy s..."
  const WIFI_GOTIP_STR: string := "WIFI GOT IP"
  const WIFI_CONNECTED_STR: string := "WIFI CONNECTED"
  const SEND_OK_STR: string := "SEND OK"
  const STATUS_GOTIP_STR: string := "STATUS:2"
  const CLOSED_STR: string := "CLOSED"
  const SEND_BEGIN_STR: string := "\r\n> "
  const IPD_HEADER: string := "\r\n+IPD,"

  // Fixed commands.
  const RESTORE_CMD: string := "AT+RESTORE\r\n"
  const CWMODE_CMD: string := "AT+CWMODE=1\r\n"
  const CIPSTATUS_CMD: string := "AT+CIPSTATUS\r\n"
  const CIPCLOSE_CMD: string := "AT+CIPCLOSE\r\n"
  const SSLSIZE_CMD: string := "AT+CIPSSLSIZE=4096\r\n"

  /** `ESP82_SR_State`: which of Send and Receive last claimed the engine (NULL at first). */
  datatype Owner = NoOwner | SendOwner | ReceiveOwner

  /** All static state of the driver. */
  datatype EspState = EspState(
    buf: seq<char>,          // ESP82_resBuffer
    front: nat,              // ESP82_resBufferFront
    back: nat,               // ESP82_resBufferBack
    flags: set<Flag>,        // ESP82_receivedFlags
    inProgress: bool,        // ESP82_inProgress
    t0: u32,                 // ESP82_t0
    owner: Owner,            // ESP82_SR_State
    cmd: string,             // ESP82_cmdBuffer
    sent: seq<string>,       // everything handed to the UART, in order
    execState: nat,          // internalState of ESP82_execute
    sendDataState: nat,      // internalState of ESP82_sendData
    connectState: nat,       // internalState of ESP82_ConnectWifi
    tcpState: nat,           // internalState of ESP82_StartTCP
    recvState: nat,          // internalState of ESP82_Receive
    expectedLength: nat)     // expectedLength of ESP82_Receive

  /** The accumulator cursors stay inside the buffer; the state machines stay in their states. */
  predicate StateOk(s: EspState) {
    && |s.buf| == BUFFERSIZE_RESPONSE
    && s.front <= s.back < BUFFERSIZE_RESPONSE
    && s.execState <= 1 && s.sendDataState <= 1 && s.connectState <= 5
    && s.tcpState <= 2 && s.recvState <= 3
    && (s.recvState == 3 ==> s.expectedLength >= 1)
  }

  /** The driver's statics at reset: everything zero, the buffer all NUL. */
  const RESET_STATE: EspState :=
    EspState(seq(BUFFERSIZE_RESPONSE, _ => NUL), 0, 0, {}, false, 0, NoOwner, "", [], 0, 0, 0, 0, 0, 0)

  /** A receive call that would resume copying a payload whose length was already checked. */
  predicate ResumesPayload(s: EspState) {
    s.owner == ReceiveOwner && s.inProgress && s.recvState == 3
  }

  /** The receive parser's state, which only `ESP82_Receive` changes. */
  predicate KeepsReceive(s: EspState, r: EspState) {
    r.recvState == s.recvState && r.expectedLength == s.expectedLength
  }

  /** The outcome of one call: the new state, what is left in the FIFO, and the result code. */
  datatype Step = Step(st: EspState, pending: seq<char>, code: int)

  // ---------------------------------------------------------------------
  // Timeouts.
  // ---------------------------------------------------------------------

  /**
   * `ESP82_timeoutIsExpired`: strictly more than `interval` milliseconds
   * have passed since `t0`, with the 32-bit clock difference taken modulo
   * 2^32 so that a wrapped clock still measures the right interval.
   */
  function Expired(interval: u16, now: u32, t0: u32): (e: bool)
    ensures now >= t0 ==> (e <==> now - t0 > interval)
    ensures now < t0 ==> (e <==> now + U32 - t0 > interval)
  {
    interval < (now - t0) % U32
  }

  // ---------------------------------------------------------------------
  // Response lines.
  // ---------------------------------------------------------------------

  predicate NulFree(s: seq<char>, from: nat, to: nat)
    requires from <= to <= |s|
  {
    forall k :: from <= k < to ==> s[k] != NUL
  }

  /** A CR-LF pair starts at `j`. */
  predicate CrLfAt(buf: seq<char>, j: int) {
    0 <= j && j + 1 < |buf| && buf[j] == CR && buf[j + 1] == LF
  }

  /**
   * `strstr(&buf[from], "\r\n")`: the first CR-LF pair of the NUL-terminated
   * string that starts at `from`.
   */
  function FindCrLf(buf: seq<char>, from: nat): (r: Option<nat>)
    decreases |buf| - from
    ensures r.Some? ==> from <= r.value && r.value + 1 < |buf|
    ensures r.Some? ==> buf[r.value] == CR && buf[r.value + 1] == LF
    ensures r.Some? ==> NulFree(buf, from, r.value + 2)
    ensures r.Some? ==> forall j :: from <= j < r.value ==> !CrLfAt(buf, j)
    ensures r.None? ==> forall j :: from <= j < |buf| && NulFree(buf, from, j) ==> !CrLfAt(buf, j)
  {
    if from + 1 >= |buf| || buf[from] == NUL then None
    else if buf[from] == CR && buf[from + 1] == LF then Some(from)
    else FindCrLf(buf, from + 1)
  }

  /** The if-else chain of `ESP82_checkResponse` that turns one line into an event. */
  function Classify(line: string, expected: set<Flag>): (found: set<Flag>)
    ensures |found| <= 1
    ensures found <= {Ok, Error, Fail, Busy} + expected
  {
    if line == OK_STR then {Ok}
    else if line == ERROR_STR then {Error}
    else if line == FAIL_STR then {Fail}
    else if line == BUSYP_STR || line == BUSYS_STR then {Busy}
    else if WifiConnected in expected && line == WIFI_CONNECTED_STR then {WifiConnected}
    else if WifiGotIp in expected && line == WIFI_GOTIP_STR then {WifiGotIp}
    else if StatusGotIp in expected && line == STATUS_GOTIP_STR then {StatusGotIp}
    else if SendOk in expected && line == SEND_OK_STR then {SendOk}
    else if Closed in expected && line == CLOSED_STR then {Closed}
    else {}
  }

  /** A "SEND OK" line that was waited for ends the scan, keeping any data behind it. */
  predicate StopsScan(line: string, expected: set<Flag>) {
    SendOk in expected && line == SEND_OK_STR
  }

  /** The events a run of lines reports, ORed together. */
  function Events(ls: seq<string>, expected: set<Flag>): set<Flag>
    decreases |ls|
  {
    if |ls| == 0 then {} else Classify(ls[0], expected) + Events(ls[1..], expected)
  }

  /** ORing is order-blind, so the events of two runs of lines are the events of each. */
  lemma {:induction false} EventsAppend(a: seq<string>, b: seq<string>, expected: set<Flag>)
    ensures Events(a + b, expected) == Events(a, expected) + Events(b, expected)
    decreases |a|
  {
    if |a| == 0 {
      assert a + b == b;
    } else {
      assert (a + b)[0] == a[0] && (a + b)[1..] == a[1..] + b;
      EventsAppend(a[1..], b, expected);
      var c := Classify(a[0], expected);
      assert Events(a + b, expected) == c + (Events(a[1..], expected) + Events(b, expected));
    }
  }

  /** The buffer and front after a scan, and the lines it took in order. */
  datatype Scan = Scan(buf: seq<char>, front: nat, lines: seq<string>)

  /**
   * The `while (ESP82_readLine(...))` loop: take CR-LF terminated lines from
   * `front`, overwrite each CR with NUL and move `front` past the LF,
   * stopping at the first incomplete line or after a waited-for "SEND OK".
   * The flags the loop ORs in are `Events` of the lines taken.
   */
  function ScanLines(buf: seq<char>, front: nat, expected: set<Flag>): (r: Scan)
    requires front <= |buf|
    decreases |buf| - front
    ensures |r.buf| == |buf|
    ensures front <= r.front <= |buf|
  {
    match FindCrLf(buf, front)
    case None => Scan(buf, front, [])
    case Some(k) =>
      var line := buf[front..k];
      if StopsScan(line, expected) then Scan(buf[k := NUL], k + 2, [line])
      else
        var rest := ScanLines(buf[k := NUL], k + 2, expected);
        Scan(rest.buf, rest.front, [line] + rest.lines)
  }

  /**
   * One line taken by the scan: a waited-for "SEND OK" ends it there,
   * any other line is followed by the scan of the rest of the buffer.
   */
  lemma ScanTakesLine(buf: seq<char>, front: nat, k: nat, expected: set<Flag>)
    requires front <= |buf| && FindCrLf(buf, front) == Some(k)
    ensures var line := buf[front..k];
            var sc := ScanLines(buf, front, expected);
            var rest := ScanLines(buf[k := NUL], k + 2, expected);
            && (StopsScan(line, expected) ==> sc == Scan(buf[k := NUL], k + 2, [line]))
            && (!StopsScan(line, expected) ==>
                  && sc.buf == rest.buf && sc.front == rest.front
                  && sc.lines == [line] + rest.lines
                  && Events(sc.lines, expected) == Classify(line, expected) + Events(rest.lines, expected))
  {
    var line := buf[front..k];
    if !StopsScan(line, expected) {
      var rest := ScanLines(buf[k := NUL], k + 2, expected);
      var ls := [line] + rest.lines;
      assert ScanLines(buf, front, expected) == Scan(rest.buf, rest.front, ls);
      assert ls[0] == line && ls[1..] == rest.lines;
    }
  }

  /** The scan never reads past a NUL: the terminator bounds the new front. */
  lemma {:induction false} ScanStopsAtNul(buf: seq<char>, front: nat, expected: set<Flag>, b: nat)
    requires front <= b < |buf| && buf[b] == NUL
    ensures ScanLines(buf, front, expected).front <= b
    decreases |buf| - front
  {
    match FindCrLf(buf, front)
    case None =>
    case Some(k) =>
      assert !(front <= b < k + 2);
      if !StopsScan(buf[front..k], expected) {
        ScanStopsAtNul(buf[k := NUL], k + 2, expected, b);
      }
  }

  // ---------------------------------------------------------------------
  // Resolution of one poll.
  // ---------------------------------------------------------------------

  datatype Resolution = Resolution(code: int, flags: set<Flag>, inProgress: bool)

  /**
   * The tail of `ESP82_checkResponse`: an error event wins over everything,
   * then a complete set of expected events, then the timeout; otherwise the
   * operation is still in progress.
   */
  function Resolve(received: set<Flag>, expected: set<Flag>, expired: bool): (r: Resolution)
    ensures received * FailureFlags != {} ==> r == Resolution(ERROR, received, false)
    ensures r.code == SUCCESS <==> received * FailureFlags == {} && expected <= received
    ensures r.code == SUCCESS ==> r.flags == received
    ensures r.code == INPROGRESS <==> received * FailureFlags == {} && !(expected <= received) && !expired
    ensures r.code == INPROGRESS ==> r.flags == received
    ensures received * FailureFlags == {} && !(expected <= received) && expired ==>
              r == Resolution(ERROR, {Timeout} + expected, false)
    ensures r.inProgress <==> r.code == INPROGRESS
    ensures r.code == ERROR || r.code == INPROGRESS || r.code == SUCCESS
  {
    if received * FailureFlags != {} then Resolution(ERROR, received, false)
    else if expected <= received then Resolution(SUCCESS, received, false)
    else if expired then Resolution(ERROR, {Timeout} + expected, false)
    else Resolution(INPROGRESS, received, true)
  }

  // ---------------------------------------------------------------------
  // Polls of the response accumulator.
  // ---------------------------------------------------------------------

  /** `fifo_out` into the accumulator: `bytes` land at `back`, the rest is kept. */
  function Fill(buf: seq<char>, back: nat, bytes: seq<char>): (r: seq<char>)
    requires back + |bytes| <= |buf|
    ensures |r| == |buf|
    ensures r[..back] == buf[..back]
    ensures r[back..back + |bytes|] == bytes
    ensures r[back + |bytes|..] == buf[back + |bytes|..]
  {
    buf[..back] + bytes + buf[back + |bytes|..]
  }

  /** How many FIFO bytes one drain takes: one slot of the buffer stays free for a NUL. */
  function Taken(back: nat, pending: seq<char>): (n: nat)
    requires back < BUFFERSIZE_RESPONSE
    ensures n <= |pending|
    ensures back + n < BUFFERSIZE_RESPONSE
    ensures n == |pending| || back + n == BUFFERSIZE_RESPONSE - 1
  {
    Min(BUFFERSIZE_RESPONSE - 1 - back, |pending|)
  }

  /**
   * `back += fifo_out(&fifo, &resBuffer[back], BUFFERSIZE_RESPONSE - 1 - back)`:
   * the bytes taken from the FIFO land at `back` and `back` moves past
   * them; nothing else changes.
   */
  function DrainFifo(s: EspState, pending: seq<char>): (r: Step)
    requires StateOk(s)
    ensures StateOk(r.st) && r.code == INPROGRESS
    ensures r.st == s.(buf := r.st.buf, back := r.st.back)
    ensures r.st.back == s.back + Taken(s.back, pending)
    ensures r.st.buf[..s.back] == s.buf[..s.back]
    ensures r.st.buf[s.back..r.st.back] == pending[..Taken(s.back, pending)]
    ensures r.st.buf[r.st.back..] == s.buf[r.st.back..]
    ensures pending == pending[..Taken(s.back, pending)] + r.pending
  {
    var n := Taken(s.back, pending);
    assert pending == pending[..n] + pending[n..];
    Step(s.(buf := Fill(s.buf, s.back, pending[..n]), back := s.back + n), pending[n..], INPROGRESS)
  }

  /**
   * The entry of `ESP82_checkResponse`: start the timer on the first poll,
   * drain the FIFO into the buffer and NUL-terminate what it holds.
   */
  function BeginPoll(s: EspState, pending: seq<char>, now: u32): (r: Step)
    requires StateOk(s)
    ensures StateOk(r.st) && r.st.buf[r.st.back] == NUL
    ensures r.st.back == s.back + Taken(s.back, pending)
    ensures r.pending == pending[Taken(s.back, pending)..]
    ensures r.st.buf[..s.back] == s.buf[..s.back]
    ensures r.st.buf[s.back..r.st.back] == pending[..Taken(s.back, pending)]
    ensures r.st.t0 == (if s.inProgress then s.t0 else now)
    ensures r.st == s.(buf := r.st.buf, back := r.st.back, t0 := r.st.t0)
  {
    var d := DrainFifo(s.(t0 := if s.inProgress then s.t0 else now), pending);
    assert d.st.buf[s.back..d.st.back] == d.st.buf[d.st.back := NUL][s.back..d.st.back];
    Step(d.st.(buf := d.st.buf[d.st.back := NUL]), d.pending, INPROGRESS)
  }

  /** Look for the "> " cursor when it is waited for and enough bytes arrived; otherwise scan lines. */
  function ParseResponse(s: EspState, expected: set<Flag>): (r: EspState)
    requires StateOk(s) && s.buf[s.back] == NUL
    ensures StateOk(r)
    ensures s.flags <= r.flags
    ensures r == s.(buf := r.buf, front := r.front, flags := r.flags)
  {
    if SendBegin in expected && s.back >= 4 then
      s.(flags := if s.buf[s.back - 4..s.back] == SEND_BEGIN_STR then s.flags + {SendBegin} else s.flags)
    else
      var sc := ScanLines(s.buf, s.front, expected);
      ScanStopsAtNul(s.buf, s.front, expected, s.back);
      s.(buf := sc.buf, front := sc.front, flags := s.flags + Events(sc.lines, expected))
  }

  /** The verdict at the end of `ESP82_checkResponse`, as `Resolve` gives it. */
  function Conclude(s: EspState, pending: seq<char>, expected: set<Flag>, timeout: u16, now: u32): (r: Step)
    requires StateOk(s)
    ensures StateOk(r.st) && r.pending == pending
    ensures r.st.inProgress <==> r.code == INPROGRESS
    ensures r.code == ERROR || r.code == INPROGRESS || r.code == SUCCESS
    ensures r.st == s.(flags := r.st.flags, inProgress := r.st.inProgress)
  {
    var res := Resolve(s.flags, expected, Expired(timeout, now, s.t0));
    Step(s.(flags := res.flags, inProgress := res.inProgress), pending, res.code)
  }

  /** `ESP82_checkResponse(expected, timeout, ...)`: one poll of the response. */
  function CheckResponse(s: EspState, pending: seq<char>, expected: set<Flag>, timeout: u16, now: u32): (r: Step)
    requires StateOk(s)
    ensures StateOk(r.st)
    ensures r.code == ERROR || r.code == INPROGRESS || r.code == SUCCESS
    ensures r.st.inProgress <==> r.code == INPROGRESS
    ensures r.pending == pending[Taken(s.back, pending)..]
    ensures r.st.back == s.back + Taken(s.back, pending)
    ensures r.st.sent == s.sent && r.st.owner == s.owner && r.st.cmd == s.cmd
    ensures r.st.execState == s.execState && r.st.sendDataState == s.sendDataState
    ensures r.st.connectState == s.connectState && r.st.tcpState == s.tcpState
    ensures r.st.recvState == s.recvState && r.st.expectedLength == s.expectedLength
  {
    var b := BeginPoll(s, pending, now);
    Conclude(ParseResponse(b.st, expected), b.pending, expected, timeout, now)
  }

  /**
   * What a successful `ESP82_checkResponse` copies to a caller's buffer:
   * the first `len` consumed bytes with every NUL turned back into CR.
   */
  function Export(buf: seq<char>, len: nat): (out: seq<char>)
    requires len <= |buf|
    ensures |out| == len
    ensures forall i :: 0 <= i < len ==> out[i] == (if buf[i] == NUL then CR else buf[i])
  {
    seq(len, i requires 0 <= i < len => if buf[i] == NUL then CR else buf[i])
  }

  /**
   * `out` holds the first `min(front, max)` bytes of the buffer exported
   * as `Export` gives them, then a NUL when there is room for it; every
   * other byte is as in `before`.
   */
  ghost predicate ResponseCopied(out: seq<char>, before: seq<char>, buf: seq<char>, front: nat, max: nat)
    requires max <= |out| == |before| && front <= |buf|
  {
    var m := Min(front, max);
    && out[..m] == Export(buf, m)
    && (m < max ==> out[m] == NUL)
    && (forall j :: 0 <= j < |out| && (j > m || (j == m && m == max)) ==> out[j] == before[j])
  }

  /** `ESP82_sendCmd`: the clear step resets both cursors and the flags; the command goes to the UART. */
  function SendCmd(s: EspState, command: string, clearBuffers: bool): (r: EspState)
    ensures r.sent == s.sent + [command]
    ensures clearBuffers ==> r.front == 0 && r.back == 0 && r.flags == {}
    ensures !clearBuffers ==> r.front == s.front && r.back == s.back && r.flags == s.flags
    ensures r == s.(front := r.front, back := r.back, flags := r.flags, sent := r.sent)
  {
    var c := if clearBuffers then s.(front := 0, back := 0, flags := {}) else s;
    c.(sent := s.sent + [command])
  }

  /** `ESP82_Delay`: SUCCESS once more than `delay` ms passed since the first poll. */
  function Delay(s: EspState, pending: seq<char>, delay: u16, now: u32): (r: Step)
    ensures r.pending == pending
    ensures r.st.t0 == (if s.inProgress then s.t0 else now)
    ensures r.code == SUCCESS <==> Expired(delay, now, r.st.t0)
    ensures r.code == SUCCESS || r.code == INPROGRESS
    ensures r.st.inProgress <==> r.code == INPROGRESS
    ensures r.st == s.(t0 := r.st.t0, inProgress := r.st.inProgress)
  {
    var t0 := if s.inProgress then s.t0 else now;
    var waiting := !Expired(delay, now, t0);
    Step(s.(t0 := t0, inProgress := waiting), pending, if waiting then INPROGRESS else SUCCESS)
  }

  /** The state machines of the other driver routines, which a routine leaves alone. */
  predicate KeepsMachines(s: EspState, r: EspState) {
    && r.connectState == s.connectState && r.tcpState == s.tcpState
    && r.owner == s.owner && r.cmd == s.cmd
  }

  /** `ESP82_execute` is resuming a command already sent. */
  predicate ExecuteResumes(s: EspState) {
    s.inProgress && s.execState == 1
  }

  /**
   * `ESP82_execute`: send `command` on entry, then poll for `expected`.
   * A fresh start transmits the command once and clears the accumulator,
   * so the poll judges only the reply to it; a resumed call transmits
   * nothing and keeps accumulating.
   */
  function Execute(s: EspState, pending: seq<char>, command: string, expected: set<Flag>, timeout: u16, now: u32): (r: Step)
    requires StateOk(s)
    ensures StateOk(r.st)
    ensures KeepsReceive(s, r.st) && KeepsMachines(s, r.st) && r.st.sendDataState == s.sendDataState
    ensures r.st.execState == 1
    ensures r.st.sent == (if ExecuteResumes(s) then s.sent else s.sent + [command])
    ensures r.code == ERROR || r.code == INPROGRESS || r.code == SUCCESS
    ensures r.st.inProgress <==> r.code == INPROGRESS
    ensures !ExecuteResumes(s) ==> r.st.back == Taken(0, pending) && r.pending == pending[Taken(0, pending)..]
    ensures ExecuteResumes(s) ==> r.st.back == s.back + Taken(s.back, pending) && r.pending == pending[Taken(s.back, pending)..]
  {
    var state := if s.inProgress then s.execState else 0;
    var s1 := if state == 0 then SendCmd(s, command, true).(execState := 1) else s.(execState := state);
    CheckResponse(s1, pending, expected, timeout, now)
  }

  /** `ESP82_sendData` starts over at waiting for the "> " cursor. */
  predicate SendDataFresh(s: EspState) {
    !s.inProgress || s.sendDataState == 0
  }

  /**
   * `ESP82_sendData`: wait for the "> " cursor, transmit the payload, wait
   * for "SEND OK". The payload is the only thing transmitted, and it goes
   * out exactly when a fresh call's cursor poll succeeds.
   */
  function SendData(s: EspState, pending: seq<char>, payload: string, now: u32): (r: Step)
    requires StateOk(s)
    ensures StateOk(r.st)
    ensures KeepsReceive(s, r.st) && KeepsMachines(s, r.st) && r.st.execState == s.execState
    ensures r.st.sent == s.sent || r.st.sent == s.sent + [payload]
    ensures r.st.sent == s.sent + [payload] <==>
              SendDataFresh(s) && CheckResponse(s.(sendDataState := 0), pending, {SendBegin}, TIMEOUT_MS_CMD, now).code == SUCCESS
    ensures r.code == ERROR || r.code == INPROGRESS || r.code == SUCCESS
    ensures r.st.inProgress <==> r.code == INPROGRESS
  {
    var state := if s.inProgress then s.sendDataState else 0;
    if state == 0 then
      var p := CheckResponse(s.(sendDataState := 0), pending, {SendBegin}, TIMEOUT_MS_CMD, now);
      if p.code != SUCCESS then p
      else
        var s2 := SendCmd(p.st, payload, true).(sendDataState := 1);
        CheckResponse(s2, p.pending, {SendOk}, TIMEOUT_MS_DATA_SEND, now)
    else
      CheckResponse(s.(sendDataState := state), pending, {SendOk}, TIMEOUT_MS_DATA_SEND, now)
  }

  /** `sprintf(cmd, "AT+CIPSEND=%i\r\n", dataLength)`. */
  function CipsendCommand(len: u8): string {
    "AT+CIPSEND=" + Decimal(len) + "\r\n"
  }

  /** `ESP82_Send` enters afresh: nothing is in progress, or the engine was last used for something else. */
  predicate SendEnters(s: EspState) {
    !s.inProgress || s.owner != SendOwner
  }

  /**
   * `ESP82_Send`: on entry (nothing in progress, or the engine last used
   * for something else) announce the length with AT+CIPSEND, then run the
   * send-data state machine on the first `len` bytes.
   */
  function Send(s: EspState, pending: seq<char>, data: string, len: u8, now: u32): (r: Step)
    requires StateOk(s) && len <= |data|
    ensures StateOk(r.st)
    ensures KeepsReceive(s, r.st)
    ensures r.st.owner == SendOwner
    ensures SendEnters(s) ==> r.st.cmd == CipsendCommand(len)
    ensures SendEnters(s) ==>
              r.st.sent == s.sent + [CipsendCommand(len)] || r.st.sent == s.sent + [CipsendCommand(len), data[..len]]
    ensures !SendEnters(s) ==> r.st.sent == s.sent || r.st.sent == s.sent + [data[..len]]
  {
    if SendEnters(s) then
      var c := CipsendCommand(len);
      var s1 := SendCmd(s.(owner := SendOwner, cmd := c), c, true);
      assert s1.sent + [data[..len]] == s.sent + [c, data[..len]];
      SendData(s1, pending, data[..len], now)
    else SendData(s, pending, data[..len], now)
  }

  /** `sprintf(cmd, "AT+CWJAP=\"%s\",\"%s\"\r\n", ssid, pass)`. */
  function CwjapCommand(ssid: string, pass: string): string {
    "AT+CWJAP=\"" + ssid + "\",\"" + pass + "\"\r\n"
  }

  /** `sprintf(cmd, "AT+CIPSTART=\"%s\",\"%s\",%i,%i\r\n", ssl ? "SSL" : "TCP", host, port, keepalive)`. */
  function CipstartCommand(ssl: bool, host: string, port: u16, keepalive: nat): string {
    "AT+CIPSTART=\"" + (if ssl then "SSL" else "TCP") + "\",\"" + host + "\"," +
      Decimal(port) + "," + Decimal(keepalive) + "\r\n"
  }

  /** Wi-Fi credentials: both present, or (for the presence check) neither. */
  datatype Credentials = Credentials(ssid: string, pass: string)

  /** The length check of state 4: AT+CWJAP with both strings fits the command buffer. */
  predicate CredentialsFit(c: Credentials) {
    |c.ssid| + |c.pass| <= BUFFERSIZE_CMD - 17
  }

  /** The commands the connect sequence may transmit from state `k` on. */
  predicate ConnectCommand(c: string, k: nat, cmd: string, reset: bool, creds: Option<Credentials>) {
    || (k <= 1 && reset && c == RESTORE_CMD)
    || (k <= 3 && c == CWMODE_CMD)
    || (k <= 4 && creds.Some? && CredentialsFit(creds.value) && c == CwjapCommand(creds.value.ssid, creds.value.pass))
    || (k == 5 && c == cmd)
  }

  /** The checks of state 0 of `ESP82_StartTCP`: the host name and the keepalive are within bounds. */
  predicate HostFits(host: string, keepalive: nat) {
    |host| <= BUFFERSIZE_CMD - 34 && keepalive <= 7200
  }

  /** The commands the socket-open sequence may transmit from state `k` on. */
  predicate TcpCommand(c: string, k: nat, cmd: string, host: string, port: u16, keepalive: u16, ssl: bool) {
    || (k <= 1 && ssl && c == SSLSIZE_CMD)
    || (k == 0 && HostFits(host, keepalive) && c == CipstartCommand(ssl, host, port, keepalive))
    || (k >= 1 && c == cmd)
  }

  /** A step that sends `x`, then a step that sends `y`, each at most once, leaves only those in the log. */
  lemma SentInTurn(a: seq<string>, b: seq<string>, c: seq<string>, x: string, y: string)
    requires b == a || b == a + [x]
    requires c == b || c == b + [y]
    ensures a <= c
    ensures forall i :: |a| <= i < |c| ==> c[i] == x || c[i] == y
    ensures b == a + [x] ==> |a| < |c| && c[|a|] == x
  {
  }

  /**
   * A connect step from state `k` followed by one from a later state `j`
   * (at most 4) sends only commands of the sequence from `k` on, and what
   * the first step sent first is still sent first.
   */
  lemma ConnectLogGrows(a: seq<string>, b: seq<string>, c: seq<string>, x: string, k: nat, j: nat, cmd: string,
                        reset: bool, creds: Option<Credentials>)
    requires k <= j <= 4 && (b == a || b == a + [x]) && ConnectCommand(x, k, cmd, reset, creds)
    requires b <= c && forall i :: |b| <= i < |c| ==> ConnectCommand(c[i], j, cmd, reset, creds)
    ensures a <= c
    ensures forall i :: |a| <= i < |c| ==> ConnectCommand(c[i], k, cmd, reset, creds)
    ensures b == a + [x] ==> |a| < |c| && c[|a|] == x
  {
  }

  /** `ESP82_ConnectWifi`, state 5: AT+CWJAP, waiting for OK, WIFI CONNECTED and WIFI GOT IP. */
  function ConnectJoin(s: EspState, pending: seq<char>, reset: bool, creds: Option<Credentials>, now: u32): (r: Step)
    requires StateOk(s)
    ensures StateOk(r.st) && KeepsReceive(s, r.st) && r.st.cmd == s.cmd
    ensures r.st.sent == (if ExecuteResumes(s) then s.sent else s.sent + [s.cmd])
    ensures r.st.inProgress <==> r.code == INPROGRESS
  {
    Execute(s.(connectState := 5), pending, s.cmd, {Ok, WifiConnected, WifiGotIp}, TIMEOUT_MS_AP_CONNECT, now)
  }

  /**
   * `ESP82_ConnectWifi`, state 4: credentials that do not fit the command
   * buffer make the call return `false` (INPROGRESS) with nothing sent and
   * nothing consumed; otherwise AT+CWJAP is built and state 5 sends it.
   * Without credentials the source would take `strlen(NULL)`; the model
   * returns INPROGRESS there as well.
   */
  function ConnectJoinCommand(s: EspState, pending: seq<char>, reset: bool, creds: Option<Credentials>, now: u32): (r: Step)
    requires StateOk(s)
    ensures StateOk(r.st) && KeepsReceive(s, r.st)
    ensures s.sent <= r.st.sent
    ensures forall i :: |s.sent| <= i < |r.st.sent| ==> ConnectCommand(r.st.sent[i], 4, s.cmd, reset, creds)
    ensures creds.None? || !CredentialsFit(creds.value) ==>
              r.code == INPROGRESS && r.st.sent == s.sent && r.pending == pending && r.st.inProgress == s.inProgress
    ensures creds.Some? && CredentialsFit(creds.value) ==>
              var c := CwjapCommand(creds.value.ssid, creds.value.pass);
              r.st.cmd == c && r.st.sent == (if ExecuteResumes(s) then s.sent else s.sent + [c])
  {
    var s := s.(connectState := 4);
    if creds.None? then Step(s, pending, INPROGRESS)
    else if !CredentialsFit(creds.value) then Step(s, pending, INPROGRESS)  // `return false;`
    else ConnectJoin(s.(cmd := CwjapCommand(creds.value.ssid, creds.value.pass)), pending, reset, creds, now)
  }

  /**
   * `ESP82_ConnectWifi`, state 3: AT+CWMODE=1. Without credentials the
   * sequence ends here, so the presence check sends at most this command.
   */
  function ConnectMode(s: EspState, pending: seq<char>, reset: bool, creds: Option<Credentials>, now: u32): (r: Step)
    requires StateOk(s)
    ensures StateOk(r.st) && KeepsReceive(s, r.st)
    ensures s.sent <= r.st.sent
    ensures forall i :: |s.sent| <= i < |r.st.sent| ==> ConnectCommand(r.st.sent[i], 3, s.cmd, reset, creds)
    ensures !ExecuteResumes(s) ==> |r.st.sent| > |s.sent| && r.st.sent[|s.sent|] == CWMODE_CMD
    ensures creds.None? ==> r.st.sent == s.sent || r.st.sent == s.sent + [CWMODE_CMD]
  {
    var e := Execute(s.(connectState := 3), pending, CWMODE_CMD, {Ok}, TIMEOUT_MS_CMD, now);
    if e.code == SUCCESS && creds.Some? then
      var j := ConnectJoinCommand(e.st, e.pending, reset, creds, now);
      ConnectLogGrows(s.sent, e.st.sent, j.st.sent, CWMODE_CMD, 3, 4, s.cmd, reset, creds);
      j
    else e
  }

  /** `ESP82_ConnectWifi`, state 2: after AT+RESTORE, a second settle delay. */
  function ConnectRestoreDelay(s: EspState, pending: seq<char>, reset: bool, creds: Option<Credentials>, now: u32): (r: Step)
    requires StateOk(s)
    ensures StateOk(r.st) && KeepsReceive(s, r.st)
    ensures s.sent <= r.st.sent
    ensures forall i :: |s.sent| <= i < |r.st.sent| ==> ConnectCommand(r.st.sent[i], 2, s.cmd, reset, creds)
    ensures reset && !Expired(TIMEOUT_MS_RESTART, now, if s.inProgress then s.t0 else now) ==>
              r.code == INPROGRESS && r.st.inProgress && r.st.sent == s.sent
    ensures !reset && !ExecuteResumes(s) ==> |r.st.sent| > |s.sent| && r.st.sent[|s.sent|] == CWMODE_CMD
  {
    var s := s.(connectState := 2);
    if !reset then
      var m := ConnectMode(s, pending, reset, creds, now);
      ConnectLogGrows(s.sent, s.sent, m.st.sent, CWMODE_CMD, 2, 3, s.cmd, reset, creds);
      m
    else
      var d := Delay(s, pending, TIMEOUT_MS_RESTART, now);
      if d.code == SUCCESS then
        var m := ConnectMode(d.st, d.pending, reset, creds, now);
        ConnectLogGrows(s.sent, s.sent, m.st.sent, CWMODE_CMD, 2, 3, s.cmd, reset, creds);
        m
      else d
  }

  /** `ESP82_ConnectWifi`, state 1: AT+RESTORE, only when a reset is asked for. */
  function ConnectRestore(s: EspState, pending: seq<char>, reset: bool, creds: Option<Credentials>, now: u32): (r: Step)
    requires StateOk(s)
    ensures StateOk(r.st) && KeepsReceive(s, r.st)
    ensures s.sent <= r.st.sent
    ensures forall i :: |s.sent| <= i < |r.st.sent| ==> ConnectCommand(r.st.sent[i], 1, s.cmd, reset, creds)
    ensures !ExecuteResumes(s) ==>
              |r.st.sent| > |s.sent| && r.st.sent[|s.sent|] == (if reset then RESTORE_CMD else CWMODE_CMD)
  {
    var s := s.(connectState := 1);
    if !reset then
      var d := ConnectRestoreDelay(s, pending, reset, creds, now);
      ConnectLogGrows(s.sent, s.sent, d.st.sent, CWMODE_CMD, 1, 2, s.cmd, reset, creds);
      d
    else
      var e := Execute(s, pending, RESTORE_CMD, {Ok}, TIMEOUT_MS_CMD, now);
      if e.code == SUCCESS then
        var d := ConnectRestoreDelay(e.st, e.pending, reset, creds, now);
        ConnectLogGrows(s.sent, e.st.sent, d.st.sent, RESTORE_CMD, 1, 2, s.cmd, reset, creds);
        d
      else
        ConnectLogGrows(s.sent, e.st.sent, e.st.sent, RESTORE_CMD, 1, 1, s.cmd, reset, creds);
        e
  }

  /** `ESP82_ConnectWifi`, state 0: the settle delay after power-up; nothing is sent before it expires. */
  function ConnectSettle(s: EspState, pending: seq<char>, reset: bool, creds: Option<Credentials>, now: u32): (r: Step)
    requires StateOk(s)
    ensures StateOk(r.st) && KeepsReceive(s, r.st)
    ensures s.sent <= r.st.sent
    ensures forall i :: |s.sent| <= i < |r.st.sent| ==> ConnectCommand(r.st.sent[i], 0, s.cmd, reset, creds)
    ensures !Expired(TIMEOUT_MS_RESTART, now, if s.inProgress then s.t0 else now) ==>
              r.code == INPROGRESS && r.st.inProgress && r.st.sent == s.sent
  {
    var d := Delay(s.(connectState := 0), pending, TIMEOUT_MS_RESTART, now);
    if d.code == SUCCESS then
      var e := ConnectRestore(d.st, d.pending, reset, creds, now);
      ConnectLogGrows(s.sent, s.sent, e.st.sent, CWMODE_CMD, 0, 1, s.cmd, reset, creds);
      e
    else d
  }

  /**
   * `ESP82_ConnectWifi(reset, ssid, pass)`: the `switch` jumps to the saved
   * state while a connect is in progress, and to state 0 otherwise. A
   * fresh call only starts the settle delay.
   */
  function ConnectWifi(s: EspState, pending: seq<char>, reset: bool, creds: Option<Credentials>, now: u32): (r: Step)
    requires StateOk(s)
    ensures StateOk(r.st)
    ensures KeepsReceive(s, r.st)
    ensures s.sent <= r.st.sent
    ensures forall i :: |s.sent| <= i < |r.st.sent| ==>
              ConnectCommand(r.st.sent[i], if s.inProgress then s.connectState else 0, s.cmd, reset, creds)
    ensures !s.inProgress ==> r.code == INPROGRESS && r.st.inProgress && r.st.sent == s.sent
    ensures s.inProgress && s.connectState == 4 && (creds.None? || !CredentialsFit(creds.value)) ==>
              r.code == INPROGRESS && r.st.sent == s.sent && r.pending == pending
  {
    var k := if s.inProgress then s.connectState else 0;
    if k == 0 then ConnectSettle(s, pending, reset, creds, now)
    else if k == 1 then ConnectRestore(s, pending, reset, creds, now)
    else if k == 2 then ConnectRestoreDelay(s, pending, reset, creds, now)
    else if k == 3 then ConnectMode(s, pending, reset, creds, now)
    else if k == 4 then ConnectJoinCommand(s, pending, reset, creds, now)
    else ConnectJoin(s, pending, reset, creds, now)
  }

  /** `ESP82_StartTCP`, state 2: AT+CIPSTART as built in state 0, with the host-connect timeout. */
  function StartTcpOpen(s: EspState, pending: seq<char>, host: string, port: u16, keepalive: u16, ssl: bool, now: u32): (r: Step)
    requires StateOk(s)
    ensures StateOk(r.st) && KeepsReceive(s, r.st) && r.st.cmd == s.cmd
    ensures r.st.sent == (if ExecuteResumes(s) then s.sent else s.sent + [s.cmd])
    ensures r.st.inProgress <==> r.code == INPROGRESS
  {
    Execute(s.(tcpState := 2), pending, s.cmd, {Ok}, TIMEOUT_MS_HOST_CONNECT, now)
  }

  /** `ESP82_StartTCP`, state 1: AT+CIPSSLSIZE=4096, only for an SSL connection. */
  function StartTcpSsl(s: EspState, pending: seq<char>, host: string, port: u16, keepalive: u16, ssl: bool, now: u32): (r: Step)
    requires StateOk(s)
    ensures StateOk(r.st) && KeepsReceive(s, r.st) && r.st.cmd == s.cmd
    ensures s.sent <= r.st.sent
    ensures forall i :: |s.sent| <= i < |r.st.sent| ==> (ssl && r.st.sent[i] == SSLSIZE_CMD) || r.st.sent[i] == s.cmd
    ensures ssl && !ExecuteResumes(s) ==> |r.st.sent| > |s.sent| && r.st.sent[|s.sent|] == SSLSIZE_CMD
    ensures !ssl ==> r.st.sent == (if ExecuteResumes(s) then s.sent else s.sent + [s.cmd])
  {
    var s := s.(tcpState := 1);
    if !ssl then
      var o := StartTcpOpen(s, pending, host, port, keepalive, ssl, now);
      SentInTurn(s.sent, s.sent, o.st.sent, s.cmd, s.cmd);
      o
    else
      var e := Execute(s, pending, SSLSIZE_CMD, {Ok}, TIMEOUT_MS_CMD, now);
      if e.code == SUCCESS then
        var o := StartTcpOpen(e.st, e.pending, host, port, keepalive, ssl, now);
        SentInTurn(s.sent, e.st.sent, o.st.sent, SSLSIZE_CMD, s.cmd);
        o
      else
        SentInTurn(s.sent, e.st.sent, e.st.sent, SSLSIZE_CMD, s.cmd);
        e
  }

  /**
   * `ESP82_StartTCP`, state 0: a host name longer than 94 characters or a
   * keepalive above 7200 makes the call return `false` (INPROGRESS) with
   * nothing sent and nothing consumed; otherwise AT+CIPSTART is built.
   */
  function StartTcpCheck(s: EspState, pending: seq<char>, host: string, port: u16, keepalive: u16, ssl: bool, now: u32): (r: Step)
    requires StateOk(s)
    ensures StateOk(r.st) && KeepsReceive(s, r.st)
    ensures s.sent <= r.st.sent
    ensures forall i :: |s.sent| <= i < |r.st.sent| ==> TcpCommand(r.st.sent[i], 0, s.cmd, host, port, keepalive, ssl)
    ensures !HostFits(host, keepalive) ==>
              r.code == INPROGRESS && r.st.sent == s.sent && r.pending == pending && r.st.inProgress == s.inProgress
    ensures HostFits(host, keepalive) ==> r.st.cmd == CipstartCommand(ssl, host, port, keepalive)
    ensures HostFits(host, keepalive) && !ExecuteResumes(s) ==>
              |r.st.sent| > |s.sent|
              && r.st.sent[|s.sent|] == (if ssl then SSLSIZE_CMD else CipstartCommand(ssl, host, port, keepalive))
    ensures HostFits(host, keepalive) && !ssl ==>
              var c := CipstartCommand(ssl, host, port, keepalive);
              r.st.sent == (if ExecuteResumes(s) then s.sent else s.sent + [c])
  {
    var s := s.(tcpState := 0);
    if !HostFits(host, keepalive) then Step(s, pending, INPROGRESS)  // `return false;`
    else StartTcpSsl(s.(cmd := CipstartCommand(ssl, host, port, keepalive)), pending, host, port, keepalive, ssl, now)
  }

  /**
   * `ESP82_StartTCP(host, port, keepalive, ssl)`: the `switch` jumps to the
   * saved state while a connect is in progress, and to state 0 otherwise.
   */
  function StartTcp(s: EspState, pending: seq<char>, host: string, port: u16, keepalive: u16, ssl: bool, now: u32): (r: Step)
    requires StateOk(s)
    ensures StateOk(r.st)
    ensures KeepsReceive(s, r.st)
    ensures s.sent <= r.st.sent
    ensures forall i :: |s.sent| <= i < |r.st.sent| ==>
              TcpCommand(r.st.sent[i], if s.inProgress then s.tcpState else 0, s.cmd, host, port, keepalive, ssl)
    ensures !s.inProgress && !HostFits(host, keepalive) ==>
              r.code == INPROGRESS && r.st.sent == s.sent && r.pending == pending && !r.st.inProgress
    ensures !s.inProgress && HostFits(host, keepalive) ==>
              r.st.cmd == CipstartCommand(ssl, host, port, keepalive)
              && |r.st.sent| > |s.sent|
              && r.st.sent[|s.sent|] == (if ssl then SSLSIZE_CMD else CipstartCommand(ssl, host, port, keepalive))
  {
    var k := if s.inProgress then s.tcpState else 0;
    if k == 0 then StartTcpCheck(s, pending, host, port, keepalive, ssl, now)
    else if k == 1 then StartTcpSsl(s, pending, host, port, keepalive, ssl, now)
    else StartTcpOpen(s, pending, host, port, keepalive, ssl, now)
  }

  // ---------------------------------------------------------------------
  // Reception of "+IPD" frames.
  // ---------------------------------------------------------------------

  /** The outcome of one `ESP82_Receive` call; `payload` is what it copied to the caller. */
  datatype RecvStep = RecvStep(st: EspState, pending: seq<char>, code: int, payload: seq<char>)

  /** The global receive timeout at the bottom of `ESP82_Receive`. */
  function ReceiveTimeout(s: EspState, pending: seq<char>, now: u32): (r: RecvStep)
    ensures r.payload == [] && r.pending == pending
    ensures r.code == ERROR <==> Expired(TIMEOUT_MS_RECEIVE, now, s.t0)
    ensures r.code == ERROR || r.code == INPROGRESS
    ensures r.code == ERROR ==> r.st == s.(inProgress := false)
    ensures r.code == INPROGRESS ==> r.st == s
  {
    if Expired(TIMEOUT_MS_RECEIVE, now, s.t0) then RecvStep(s.(inProgress := false), pending, ERROR, [])
    else RecvStep(s, pending, INPROGRESS, [])
  }

  /**
   * The entry of `ESP82_Receive`: claim the engine for receiving (which
   * abandons whatever else was in progress), drain the FIFO into the
   * buffer, and on a fresh start begin the timer and wait for a header.
   */
  function BeginReceive(s: EspState, pending: seq<char>, now: u32): (r: Step)
    requires StateOk(s)
    ensures StateOk(r.st) && r.st.owner == ReceiveOwner && r.st.inProgress
    ensures 1 <= r.st.recvState <= 3
    ensures r.st.recvState == 3 ==> ResumesPayload(s) && r.st.expectedLength == s.expectedLength
    ensures r.st.front == s.front && r.st.back == s.back + Taken(s.back, pending)
    ensures r.st.buf[..s.back] == s.buf[..s.back]
    ensures r.st.buf[s.back..r.st.back] == pending[..Taken(s.back, pending)]
    ensures r.pending == pending[Taken(s.back, pending)..]
    ensures r.st.sent == s.sent
  {
    var d := DrainFifo(ClaimReceive(s), pending);
    Step(StartReceive(d.st, now), d.pending, INPROGRESS)
  }

  /** Taking the engine over for receiving abandons whatever else was in progress. */
  function ClaimReceive(s: EspState): (r: EspState)
    ensures r.owner == ReceiveOwner
    ensures s.owner != ReceiveOwner ==> !r.inProgress
    ensures s.owner == ReceiveOwner ==> r.inProgress == s.inProgress
    ensures r == s.(owner := ReceiveOwner, inProgress := r.inProgress)
  {
    if s.owner != ReceiveOwner then s.(owner := ReceiveOwner, inProgress := false) else s
  }

  /** A receive that is not under way starts its timer and waits for a header. */
  function StartReceive(s: EspState, now: u32): (r: EspState)
    ensures r.inProgress
    ensures s.inProgress && s.recvState != 0 ==> r == s
    ensures !(s.inProgress && s.recvState != 0) ==> r.t0 == now && r.recvState == 1
    ensures r == s.(t0 := r.t0, inProgress := true, recvState := r.recvState)
  {
    if s.inProgress && s.recvState != 0 then s else s.(t0 := now, inProgress := true, recvState := 1)
  }

  /** State 1: a 7-byte "\r\n+IPD," header moves on to the length; anything else is an error. */
  function ReceiveHeader(s: EspState, pending: seq<char>, now: u32): (r: RecvStep)
    requires StateOk(s) && s.recvState == 1
    ensures StateOk(r.st) && r.payload == [] && r.pending == pending && r.st.sent == s.sent
    ensures r.st.recvState == 1 || r.st.recvState == 2
    ensures s.back - s.front >= 7 && s.buf[s.front..s.front + 7] != IPD_HEADER ==>
              r.code == ERROR && !r.st.inProgress && r.st.front == s.front
    ensures s.back - s.front >= 7 && s.buf[s.front..s.front + 7] == IPD_HEADER ==>
              r.st.front == s.front + 7 && r.st.recvState == 2
              && (r.code == ERROR <==> Expired(TIMEOUT_MS_RECEIVE, now, s.t0))
    ensures s.back == s.front ==> r.code == RECEIVE_NOTHING && !r.st.inProgress
    ensures 0 < s.back - s.front < 7 ==>
              r.st.front == s.front && r.st.recvState == 1
              && (r.code == ERROR <==> Expired(TIMEOUT_MS_RECEIVE, now, s.t0))
  {
    var avail := s.back - s.front;
    if avail >= 7 then
      if s.buf[s.front..s.front + 7] == IPD_HEADER then ReceiveTimeout(s.(front := s.front + 7, recvState := 2), pending, now)
      else RecvStep(s.(inProgress := false), pending, ERROR, [])
    else if avail == 0 then RecvStep(s.(inProgress := false), pending, RECEIVE_NOTHING, [])
    else ReceiveTimeout(s, pending, now)
  }

  /**
   * State 2: once a ':' is among the available bytes, replace it with NUL
   * and read the decimal length before it; a length of 0 or above `max`
   * is an error.
   */
  function ReceiveLength(s: EspState, pending: seq<char>, max: u8, now: u32): (r: RecvStep)
    requires StateOk(s) && s.recvState == 2
    ensures StateOk(r.st) && r.payload == [] && r.pending == pending && r.st.sent == s.sent
    ensures r.st.recvState == 3 ==> 1 <= r.st.expectedLength <= max
    ensures r.st.recvState == 2 || r.st.recvState == 3
    ensures s.back - s.front < 2 || FindChar(s.buf, s.front, s.back - s.front, ':').None? ==>
              r == ReceiveTimeout(s, pending, now)
    ensures s.back - s.front >= 2 && FindChar(s.buf, s.front, s.back - s.front, ':').Some? ==>
              var p := FindChar(s.buf, s.front, s.back - s.front, ':').value;
              var n := Atoi(s.buf[p := NUL][s.front..]);
              && r.st.buf == s.buf[p := NUL] && r.st.expectedLength == n && r.st.t0 == s.t0
              && (n == 0 || n > max ==> r.code == ERROR && !r.st.inProgress && r.st.front == s.front)
              && (1 <= n <= max ==>
                    r.st.recvState == 3 && r.st.front == p + 1
                    && (r.code == ERROR <==> Expired(TIMEOUT_MS_RECEIVE, now, s.t0))
                    && r.st.inProgress == (s.inProgress && r.code == INPROGRESS))
  {
    if s.back - s.front >= 2 then
      match FindChar(s.buf, s.front, s.back - s.front, ':')
      case Some(p) => AcceptLength(s, pending, p, max, now)
      case None => ReceiveTimeout(s, pending, now)
    else ReceiveTimeout(s, pending, now)
  }

  /** The ':' at `p` ends the length: `atoi` reads it and the bounds check decides. */
  function AcceptLength(s: EspState, pending: seq<char>, p: nat, max: u8, now: u32): (r: RecvStep)
    requires StateOk(s) && s.recvState == 2 && s.front <= p < s.back
    ensures StateOk(r.st) && r.payload == [] && r.pending == pending && r.st.sent == s.sent
    ensures r.st.recvState == 3 ==> 1 <= r.st.expectedLength <= max
    ensures r.st.recvState == 2 || r.st.recvState == 3
    ensures var n := Atoi(s.buf[p := NUL][s.front..]);
            && (n == 0 || n > max ==>
                  r.code == ERROR && r.st == s.(buf := s.buf[p := NUL], expectedLength := n, inProgress := false))
            && (1 <= n <= max ==>
                  && (r.code == ERROR <==> Expired(TIMEOUT_MS_RECEIVE, now, s.t0))
                  && (r.code == ERROR || r.code == INPROGRESS)
                  && r.st == s.(buf := s.buf[p := NUL], expectedLength := n, front := p + 1, recvState := 3,
                                inProgress := s.inProgress && r.code == INPROGRESS))
  {
    var marked := s.buf[p := NUL];
    var len := Atoi(marked[s.front..]);
    if len > max || len == 0 then
      RecvStep(s.(buf := marked, expectedLength := len, inProgress := false), pending, ERROR, [])
    else
      ReceiveTimeout(s.(buf := marked, expectedLength := len, front := p + 1, recvState := 3), pending, now)
  }

  /** State 3: once the announced number of bytes is available, hand them out and report the count. */
  function ReceivePayload(s: EspState, pending: seq<char>, max: u8, now: u32): (r: RecvStep)
    requires StateOk(s) && s.recvState == 3 && s.expectedLength <= max
    ensures StateOk(r.st) && r.pending == pending && r.st.sent == s.sent
    ensures r.code > 0 ==> r.code == s.expectedLength && s.front + r.code <= s.back
    ensures r.code > 0 ==> r.payload == s.buf[s.front..s.front + s.expectedLength]
    ensures r.code <= 0 ==> r.payload == []
    ensures r.st.recvState == 3 && r.st.expectedLength == s.expectedLength
    ensures s.back - s.front >= s.expectedLength ==>
              r == RecvStep(s.(front := s.front + s.expectedLength, inProgress := false), pending,
                            s.expectedLength, s.buf[s.front..s.front + s.expectedLength])
    ensures s.back - s.front < s.expectedLength ==> r == ReceiveTimeout(s, pending, now)
  {
    var len := s.expectedLength;
    if s.back - s.front >= len then
      RecvStep(s.(front := s.front + len, inProgress := false), pending, len, s.buf[s.front..s.front + len])
    else ReceiveTimeout(s, pending, now)
  }

  /**
   * `ESP82_Receive(data, dataLengthMax)`: drain the FIFO into the
   * accumulator and advance the frame parser by one state:
   *   1: wait for the 7-byte header "\r\n+IPD,"
   *   2: wait for ':' and read the decimal length before it
   *   3: wait for that many bytes and hand them out
   */
  function Receive(s: EspState, pending: seq<char>, max: u8, now: u32): (r: RecvStep)
    requires StateOk(s)
    requires ResumesPayload(s) ==> s.expectedLength <= max
    ensures StateOk(r.st)
    ensures r.code > 0 ==> r.code <= max && |r.payload| == r.code
    ensures r.code <= 0 ==> r.payload == []
    ensures r.st.sent == s.sent
    ensures r.st.recvState == 3 ==> r.st.expectedLength <= max
  {
    var b := BeginReceive(s, pending, now);
    if b.st.recvState == 1 then ReceiveHeader(b.st, b.pending, now)
    else if b.st.recvState == 2 then ReceiveLength(b.st, b.pending, max, now)
    else ReceivePayload(b.st, b.pending, max, now)
  }
}
