/**
 * What the AT-command engine promises, proved about the functions of
 * `Esp8266Protocol`: how a response made of lines is judged, how the
 * exported response gets its CRs back, that every command it builds fits
 * its 128-byte buffer, and that a "+IPD" frame is delivered intact.
 */
module Esp8266Properties {
  import opened LibC
  import opened Esp8266Protocol

  // ---------------------------------------------------------------------
  // Responses made of lines.
  // ---------------------------------------------------------------------

  /** Lines as the module sends them: each one followed by CR-LF. */
  function Lines(ls: seq<string>): string {
    if |ls| == 0 then [] else ls[0] + [CR, LF] + Lines(ls[1..])
  }

  /** A line holds neither NUL nor CR. */
  predicate CleanLine(line: string) {
    forall i :: 0 <= i < |line| ==> line[i] != NUL && line[i] != CR
  }

  /** `strstr` finds the CR-LF that ends a clean line. */
  lemma {:induction false} FindCrLfOfLine(buf: seq<char>, front: nat, line: string)
    requires CleanLine(line) && front + |line| + 2 <= |buf|
    requires buf[front..front + |line|] == line
    requires buf[front + |line|] == CR && buf[front + |line| + 1] == LF
    ensures FindCrLf(buf, front) == Some(front + |line|)
    decreases |line|
  {
    if |line| > 0 {
      assert buf[front] == line[0];
      assert buf[front + 1..front + 1 + |line[1..]|] == line[1..];
      FindCrLfOfLine(buf, front + 1, line[1..]);
    }
  }

  /** None of the lines holds a NUL or CR, and none ends the scan early. */
  predicate Plain(ls: seq<string>, expected: set<Flag>) {
    forall i :: 0 <= i < |ls| ==> CleanLine(ls[i]) && !StopsScan(ls[i], expected)
  }

  lemma PlainTail(ls: seq<string>, expected: set<Flag>)
    requires |ls| > 0 && Plain(ls, expected)
    ensures CleanLine(ls[0]) && !StopsScan(ls[0], expected) && Plain(ls[1..], expected)
  {
    forall i | 0 <= i < |ls[1..]|
      ensures CleanLine(ls[1..][i]) && !StopsScan(ls[1..][i], expected)
    {
      assert ls[1..][i] == ls[i + 1];
    }
  }

  /** From `front` on, `buf` holds the lines `ls`, each followed by CR-LF, and then a NUL. */
  predicate HoldsLines(buf: seq<char>, front: nat, ls: seq<string>)
    decreases |ls|
  {
    if |ls| == 0 then front < |buf| && buf[front] == NUL
    else
      && front + |ls[0]| + 2 <= |buf|
      && buf[front..front + |ls[0]|] == ls[0]
      && buf[front + |ls[0]|] == CR && buf[front + |ls[0]| + 1] == LF
      && HoldsLines(buf, front + |ls[0]| + 2, ls[1..])
  }

  /** A buffer whose bytes from `front` on are `Lines(ls)` and a NUL holds those lines. */
  lemma {:induction false} LinesHeld(buf: seq<char>, front: nat, ls: seq<string>)
    requires front + |Lines(ls)| < |buf|
    requires buf[front..front + |Lines(ls)|] == Lines(ls)
    requires buf[front + |Lines(ls)|] == NUL
    ensures HoldsLines(buf, front, ls)
    decreases |ls|
  {
    if |ls| > 0 {
      var line, rest := ls[0], ls[1..];
      var text := Lines(ls);
      var after := front + |line| + 2;
      assert text == line + [CR, LF] + Lines(rest);
      assert buf[front..front + |line|] == text[..|line|] == line;
      assert buf[front + |line|] == text[|line|] && buf[front + |line| + 1] == text[|line| + 1];
      assert buf[after..after + |Lines(rest)|] == text[|line| + 2..];
      LinesHeld(buf, after, rest);
    }
  }

  /** Overwriting a byte before `front` leaves the lines held from `front` on. */
  lemma {:induction false} HoldsLinesAfterWrite(buf: seq<char>, front: nat, ls: seq<string>, k: nat, c: char)
    requires k < front && HoldsLines(buf, front, ls)
    ensures HoldsLines(buf[k := c], front, ls)
    decreases |ls|
  {
    if |ls| > 0 {
      var after := front + |ls[0]| + 2;
      assert buf[k := c][front..front + |ls[0]|] == buf[front..front + |ls[0]|];
      HoldsLinesAfterWrite(buf, after, ls[1..], k, c);
    }
  }

  /** At the NUL terminator the scan takes nothing. */
  lemma ScanAtNul(buf: seq<char>, front: nat, expected: set<Flag>)
    requires front < |buf| && buf[front] == NUL
    ensures ScanLines(buf, front, expected) == Scan(buf, front, [])
  {
    assert FindCrLf(buf, front).None?;
  }

  /** A line that does not end the scan is followed by the scan of the rest of the buffer. */
  lemma ScanGoesOn(buf: seq<char>, front: nat, k: nat, after: nat, line: string, expected: set<Flag>)
    requires front <= |buf| && FindCrLf(buf, front) == Some(k) && after == k + 2
    requires buf[front..k] == line && !StopsScan(line, expected)
    ensures ScanLines(buf, front, expected).lines == [line] + ScanLines(buf[k := NUL], after, expected).lines
    ensures ScanLines(buf, front, expected).front == ScanLines(buf[k := NUL], after, expected).front
  {
    ScanTakesLine(buf, front, k, expected);
  }

  /**
   * Scanning a run of complete clean lines, none of them a waited-for
   * "SEND OK", that ends at the NUL terminator takes exactly those lines
   * and stops at the terminator.
   */
  lemma {:induction false} ScanLinesOfLines(buf: seq<char>, front: nat, ls: seq<string>, expected: set<Flag>)
    requires HoldsLines(buf, front, ls) && Plain(ls, expected)
    ensures ScanLines(buf, front, expected).lines == ls
    ensures ScanLines(buf, front, expected).front == front + |Lines(ls)|
    decreases |ls|
  {
    if |ls| == 0 {
      ScanAtNul(buf, front, expected);
    } else {
      var k := front + |ls[0]|;
      FirstLineFound(buf, front, ls, expected);
      ScanLinesOfLines(buf[k := NUL], k + 2, ls[1..], expected);
      ScanLineThen(buf, front, ls, expected);
    }
  }

  /** A line the scan takes, followed by lines it already takes, is taken as one more line. */
  lemma ScanLineThen(buf: seq<char>, front: nat, ls: seq<string>, expected: set<Flag>)
    requires |ls| > 0 && front + |ls[0]| + 2 <= |buf|
    requires FindCrLf(buf, front) == Some(front + |ls[0]|) && buf[front..front + |ls[0]|] == ls[0]
    requires !StopsScan(ls[0], expected)
    requires var tail := ScanLines(buf[front + |ls[0]| := NUL], front + |ls[0]| + 2, expected);
             tail.lines == ls[1..] && tail.front == front + |ls[0]| + 2 + |Lines(ls[1..])|
    ensures ScanLines(buf, front, expected).lines == ls
    ensures ScanLines(buf, front, expected).front == front + |Lines(ls)|
  {
    var k := front + |ls[0]|;
    ScanGoesOn(buf, front, k, k + 2, ls[0], expected);
    assert ls == [ls[0]] + ls[1..];
  }

  /**
   * The first of the lines held is found by `strstr`, does not end the
   * scan, and once its CR is cleared the other lines are still held.
   */
  lemma FirstLineFound(buf: seq<char>, front: nat, ls: seq<string>, expected: set<Flag>)
    requires |ls| > 0 && HoldsLines(buf, front, ls) && Plain(ls, expected)
    ensures var k := front + |ls[0]|;
            && k + 2 <= |buf| && buf[front..k] == ls[0] && FindCrLf(buf, front) == Some(k)
            && !StopsScan(ls[0], expected) && Plain(ls[1..], expected)
            && HoldsLines(buf[k := NUL], k + 2, ls[1..])
  {
    var k := front + |ls[0]|;
    PlainTail(ls, expected);
    FindCrLfOfLine(buf, front, ls[0]);
    HoldsLinesAfterWrite(buf, k + 2, ls[1..], k, NUL);
  }

  /**
   * One poll over a response of complete lines that arrive all at once
   * (nothing left unparsed before, no "> " cursor waited for): the verdict
   * is `Resolve` applied to the lines' events, which means SUCCESS exactly
   * when no line reported ERROR, FAIL or busy and every expected event was
   * seen; every byte is consumed.
   */
  lemma PollOfLines(s: EspState, ls: seq<string>, expected: set<Flag>, timeout: u16, now: u32)
    requires StateOk(s) && s.front == s.back && SendBegin !in expected
    requires s.back + |Lines(ls)| < BUFFERSIZE_RESPONSE
    requires Plain(ls, expected)
    ensures var r := CheckResponse(s, Lines(ls), expected, timeout, now);
            var seen := s.flags + Events(ls, expected);
            && (r.code == SUCCESS <==> seen * FailureFlags == {} && expected <= seen)
            && (seen * FailureFlags != {} ==> r.code == ERROR)
            && r.st.front == r.st.back && r.pending == []
  {
    var text := Lines(ls);
    var b := BeginPoll(s, text, now);
    assert b.st.buf[s.back..b.st.back] == text;
    LinesHeld(b.st.buf, s.front, ls);
    ScanLinesOfLines(b.st.buf, s.front, ls, expected);
  }

  /** The response to AT+CWMODE=1 with echo on: the echoed command, an empty line and OK. */
  const ECHO_THEN_OK: seq<string> := ["AT+CWMODE=1", "", OK_STR]

  /**
   * The echoed command and the empty line report nothing and OK reports
   * OK, so by `PollOfLines` this response, arriving whole, concludes the
   * command with SUCCESS.
   */
  lemma EchoThenOk()
    ensures Plain(ECHO_THEN_OK, {Ok})
    ensures Events(ECHO_THEN_OK, {Ok}) == {Ok}
  {
    var ls := ECHO_THEN_OK;
    EchoLineIsSilent();
    assert CleanLine(ls[1]) && CleanLine(ls[2]);
    assert ls[1..] == ["", OK_STR] && ls[1..][1..] == [OK_STR] && ls[1..][1..][1..] == [];
    assert Events([OK_STR], {Ok}) == {Ok};
    assert Events(["", OK_STR], {Ok}) == {Ok};
  }

  /** The echoed "AT+CWMODE=1" is clean and is none of the tokens, so it reports nothing. */
  lemma EchoLineIsSilent()
    ensures CleanLine(ECHO_THEN_OK[0]) && Classify(ECHO_THEN_OK[0], {Ok}) == {}
  {
    var line := ECHO_THEN_OK[0];
    assert |line| == 11 && line[0] == 'A';
    assert line != OK_STR && line != ERROR_STR && line != FAIL_STR;
    assert line != BUSYP_STR && line != BUSYS_STR;
  }

  /** A "busy p..." line fails the command even when the expected OK is there as well. */
  lemma BusyOverridesOk(s: EspState, timeout: u16, now: u32)
    requires StateOk(s) && s.front == s.back
    requires s.back + |Lines([BUSYP_STR, OK_STR])| < BUFFERSIZE_RESPONSE
    ensures CheckResponse(s, Lines([BUSYP_STR, OK_STR]), {Ok}, timeout, now).code == ERROR
  {
    var ls := [BUSYP_STR, OK_STR];
    assert Classify(ls[0], {Ok}) == {Busy};
    assert Busy in Events(ls, {Ok});
    PollOfLines(s, ls, {Ok}, timeout, now);
  }

  /** The two lines "junk" and "OK": their text, and that only OK reports anything. */
  lemma JunkThenOkLines()
    ensures Lines(["junk", OK_STR]) == "junk\r\nOK\r\n"
    ensures Plain(["junk", OK_STR], {Ok}) && Events(["junk", OK_STR], {Ok}) == {Ok}
  {
    var ls := ["junk", OK_STR];
    assert ls[1..] == [OK_STR] && ls[1..][1..] == [];
    assert Lines(ls[1..]) == OK_STR + [CR, LF] + Lines([]);
    assert Lines(ls) == ls[0] + [CR, LF] + Lines(ls[1..]);
    assert Classify(ls[0], {Ok}) == {} && Classify(ls[1], {Ok}) == {Ok};
    assert Events(ls[1..], {Ok}) == {Ok} + Events([], {Ok});
  }

  /** Junk before the OK line is ignored: "junk\r\nOK\r\n" concludes a command that waits for OK. */
  lemma JunkThenOk(s: EspState, timeout: u16, now: u32)
    requires StateOk(s) && s.front == s.back && s.flags == {}
    requires s.back + 10 < BUFFERSIZE_RESPONSE
    ensures CheckResponse(s, "junk\r\nOK\r\n", {Ok}, timeout, now).code == SUCCESS
  {
    JunkThenOkLines();
    PollOfLines(s, ["junk", OK_STR], {Ok}, timeout, now);
  }

  /** The lines "" and "ERROR": their text, and that they report ERROR whatever is expected. */
  lemma ErrorReplyLines(expected: set<Flag>)
    ensures Lines(["", ERROR_STR]) == "\r\nERROR\r\n"
    ensures Plain(["", ERROR_STR], expected) && Error in Events(["", ERROR_STR], expected)
  {
    var ls := ["", ERROR_STR];
    assert ls[1..] == [ERROR_STR] && ls[1..][1..] == [];
    assert Lines(ls[1..]) == ERROR_STR + [CR, LF] + Lines([]);
    assert Lines(ls) == ls[0] + [CR, LF] + Lines(ls[1..]);
    assert Classify(ls[1], expected) == {Error};
    assert Events(ls[1..], expected) == {Error} + Events([], expected);
    assert forall i :: 0 <= i < |ls| ==> CleanLine(ls[i]) && ls[i] != SEND_OK_STR;
  }

  /**
   * An ERROR reply fails the command whatever it waits for, unless it waits
   * for the "> " cursor, in which case the lines are not read at all.
   */
  lemma ErrorReplyFails(s: EspState, expected: set<Flag>, timeout: u16, now: u32)
    requires StateOk(s) && s.front == s.back && SendBegin !in expected
    requires s.back + 9 < BUFFERSIZE_RESPONSE
    ensures CheckResponse(s, "\r\nERROR\r\n", expected, timeout, now).code == ERROR
  {
    ErrorReplyLines(expected);
    PollOfLines(s, ["", ERROR_STR], expected, timeout, now);
  }

  /** `strstr` finds no CR-LF in a clean line that ends at the NUL terminator. */
  lemma {:induction false} FindCrLfOfUnterminated(buf: seq<char>, front: nat, line: string)
    requires CleanLine(line) && front + |line| < |buf|
    requires buf[front..front + |line|] == line && buf[front + |line|] == NUL
    ensures FindCrLf(buf, front) == None
    decreases |line|
  {
    if |line| > 0 {
      assert buf[front] == line[0];
      assert buf[front + 1..front + 1 + |line[1..]|] == line[1..];
      FindCrLfOfUnterminated(buf, front + 1, line[1..]);
    }
  }

  /**
   * A line that never gets its CR-LF: every poll before the timeout is
   * INPROGRESS and leaves the line unparsed, and the first poll after it is
   * ERROR with the flags set to TIMEOUT and the expected events.
   */
  lemma UnterminatedLineTimesOut(s: EspState, pending: seq<char>, expected: set<Flag>, timeout: u16, now: u32)
    requires StateOk(s) && s.flags == {} && expected != {} && SendBegin !in expected
    requires s.back + |pending| < BUFFERSIZE_RESPONSE
    requires CleanLine(s.buf[s.front..s.back] + pending)
    ensures var r := CheckResponse(s, pending, expected, timeout, now);
            var t0 := if s.inProgress then s.t0 else now;
            && r.st.front == s.front && r.st.back == s.back + |pending| && r.pending == []
            && r.st.buf[r.st.front..r.st.back] == s.buf[s.front..s.back] + pending
            && (!Expired(timeout, now, t0) ==> r.code == INPROGRESS && r.st.flags == {})
            && (Expired(timeout, now, t0) ==> r.code == ERROR && r.st.flags == {Timeout} + expected)
  {
    var b := BeginPoll(s, pending, now);
    DrainKeepsBytes(s, pending, now);
    assert pending[..|pending| - |b.pending|] == pending;
    FindCrLfOfUnterminated(b.st.buf, s.front, s.buf[s.front..s.back] + pending);
    assert ParseResponse(b.st, expected) == b.st.(flags := {} + Events([], expected));
  }

  /**
   * While the "> " cursor is waited for and at least 4 bytes are buffered,
   * no line is read: the flag is set exactly when the last 4 bytes are the
   * cursor, and the poll then succeeds.
   */
  lemma CursorPoll(s: EspState, pending: seq<char>, timeout: u16, now: u32)
    requires StateOk(s) && s.flags == {}
    requires 4 <= s.back + |pending| < BUFFERSIZE_RESPONSE
    ensures var r := CheckResponse(s, pending, {SendBegin}, timeout, now);
            var received := s.buf[..s.back] + pending;
            && r.st.front == s.front && r.pending == []
            && (r.code == SUCCESS <==> received[|received| - 4..] == SEND_BEGIN_STR)
  {
    var b := BeginPoll(s, pending, now);
    var received := s.buf[..s.back] + pending;
    assert b.st.buf[..b.st.back] == received by {
      assert b.st.buf[..b.st.back] == b.st.buf[..s.back] + b.st.buf[s.back..b.st.back];
    }
    assert b.st.buf[b.st.back - 4..b.st.back] == received[|received| - 4..];
  }

  /**
   * A fresh `ESP82_execute` whose reply arrives whole as complete lines:
   * the command goes out exactly once, and the verdict is SUCCESS exactly
   * when no line reported a failure and every expected event was seen.
   */
  lemma ExecuteOfLines(s: EspState, command: string, ls: seq<string>, expected: set<Flag>, timeout: u16, now: u32)
    requires StateOk(s) && !ExecuteResumes(s) && SendBegin !in expected
    requires |Lines(ls)| < BUFFERSIZE_RESPONSE
    requires Plain(ls, expected)
    ensures var r := Execute(s, Lines(ls), command, expected, timeout, now);
            var seen := Events(ls, expected);
            && r.st.sent == s.sent + [command]
            && (r.code == SUCCESS <==> seen * FailureFlags == {} && expected <= seen)
            && r.pending == []
  {
    var s1 := SendCmd(s, command, true).(execState := 1);
    PollOfLines(s1, ls, expected, timeout, now);
  }

  /**
   * A fresh `ESP82_Send` transmits AT+CIPSEND and then waits for the "> "
   * cursor: the data goes out in the same call exactly when the last 4
   * bytes received are the cursor, and otherwise only the command is sent.
   */
  lemma SendWaitsForCursor(s: EspState, pending: seq<char>, data: string, len: u8, now: u32)
    requires StateOk(s) && len <= |data| && !s.inProgress
    requires 4 <= |pending| < BUFFERSIZE_RESPONSE
    ensures var r := Send(s, pending, data, len, now);
            var c := CipsendCommand(len);
            && (r.st.sent == s.sent + [c, data[..len]] <==> pending[|pending| - 4..] == SEND_BEGIN_STR)
            && (r.st.sent == s.sent + [c] <==> pending[|pending| - 4..] != SEND_BEGIN_STR)
  {
    var c := CipsendCommand(len);
    var s1 := SendCmd(s.(owner := SendOwner, cmd := c), c, true);
    CursorPoll(s1.(sendDataState := 0), pending, TIMEOUT_MS_CMD, now);
    assert s1.(sendDataState := 0).buf[..0] + pending == pending;
    assert s1.sent + [data[..len]] == s.sent + [c, data[..len]];
    assert [c, data[..len]] != [c];
  }

  /** `after` differs from `before` only where a CR became a NUL. */
  predicate OnlyCrCleared(before: seq<char>, after: seq<char>)
    requires |before| == |after|
  {
    forall j :: 0 <= j < |before| ==> after[j] == before[j] || (before[j] == CR && after[j] == NUL)
  }

  lemma CrClearedThen(a: seq<char>, k: nat, c: seq<char>)
    requires k < |a| == |c| && a[k] == CR && OnlyCrCleared(a[k := NUL], c)
    ensures OnlyCrCleared(a, c)
  {
    forall j | 0 <= j < |a|
      ensures c[j] == a[j] || (a[j] == CR && c[j] == NUL)
    {
      assert a[k := NUL][j] == if j == k then NUL else a[j];
    }
  }

  /** The scan changes no byte except CRs, which it turns into NULs. */
  lemma {:induction false} ScanOnlyClearsCr(buf: seq<char>, front: nat, expected: set<Flag>)
    requires front <= |buf|
    ensures OnlyCrCleared(buf, ScanLines(buf, front, expected).buf)
    decreases |buf| - front
  {
    match FindCrLf(buf, front)
    case None =>
      assert ScanLines(buf, front, expected).buf == buf;
    case Some(k) =>
      ScanTakesLine(buf, front, k, expected);
      var next := buf[k := NUL];
      if StopsScan(buf[front..k], expected) {
        assert OnlyCrCleared(next, next);
      } else {
        ScanOnlyClearsCr(next, k + 2, expected);
      }
      CrClearedThen(buf, k, ScanLines(buf, front, expected).buf);
  }

  /**
   * Export undoes the line scan: where the scan turned a CR into NUL the
   * copy turns it back, so a response without NUL bytes is delivered as
   * the module sent it.
   */
  lemma ExportRestoresResponse(buf: seq<char>, front: nat, expected: set<Flag>, len: nat)
    requires front <= |buf| && len <= |buf| && NulFree(buf, 0, len)
    ensures Export(ScanLines(buf, front, expected).buf, len) == buf[..len]
  {
    var scanned := ScanLines(buf, front, expected).buf;
    ScanOnlyClearsCr(buf, front, expected);
    forall i | 0 <= i < len
      ensures Export(scanned, len)[i] == buf[i]
    {
      assert buf[i] != NUL;
    }
  }

  // ---------------------------------------------------------------------
  // Commands fit the 128-byte command buffer.
  // ---------------------------------------------------------------------

  /** The credential check of state 4 is exact: AT+CWJAP and its NUL fit in 128 bytes iff it passes. */
  lemma CwjapFits(ssid: string, pass: string)
    ensures |CwjapCommand(ssid, pass)| + 1 <= BUFFERSIZE_CMD <==> |ssid| + |pass| <= BUFFERSIZE_CMD - 17
  {
  }

  /** A host of at most 94 characters and a keepalive of at most 7200 keep AT+CIPSTART and its NUL in 128 bytes. */
  lemma CipstartFits(ssl: bool, host: string, port: u16, keepalive: nat)
    requires |host| <= BUFFERSIZE_CMD - 34 && keepalive <= 7200
    ensures |CipstartCommand(ssl, host, port, keepalive)| + 1 <= BUFFERSIZE_CMD
  {
    assert Pow10(5) == 100000 && Pow10(4) == 10000;
    DecimalLength(port, 5);
    DecimalLength(keepalive, 4);
  }

  /** The host bound is the largest that is safe for every port: 95 characters with port 65535 overflow. */
  lemma CipstartBoundIsTight(ssl: bool, host: string)
    requires |host| == BUFFERSIZE_CMD - 33
    ensures |CipstartCommand(ssl, host, 65535, 7200)| + 1 > BUFFERSIZE_CMD
  {
    assert |Decimal(65535)| == 5 && |Decimal(7200)| == 4;
  }

  /** AT+CIPSEND for any 8-bit length fits the buffer. */
  lemma CipsendFits(len: u8)
    ensures |CipsendCommand(len)| + 1 <= BUFFERSIZE_CMD
  {
    assert Pow10(3) == 1000;
    DecimalLength(len, 3);
  }

  // ---------------------------------------------------------------------
  // "+IPD" frames.
  // ---------------------------------------------------------------------

  /** A frame as the module delivers it: header, decimal length, ':' and the payload. */
  function Frame(payload: seq<char>): string {
    IPD_HEADER + (Decimal(|payload|) + [':'] + payload)
  }

  /** The received bytes not yet parsed, between the two cursors. */
  function Window(s: EspState): seq<char>
    requires s.front <= s.back <= |s.buf|
  {
    s.buf[s.front..s.back]
  }

  /** The whole frame arrives on an idle engine: the receive starts afresh with the frame unparsed. */
  lemma FrameArrives(s: EspState, payload: seq<char>, now: u32)
    requires StateOk(s) && s.front == s.back
    requires s.back + |Frame(payload)| < BUFFERSIZE_RESPONSE
    requires !s.inProgress || s.owner != ReceiveOwner
    ensures var b := BeginReceive(s, Frame(payload), now);
            && b.pending == [] && b.st.owner == ReceiveOwner && b.st.inProgress
            && b.st.recvState == 1 && b.st.t0 == now && Window(b.st) == Frame(payload)
  {
    assert Taken(s.back, Frame(payload)) == |Frame(payload)|;
  }

  /**
   * In state 1 a complete "+IPD" header is consumed and the length is
   * waited for, unless the receive timer has run out by then.
   */
  lemma HeaderMatches(s: EspState, rest: seq<char>, now: u32)
    requires StateOk(s) && s.recvState == 1
    requires Window(s) == IPD_HEADER + rest
    ensures var r := ReceiveHeader(s, [], now);
            && r.payload == [] && Window(r.st) == rest
            && r.code == (if Expired(TIMEOUT_MS_RECEIVE, now, s.t0) then ERROR else INPROGRESS)
            && r.st == s.(front := s.front + 7, recvState := 2, inProgress := s.inProgress && r.code == INPROGRESS)
  {
    assert s.buf[s.front..s.front + 7] == Window(s)[..7] == IPD_HEADER;
    assert s.buf[s.front + 7..s.back] == Window(s)[7..] == rest;
  }

  /**
   * First call, with the whole frame arriving at once on an idle engine:
   * the header is recognised and consumed; the engine waits for the length.
   */
  lemma ReceiveFrameHeader(s: EspState, payload: seq<char>, max: u8, now: u32)
    requires StateOk(s) && s.front == s.back
    requires s.back + |Frame(payload)| < BUFFERSIZE_RESPONSE
    requires !s.inProgress || s.owner != ReceiveOwner
    ensures var r := Receive(s, Frame(payload), max, now);
            && r.code == INPROGRESS && r.pending == [] && r.payload == []
            && r.st.owner == ReceiveOwner && r.st.inProgress && r.st.recvState == 2 && r.st.t0 == now
            && Window(r.st) == Decimal(|payload|) + [':'] + payload
  {
    FrameArrives(s, payload, now);
    HeaderMatches(BeginReceive(s, Frame(payload), now).st, Decimal(|payload|) + [':'] + payload, now);
    ReceiveInState(s, Frame(payload), max, now);
  }

  /** After the entry of `ESP82_Receive`, the state reached selects the step taken. */
  lemma ReceiveInState(s: EspState, pending: seq<char>, max: u8, now: u32)
    requires StateOk(s)
    requires ResumesPayload(s) ==> s.expectedLength <= max
    ensures var b := BeginReceive(s, pending, now);
            && (b.st.recvState == 1 ==> Receive(s, pending, max, now) == ReceiveHeader(b.st, b.pending, now))
            && (b.st.recvState == 2 ==> Receive(s, pending, max, now) == ReceiveLength(b.st, b.pending, max, now))
            && (b.st.recvState == 3 ==> Receive(s, pending, max, now) == ReceivePayload(b.st, b.pending, max, now))
  {
  }

  /** `memchr` finds the ':' right after the decimal digits. */
  lemma ColonAfterDigits(s: EspState, n: nat, rest: seq<char>)
    requires s.front <= s.back <= |s.buf|
    requires Window(s) == Decimal(n) + [':'] + rest
    ensures s.back - s.front >= 2
    ensures FindChar(s.buf, s.front, s.back - s.front, ':') == Some(s.front + |Decimal(n)|)
  {
    var d := Decimal(n);
    var r := FindChar(s.buf, s.front, s.back - s.front, ':');
    assert s.buf[s.front + |d|] == Window(s)[|d|] == ':';
  }

  /** `atoi` on the digits once the ':' after them is overwritten with NUL. */
  lemma AtoiBeforeColon(buf: seq<char>, from: nat, n: nat)
    requires from + |Decimal(n)| < |buf|
    requires buf[from..from + |Decimal(n)|] == Decimal(n)
    ensures Atoi(buf[from + |Decimal(n)| := NUL][from..]) == n
  {
    var d := Decimal(n);
    var marked := buf[from + |d| := NUL];
    var tail := marked[from + |d|..];
    assert marked[from..from + |d|] == d;
    assert marked[from..] == marked[from..from + |d|] + tail;
    assert tail[0] == NUL;
    AtoiDecimal(n, tail);
  }

  /** A call with nothing new in the FIFO, in the middle of a frame, goes straight to the current state. */
  lemma ResumeReceive(s: EspState, max: u8, now: u32)
    requires StateOk(s) && s.owner == ReceiveOwner && s.inProgress && 2 <= s.recvState
    requires s.recvState == 3 ==> s.expectedLength <= max
    ensures s.recvState == 2 ==> Receive(s, [], max, now) == ReceiveLength(s, [], max, now)
    ensures s.recvState == 3 ==> Receive(s, [], max, now) == ReceivePayload(s, [], max, now)
  {
    assert Fill(s.buf, s.back, []) == s.buf by {
      assert Fill(s.buf, s.back, []) == s.buf[..s.back] + s.buf[s.back..];
    }
    assert BeginReceive(s, [], now) == Step(s, [], INPROGRESS);
  }

  /**
   * Second call, at any time: the length is read back as the decimal
   * number that was sent; a length of 0 or above `max` is refused with
   * ERROR, any other moves on to the payload, which is then all that is
   * left unparsed, and the receive timer alone decides between ERROR and
   * INPROGRESS.
   */
  lemma ReceiveFrameLength(s: EspState, n: nat, rest: seq<char>, max: u8, now: u32)
    requires StateOk(s) && s.owner == ReceiveOwner && s.inProgress && s.recvState == 2
    requires Window(s) == Decimal(n) + [':'] + rest
    ensures var r := Receive(s, [], max, now);
            && r.pending == [] && r.payload == [] && r.st.owner == ReceiveOwner
            && r.st.t0 == s.t0
            && (1 <= n <= max ==>
                  && r.st.recvState == 3 && r.st.expectedLength == n && Window(r.st) == rest
                  && (if Expired(TIMEOUT_MS_RECEIVE, now, s.t0) then r.code == ERROR && !r.st.inProgress
                      else r.code == INPROGRESS && r.st.inProgress))
            && (n == 0 || n > max ==> r.code == ERROR && !r.st.inProgress)
  {
    ResumeReceive(s, max, now);
    LengthAccepted(s, n, rest, max, now);
  }

  /** In state 2 the ':' right after the digits ends the length, which `atoi` reads back. */
  lemma LengthAccepted(s: EspState, n: nat, rest: seq<char>, max: u8, now: u32)
    requires StateOk(s) && s.owner == ReceiveOwner && s.inProgress && s.recvState == 2
    requires Window(s) == Decimal(n) + [':'] + rest
    ensures var r := ReceiveLength(s, [], max, now);
            && r.pending == [] && r.payload == [] && r.st.owner == ReceiveOwner
            && r.st.t0 == s.t0
            && (1 <= n <= max ==>
                  && r.st.recvState == 3 && r.st.expectedLength == n && Window(r.st) == rest
                  && (if Expired(TIMEOUT_MS_RECEIVE, now, s.t0) then r.code == ERROR && !r.st.inProgress
                      else r.code == INPROGRESS && r.st.inProgress))
            && (n == 0 || n > max ==> r.code == ERROR && !r.st.inProgress)
  {
    LengthFrame(s, n, rest);
    LengthAtColon(s, s.front + |Decimal(n)|, n, rest, max, now);
  }

  /** A window `<n>:<rest>` has its ':' found right after the digits, `n` before it and `rest` after it. */
  lemma LengthFrame(s: EspState, n: nat, rest: seq<char>)
    requires StateOk(s)
    requires Window(s) == Decimal(n) + [':'] + rest
    ensures var p := s.front + |Decimal(n)|;
            && s.front <= p < s.back && s.back - s.front >= 2
            && FindChar(s.buf, s.front, s.back - s.front, ':') == Some(p)
            && Atoi(s.buf[p := NUL][s.front..]) == n
            && s.buf[p + 1..s.back] == rest
  {
    assert Decimal(n) + [':'] + rest == Decimal(n) + ([':'] + rest);
    SplitWindow(s.buf, s.front, s.back, Decimal(n), [':'] + rest);
    SplitWindow(s.buf, s.front + |Decimal(n)|, s.back, [':'], rest);
    ColonAfterDigits(s, n, rest);
    AtoiBeforeColon(s.buf, s.front, n);
  }

  /** The ':' found at `p`, with `n` read before it and `rest` after it. */
  lemma LengthAtColon(s: EspState, p: nat, n: nat, rest: seq<char>, max: u8, now: u32)
    requires StateOk(s) && s.owner == ReceiveOwner && s.inProgress && s.recvState == 2
    requires s.front <= p < s.back && s.back - s.front >= 2
    requires FindChar(s.buf, s.front, s.back - s.front, ':') == Some(p)
    requires Atoi(s.buf[p := NUL][s.front..]) == n
    requires s.buf[p + 1..s.back] == rest
    ensures var r := ReceiveLength(s, [], max, now);
            && r.pending == [] && r.payload == [] && r.st.owner == ReceiveOwner
            && r.st.t0 == s.t0
            && (1 <= n <= max ==>
                  && r.st.recvState == 3 && r.st.expectedLength == n && Window(r.st) == rest
                  && (if Expired(TIMEOUT_MS_RECEIVE, now, s.t0) then r.code == ERROR && !r.st.inProgress
                      else r.code == INPROGRESS && r.st.inProgress))
            && (n == 0 || n > max ==> r.code == ERROR && !r.st.inProgress)
  {
    assert ReceiveLength(s, [], max, now) == AcceptLength(s, [], p, max, now);
    assert s.buf[p := NUL][p + 1..s.back] == rest;
  }

  /** A window that is `x` followed by `y` holds `x` at its start and `y` after it. */
  lemma SplitWindow(buf: seq<char>, a: nat, b: nat, x: seq<char>, y: seq<char>)
    requires a <= b <= |buf| && buf[a..b] == x + y
    ensures a + |x| <= b && buf[a..a + |x|] == x && buf[a + |x|..b] == y
  {
    assert buf[a..a + |x|] == (x + y)[..|x|];
    assert buf[a + |x|..b] == (x + y)[|x|..];
  }

  /** Third call: once the announced number of bytes is there, exactly those bytes are handed out. */
  lemma ReceiveFramePayload(s: EspState, max: u8, now: u32)
    requires StateOk(s) && s.owner == ReceiveOwner && s.inProgress && s.recvState == 3
    requires s.expectedLength <= max && s.expectedLength <= s.back - s.front
    ensures var r := Receive(s, [], max, now);
            && r.code == s.expectedLength && r.payload == Window(s)[..s.expectedLength]
            && !r.st.inProgress && r.st.front == s.front + s.expectedLength && r.pending == []
  {
    ResumeReceive(s, max, now);
  }

  /**
   * The frame round trip: a frame that arrives whole on an idle engine is
   * delivered by three calls at `now`, `now2` and `now3`, the payload
   * exactly as sent and its length as the result, provided the length is
   * between 1 and `max` and the receive timer started at `now` has not
   * run out at `now2`; if it has, the second call reports ERROR. A longer
   * or empty payload is refused on the second call.
   */
  lemma ReceiveFrame(s: EspState, payload: seq<char>, max: u8, now: u32, now2: u32, now3: u32)
    requires StateOk(s) && s.front == s.back
    requires s.back + |Frame(payload)| < BUFFERSIZE_RESPONSE
    requires !s.inProgress || s.owner != ReceiveOwner
    ensures var r1 := Receive(s, Frame(payload), max, now);
            var r2 := Receive(r1.st, r1.pending, max, now2);
            && r1.code == INPROGRESS
            && (1 <= |payload| <= max && !Expired(TIMEOUT_MS_RECEIVE, now2, now) ==>
                  r2.code == INPROGRESS &&
                  var r3 := Receive(r2.st, r2.pending, max, now3);
                  r3.code == |payload| && r3.payload == payload && !r3.st.inProgress)
            && (1 <= |payload| <= max && Expired(TIMEOUT_MS_RECEIVE, now2, now) ==>
                  r2.code == ERROR && !r2.st.inProgress)
            && (|payload| == 0 || |payload| > max ==> r2.code == ERROR)
  {
    ReceiveFrameHeader(s, payload, max, now);
    var r1 := Receive(s, Frame(payload), max, now);
    ReceiveFrameRest(r1.st, payload, max, now2, now3);
  }

  /**
   * The second and third calls on `<n>:<payload>`, at `now2` and `now3`:
   * for n between 1 and `max` the payload is delivered whole unless the
   * receive timer has run out at `now2`, in which case the second call
   * reports ERROR; any other length is refused.
   */
  lemma ReceiveFrameRest(s: EspState, payload: seq<char>, max: u8, now2: u32, now3: u32)
    requires StateOk(s) && s.owner == ReceiveOwner && s.inProgress && s.recvState == 2
    requires Window(s) == Decimal(|payload|) + [':'] + payload
    ensures var r2 := Receive(s, [], max, now2);
            && (1 <= |payload| <= max && !Expired(TIMEOUT_MS_RECEIVE, now2, s.t0) ==>
                  r2.code == INPROGRESS &&
                  var r3 := Receive(r2.st, r2.pending, max, now3);
                  r3.code == |payload| && r3.payload == payload && !r3.st.inProgress)
            && (1 <= |payload| <= max && Expired(TIMEOUT_MS_RECEIVE, now2, s.t0) ==>
                  r2.code == ERROR && !r2.st.inProgress)
            && (|payload| == 0 || |payload| > max ==> r2.code == ERROR)
  {
    ReceiveFrameLength(s, |payload|, payload, max, now2);
    if 1 <= |payload| <= max && !Expired(TIMEOUT_MS_RECEIVE, now2, s.t0) {
      ReceiveAcceptedFrame(s, payload, max, now2, now3);
    }
  }

  /**
   * Once a length between 1 and `max` is accepted in time, the next call,
   * whenever it comes, delivers the payload whole.
   */
  lemma ReceiveAcceptedFrame(s: EspState, payload: seq<char>, max: u8, now2: u32, now3: u32)
    requires StateOk(s) && s.owner == ReceiveOwner && s.inProgress && s.recvState == 2
    requires Window(s) == Decimal(|payload|) + [':'] + payload
    requires 1 <= |payload| <= max && !Expired(TIMEOUT_MS_RECEIVE, now2, s.t0)
    ensures var r2 := Receive(s, [], max, now2);
            var r3 := Receive(r2.st, r2.pending, max, now3);
            r3.code == |payload| && r3.payload == payload && !r3.st.inProgress
  {
    ReceiveFrameLength(s, |payload|, payload, max, now2);
    var r2 := Receive(s, [], max, now2);
    assert r2.pending == [] && r2.st.expectedLength == |payload| && Window(r2.st) == payload;
    ReceiveFramePayload(r2.st, max, now3);
    assert Window(r2.st)[..|payload|] == payload;
  }

  // ---------------------------------------------------------------------
  // The 8-bit accumulator cursors of the source.
  // ---------------------------------------------------------------------

  /**
   * The drain as the source writes it: `ESP82_resBufferBack` is a
   * `uint8_t`, so `back += fifo_out(..., 1023 - back)` keeps the sum
   * modulo 256 although up to 1023 bytes may be taken. Returns the new
   * cursor and the number of bytes taken from the FIFO.
   */
  function DrainAsWritten(back: u8, pending: seq<char>): (r: (u8, nat))
    ensures r.1 == Min(BUFFERSIZE_RESPONSE - 1 - back, |pending|)
  {
    var n := Min(BUFFERSIZE_RESPONSE - 1 - back, |pending|);
    ((back + n) % U8, n)
  }

  /**
   * 256 bytes arriving between two polls wrap the cursor all the way
   * round: the FIFO hands over 256 bytes, yet the cursor says none
   * arrived, the terminator lands on the first of them and the parser
   * never sees any of them.
   */
  lemma DrainAsWrittenLosesBytes()
    ensures var r := DrainAsWritten(0, seq(256, _ => 'A'));
            r.1 == 256 && r.0 == 0
  {
  }

  /**
   * The corrected drain (`BeginPoll`, with cursors as wide as the buffer):
   * the bytes between the cursors are the unparsed bytes from before
   * followed by every byte taken from the FIFO, and the NUL comes after them.
   */
  lemma DrainKeepsBytes(s: EspState, pending: seq<char>, now: u32)
    requires StateOk(s)
    ensures var b := BeginPoll(s, pending, now);
            && b.st.buf[s.front..b.st.back] == s.buf[s.front..s.back] + pending[..|pending| - |b.pending|]
            && b.st.buf[b.st.back] == NUL
            && pending == pending[..|pending| - |b.pending|] + b.pending
  {
    var b := BeginPoll(s, pending, now);
    var n := Taken(s.back, pending);
    assert b.st.buf[s.front..s.back] == b.st.buf[..s.back][s.front..];
    assert b.st.buf[s.front..b.st.back] == b.st.buf[s.front..s.back] + b.st.buf[s.back..b.st.back];
  }
}
