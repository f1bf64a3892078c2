/**
 * The driver of Src/ESP8266Client/src/ESP8266Client.c as an object: the
 * response buffer is an array that the driver scans and rewrites in place,
 * and the receive FIFO is a `Fifo.Ring` that the driver drains. Every method
 * is proved to have exactly the effect that the function of the same name in
 * `Esp8266Protocol` states.
 */
module Esp8266Client {
  import opened LibC
  import Fifo
  import opened Esp8266Protocol

  class Engine {
    /** `rxFifo`, filled by the UART idle-line interrupt. */
    const rx: Fifo.Ring
    /** `ESP82_resBuffer`. */
    const buffer: array<char>
    var front: nat
    var back: nat
    var flags: set<Flag>
    var inProgress: bool
    var t0: u32
    var owner: Owner
    var cmd: string
    /** Everything handed to the UART transmitter, in order. */
    var sent: seq<string>
    var execState: nat
    var sendDataState: nat
    var connectState: nat
    var tcpState: nat
    var recvState: nat
    var expectedLength: nat

    ghost function State(): EspState
      reads this, buffer
    {
      EspState(buffer[..], front, back, flags, inProgress, t0, owner, cmd, sent,
               execState, sendDataState, connectState, tcpState, recvState, expectedLength)
    }

    ghost predicate Valid()
      reads this, buffer, rx, rx.data
    {
      rx.Valid() && rx.data != buffer && StateOk(State())
    }

    /** The driver at reset. */
    constructor (fifo: Fifo.Ring)
      requires fifo.Valid()
      ensures Valid() && rx == fifo && fresh(buffer)
      ensures State() == RESET_STATE
    {
      rx := fifo;
      buffer := new char[BUFFERSIZE_RESPONSE](_ => NUL);
      front, back, flags, inProgress, t0 := 0, 0, {}, false, 0;
      owner, cmd, sent := NoOwner, "", [];
      execState, sendDataState, connectState, tcpState, recvState, expectedLength := 0, 0, 0, 0, 0, 0;
    }

    /** `ESP82_Init`: the UART set-up is not modelled; the state machines are reset. */
    method Init()
      modifies this
      ensures State() == old(State()).(inProgress := false)
    {
      inProgress := false;
    }

    /**
     * `fifo_out(&rxFifo, &resBuffer[back], 1024 - 1 - back)` followed by
     * `back += ...`: the drained bytes land at `back` and `back` moves past them.
     */
    method Drain() returns (n: nat)
      requires Valid()
      modifies this`back, buffer, rx
      ensures Valid() && rx.data == old(rx.data)
      ensures n == Taken(old(back), old(rx.Contents))
      ensures var d := DrainFifo(old(State()), old(rx.Contents));
              State() == d.st && rx.Contents == d.pending
    {
      var m := rx.Out(buffer, back, BUFFERSIZE_RESPONSE - 1 - back);
      ghost var filled := Fill(old(buffer[..]), back, old(rx.Contents)[..m]);
      assert buffer[..] == filled by {
        forall j | 0 <= j < BUFFERSIZE_RESPONSE
          ensures buffer[j] == filled[j]
        {
          if back <= j < back + m {
            assert buffer[j] == buffer[back..back + m][j - back];
            assert filled[j] == filled[back..back + m][j - back];
          } else if j < back {
            assert filled[j] == filled[..back][j];
          } else {
            assert filled[j] == filled[back + m..][j - back - m];
          }
        }
      }
      back := back + m;
      n := m;
    }

    /**
     * `ESP82_readLine(resBuffer, &front)`: find the next CR-LF of the
     * NUL-terminated string at `front`, overwrite its CR with NUL, move
     * `front` past the LF and return the line; when there is none,
     * nothing changes.
     */
    method ReadLine() returns (line: Option<string>)
      requires buffer.Length == BUFFERSIZE_RESPONSE && front <= buffer.Length
      modifies this`front, buffer
      ensures FindCrLf(old(buffer[..]), old(front)).None? ==>
                line.None? && front == old(front) && buffer[..] == old(buffer[..])
      ensures FindCrLf(old(buffer[..]), old(front)).Some? ==>
                var k := FindCrLf(old(buffer[..]), old(front)).value;
                && line == Some(old(buffer[front..k]))
                && front == k + 2
                && buffer[..] == old(buffer[..])[k := NUL]
    {
      var i := front;
      while i + 1 < buffer.Length && buffer[i] != NUL && !(buffer[i] == CR && buffer[i + 1] == LF)
        invariant front <= i <= buffer.Length
        invariant FindCrLf(buffer[..], i) == FindCrLf(buffer[..], front)
        decreases buffer.Length - i
      {
        i := i + 1;
      }
      if i + 1 < buffer.Length && buffer[i] == CR && buffer[i + 1] == LF {
        line := Some(buffer[front..i]);
        buffer[i] := NUL;
        front := i + 2;
      } else {
        line := None;
      }
    }

    /**
     * One turn of the `while (lineString = ESP82_readLine(...))` loop of
     * `ESP82_checkResponse`: take a line and OR its event into the flags;
     * `more` is false once there is no line or a waited-for "SEND OK" was taken.
     */
    method ReadEvent(expected: set<Flag>) returns (more: bool)
      requires buffer.Length == BUFFERSIZE_RESPONSE && front <= buffer.Length
      modifies this`front, this`flags, buffer
      ensures front <= buffer.Length
      ensures more ==> old(front) < front
      ensures var sc := ScanLines(old(buffer[..]), old(front), expected);
              more ==> var rest := ScanLines(buffer[..], front, expected);
                       && rest.buf == sc.buf && rest.front == sc.front
                       && flags + Events(rest.lines, expected) == old(flags) + Events(sc.lines, expected)
      ensures var sc := ScanLines(old(buffer[..]), old(front), expected);
              !more ==> buffer[..] == sc.buf && front == sc.front && flags == old(flags) + Events(sc.lines, expected)
    {
      ghost var before := buffer[..];
      ghost var from := front;
      var line := ReadLine();
      if line.None? {
        more := false;
      } else {
        ScanTakesLine(before, from, FindCrLf(before, from).value, expected);
        flags := flags + Classify(line.value, expected);
        more := !StopsScan(line.value, expected);
        if !more {
          assert Events([line.value], expected) == Classify(line.value, expected) + Events([], expected);
        }
      }
    }

    /**
     * The `while (lineString = ESP82_readLine(...))` loop of
     * `ESP82_checkResponse`: OR each line's event into the flags, stopping
     * after a waited-for "SEND OK".
     */
    method ReadLines(expected: set<Flag>)
      requires buffer.Length == BUFFERSIZE_RESPONSE && front <= buffer.Length
      modifies this`front, this`flags, buffer
      ensures var sc := ScanLines(old(buffer[..]), old(front), expected);
              buffer[..] == sc.buf && front == sc.front && flags == old(flags) + Events(sc.lines, expected)
    {
      ghost var target := ScanLines(buffer[..], front, expected);
      var scanning := true;
      while scanning
        invariant front <= buffer.Length
        invariant scanning ==> var sc := ScanLines(buffer[..], front, expected);
                                && target.buf == sc.buf && target.front == sc.front
                                && old(flags) + Events(target.lines, expected) == flags + Events(sc.lines, expected)
        invariant !scanning ==> target.buf == buffer[..] && target.front == front &&
                                flags == old(flags) + Events(target.lines, expected)
        decreases if scanning then buffer.Length - front + 1 else 0
      {
        scanning := ReadEvent(expected);
      }
    }

    /**
     * The export loop of `ESP82_checkResponse`: the first `min(front, max)`
     * bytes with NUL turned back into CR, then a NUL if there is room.
     */
    method CopyResponse(out: array<char>, outMax: nat)
      requires out != buffer && outMax <= out.Length && front <= buffer.Length
      modifies out
      ensures ResponseCopied(out[..], old(out[..]), buffer[..], front, outMax)
    {
      var m := Min(front, outMax);
      var i := 0;
      while i < m
        invariant 0 <= i <= m
        invariant forall j :: 0 <= j < i ==> out[j] == (if buffer[j] == NUL then CR else buffer[j])
        invariant forall j :: i <= j < out.Length ==> out[j] == old(out[j])
      {
        out[i] := if buffer[i] == NUL then CR else buffer[i];
        i := i + 1;
      }
      if m < outMax {
        out[m] := NUL;
      }
    }

    /** The entry of `ESP82_checkResponse`: timer, drain, NUL terminator. */
    method BeginPoll(now: u32)
      requires Valid()
      modifies this`t0, this`back, buffer, rx
      ensures Valid() && rx.data == old(rx.data)
      ensures var b := Esp8266Protocol.BeginPoll(old(State()), old(rx.Contents), now);
              State() == b.st && rx.Contents == b.pending
    {
      if !inProgress {
        t0 := now;  // ESP82_timeoutBegin
      }
      var n := Drain();
      buffer[back] := NUL;
    }

    /** The cursor test or the line scan of `ESP82_checkResponse`. */
    method ParseResponse(expected: set<Flag>)
      requires Valid() && buffer[back] == NUL
      modifies this`front, this`flags, buffer
      ensures Valid()
      ensures State() == Esp8266Protocol.ParseResponse(old(State()), expected)
    {
      if SendBegin in expected && back >= 4 {
        if buffer[back - 4..back] == SEND_BEGIN_STR {
          flags := flags + {SendBegin};
        }
      } else {
        ScanStopsAtNul(buffer[..], front, expected, back);
        ReadLines(expected);
      }
    }

    /**
     * `ESP82_checkResponse(expected, timeout, out, outMax)`: one poll of the
     * response; on SUCCESS the consumed response is also copied to `out`.
     */
    method CheckResponse(expected: set<Flag>, timeout: u16, now: u32, out: array?<char>, outMax: nat) returns (r: int)
      requires Valid()
      requires out != null ==> out != buffer && out != rx.data && outMax <= out.Length
      modifies this`t0, this`back, this`front, this`flags, this`inProgress, buffer, rx, out
      ensures Valid() && rx.data == old(rx.data)
      ensures var p := Esp8266Protocol.CheckResponse(old(State()), old(rx.Contents), expected, timeout, now);
              State() == p.st && rx.Contents == p.pending && r == p.code
      ensures out != null && r == SUCCESS ==> ResponseCopied(out[..], old(out[..]), buffer[..], front, outMax)
      ensures out != null && r != SUCCESS ==> out[..] == old(out[..])
    {
      ghost var b := Esp8266Protocol.BeginPoll(State(), rx.Contents, now);
      BeginPoll(now);
      assert State() == b.st;
      ParseResponse(expected);
      ghost var parsed := State();
      assert parsed == Esp8266Protocol.ParseResponse(b.st, expected);
      var res := Resolve(flags, expected, Expired(timeout, now, t0));
      r := res.code;
      flags := res.flags;
      inProgress := res.inProgress;
      assert State() == Conclude(parsed, rx.Contents, expected, timeout, now).st;
      if r == SUCCESS && out != null {
        CopyResponse(out, outMax);
      }
    }

    /** `ESP82_sendCmd(command, clearBuffers)`: optionally clear the response state, then transmit. */
    method SendCmd(command: string, clearBuffers: bool)
      requires Valid()
      modifies this`front, this`back, this`flags, this`sent
      ensures Valid()
      ensures State() == Esp8266Protocol.SendCmd(old(State()), command, clearBuffers)
    {
      if clearBuffers {
        front, back, flags := 0, 0, {};
      }
      sent := sent + [command];
    }

    /** `ESP82_Delay(delay)`. */
    method Delay(delay: u16, now: u32) returns (r: int)
      requires Valid()
      modifies this`t0, this`inProgress
      ensures Valid()
      ensures var p := Esp8266Protocol.Delay(old(State()), old(rx.Contents), delay, now);
              State() == p.st && r == p.code
    {
      if !inProgress {
        t0 := now;  // ESP82_timeoutBegin
      }
      inProgress := !Expired(delay, now, t0);
      r := if inProgress then INPROGRESS else SUCCESS;
    }

    /** `ESP82_execute(command, expected, timeout, NULL, 0)`. */
    method Execute(command: string, expected: set<Flag>, timeout: u16, now: u32) returns (r: int)
      requires Valid()
      modifies this`t0, this`back, this`front, this`flags, this`inProgress, this`sent, this`execState, buffer, rx
      ensures Valid() && rx.data == old(rx.data)
      ensures var p := Esp8266Protocol.Execute(old(State()), old(rx.Contents), command, expected, timeout, now);
              State() == p.st && rx.Contents == p.pending && r == p.code
    {
      execState := if inProgress then execState else 0;
      if execState == 0 {
        SendCmd(command, true);
        execState := 1;
      }
      r := CheckResponse(expected, timeout, now, null, 0);
    }

    /** `ESP82_sendData(payload, |payload|)`. */
    method SendData(payload: string, now: u32) returns (r: int)
      requires Valid()
      modifies this`t0, this`back, this`front, this`flags, this`inProgress, this`sent, this`sendDataState, buffer, rx
      ensures Valid() && rx.data == old(rx.data)
      ensures var p := Esp8266Protocol.SendData(old(State()), old(rx.Contents), payload, now);
              State() == p.st && rx.Contents == p.pending && r == p.code
    {
      sendDataState := if inProgress then sendDataState else 0;
      if sendDataState == 0 {
        r := CheckResponse({SendBegin}, TIMEOUT_MS_CMD, now, null, 0);
        if r != SUCCESS {
          return;
        }
        SendCmd(payload, true);
        sendDataState := 1;
      }
      r := CheckResponse({SendOk}, TIMEOUT_MS_DATA_SEND, now, null, 0);
    }

    /** `ESP82_Send(data, len)`. */
    method Send(data: string, len: u8, now: u32) returns (r: int)
      requires Valid() && len <= |data|
      modifies this`t0, this`back, this`front, this`flags, this`inProgress, this`sent, this`sendDataState, this`owner, this`cmd, buffer, rx
      ensures Valid() && rx.data == old(rx.data)
      ensures var p := Esp8266Protocol.Send(old(State()), old(rx.Contents), data, len, now);
              State() == p.st && rx.Contents == p.pending && r == p.code
    {
      if !inProgress || owner != SendOwner {
        owner := SendOwner;
        cmd := CipsendCommand(len);
        SendCmd(cmd, true);
      }
      r := SendData(data[..len], now);
    }

    /** `ESP82_ConnectWifi`, state 0: the settle delay after power-up. */
    method ConnectSettle(reset: bool, creds: Option<Credentials>, now: u32) returns (r: int)
      requires Valid()
      modifies this`t0, this`back, this`front, this`flags, this`inProgress, this`sent, this`execState, this`connectState, this`cmd, buffer, rx
      ensures Valid() && rx.data == old(rx.data)
      ensures var p := Esp8266Protocol.ConnectSettle(old(State()), old(rx.Contents), reset, creds, now);
              State() == p.st && rx.Contents == p.pending && r == p.code
    {
      connectState := 0;
      r := Delay(TIMEOUT_MS_RESTART, now);
      if r == SUCCESS {
        r := ConnectRestore(reset, creds, now);
      }
    }

    /** `ESP82_ConnectWifi`, state 1: AT+RESTORE when a reset is asked for. */
    method ConnectRestore(reset: bool, creds: Option<Credentials>, now: u32) returns (r: int)
      requires Valid()
      modifies this`t0, this`back, this`front, this`flags, this`inProgress, this`sent, this`execState, this`connectState, this`cmd, buffer, rx
      ensures Valid() && rx.data == old(rx.data)
      ensures var p := Esp8266Protocol.ConnectRestore(old(State()), old(rx.Contents), reset, creds, now);
              State() == p.st && rx.Contents == p.pending && r == p.code
    {
      connectState := 1;
      if !reset {
        r := ConnectRestoreDelay(reset, creds, now);
      } else {
        r := Execute(RESTORE_CMD, {Ok}, TIMEOUT_MS_CMD, now);
        if r == SUCCESS {
          r := ConnectRestoreDelay(reset, creds, now);
        }
      }
    }

    /** `ESP82_ConnectWifi`, state 2: the delay after AT+RESTORE. */
    method ConnectRestoreDelay(reset: bool, creds: Option<Credentials>, now: u32) returns (r: int)
      requires Valid()
      modifies this`t0, this`back, this`front, this`flags, this`inProgress, this`sent, this`execState, this`connectState, this`cmd, buffer, rx
      ensures Valid() && rx.data == old(rx.data)
      ensures var p := Esp8266Protocol.ConnectRestoreDelay(old(State()), old(rx.Contents), reset, creds, now);
              State() == p.st && rx.Contents == p.pending && r == p.code
    {
      connectState := 2;
      if !reset {
        r := ConnectMode(reset, creds, now);
      } else {
        r := Delay(TIMEOUT_MS_RESTART, now);
        if r == SUCCESS {
          r := ConnectMode(reset, creds, now);
        }
      }
    }

    /** `ESP82_ConnectWifi`, state 3: AT+CWMODE=1; without credentials the sequence ends here. */
    method ConnectMode(reset: bool, creds: Option<Credentials>, now: u32) returns (r: int)
      requires Valid()
      modifies this`t0, this`back, this`front, this`flags, this`inProgress, this`sent, this`execState, this`connectState, this`cmd, buffer, rx
      ensures Valid() && rx.data == old(rx.data)
      ensures var p := Esp8266Protocol.ConnectMode(old(State()), old(rx.Contents), reset, creds, now);
              State() == p.st && rx.Contents == p.pending && r == p.code
    {
      connectState := 3;
      r := Execute(CWMODE_CMD, {Ok}, TIMEOUT_MS_CMD, now);
      if r == SUCCESS && creds.Some? {
        r := ConnectJoinCommand(reset, creds, now);
      }
    }

    /** `ESP82_ConnectWifi`, state 4: build AT+CWJAP if the credentials fit the command buffer. */
    method ConnectJoinCommand(reset: bool, creds: Option<Credentials>, now: u32) returns (r: int)
      requires Valid()
      modifies this`t0, this`back, this`front, this`flags, this`inProgress, this`sent, this`execState, this`connectState, this`cmd, buffer, rx
      ensures Valid() && rx.data == old(rx.data)
      ensures var p := Esp8266Protocol.ConnectJoinCommand(old(State()), old(rx.Contents), reset, creds, now);
              State() == p.st && rx.Contents == p.pending && r == p.code
    {
      connectState := 4;
      if creds.None? || !CredentialsFit(creds.value) {
        r := INPROGRESS;  // `return false;`
      } else {
        cmd := CwjapCommand(creds.value.ssid, creds.value.pass);
        r := ConnectJoin(reset, creds, now);
      }
    }

    /** `ESP82_ConnectWifi`, state 5: AT+CWJAP, waiting for OK, WIFI CONNECTED and WIFI GOT IP. */
    method ConnectJoin(reset: bool, creds: Option<Credentials>, now: u32) returns (r: int)
      requires Valid()
      modifies this`t0, this`back, this`front, this`flags, this`inProgress, this`sent, this`execState, this`connectState, this`cmd, buffer, rx
      ensures Valid() && rx.data == old(rx.data)
      ensures var p := Esp8266Protocol.ConnectJoin(old(State()), old(rx.Contents), reset, creds, now);
              State() == p.st && rx.Contents == p.pending && r == p.code
    {
      connectState := 5;
      r := Execute(cmd, {Ok, WifiConnected, WifiGotIp}, TIMEOUT_MS_AP_CONNECT, now);
    }

    /** `ESP82_ConnectWifi(reset, ssid, pass)`. */
    method ConnectWifi(reset: bool, creds: Option<Credentials>, now: u32) returns (r: int)
      requires Valid()
      modifies this`t0, this`back, this`front, this`flags, this`inProgress, this`sent, this`execState, this`connectState, this`cmd, buffer, rx
      ensures Valid() && rx.data == old(rx.data)
      ensures var p := Esp8266Protocol.ConnectWifi(old(State()), old(rx.Contents), reset, creds, now);
              State() == p.st && rx.Contents == p.pending && r == p.code
    {
      var k := if inProgress then connectState else 0;
      if k == 0 {
        r := ConnectSettle(reset, creds, now);
      } else if k == 1 {
        r := ConnectRestore(reset, creds, now);
      } else if k == 2 {
        r := ConnectRestoreDelay(reset, creds, now);
      } else if k == 3 {
        r := ConnectMode(reset, creds, now);
      } else if k == 4 {
        r := ConnectJoinCommand(reset, creds, now);
      } else {
        r := ConnectJoin(reset, creds, now);
      }
    }

    /** `ESP82_CheckPresence`: the connect sequence without reset and without credentials. */
    method CheckPresence(now: u32) returns (r: int)
      requires Valid()
      modifies this`t0, this`back, this`front, this`flags, this`inProgress, this`sent, this`execState, this`connectState, this`cmd, buffer, rx
      ensures Valid() && rx.data == old(rx.data)
      ensures var p := Esp8266Protocol.ConnectWifi(old(State()), old(rx.Contents), false, None, now);
              State() == p.st && rx.Contents == p.pending && r == p.code
    {
      r := ConnectWifi(false, None, now);
    }

    /** `ESP82_IsConnectedWifi`: AT+CIPSTATUS, waiting for "STATUS:2". */
    method IsConnectedWifi(now: u32) returns (r: int)
      requires Valid()
      modifies this`t0, this`back, this`front, this`flags, this`inProgress, this`sent, this`execState, buffer, rx
      ensures Valid() && rx.data == old(rx.data)
      ensures var p := Esp8266Protocol.Execute(old(State()), old(rx.Contents), CIPSTATUS_CMD, {StatusGotIp}, TIMEOUT_MS_CMD, now);
              State() == p.st && rx.Contents == p.pending && r == p.code
    {
      r := Execute(CIPSTATUS_CMD, {StatusGotIp}, TIMEOUT_MS_CMD, now);
    }

    /** `ESP82_StartTCP`, state 0: check the host length and the keepalive, build AT+CIPSTART. */
    method StartTcpCheck(host: string, port: u16, keepalive: u16, ssl: bool, now: u32) returns (r: int)
      requires Valid()
      modifies this`t0, this`back, this`front, this`flags, this`inProgress, this`sent, this`execState, this`tcpState, this`cmd, buffer, rx
      ensures Valid() && rx.data == old(rx.data)
      ensures var p := Esp8266Protocol.StartTcpCheck(old(State()), old(rx.Contents), host, port, keepalive, ssl, now);
              State() == p.st && rx.Contents == p.pending && r == p.code
    {
      tcpState := 0;
      if !HostFits(host, keepalive) {
        r := INPROGRESS;  // `return false;`
      } else {
        cmd := CipstartCommand(ssl, host, port, keepalive);
        r := StartTcpSsl(host, port, keepalive, ssl, now);
      }
    }

    /** `ESP82_StartTCP`, state 1: AT+CIPSSLSIZE=4096 for an SSL connection. */
    method StartTcpSsl(host: string, port: u16, keepalive: u16, ssl: bool, now: u32) returns (r: int)
      requires Valid()
      modifies this`t0, this`back, this`front, this`flags, this`inProgress, this`sent, this`execState, this`tcpState, buffer, rx
      ensures Valid() && rx.data == old(rx.data)
      ensures var p := Esp8266Protocol.StartTcpSsl(old(State()), old(rx.Contents), host, port, keepalive, ssl, now);
              State() == p.st && rx.Contents == p.pending && r == p.code
    {
      tcpState := 1;
      if !ssl {
        r := StartTcpOpen(host, port, keepalive, ssl, now);
      } else {
        r := Execute(SSLSIZE_CMD, {Ok}, TIMEOUT_MS_CMD, now);
        if r == SUCCESS {
          r := StartTcpOpen(host, port, keepalive, ssl, now);
        }
      }
    }

    /** `ESP82_StartTCP`, state 2: AT+CIPSTART, with the host-connect timeout. */
    method StartTcpOpen(host: string, port: u16, keepalive: u16, ssl: bool, now: u32) returns (r: int)
      requires Valid()
      modifies this`t0, this`back, this`front, this`flags, this`inProgress, this`sent, this`execState, this`tcpState, buffer, rx
      ensures Valid() && rx.data == old(rx.data)
      ensures var p := Esp8266Protocol.StartTcpOpen(old(State()), old(rx.Contents), host, port, keepalive, ssl, now);
              State() == p.st && rx.Contents == p.pending && r == p.code
    {
      tcpState := 2;
      r := Execute(cmd, {Ok}, TIMEOUT_MS_HOST_CONNECT, now);
    }

    /** `ESP82_StartTCP(host, port, keepalive, ssl)`: the `switch` resumes at the saved state. */
    method StartTcp(host: string, port: u16, keepalive: u16, ssl: bool, now: u32) returns (r: int)
      requires Valid()
      modifies this`t0, this`back, this`front, this`flags, this`inProgress, this`sent, this`execState, this`tcpState, this`cmd, buffer, rx
      ensures Valid() && rx.data == old(rx.data)
      ensures var p := Esp8266Protocol.StartTcp(old(State()), old(rx.Contents), host, port, keepalive, ssl, now);
              State() == p.st && rx.Contents == p.pending && r == p.code
    {
      var k := if inProgress then tcpState else 0;
      if k == 0 {
        r := StartTcpCheck(host, port, keepalive, ssl, now);
      } else if k == 1 {
        r := StartTcpSsl(host, port, keepalive, ssl, now);
      } else {
        r := StartTcpOpen(host, port, keepalive, ssl, now);
      }
    }

    /** `ESP82_CloseTCP`: AT+CIPCLOSE, waiting for OK. */
    method CloseTcp(now: u32) returns (r: int)
      requires Valid()
      modifies this`t0, this`back, this`front, this`flags, this`inProgress, this`sent, this`execState, buffer, rx
      ensures Valid() && rx.data == old(rx.data)
      ensures var p := Esp8266Protocol.Execute(old(State()), old(rx.Contents), CIPCLOSE_CMD, {Ok}, TIMEOUT_MS_CMD, now);
              State() == p.st && rx.Contents == p.pending && r == p.code
    {
      r := Execute(CIPCLOSE_CMD, {Ok}, TIMEOUT_MS_CMD, now);
    }

    /** The entry of `ESP82_Receive`: claim the engine, drain the FIFO, start on a fresh call. */
    method BeginReceive(now: u32)
      requires Valid()
      modifies this`owner, this`inProgress, this`t0, this`recvState, this`back, buffer, rx
      ensures Valid() && rx.data == old(rx.data)
      ensures var b := Esp8266Protocol.BeginReceive(old(State()), old(rx.Contents), now);
              State() == b.st && rx.Contents == b.pending
    {
      Claim();
      var n := Drain();
      Start(now);
    }

    /** Taking the engine over for receiving. */
    method Claim()
      requires Valid()
      modifies this`owner, this`inProgress
      ensures Valid() && State() == ClaimReceive(old(State()))
    {
      if owner != ReceiveOwner {
        owner := ReceiveOwner;
        inProgress := false;
      }
    }

    /** A fresh receive starts its timer and waits for the header. */
    method Start(now: u32)
      requires Valid()
      modifies this`t0, this`inProgress, this`recvState
      ensures Valid() && State() == StartReceive(old(State()), now)
    {
      if !inProgress || recvState == 0 {
        t0 := now;  // ESP82_timeoutBegin
        inProgress := true;
        recvState := 1;
      }
    }

    /** The timeout check after the frame parser's `switch`. */
    method ReceiveTimeout(now: u32) returns (r: int)
      requires Valid()
      modifies this`inProgress
      ensures Valid()
      ensures var p := Esp8266Protocol.ReceiveTimeout(old(State()), old(rx.Contents), now);
              State() == p.st && r == p.code
    {
      if Expired(TIMEOUT_MS_RECEIVE, now, t0) {
        inProgress := false;
        r := ERROR;
      } else {
        r := INPROGRESS;
      }
    }

    /** State 1 of `ESP82_Receive`. */
    method ReceiveHeader(now: u32) returns (r: int)
      requires Valid() && recvState == 1
      modifies this`front, this`recvState, this`inProgress
      ensures Valid()
      ensures var p := Esp8266Protocol.ReceiveHeader(old(State()), old(rx.Contents), now);
              State() == p.st && r == p.code
    {
      var avail := back - front;
      if avail >= 7 {
        if buffer[front..front + 7] == IPD_HEADER {
          front := front + 7;
          recvState := 2;
          r := ReceiveTimeout(now);
        } else {
          inProgress := false;
          r := ERROR;
        }
      } else if avail == 0 {
        inProgress := false;
        r := RECEIVE_NOTHING;
      } else {
        r := ReceiveTimeout(now);
      }
    }

    /** State 2 of `ESP82_Receive`. */
    method ReceiveLength(max: u8, now: u32) returns (r: int)
      requires Valid() && recvState == 2
      modifies this`front, this`recvState, this`inProgress, this`expectedLength, buffer
      ensures Valid()
      ensures var p := Esp8266Protocol.ReceiveLength(old(State()), old(rx.Contents), max, now);
              State() == p.st && r == p.code
    {
      ghost var s0, pending := State(), rx.Contents;
      var avail := back - front;
      if avail >= 2 {
        var colon := FindChar(buffer[..], front, avail, ':');
        if colon.Some? {
          assert Esp8266Protocol.ReceiveLength(s0, pending, max, now)
              == Esp8266Protocol.AcceptLength(s0, pending, colon.value, max, now);
          r := AcceptLength(colon.value, max, now);
          return;
        }
      }
      assert Esp8266Protocol.ReceiveLength(s0, pending, max, now) == Esp8266Protocol.ReceiveTimeout(s0, pending, now);
      r := ReceiveTimeout(now);
    }

    /** `*terminatorPosition = '\0'; expectedLength = atoi(&resBuffer[front]);` and the bounds check. */
    method AcceptLength(p: nat, max: u8, now: u32) returns (r: int)
      requires Valid() && recvState == 2 && front <= p < back
      modifies this`front, this`recvState, this`inProgress, this`expectedLength, buffer
      ensures Valid()
      ensures var q := Esp8266Protocol.AcceptLength(old(State()), old(rx.Contents), p, max, now);
              State() == q.st && r == q.code
    {
      buffer[p] := NUL;
      expectedLength := Atoi(buffer[front..]);
      if expectedLength > max || expectedLength == 0 {
        inProgress := false;
        return ERROR;
      }
      front := p + 1;
      recvState := 3;
      r := ReceiveTimeout(now);
    }

    /** State 3 of `ESP82_Receive`: `memcpy(data, &resBuffer[front], expectedLength)`. */
    method ReceivePayload(data: array<char>, max: u8, now: u32) returns (r: int)
      requires Valid() && recvState == 3 && expectedLength <= max <= data.Length
      requires data != buffer && data != rx.data
      modifies this`front, this`inProgress, data
      ensures Valid()
      ensures var p := Esp8266Protocol.ReceivePayload(old(State()), old(rx.Contents), max, now);
              State() == p.st && r == p.code
              && (r > 0 ==> data[..r] == p.payload && data[r..] == old(data[r..]))
      ensures r <= 0 ==> data[..] == old(data[..])
    {
      if back - front >= expectedLength {
        Fifo.MemCopy(data, 0, buffer[..], front, expectedLength);
        assert data[..expectedLength] == buffer[front..front + expectedLength];
        assert data[expectedLength..] == old(data[expectedLength..]);
        front := front + expectedLength;
        inProgress := false;
        r := expectedLength;
      } else {
        r := ReceiveTimeout(now);
      }
    }

    /**
     * `ESP82_Receive(data, max)`: one step of the "+IPD" frame parser; a
     * positive result is the payload length and the payload is in `data`.
     */
    method Receive(data: array<char>, max: u8, now: u32) returns (r: int)
      requires Valid() && data != buffer && data != rx.data && max <= data.Length
      requires ResumesPayload(State()) ==> expectedLength <= max
      modifies this`owner, this`inProgress, this`t0, this`recvState, this`back, this`front, this`expectedLength, buffer, rx, data
      ensures Valid() && rx.data == old(rx.data)
      ensures var p := Esp8266Protocol.Receive(old(State()), old(rx.Contents), max, now);
              State() == p.st && rx.Contents == p.pending && r == p.code
              && (r > 0 ==> data[..r] == p.payload && data[r..] == old(data[r..]))
      ensures r <= 0 ==> data[..] == old(data[..])
    {
      ghost var b := Esp8266Protocol.BeginReceive(State(), rx.Contents, now);
      BeginReceive(now);
      assert State() == b.st;
      if recvState == 1 {
        r := ReceiveHeader(now);
      } else if recvState == 2 {
        r := ReceiveLength(max, now);
      } else {
        r := ReceivePayload(data, max, now);
      }
    }
  }
}
