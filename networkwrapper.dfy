/**
 * The network adapter of Src/ESP8266Client/src/networkwrapper.c, which gives
 * an MQTT client a socket-like `send`/`recv` pair on top of the driver. Its
 * statics become the fields of a `Network` object; the driver is an
 * `Esp8266Client.Engine` that the adapter owns, the clock is the `now`
 * parameter, and the Wi-Fi credentials (a header that is not part of this
 * model) are a constructor parameter.
 */
module NetworkWrapper {
  import opened LibC
  import Fifo
  import opened Esp8266Protocol
  import Esp8266Client

  /** Size of the static `receiveBuffer` of `network_recv`. */
  const RECEIVE_BUFFER: nat := 128

  /** Capacity of `network_host`, terminating NUL included. */
  const HOST_CAPACITY: nat := 32

  /** The last state of the send bootstrap: the socket is open, data flows. */
  const STEADY: nat := 5

  /** A state machine's next state and the value the call returns. */
  datatype Outcome = Outcome(next: nat, ret: int)

  /**
   * How `network_send` moves its state `k` once the driver call of that
   * state returned `code`; `count` is what a successful send reports.
   * State 0 calls no driver function, so its code is the initial SUCCESS.
   */
  function SendTransition(k: nat, code: int, count: nat): (o: Outcome)
    ensures o.next <= STEADY
    ensures k < STEADY && code == SUCCESS ==> o == Outcome(k + 1, 0)
    ensures k == STEADY && code == SUCCESS ==> o == Outcome(STEADY, count)
    ensures 1 <= k <= STEADY && code == ERROR ==> o == Outcome(if k < 4 then 0 else 3, -1)
    ensures 1 <= k <= STEADY ==> (o.ret == -1 <==> code == ERROR)
    ensures 4 <= k <= STEADY ==> o.next >= 3
    ensures k > STEADY ==> o == Outcome(0, 0)
  {
    if k > STEADY then Outcome(0, 0)
    else if code == SUCCESS then
      if k == STEADY then Outcome(STEADY, count) else Outcome(k + 1, 0)
    else if code == ERROR then Outcome(if k < 4 then 0 else 3, -1)
    else Outcome(k, 0)
  }

  /** The driver call that send state `k` makes, as a function of the driver's state. */
  function SendEngine(k: nat, s: EspState, pending: seq<char>, data: string, len: u8,
                      host: string, port: u16, keepalive: u16, ssl: bool,
                      creds: Credentials, now: u32): (r: Step)
    requires StateOk(s) && len <= |data|
    ensures StateOk(r.st) && KeepsReceive(s, r.st)
    ensures k == 0 || k > STEADY ==> r.code == SUCCESS
  {
    if k == 0 then Step(s.(inProgress := false), pending, SUCCESS)
    else if k == 1 then ConnectWifi(s, pending, true, Some(creds), now)
    else if k == 2 then Delay(s, pending, 1000, now)
    else if k == 3 then Execute(s, pending, CIPSTATUS_CMD, {StatusGotIp}, TIMEOUT_MS_CMD, now)
    else if k == 4 then StartTcp(s, pending, host, port, keepalive, ssl, now)
    else if k == STEADY then Send(s, pending, data, len, now)
    else Step(s, pending, SUCCESS)
  }

  /**
   * How many bytes one `network_send` hands to the driver. The driver's
   * length parameter is a `uint8_t`, so at most 255 bytes go per call; the
   * caller sends the rest on its next call.
   */
  function SendLength(bytes: nat): (len: u8)
    ensures len <= bytes
    ensures bytes < U8 ==> len == bytes
    ensures bytes > 0 ==> len > 0
  {
    Min(bytes, U8 - 1)
  }

  /** The length the driver receives as written: `bytes` converted to `uint8_t`. */
  function SendLengthAsWritten(bytes: nat): (len: u8)
    ensures len == bytes % U8
  {
    bytes % U8
  }

  /** As written, a 300-byte packet puts 44 bytes on the wire and reports 300 sent. */
  lemma SendLengthAsWrittenLosesBytes()
    ensures SendLengthAsWritten(300) == 44
    ensures SendTransition(STEADY, SUCCESS, 300).ret == 300
    ensures SendLength(300) == 255 && SendTransition(STEADY, SUCCESS, SendLength(300)).ret == 255
  {
  }

  /** What `network_recv` returns after a driver `ESP82_Receive` result that stages nothing. */
  function RecvCode(code: int): (ret: int)
    ensures ret == -1 <==> code == ERROR
    ensures ret == -2 <==> code == RECEIVE_NOTHING
    ensures ret == 0 <==> code != ERROR && code != RECEIVE_NOTHING
  {
    if code == ERROR then -1 else if code == RECEIVE_NOTHING then -2 else 0
  }

  class Network {
    const esp: Esp8266Client.Engine
    const receiveBuffer: array<char>
    const creds: Credentials
    var host: string
    var port: u16
    var keepalive: u16
    var ssl: bool
    var sendState: nat
    var recvState: nat
    var recvFront: nat
    var recvBack: nat

    ghost predicate Valid()
      reads this, esp, esp.buffer, esp.rx, esp.rx.data, receiveBuffer
    {
      && esp.Valid()
      && receiveBuffer.Length == RECEIVE_BUFFER
      && receiveBuffer != esp.buffer && receiveBuffer != esp.rx.data
      && (esp.recvState == 3 ==> esp.expectedLength <= RECEIVE_BUFFER)
      && |host| < HOST_CAPACITY
      && recvState <= 1
      && recvFront <= recvBack <= RECEIVE_BUFFER
      && (recvState == 1 ==> recvFront < recvBack)
    }

    /** The bytes received from the module and not yet handed to the caller. */
    ghost function Staged(): seq<char>
      reads this, receiveBuffer
      requires recvFront <= recvBack <= receiveBuffer.Length
    {
      receiveBuffer[recvFront..recvBack]
    }

    /** The statics at reset, with the driver's statics at reset too. */
    constructor (fifo: Fifo.Ring, creds: Credentials)
      requires fifo.Valid()
      ensures Valid() && fresh(esp) && fresh(receiveBuffer) && esp.rx == fifo
      ensures esp.State() == RESET_STATE
      ensures this.creds == creds
      ensures host == "10.21.100.103" && port == 1883 && keepalive == 20 && !ssl
      ensures sendState == 0 && recvState == 0 && recvFront == 0 && recvBack == 0
      ensures Staged() == []
    {
      esp := new Esp8266Client.Engine(fifo);
      receiveBuffer := new char[RECEIVE_BUFFER](_ => NUL);
      this.creds := creds;
      host, port, keepalive, ssl := "10.21.100.103", 1883, 20, false;
      sendState, recvState, recvFront, recvBack := 0, 0, 0, 0;
    }

    /** `network_connect`: remember where to connect and restart both state machines. */
    method Connect(host: string, port: u16, keepalive: u16, ssl: bool) returns (r: int)
      requires Valid() && |host| < HOST_CAPACITY
      modifies this`host, this`port, this`keepalive, this`ssl, this`sendState, this`recvState
      ensures Valid() && r == 0
      ensures this.host == host && this.port == port && this.keepalive == keepalive && this.ssl == ssl
      ensures sendState == 0 && recvState == 0
    {
      this.host, this.port, this.keepalive, this.ssl := host, port, keepalive, ssl;
      sendState, recvState := 0, 0;
      r := 0;
    }

    /** The driver call of send state `k`; state 0 is `ESP82_Init`, which cannot fail. */
    method SendEngineCall(k: nat, data: string, len: u8, now: u32) returns (code: int)
      requires esp.Valid() && len <= |data|
      modifies esp, esp.buffer, esp.rx
      ensures esp.Valid() && esp.rx.data == old(esp.rx.data)
      ensures var p := SendEngine(k, old(esp.State()), old(esp.rx.Contents), data, len,
                                  host, port, keepalive, ssl, creds, now);
              esp.State() == p.st && esp.rx.Contents == p.pending && code == p.code
    {
      ghost var s0, pending := esp.State(), esp.rx.Contents;
      code := SUCCESS;
      if k == 0 {
        esp.Init();
      } else if k == 1 {
        code := esp.ConnectWifi(true, Some(creds), now);
      } else if k == 2 {
        code := esp.Delay(1000, now);
      } else if k == 3 {
        code := esp.IsConnectedWifi(now);
      } else if k == 4 {
        code := esp.StartTcp(host, port, keepalive, ssl, now);
      } else if k == STEADY {
        code := esp.Send(data, len, now);
      }
    }

    /**
     * `network_send`: one step of the bootstrap init, join, wait, verify,
     * open socket, then send. The driver call of the current state runs
     * and `SendTransition` decides the next state and the result.
     */
    method Send(data: string, bytes: nat, now: u32) returns (r: int)
      requires Valid() && bytes <= |data|
      modifies this`sendState, esp, esp.buffer, esp.rx
      ensures Valid()
      ensures var len := SendLength(bytes);
              var p := SendEngine(old(sendState), old(esp.State()), old(esp.rx.Contents), data, len,
                                  host, port, keepalive, ssl, creds, now);
              esp.State() == p.st && esp.rx.Contents == p.pending
              && Outcome(sendState, r) == SendTransition(old(sendState), p.code, len)
    {
      var len := SendLength(bytes);
      var code := SendEngineCall(sendState, data, len, now);
      var o := SendTransition(sendState, code, len);
      sendState := o.next;
      r := o.ret;
    }

    /** State 0 of `network_recv`: ask the driver for one packet and stage it in `receiveBuffer`. */
    method RecvStage(now: u32) returns (r: int)
      requires Valid() && recvState == 0
      modifies this`recvState, this`recvFront, this`recvBack, esp, esp.buffer, esp.rx, receiveBuffer
      ensures Valid()
      ensures var p := Esp8266Protocol.Receive(old(esp.State()), old(esp.rx.Contents), RECEIVE_BUFFER, now);
              esp.State() == p.st && esp.rx.Contents == p.pending
              && (p.code > 0 ==> recvState == 1 && r == 0 && recvFront == 0 && recvBack == p.code
                                 && Staged() == p.payload)
              && (p.code <= 0 ==> recvState == 0 && r == RecvCode(p.code)
                                  && recvFront == old(recvFront) && recvBack == old(recvBack))
    {
      ghost var p := Esp8266Protocol.Receive(esp.State(), esp.rx.Contents, RECEIVE_BUFFER, now);
      var code := esp.Receive(receiveBuffer, RECEIVE_BUFFER, now);
      assert esp.State() == p.st && esp.rx.Contents == p.pending && code == p.code;
      if code > 0 {
        recvBack, recvFront, recvState := code, 0, 1;
        r := 0;
      } else {
        r := RecvCode(code);
      }
    }

    /**
     * State 1 of `network_recv`: copy up to `maxbytes` staged bytes to
     * `dest`, in order, and go back to state 0 once the stage is empty.
     */
    method RecvExtract(dest: array<char>, maxbytes: nat) returns (r: int)
      requires Valid() && recvState == 1 && maxbytes <= dest.Length
      requires dest != receiveBuffer && dest != esp.buffer && dest != esp.rx.data
      modifies this`recvState, this`recvFront, dest
      ensures Valid()
      ensures var n := Min(old(recvBack) - old(recvFront), maxbytes);
              r == n && dest[..n] + Staged() == old(Staged())
              && dest[n..] == old(dest[n..])
              && recvFront == old(recvFront) + n && recvBack == old(recvBack)
              && (recvState == 0 <==> Staged() == [])
    {
      var n := Min(recvBack - recvFront, maxbytes);
      ghost var staged := Staged();
      forall i | 0 <= i < n {
        dest[i] := receiveBuffer[recvFront + i];
      }
      assert dest[..n] == staged[..n];
      recvFront := recvFront + n;
      assert Staged() == staged[n..];
      if recvBack == recvFront {
        recvState := 0;
      }
      r := n;
    }

    /** `network_recv`: stage a packet in state 0, hand it out in state 1. */
    method Recv(dest: array<char>, maxbytes: nat, now: u32) returns (r: int)
      requires Valid() && maxbytes <= dest.Length
      requires dest != receiveBuffer && dest != esp.buffer && dest != esp.rx.data
      modifies this`recvState, this`recvFront, this`recvBack, esp, esp.buffer, esp.rx, receiveBuffer, dest
      ensures Valid()
      ensures old(recvState) == 0 ==>
                var p := Esp8266Protocol.Receive(old(esp.State()), old(esp.rx.Contents), RECEIVE_BUFFER, now);
                esp.State() == p.st && esp.rx.Contents == p.pending && dest[..] == old(dest[..])
                && (p.code > 0 ==> recvState == 1 && r == 0 && recvFront == 0 && recvBack == p.code
                                   && Staged() == p.payload)
                && (p.code <= 0 ==> recvState == 0 && r == RecvCode(p.code)
                                    && recvFront == old(recvFront) && recvBack == old(recvBack))
      ensures old(recvState) == 1 ==>
                var n := Min(old(recvBack) - old(recvFront), maxbytes);
                r == n && dest[..n] + Staged() == old(Staged())
                && dest[n..] == old(dest[n..])
                && recvFront == old(recvFront) + n && recvBack == old(recvBack)
                && (recvState == 0 <==> Staged() == [])
                && esp.State() == old(esp.State()) && esp.rx.Contents == old(esp.rx.Contents)
    {
      if recvState == 0 {
        r := RecvStage(now);
      } else {
        r := RecvExtract(dest, maxbytes);
      }
    }
  }

  /** The send state after running the driver calls of `codes` from state `k`. */
  function SendRun(k: nat, codes: seq<int>): (last: nat)
    decreases |codes|
  {
    if |codes| == 0 then k else SendRun(SendTransition(k, codes[0], 0).next, codes[1..])
  }

  /** Without a driver ERROR the bootstrap never loses a step it has made. */
  lemma {:induction false} SendKeepsProgress(k: nat, codes: seq<int>)
    requires k <= STEADY
    requires forall i :: 0 <= i < |codes| ==> codes[i] != ERROR
    ensures k <= SendRun(k, codes) <= STEADY
    decreases |codes|
  {
    if |codes| > 0 {
      SendKeepsProgress(SendTransition(k, codes[0], 0).next, codes[1..]);
    }
  }

  /** `n` successes in a row move the bootstrap `n` states on, up to the steady state. */
  lemma {:induction false} SendSucceeds(k: nat, codes: seq<int>)
    requires k <= STEADY
    requires forall i :: 0 <= i < |codes| ==> codes[i] == SUCCESS
    ensures SendRun(k, codes) == Min(k + |codes|, STEADY)
    decreases |codes|
  {
    if |codes| > 0 {
      SendSucceeds(SendTransition(k, codes[0], 0).next, codes[1..]);
    }
  }
}
