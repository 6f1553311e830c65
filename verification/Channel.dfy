/** paramiko/channel.py: one channel endpoint, its flow-control window and its two receive
    buffers. One method is one lock-protected section of the original.
    The code never inspects the data it carries, so the element type is a parameter. */
module Channels {
  import opened Options

  const MIN_PACKET_SIZE: nat := 0x1000
  const MAX_WINDOW_SIZE: nat := 0xFFFF_FFFF

  /** Transport._sanitize_window_size and _sanitize_packet_size. */
  function Clamp(lo: int, val: int, hi: int): int {
    var v := if val < hi then val else hi;
    if v < lo then lo else v
  }

  datatype Msg<T> =
    | Data(bytes: seq<T>)
    | ExtData(code: nat, bytes: seq<T>)
    | Adjust(n: nat)
    | EofMsg
    | CloseMsg

  /** The fields of a Channel that its locked sections read and write. */
  datatype Chan<T> = Chan(
    active: bool,
    closed: bool,
    eofReceived: bool,
    eofSent: bool,
    outWindow: nat,
    outMax: nat,
    inWindow: nat,
    threshold: nat,
    sofar: nat,
    combine: bool,
    inBuf: seq<T>,
    errBuf: seq<T>,
    bufClosed: bool)

  predicate Open<T>(c: Chan<T>) {
    c.active && !c.closed && !c.eofReceived
  }

  // ---------- locked sections, as functions ----------

  /** _send: an error, a wait for window, zero bytes, or some bytes granted. */
  datatype Grant = SocketClosed | Wait | Granted(size: nat)

  function Min(a: nat, b: nat): nat {
    if a < b then a else b
  }

  function GrantOf<T>(c: Chan<T>, size: nat): Grant
    requires c.outMax >= 64
  {
    if c.closed then SocketClosed
    else if c.eofSent then Granted(0)
    else if c.outWindow == 0 then Wait
    else Granted(Min(Min(size, c.outWindow), c.outMax - 64))
  }

  function Charge<T>(c: Chan<T>, g: Grant): Chan<T>
    requires g.Granted? ==> g.size <= c.outWindow
  {
    if g.Granted? then c.(outWindow := c.outWindow - g.size) else c
  }

  /** BufferedPipe.read as recv and recv_stderr use it; None is a wait or a timeout. */
  function TakeOf<T>(c: Chan<T>, err: bool, n: nat): Option<seq<T>> {
    var b := if err then c.errBuf else c.inBuf;
    if |b| == 0 then (if c.bufClosed then Some([]) else None)
    else Some(b[..Min(n, |b|)])
  }

  function AfterTake<T>(c: Chan<T>, err: bool, n: nat): Chan<T> {
    if err then c.(errBuf := c.errBuf[Min(n, |c.errBuf|)..])
    else c.(inBuf := c.inBuf[Min(n, |c.inBuf|)..])
  }

  /** _check_add_window: how much to give back to the sender now. */
  function AckOf<T>(c: Chan<T>, n: nat): (nat, Chan<T>) {
    if !Open(c) then (0, c)
    else if c.sofar + n <= c.threshold then (0, c.(sofar := c.sofar + n))
    else (c.sofar + n, c.(sofar := 0))
  }

  function Fed<T>(c: Chan<T>, s: seq<T>): Chan<T> {
    c.(inBuf := c.inBuf + s)
  }

  function FedExtended<T>(c: Chan<T>, code: nat, s: seq<T>): Chan<T> {
    if code != 1 then c
    else if c.combine then Fed(c, s)
    else c.(errBuf := c.errBuf + s)
  }

  function Combined<T>(c: Chan<T>, combine: bool): (seq<T>, Chan<T>) {
    if combine && !c.combine then (c.errBuf, c.(combine := true, errBuf := []))
    else ([], c.(combine := combine))
  }

  function EofOf<T>(c: Chan<T>): (seq<Msg<T>>, Chan<T>) {
    if c.eofSent then ([], c) else ([EofMsg], c.(eofSent := true))
  }

  function Closing<T>(c: Chan<T>): (seq<Msg<T>>, Chan<T>) {
    if !c.active || c.closed then ([], c)
    else (EofOf(c).0 + [CloseMsg], EofOf(c).1.(closed := true, bufClosed := true))
  }

  function EofHandled<T>(c: Chan<T>): Chan<T> {
    if c.eofReceived then c else c.(eofReceived := true, bufClosed := true)
  }

  // ---------- the class ----------

  class Channel<T> {
    var active: bool
    var closed: bool
    var eofReceived: bool
    var eofSent: bool
    var outWindowSize: nat
    var outMaxPacketSize: nat
    var inWindowSize: nat
    var inWindowThreshold: nat
    var inWindowSofar: nat
    var combineStderr: bool
    var inBuffer: seq<T>
    var inStderrBuffer: seq<T>
    var buffersClosed: bool

    function State(): Chan<T>
      reads this
    {
      Chan(active, closed, eofReceived, eofSent, outWindowSize, outMaxPacketSize,
           inWindowSize, inWindowThreshold, inWindowSofar, combineStderr,
           inBuffer, inStderrBuffer, buffersClosed)
    }

    constructor ()
      ensures State() == Chan(false, false, false, false, 0, 0, 0, 0, 0, false, [], [], false)
    {
      active, closed, eofReceived, eofSent := false, false, false, false;
      outWindowSize, outMaxPacketSize := 0, 0;
      inWindowSize, inWindowThreshold, inWindowSofar := 0, 0, 0;
      combineStderr, inBuffer, inStderrBuffer, buffersClosed := false, [], [], false;
    }

    /** _set_window and _set_remote_channel, the two halves of the open handshake. */
    method Open(windowSize: nat, remoteWindow: nat, remoteMaxPacket: nat)
      modifies this
      ensures State() == old(State()).(active := true, inWindow := windowSize,
        threshold := windowSize / 10, sofar := 0, outWindow := remoteWindow,
        outMax := Clamp(MIN_PACKET_SIZE, remoteMaxPacket, MAX_WINDOW_SIZE))
      ensures outMaxPacketSize > 64
    {
      inWindowSize := windowSize;
      inWindowThreshold := windowSize / 10;
      inWindowSofar := 0;
      outWindowSize := remoteWindow;
      outMaxPacketSize := Clamp(MIN_PACKET_SIZE, remoteMaxPacket, MAX_WINDOW_SIZE);
      active := true;
    }

    /** The locked part of _send, with _wait_for_send_window inlined; the waiting loop is the
        result Wait, after which the caller tries again or times out. */
    method Reserve(size: nat) returns (g: Grant)
      requires outMaxPacketSize >= 64
      modifies this`outWindowSize
      ensures g == GrantOf(old(State()), size) && State() == Charge(old(State()), g)
      ensures g.SocketClosed? <==> closed
      ensures g.Wait? <==> !closed && !eofSent && old(outWindowSize) == 0
      ensures g.Granted? && eofSent ==> g.size == 0
      ensures g.Granted? ==> g.size <= size && g.size <= old(outWindowSize) && g.size <= outMaxPacketSize - 64
      ensures g.Granted? && !eofSent ==> g.size == size || g.size == old(outWindowSize) || g.size == outMaxPacketSize - 64
      ensures outWindowSize == old(outWindowSize) - if g.Granted? then g.size else 0
    {
      if closed {
        return SocketClosed;
      }
      if eofSent {
        return Granted(0);
      }
      if outWindowSize == 0 {
        return Wait;
      }
      var n := size;
      if outWindowSize < n {
        n := outWindowSize;
      }
      if outMaxPacketSize - 64 < n {
        n := outMaxPacketSize - 64;
      }
      outWindowSize := outWindowSize - n;
      return Granted(n);
    }

    /** The buffer read of recv (err = false) and recv_stderr (err = true). */
    method TakeBytes(err: bool, nbytes: nat) returns (r: Option<seq<T>>)
      modifies this`inBuffer, this`inStderrBuffer
      ensures r == TakeOf(old(State()), err, nbytes)
      ensures State() == if r.Some? then AfterTake(old(State()), err, nbytes) else old(State())
      ensures r.None? <==> old(if err then inStderrBuffer else inBuffer) == [] && !buffersClosed
      ensures r.Some? ==> r.value + (if err then inStderrBuffer else inBuffer) == old(if err then inStderrBuffer else inBuffer)
      ensures r.Some? ==> |r.value| <= nbytes && (|r.value| == nbytes || (if err then inStderrBuffer else inBuffer) == [])
      ensures if err then inBuffer == old(inBuffer) else inStderrBuffer == old(inStderrBuffer)
    {
      var b := if err then inStderrBuffer else inBuffer;
      if |b| == 0 {
        return if buffersClosed then Some([]) else None;
      }
      var n := Min(nbytes, |b|);
      if err {
        inStderrBuffer := b[n..];
      } else {
        inBuffer := b[n..];
      }
      return Some(b[..n]);
    }

    method CheckAddWindow(n: nat) returns (ack: nat)
      modifies this`inWindowSofar
      ensures (ack, State()) == AckOf(old(State()), n)
      ensures closed || eofReceived || !active ==> ack == 0 && inWindowSofar == old(inWindowSofar)
      ensures !closed && !eofReceived && active ==> ack + inWindowSofar == old(inWindowSofar) + n
      ensures !closed && !eofReceived && active ==> (ack > 0 <==> old(inWindowSofar) + n > inWindowThreshold)
      ensures ack > 0 ==> inWindowSofar == 0
    {
      if closed || eofReceived || !active {
        return 0;
      }
      inWindowSofar := inWindowSofar + n;
      if inWindowSofar <= inWindowThreshold {
        return 0;
      }
      ack := inWindowSofar;
      inWindowSofar := 0;
    }

    method Feed(s: seq<T>)
      modifies this`inBuffer
      ensures State() == Fed(old(State()), s)
    {
      inBuffer := inBuffer + s;
    }

    method FeedExtended(code: nat, s: seq<T>)
      modifies this`inBuffer, this`inStderrBuffer
      ensures State() == FedExtended(old(State()), code, s)
      ensures inStderrBuffer == old(inStderrBuffer) + if code == 1 && !combineStderr then s else []
      ensures inBuffer == old(inBuffer) + if code == 1 && combineStderr then s else []
    {
      if code != 1 {
        return;
      }
      if combineStderr {
        Feed(s);
      } else {
        inStderrBuffer := inStderrBuffer + s;
      }
    }

    method WindowAdjust(nbytes: nat)
      modifies this`outWindowSize
      ensures State() == old(State()).(outWindow := old(outWindowSize) + nbytes)
    {
      outWindowSize := outWindowSize + nbytes;
    }

    /** The locked part of set_combine_stderr; the caller then feeds the returned data. */
    method SetCombineStderr(combine: bool) returns (data: seq<T>)
      modifies this`combineStderr, this`inStderrBuffer
      ensures (data, State()) == Combined(old(State()), combine)
      ensures combineStderr == combine && data + inStderrBuffer == old(inStderrBuffer)
      ensures if combine && !old(combineStderr) then inStderrBuffer == [] else data == []
    {
      var was := combineStderr;
      combineStderr := combine;
      data := [];
      if combine && !was {
        data := inStderrBuffer;
        inStderrBuffer := [];
      }
    }

    method SendEof() returns (msgs: seq<Msg<T>>)
      modifies this`eofSent
      ensures (msgs, State()) == EofOf(old(State()))
      ensures eofSent && msgs == if old(eofSent) then [] else [EofMsg]
    {
      if eofSent {
        return [];
      }
      eofSent := true;
      return [EofMsg];
    }

    method CloseInternal() returns (msgs: seq<Msg<T>>)
      modifies this`eofSent, this`closed, this`buffersClosed
      ensures (msgs, State()) == Closing(old(State()))
      ensures old(!active || closed) ==> msgs == []
      ensures old(active && !closed) ==>
        closed && eofSent && buffersClosed && msgs == if old(eofSent) then [CloseMsg] else [EofMsg, CloseMsg]
    {
      if !active || closed {
        return [];
      }
      msgs := SendEof();
      closed := true;
      buffersClosed := true;
      msgs := msgs + [CloseMsg];
    }

    method HandleEof()
      modifies this`eofReceived, this`buffersClosed
      ensures State() == EofHandled(old(State()))
      ensures eofReceived && (buffersClosed == old(buffersClosed || !eofReceived))
      ensures inBuffer == old(inBuffer) && inStderrBuffer == old(inStderrBuffer)
    {
      if !eofReceived {
        eofReceived := true;
        buffersClosed := true;
      }
    }
  }
}
