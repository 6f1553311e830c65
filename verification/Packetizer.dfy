/** paramiko/packet.py: the Packetizer, between a socket that delivers and accepts bytes in pieces
    and the transport. */
module Packetizers {
  import opened Bytes
  import opened Packets
  import opened Options
  import opened KeyLifetime

  /** Bytes read, the end of the stream, a pending rekey, or, for a whole packet, an SSHException. */
  datatype ReadResult = Got(data: seq<byte>) | Eof | NeedRekey | Mangled

  datatype MessageResult = Message(payload: seq<byte>) | NoMessage | RekeyNeeded | Failed

  class Packetizer {
    var outbound: Dir
    var inbound: Dir
    var counters: Counters
    var initialKexDone: bool
    var closed: bool
    /** Bytes over-read with the banner, bytes the socket will deliver, bytes it has accepted. */
    var remainder: seq<byte>
    var incoming: seq<byte>
    var written: seq<byte>
    /** How many more times the socket will time out. */
    var timeouts: nat

    ghost predicate Valid()
      reads this
    {
      ValidDir(outbound) && ValidDir(inbound) && counters.initCount <= 2
    }

    /** Everything still to be read. */
    ghost function Stream(): seq<byte>
      reads this
    {
      remainder + incoming
    }

    constructor (remainder: seq<byte>, incoming: seq<byte>, timeouts: nat)
      ensures Valid() && Stream() == remainder + incoming && written == []
      ensures counters == NEW_COUNTERS && !initialKexDone && !closed
      ensures outbound == inbound == Dir(Clear, [], 0, [], Option.None, [])
    {
      outbound := Dir(Clear, [], 0, [], Option.None, []);
      inbound := Dir(Clear, [], 0, [], Option.None, []);
      counters, initialKexDone, closed := NEW_COUNTERS, false, false;
      this.remainder, this.incoming, written, this.timeouts := remainder, incoming, [], timeouts;
    }

    /** One socket.recv: some bytes, nothing at the end of the stream, or a timeout. */
    method Recv(n: nat) returns (data: seq<byte>, timeout: bool)
      requires n > 0
      modifies this`incoming, this`timeouts
      ensures timeout ==> incoming == old(incoming) && timeouts < old(timeouts)
      ensures !timeout ==> data + incoming == old(incoming) && |data| <= n && timeouts == old(timeouts)
      ensures !timeout ==> (data == [] <==> old(incoming) == [])
    {
      if timeouts > 0 {
        var late: bool :| true;
        if late {
          timeouts := timeouts - 1;
          return [], true;
        }
      }
      if |incoming| == 0 {
        return [], false;
      }
      var k: nat :| 1 <= k <= |incoming| && k <= n;
      data, timeout := incoming[..k], false;
      incoming := incoming[k..];
    }

    /** read_all: exactly the next n bytes, in however many pieces they come; and when it stops for
        a rekey, it has not taken any. */
    method ReadAll(n0: nat, checkRekey: bool) returns (r: ReadResult)
      modifies this`remainder, this`incoming, this`timeouts
      ensures !r.Mangled?
      ensures r.Got? ==> |r.data| == n0 && old(Stream()) == r.data + Stream()
      ensures r.NeedRekey? ==> checkRekey && counters.needRekey && Stream() == old(Stream())
      ensures r.Eof? ==> closed || |old(Stream())| < n0
    {
      var n: int := n0;
      var out := [];
      if |remainder| > 0 {
        var k := if n < |remainder| then n else |remainder|;
        out := remainder[..k];
        remainder := remainder[k..];
        n := n - |out|;
      }
      while n > 0
        invariant n >= 0 && |out| + n == n0
        invariant out + Stream() == old(Stream())
        invariant n > 0 ==> remainder == []
        decreases n, timeouts
      {
        var x, timeout := Recv(n);
        if !timeout {
          if |x| == 0 {
            return Eof;
          }
          out := out + x;
          n := n - |x|;
        } else {
          if closed {
            return Eof;
          }
          if checkRekey && |out| == 0 && counters.needRekey {
            return NeedRekey;
          }
        }
      }
      r := Got(out);
    }

    /** write_all: all the bytes in order, or a failure after some of them. */
    method WriteAll(data: seq<byte>) returns (ok: bool)
      modifies this`written, this`timeouts
      ensures ok ==> written == old(written) + data
      ensures !ok ==> old(written) <= written <= old(written) + data
    {
      var out := data;
      var zeros := 0;
      while |out| > 0
        invariant written + out == old(written) + data && old(written) <= written
        invariant zeros >= 0
        decreases |out|, timeouts, 11 - zeros
      {
        if timeouts > 0 {
          var late: bool :| true;
          if late {
            timeouts := timeouts - 1;
            if closed {
              return false;
            }
            continue;
          }
        }
        var n: nat :| n <= |out|;
        if n == 0 && zeros > 10 {
          return false;
        }
        zeros := zeros + 1;
        written := written + out[..n];
        out := out[n..];
      }
      ok := true;
    }

    /** _build_packet chooses the padding bytes: zeros, or random ones. */
    method MakePadding(len: nat) returns (pad: seq<byte>)
      requires Valid()
      ensures |pad| == Padding(outbound.suite, len) && |pad| < 256
    {
      PaddingAligns(outbound.suite, len);
      var n := Padding(outbound.suite, len);
      var zero: bool :| true;
      if zero {
        return Repeat(0, n);
      }
      pad := Repeat(0, n);
      for i := 0 to n
        invariant |pad| == n
      {
        var b: byte :| true;
        pad := pad[i := b];
      }
    }

    /** send_message writes the packet that Send describes and keeps the direction and the counters
        up to date; it fails, and the connection with it, where Send has no result. */
    method SendMessage(payload: seq<byte>) returns (ok: bool, ghost pad: seq<byte>)
      requires Valid() && payload != []
      modifies this`outbound, this`counters, this`written, this`timeouts
      ensures Valid()
      ensures ok ==> |pad| < 256 && Padded(old(outbound), payload, pad)
      ensures ok ==> Send(old(outbound), payload, pad, initialKexDone).Some?
      ensures ok ==> var (wire, next) := Send(old(outbound), payload, pad, initialKexDone).value;
        written == old(written) + wire && outbound == next && counters == Sent(old(counters), |wire|)
      ensures ok ==> var n := |written| - |old(written)|; var was := old(counters);
        && counters.sentBytes == was.sentBytes + n && counters.sentPackets == was.sentPackets + 1
        && (counters.needRekey
            <==> was.needRekey || was.sentPackets + 1 >= 0x2000_0000 || was.sentBytes + n >= 0x2000_0000)
        && (counters.needRekey && !was.needRekey ==> counters.bytesOverflow == counters.packetsOverflow == 0)
        && (counters.needRekey == was.needRekey ==>
            counters.bytesOverflow == was.bytesOverflow && counters.packetsOverflow == was.packetsOverflow)
        && counters.receivedBytes == was.receivedBytes && counters.receivedPackets == was.receivedPackets
        && counters.initCount == was.initCount
      ensures !ok ==> counters == old(counters)
    {
      hide Lawful, LawfulCompressor, Wire;
      var data := Deflated(outbound, payload);
      var padding := MakePadding(|data|);
      pad := padding;
      if Length(data, padding) >= SEQ_LIMIT {
        return false, pad;
      }
      var length, body := ToBE(Length(data, padding), 4), Body(data, padding);
      var next := After(outbound, payload, length, body, initialKexDone);
      if next.None? {
        return false, pad;
      }
      var wire := Wire(outbound, length, body);
      outbound := next.value;
      ok := WriteAll(wire);
      if ok {
        counters := Sent(counters, |wire|);
      }
    }

    method SetOutboundCipher(suite: Suite, iv: seq<byte>)
      requires Valid() && ValidSwitch(suite, iv)
      modifies this`outbound, this`counters
      ensures Valid() && outbound == Rekeyed(old(outbound), suite, iv, false)
      ensures counters == SwitchOut(old(counters))
    {
      outbound := outbound.(suite := suite, iv := iv, history := []);
      counters := SwitchOut(counters);
    }

    method SetInboundCipher(suite: Suite, iv: seq<byte>)
      requires Valid() && ValidSwitch(suite, iv)
      modifies this`inbound, this`counters
      ensures Valid() && inbound == Rekeyed(old(inbound), suite, iv, false)
      ensures counters == SwitchIn(old(counters))
    {
      inbound := inbound.(suite := suite, iv := iv, history := []);
      counters := SwitchIn(counters);
    }

    method ResetSeqnoOut()
      requires Valid()
      modifies this`outbound
      ensures Valid() && outbound == old(outbound).(seqno := 0)
    {
      outbound := outbound.(seqno := 0);
    }

    method ResetSeqnoIn()
      requires Valid()
      modifies this`inbound
      ensures Valid() && inbound == old(inbound).(seqno := 0)
    {
      inbound := inbound.(seqno := 0);
    }

    /** The bytes of one packet, read from the socket and authenticated: the packet without its length
        field, the length, and the cipher state after it. */
    method ReadPacket() returns (r: ReadResult, size: nat, history: seq<byte>, iv: seq<byte>)
      requires Valid()
      modifies this`remainder, this`incoming, this`timeouts
      ensures r.NeedRekey? ==> Stream() == old(Stream())
      ensures r.Got? ==> size == PacketSize(inbound, old(Stream()))
      ensures r.Got? ==> Parse(inbound, initialKexDone, old(Stream()))
                         == Finish(inbound, initialKexDone, size, r.data, history, iv, Stream())
      ensures r.Eof? ==> closed || Parse(inbound, initialKexDone, old(Stream())).Short?
      ensures r.Mangled? ==> Parse(inbound, initialKexDone, old(Stream())).Bad?
    {
      hide ParseClear, ParseMac, ParseEtm, ParseAead, Finish, PacketSize;
      match inbound.suite {
        case Clear => r, size, history, iv := ReadClear();
        case MacThenSend(_, _, _, _, etm) =>
          if etm {
            r, size, history, iv := ReadEtm();
          } else {
            r, size, history, iv := ReadMac();
          }
        case Aead(_, _, _) => r, size, history, iv := ReadAead();
      }
    }

    method ReadClear() returns (r: ReadResult, size: nat, history: seq<byte>, iv: seq<byte>)
      requires Valid() && inbound.suite.Clear?
      modifies this`remainder, this`incoming, this`timeouts
      ensures r.NeedRekey? ==> Stream() == old(Stream())
      ensures r.Got? ==> size == PacketSize(inbound, old(Stream()))
      ensures r.Got? ==> ParseClear(inbound, initialKexDone, old(Stream()))
                         == Finish(inbound, initialKexDone, size, r.data, history, iv, Stream())
      ensures r.Eof? ==> closed || ParseClear(inbound, initialKexDone, old(Stream())).Short?
      ensures r.Mangled? ==> ParseClear(inbound, initialKexDone, old(Stream())).Bad?
    {
      hide Finish, BE, ParseClear, PacketSize;
      size, history, iv := 0, inbound.history, inbound.iv;
      ClearTooShort(inbound, initialKexDone, Stream());
      var h := ReadAll(8, true);
      if !h.Got? {
        return h, size, history, iv;
      }
      size := BE(h.data[..4]);
      ClearTooShort(inbound, initialKexDone, h.data + Stream());
      SizeInFirst(inbound, h.data, Stream());
      ClearFirst(inbound, initialKexDone, h.data, Stream(), size);
      if (size - 4) % 8 != 0 {
        return Mangled, size, history, iv;
      }
      BlockedSize(size, 8);
      var buf := ReadAll(size - 4, false);
      if !buf.Got? {
        return Eof, size, history, iv;
      }
      ClearParse(inbound, initialKexDone, h.data, buf.data, Stream(), size);
      r := Got(h.data[4..] + buf.data);
    }

    method ReadMac() returns (r: ReadResult, size: nat, history: seq<byte>, iv: seq<byte>)
      requires Valid() && inbound.suite.MacThenSend? && !inbound.suite.etm
      modifies this`remainder, this`incoming, this`timeouts
      ensures r.NeedRekey? ==> Stream() == old(Stream())
      ensures r.Got? ==> size == PacketSize(inbound, old(Stream()))
      ensures r.Got? ==> ParseMac(inbound, initialKexDone, old(Stream()))
                         == Finish(inbound, initialKexDone, size, r.data, history, iv, Stream())
      ensures r.Eof? ==> closed || ParseMac(inbound, initialKexDone, old(Stream())).Short?
      ensures r.Mangled? ==> ParseMac(inbound, initialKexDone, old(Stream())).Bad?
    {
      var c, bs, macSize := inbound.suite.cipher, inbound.suite.blockSize, inbound.suite.macSize;
      assert 8 <= bs <= 252;
      hide Finish, BE, Lawful, ParseMac, PacketSize;
      size, history, iv := 0, inbound.history, inbound.iv;
      MacTooShort(inbound, initialKexDone, Stream());
      var h := ReadAll(bs, true);
      if !h.Got? {
        return h, size, history, iv;
      }
      var header := c.dec(inbound.history, h.data);
      HeaderSize(inbound.suite, inbound.history, h.data);
      size := BE(header[..4]);
      var leftover := header[4..];
      SizeInFirst(inbound, h.data, Stream());
      MacFirst(inbound, initialKexDone, h.data, Stream(), header, size);
      if (size - |leftover|) % bs != 0 {
        return Mangled, size, history, iv;
      }
      BlockedSize(size, bs);
      BE4Bound(header[..4]);
      var buf := ReadAll(size + macSize - |leftover|, false);
      if !buf.Got? {
        return Eof, size, history, iv;
      }
      var n := size - |leftover|;
      var body := c.dec(inbound.history + header, buf.data[..n]);
      var packet := leftover + body;
      Regroup(buf.data, n, Stream());
      MacParse(inbound, initialKexDone, h.data, buf.data[..n], buf.data[n..], Stream(), header, body, size);
      if inbound.suite.mac(ToBE(inbound.seqno, 4) + (ToBE(size, 4) + packet)) != buf.data[n..] {
        return Mangled, size, history, iv;
      }
      history := inbound.history + header + body;
      r := Got(packet);
    }

    method ReadEtm() returns (r: ReadResult, size: nat, history: seq<byte>, iv: seq<byte>)
      requires Valid() && inbound.suite.MacThenSend? && inbound.suite.etm
      modifies this`remainder, this`incoming, this`timeouts
      ensures r.NeedRekey? ==> Stream() == old(Stream())
      ensures r.Got? ==> size == PacketSize(inbound, old(Stream()))
      ensures r.Got? ==> ParseEtm(inbound, initialKexDone, old(Stream()))
                         == Finish(inbound, initialKexDone, size, r.data, history, iv, Stream())
      ensures r.Eof? ==> closed || ParseEtm(inbound, initialKexDone, old(Stream())).Short?
      ensures r.Mangled? ==> ParseEtm(inbound, initialKexDone, old(Stream())).Bad?
    {
      var c, bs := inbound.suite.cipher, inbound.suite.blockSize;
      assert 8 <= bs <= 252;
      hide Finish, BE, Lawful, ParseEtm, PacketSize;
      size, history, iv := 0, inbound.history, inbound.iv;
      EtmTooShort(inbound, initialKexDone, Stream());
      var h := ReadAll(bs, true);
      if !h.Got? {
        return h, size, history, iv;
      }
      size := BE(h.data[..4]);
      SizeInFirst(inbound, h.data, Stream());
      EtmFirst(inbound, initialKexDone, h.data, Stream(), size);
      var more := ReadAll(Max0(size - bs + 4), false);
      if !more.Got? {
        return Eof, size, history, iv;
      }
      var tag := ReadAll(inbound.suite.macSize, false);
      if !tag.Got? {
        return Eof, size, history, iv;
      }
      EtmParse(inbound, initialKexDone, h.data, more.data, tag.data, Stream(), size);
      var packet := h.data[4..] + more.data;
      if inbound.suite.mac(ToBE(inbound.seqno, 4) + (h.data[..4] + packet)) != tag.data {
        return Mangled, size, history, iv;
      }
      var plain := c.dec(inbound.history, packet);
      history := inbound.history + plain;
      r := Got(plain);
    }

    method ReadAead() returns (r: ReadResult, size: nat, history: seq<byte>, iv: seq<byte>)
      requires Valid() && inbound.suite.Aead?
      modifies this`remainder, this`incoming, this`timeouts
      ensures r.NeedRekey? ==> Stream() == old(Stream())
      ensures r.Got? ==> size == PacketSize(inbound, old(Stream()))
      ensures r.Got? ==> ParseAead(inbound, initialKexDone, old(Stream()))
                         == Finish(inbound, initialKexDone, size, r.data, history, iv, Stream())
      ensures r.Eof? ==> closed || ParseAead(inbound, initialKexDone, old(Stream())).Short?
      ensures r.Mangled? ==> ParseAead(inbound, initialKexDone, old(Stream())).Bad?
    {
      var bs := inbound.suite.blockSize;
      assert 8 <= bs <= 252;
      hide Finish, BE, Lawful, ParseAead, IncIv, PacketSize;
      size, history, iv := 0, inbound.history, inbound.iv;
      AeadTooShort(inbound, initialKexDone, Stream());
      var h := ReadAll(bs, true);
      if !h.Got? {
        return h, size, history, iv;
      }
      size := BE(h.data[..4]);
      SizeInFirst(inbound, h.data, Stream());
      AeadFirst(inbound, initialKexDone, h.data, Stream(), size);
      var more := ReadAll(Max0(size - bs + 4 + TAG_SIZE), false);
      if !more.Got? {
        return Eof, size, history, iv;
      }
      AeadParse(inbound, initialKexDone, h.data, more.data, Stream(), size);
      var packet := inbound.suite.open(inbound.iv, h.data[4..] + more.data, h.data[..4]);
      var next := IncIv(inbound.iv);
      if packet.None? || next.None? {
        return Mangled, size, history, iv;
      }
      iv := next.value;
      r := Got(packet.value);
    }

    /** read_message reads what Parse reads, however the socket splits the bytes, and keeps the
        direction and the counters up to date. A rekey request leaves all of it untouched. */
    method ReadMessage() returns (r: MessageResult)
      requires Valid()
      modifies this`inbound, this`counters, this`remainder, this`incoming, this`timeouts
      ensures Valid()
      ensures r.Message? ==>
        Parse(old(inbound), initialKexDone, old(Stream())) == Good(r.payload, Stream(), inbound)
      ensures r.Message? ==>
        Received(old(counters), PacketSize(old(inbound), old(Stream())) + MacSize(old(inbound).suite) + 4) == Some(counters)
      ensures r.Message? ==>
        ReceivedOne(old(counters), PacketSize(old(inbound), old(Stream())) + MacSize(old(inbound).suite) + 4, counters)
      ensures r.Failed? ==>
        counters == old(counters)
        && OverLimit(counters, PacketSize(old(inbound), old(Stream())) + MacSize(old(inbound).suite) + 4)
      ensures r.RekeyNeeded? ==>
        Stream() == old(Stream()) && inbound == old(inbound) && counters == old(counters)
      ensures r.NoMessage? ==> closed || !Parse(old(inbound), initialKexDone, old(Stream())).Good?
      ensures r.Failed? ==> Parse(old(inbound), initialKexDone, old(Stream())).Good?
    {
      hide Parse, PacketSize, MacSize, Finish, Lawful, LawfulCompressor, Received, ReceivedOne, OverLimit;
      ghost var stream := Stream();
      assert BlockSize(inbound.suite) >= 4 by { LargeBlocks(inbound.suite); }
      var packet, size, history, iv := ReadPacket();
      if packet.NeedRekey? {
        return RekeyNeeded;
      }
      if !packet.Got? {
        return NoMessage;
      }
      ghost var rest := Stream();
      var p := Finish(inbound, initialKexDone, size, packet.data, history, iv, []);
      FinishRest(inbound, initialKexDone, size, packet.data, history, iv, [], rest);
      if !p.Good? {
        return NoMessage;
      }
      var raw := size + MacSize(inbound.suite) + 4;
      var c := Received(counters, raw);
      ReceivedMeans(counters, raw);
      if c.None? {
        return Failed;
      }
      ParseKeepsValid(inbound, initialKexDone, stream);
      inbound := p.next;
      counters := c.value;
      r := Message(p.payload);
    }
  }

  /** The length field of the packet at the front of the stream, decrypted where it is encrypted. */
  function PacketSize(d: Dir, s: seq<byte>): nat {
    var bs := BlockSize(d.suite);
    if |s| < bs || bs < 4 then 0
    else if d.suite.MacThenSend? && !d.suite.etm then
      var header := d.suite.cipher.dec(d.history, s[..bs]);
      if |header| < 4 then 0 else BE(header[..4])
    else BE(s[..4])
  }

  lemma SizeInFirst(d: Dir, a: seq<byte>, rest: seq<byte>)
    requires |a| == BlockSize(d.suite) >= 4
    ensures d.suite.MacThenSend? && !d.suite.etm && |d.suite.cipher.dec(d.history, a)| >= 4 ==>
      PacketSize(d, a + rest) == BE(d.suite.cipher.dec(d.history, a)[..4])
    ensures !(d.suite.MacThenSend? && !d.suite.etm) ==> PacketSize(d, a + rest) == BE(a[..4])
  {
    FirstBytes(a, rest);
    hide BE;
  }

  function MacSize(s: Suite): nat {
    match s
    case Clear => 0
    case MacThenSend(_, _, _, n, _) => n
    case Aead(_, _, _) => TAG_SIZE
  }

  lemma LargeBlocks(s: Suite)
    requires Lawful(s)
    ensures BlockSize(s) >= 4
  {
  }

  lemma FinishRest(d: Dir, done: bool, size: nat, packet: seq<byte>, history: seq<byte>, iv: seq<byte>,
                   rest: seq<byte>, rest': seq<byte>)
    ensures var p, q := Finish(d, done, size, packet, history, iv, rest),
                        Finish(d, done, size, packet, history, iv, rest');
      p.Good? == q.Good? && (p.Good? ==> q == Good(p.payload, rest', p.next))
    ensures var p := Finish(d, done, size, packet, history, iv, rest);
      p.Good? ==> p.next.suite == d.suite && p.next.iv == iv && p.next.seqno < SEQ_LIMIT
                  && p.next.compressor == d.compressor
  {
  }

  lemma FirstBytes(a: seq<byte>, rest: seq<byte>)
    requires |a| >= 4
    ensures (a + rest)[..4] == a[..4] && (a + rest)[..|a|] == a
  {
  }

  lemma Regroup(b: seq<byte>, n: nat, rest: seq<byte>)
    requires n <= |b|
    ensures b + rest == b[..n] + (b[n..] + rest)
  {
  }

  // Where a stream that is too short, or a first block that is not well blocked, is noticed.

  lemma ClearTooShort(d: Dir, done: bool, s: seq<byte>)
    ensures |s| < 8 ==> ParseClear(d, done, s).Short?
  {
  }

  lemma ClearFirst(d: Dir, done: bool, a: seq<byte>, rest: seq<byte>, size: nat)
    requires |a| == 8 && size == BE(a[..4])
    ensures (size - 4) % 8 != 0 ==> ParseClear(d, done, a + rest).Bad?
    ensures (size - 4) % 8 == 0 && |rest| < size - 4 ==> ParseClear(d, done, a + rest).Short?
  {
    FirstBytes(a, rest);
  }

  lemma MacTooShort(d: Dir, done: bool, s: seq<byte>)
    requires d.suite.MacThenSend? && !d.suite.etm && d.suite.blockSize >= 4 && d.seqno < SEQ_LIMIT
    ensures |s| < d.suite.blockSize ==> ParseMac(d, done, s).Short?
  {
  }

  lemma MacFirst(d: Dir, done: bool, a: seq<byte>, rest: seq<byte>, header: seq<byte>, size: nat)
    requires d.suite.MacThenSend? && !d.suite.etm && d.suite.blockSize >= 4 && d.seqno < SEQ_LIMIT
    requires |a| == d.suite.blockSize && header == d.suite.cipher.dec(d.history, a) && |header| == |a|
    requires size == BE(header[..4])
    ensures (size - (|a| - 4)) % |a| != 0 ==> ParseMac(d, done, a + rest).Bad?
    ensures (size - (|a| - 4)) % |a| == 0 && |rest| < size + d.suite.macSize - (|a| - 4)
      ==> ParseMac(d, done, a + rest).Short?
  {
    FirstBytes(a, rest);
    if (size - (|a| - 4)) % |a| == 0 {
      BlockedSize(size, |a|);
    }
  }

  lemma EtmTooShort(d: Dir, done: bool, s: seq<byte>)
    requires d.suite.MacThenSend? && d.suite.etm && d.suite.blockSize >= 4 && d.seqno < SEQ_LIMIT
    ensures |s| < d.suite.blockSize ==> ParseEtm(d, done, s).Short?
  {
  }

  lemma EtmFirst(d: Dir, done: bool, a: seq<byte>, rest: seq<byte>, size: nat)
    requires d.suite.MacThenSend? && d.suite.etm && d.suite.blockSize >= 4 && d.seqno < SEQ_LIMIT
    requires |a| == d.suite.blockSize && size == BE(a[..4])
    ensures |rest| < Max0(size - |a| + 4) + d.suite.macSize ==> ParseEtm(d, done, a + rest).Short?
  {
    FirstBytes(a, rest);
  }

  lemma AeadTooShort(d: Dir, done: bool, s: seq<byte>)
    requires d.suite.Aead? && d.suite.blockSize >= 4 && |d.iv| == 12
    ensures |s| < d.suite.blockSize ==> ParseAead(d, done, s).Short?
  {
  }

  lemma AeadFirst(d: Dir, done: bool, a: seq<byte>, rest: seq<byte>, size: nat)
    requires d.suite.Aead? && d.suite.blockSize >= 4 && |d.iv| == 12
    requires |a| == d.suite.blockSize && size == BE(a[..4])
    ensures |rest| < Max0(size - |a| + 4 + TAG_SIZE) ==> ParseAead(d, done, a + rest).Short?
  {
    FirstBytes(a, rest);
  }

  lemma HeaderSize(s: Suite, h: seq<byte>, x: seq<byte>)
    requires Lawful(s) && s.MacThenSend? && |x| == s.blockSize
    ensures |s.cipher.dec(h, x)| == |x|
  {
    UniqueMod(|x|, s.blockSize, 1, 0);
  }

  /** A length that passes the blocking check is not smaller than what came with the first block. */
  lemma BlockedSize(size: nat, bs: nat)
    requires bs >= 4 && (size - (bs - 4)) % bs == 0
    ensures size >= bs - 4
  {
    var d := size - (bs - 4);
    assert d == bs * (d / bs) + d % bs;
    NotNegative(d / bs, bs);
  }

  lemma NotNegative(k: int, bs: int)
    requires bs > 0 && bs * k > -bs
    ensures bs * k >= 0
  {
    Positive(k + 1, bs);
  }

  lemma Positive(j: int, bs: int)
    requires bs > 0 && bs * (j - 1) > -bs
    ensures j >= 1 && bs * (j - 1) >= 0
  {
    assert bs * j > 0;
  }

  lemma BE4Bound(s: seq<byte>)
    requires |s| == 4
    ensures BE(s) < SEQ_LIMIT
  {
    BEBound(s);
    Pow256Four();
  }
}
