/** paramiko/packet.py: the binary packet protocol of RFC 4253 section 6, in its three framings.
    Ciphers, MACs and compressors are parameters; only the laws in Lawful are assumed of them. */
module Packets {
  import opened Options
  import opened Bytes

  const SEQ_LIMIT: nat := 0x1_0000_0000
  const TAG_SIZE: nat := 16

  /** A stateful block cipher: update depends on the plaintext that went through it before. */
  datatype Cipher = Cipher(
    enc: (seq<byte>, seq<byte>) -> seq<byte>,
    dec: (seq<byte>, seq<byte>) -> seq<byte>)

  /** A stateful compressor: its output depends on the data that went through it before. */
  datatype Compressor = Compressor(
    deflate: (seq<byte>, seq<byte>) -> seq<byte>,
    inflate: (seq<byte>, seq<byte>) -> seq<byte>)

  datatype Suite =
    | Clear
    | MacThenSend(cipher: Cipher, blockSize: nat, mac: seq<byte> -> seq<byte>, macSize: nat, etm: bool)
    | Aead(seal: (seq<byte>, seq<byte>, seq<byte>) -> seq<byte>,
           open: (seq<byte>, seq<byte>, seq<byte>) -> Option<seq<byte>>,
           blockSize: nat)

  ghost predicate CipherLaws(c: Cipher, blockSize: nat)
    requires blockSize > 0
  {
    && (forall h, x :: |x| % blockSize == 0 ==> |c.enc(h, x)| == |x| && c.dec(h, c.enc(h, x)) == x)
    && (forall h, x :: |x| % blockSize == 0 ==> |c.dec(h, x)| == |x|)
    && (forall h, x, y {:trigger c.enc(h + x, y)} ::
          |x| % blockSize == 0 && |y| % blockSize == 0 ==> c.enc(h, x + y) == c.enc(h, x) + c.enc(h + x, y))
  }

  /** Decryption inverts encryption, encryption block by block composes, and sizes are as announced. */
  ghost predicate Lawful(s: Suite) {
    match s
    case Clear => true
    case MacThenSend(c, bs, mac, macSize, _) =>
      8 <= bs <= 252 && CipherLaws(c, bs) && forall x :: |mac(x)| == macSize
    case Aead(seal, open, bs) =>
      && 8 <= bs <= 252
      && forall iv, x, a {:trigger seal(iv, x, a)} ::
           |seal(iv, x, a)| == |x| + TAG_SIZE && open(iv, seal(iv, x, a), a) == Some(x)
  }

  ghost predicate LawfulCompressor(c: Compressor) {
    forall h, x :: c.inflate(h, c.deflate(h, x)) == x
  }

  function BlockSize(s: Suite): nat {
    if s.Clear? then 8 else s.blockSize
  }

  /** One direction of a connection, as either end keeps it. */
  datatype Dir = Dir(
    suite: Suite,
    history: seq<byte>,
    seqno: nat,
    iv: seq<byte>,
    compressor: Option<Compressor>,
    compressed: seq<byte>)

  ghost predicate ValidDir(d: Dir) {
    && Lawful(d.suite) && d.seqno < SEQ_LIMIT
    && (d.compressor.Some? ==> LawfulCompressor(d.compressor.value))
    && (d.suite.Aead? ==> |d.iv| == 12)
  }

  // ---------- the AEAD counter ----------

  /** _inc_iv_counter: the last eight bytes count up; to_bytes raises on overflow. */
  function IncIv(iv: seq<byte>): (r: Option<seq<byte>>)
    requires |iv| == 12
    ensures r.Some? ==> |r.value| == 12
  {
    var n := BE(iv[4..]) + 1;
    if n >= 0x1_0000_0000_0000_0000 then None else Some(iv[..4] + ToBE(n, 8))
  }

  // ---------- sending ----------

  /** The padding length of _build_packet. In EtM and AEAD the length field is not encrypted,
      so it does not count towards the block alignment. */
  function Padding(s: Suite, len: nat): int
    requires BlockSize(s) > 0
  {
    var bs := BlockSize(s);
    var addlen := if s.Aead? || (s.MacThenSend? && s.etm) then 4 else 8;
    3 + bs - (len + addlen) % bs
  }

  /** RFC 4253 section 6: at least four bytes of padding, at most 255, and the part that is
      encrypted is a whole number of blocks. */
  lemma PaddingAligns(s: Suite, len: nat)
    requires 8 <= BlockSize(s) <= 252
    ensures 4 <= Padding(s, len) <= BlockSize(s) + 3 <= 255
    ensures !s.Aead? && !(s.MacThenSend? && s.etm) ==> (5 + len + Padding(s, len)) % BlockSize(s) == 0
    ensures s.Aead? || (s.MacThenSend? && s.etm) ==> (1 + len + Padding(s, len)) % BlockSize(s) == 0
  {
    var bs := BlockSize(s);
    var addlen := if s.Aead? || (s.MacThenSend? && s.etm) then 4 else 8;
    RoundUp(len + addlen, bs);
  }

  lemma RoundUp(n: nat, bs: nat)
    requires bs > 0
    ensures (n + bs - n % bs) % bs == 0 && 0 <= n % bs < bs
  {
    var q := n / bs;
    assert n + bs - n % bs == (q + 1) * bs by {
      assert n == q * bs + n % bs;
    }
    UniqueMod((q + 1) * bs, bs, q + 1, 0);
  }

  lemma UniqueMod(a: nat, b: nat, q: int, r: nat)
    requires b > 0 && a == q * b + r && r < b
    ensures a % b == r && a / b == q
  {
    var d := q - a / b;
    assert d * b == a % b - r by {
      assert a == (a / b) * b + a % b;
      assert d * b == q * b - (a / b) * b;
    }
    MulGrows(d, b);
  }

  lemma MulGrows(d: int, b: int)
    requires b > 0
    ensures d >= 1 ==> d * b >= b
    ensures d <= -1 ==> d * b <= -b
    ensures d == 0 ==> d * b == 0
  {
    if d >= 1 {
      assert d * b == b + (d - 1) * b;
    } else if d <= -1 {
      assert d * b == -b + (d + 1) * b;
    }
  }

  function Deflated(d: Dir, payload: seq<byte>): seq<byte> {
    if d.compressor.Some? then d.compressor.value.deflate(d.compressed, payload) else payload
  }

  function Length(data: seq<byte>, pad: seq<byte>): nat {
    1 + |data| + |pad|
  }

  function Body(data: seq<byte>, pad: seq<byte>): seq<byte>
    requires |pad| < 256
  {
    [|pad|] + data + pad
  }

  /** The bytes of one packet, from the packet built to the bytes on the wire. */
  function Wire(d: Dir, length: seq<byte>, body: seq<byte>): seq<byte>
    requires d.seqno < SEQ_LIMIT
  {
    match d.suite
    case Clear => length + body
    case MacThenSend(c, _, mac, _, etm) =>
      if etm then
        var sent := length + c.enc(d.history, body);
        sent + mac(ToBE(d.seqno, 4) + sent)
      else
        c.enc(d.history, length + body) + mac(ToBE(d.seqno, 4) + (length + body))
    case Aead(seal, _, _) => length + seal(d.iv, body, length)
  }

  /** The direction after a packet; None where the original raises: the sequence number rolls
      over during the initial key exchange, or the AEAD counter overflows. */
  function After(d: Dir, payload: seq<byte>, length: seq<byte>, body: seq<byte>, kexDone: bool): Option<Dir>
    requires d.suite.Aead? ==> |d.iv| == 12
  {
    var iv := if d.suite.Aead? then IncIv(d.iv) else Some(d.iv);
    var next := (d.seqno + 1) % SEQ_LIMIT;
    if iv.None? || (next == 0 && !kexDone) then None
    else
      Some(d.(seqno := next, iv := iv.value,
              compressed := if d.compressor.Some? then d.compressed + payload else d.compressed,
              history := if !d.suite.MacThenSend? then d.history
                         else if d.suite.etm then d.history + body
                         else d.history + length + body))
  }

  /** send_message with a given padding: the bytes written and the state after. */
  function Send(d: Dir, payload: seq<byte>, pad: seq<byte>, kexDone: bool): Option<(seq<byte>, Dir)>
    requires d.suite.Aead? ==> |d.iv| == 12
    requires d.seqno < SEQ_LIMIT && |pad| < 256
  {
    var data := Deflated(d, payload);
    if Length(data, pad) >= SEQ_LIMIT then None
    else
      var length := ToBE(Length(data, pad), 4);
      var next := After(d, payload, length, Body(data, pad), kexDone);
      if next.None? then None else Some((Wire(d, length, Body(data, pad)), next.value))
  }

  // ---------- receiving ----------

  datatype Parsed =
    | Short                                       // the stream ends first: EOFError
    | Bad                                         // SSHException, or an error of the same effect
    | Good(payload: seq<byte>, rest: seq<byte>, next: Dir)

  function Max0(n: int): nat {
    if n < 0 then 0 else n
  }

  /** packet[1:end] as Python slices it. */
  function PySlice(packet: seq<byte>, end: int): seq<byte> {
    var e := if end < 0 then |packet| + end else if end > |packet| then |packet| else end;
    if e <= 1 then [] else packet[1..e]
  }

  /** The common end of read_message: strip the padding, decompress, count. */
  function Finish(d: Dir, kexDone: bool, size: nat, packet: seq<byte>, history: seq<byte>,
                  iv: seq<byte>, rest: seq<byte>): Parsed
  {
    if packet == [] then Bad
    else
      var data := PySlice(packet, size - packet[0]);
      var payload := if d.compressor.Some? then d.compressor.value.inflate(d.compressed, data) else data;
      var next := (d.seqno + 1) % SEQ_LIMIT;
      if payload == [] || (next == 0 && !kexDone) then Bad
      else
        Good(payload, rest,
             d.(seqno := next, history := history, iv := iv,
                compressed := if d.compressor.Some? then d.compressed + payload else d.compressed))
  }

  function ParseClear(d: Dir, kexDone: bool, s: seq<byte>): Parsed {
    var bs := 8;
    if |s| < bs then Short
    else
      var size := BE(s[..4]);
      if (size - (bs - 4)) % bs != 0 then Bad
      else if |s| < 4 + size then Short
      else Finish(d, kexDone, size, s[4..4 + size], d.history, d.iv, s[4 + size..])
  }

  function ParseMac(d: Dir, kexDone: bool, s: seq<byte>): Parsed
    requires d.suite.MacThenSend? && !d.suite.etm && d.suite.blockSize >= 4 && d.seqno < SEQ_LIMIT
  {
    var c, bs := d.suite.cipher, d.suite.blockSize;
    if |s| < bs then Short
    else
      var header := c.dec(d.history, s[..bs]);
      if |header| < 4 then Bad
      else
        var size := BE(header[..4]);
        if (size - (bs - 4)) % bs != 0 || size < bs - 4 then Bad
        else
          var end := 4 + size;
          if |s| < end + d.suite.macSize then Short
          else
            var body := c.dec(d.history + header, s[bs..end]);
            var packet := header[4..] + body;
            if size >= SEQ_LIMIT || d.suite.mac(ToBE(d.seqno, 4) + (ToBE(size, 4) + packet))
                                    != s[end..end + d.suite.macSize] then Bad
            else Finish(d, kexDone, size, packet, d.history + header + body, d.iv, s[end + d.suite.macSize..])
  }

  function ParseEtm(d: Dir, kexDone: bool, s: seq<byte>): Parsed
    requires d.suite.MacThenSend? && d.suite.etm && d.suite.blockSize >= 4 && d.seqno < SEQ_LIMIT
  {
    var c, bs := d.suite.cipher, d.suite.blockSize;
    if |s| < bs then Short
    else
      var size := BE(s[..4]);
      var end := bs + Max0(size - bs + 4);
      if |s| < end + d.suite.macSize then Short
      else if d.suite.mac(ToBE(d.seqno, 4) + (s[..4] + s[4..end])) != s[end..end + d.suite.macSize] then Bad
      else
        var packet := c.dec(d.history, s[4..end]);
        Finish(d, kexDone, size, packet, d.history + packet, d.iv, s[end + d.suite.macSize..])
  }

  function ParseAead(d: Dir, kexDone: bool, s: seq<byte>): Parsed
    requires d.suite.Aead? && d.suite.blockSize >= 4 && |d.iv| == 12
  {
    var bs := d.suite.blockSize;
    if |s| < bs then Short
    else
      var size := BE(s[..4]);
      var end := bs + Max0(size - bs + 4 + TAG_SIZE);
      if |s| < end then Short
      else
        var packet := d.suite.open(d.iv, s[4..end], s[..4]);
        var iv := IncIv(d.iv);
        if packet.None? || iv.None? then Bad
        else Finish(d, kexDone, size, packet.value, d.history, iv.value, s[end..])
  }

  /** read_message on a stream of bytes. */
  function Parse(d: Dir, kexDone: bool, s: seq<byte>): Parsed
    requires BlockSize(d.suite) >= 4 && d.seqno < SEQ_LIMIT && (d.suite.Aead? ==> |d.iv| == 12)
  {
    match d.suite
    case Clear => ParseClear(d, kexDone, s)
    case MacThenSend(_, _, _, _, etm) => if etm then ParseEtm(d, kexDone, s) else ParseMac(d, kexDone, s)
    case Aead(_, _, _) => ParseAead(d, kexDone, s)
  }

  // ---------- one packet ----------

  lemma Joined(a: seq<byte>, b: seq<byte>, n: nat)
    requires n == |a|
    ensures (a + b)[..n] == a && (a + b)[n..] == b
  {
  }

  /** What every framing hands to the end of read_message. */
  lemma FinishGood(d: Dir, payload: seq<byte>, pad: seq<byte>, sentDone: bool, doneHere: bool,
                   history: seq<byte>, iv: seq<byte>, rest: seq<byte>)
    requires ValidDir(d) && payload != [] && |pad| < 256
    requires doneHere || d.seqno + 1 < SEQ_LIMIT
    ensures var data := Deflated(d, payload);
      Finish(d, doneHere, Length(data, pad), Body(data, pad), history, iv, rest)
      == Good(payload, rest,
              d.(seqno := (d.seqno + 1) % SEQ_LIMIT, history := history, iv := iv,
                 compressed := if d.compressor.Some? then d.compressed + payload else d.compressed))
  {
    var data := Deflated(d, payload);
    assert Body(data, pad)[1..1 + |data|] == data;
  }

  /** The two sizes a receiver works out from the first block. */
  lemma FirstBlock(bs: nat, size: nat, etm: bool)
    requires 8 <= bs <= 252 && size >= 5
    requires if etm then size % bs == 0 else (size + 4) % bs == 0
    ensures etm ==> size >= bs && bs + Max0(size - bs + 4) == 4 + size
    ensures !etm ==> (size - (bs - 4)) % bs == 0 && size >= bs - 4
  {
    if etm {
      if size < bs {
        UniqueMod(size, bs, 0, size);
      }
    } else {
      var q := (size + 4) / bs;
      assert size + 4 == q * bs;
      MulGrows(q, bs);
      assert (q - 1) * bs == q * bs - bs;
      assert (q - 1) * bs >= 0;
      UniqueMod(size - (bs - 4), bs, q - 1, 0);
    }
  }

  lemma LengthField(n: nat)
    requires n < SEQ_LIMIT
    ensures BE(ToBE(n, 4)) == n
  {
    Pow256Four();
    ToBERoundTrip(n, 4);
  }

  /** The packet send_message makes: its padding is the one _build_packet computes. */
  ghost predicate Padded(d: Dir, payload: seq<byte>, pad: seq<byte>)
    requires BlockSize(d.suite) > 0
  {
    |pad| == Padding(d.suite, |Deflated(d, payload)|)
  }

  lemma ClearRoundTrip(d: Dir, length: seq<byte>, size: nat, body: seq<byte>, done: bool, rest: seq<byte>)
    requires d.suite.Clear? && d.seqno < SEQ_LIMIT
    requires size == |body| && size < SEQ_LIMIT && length == ToBE(size, 4) && size >= 5 && (size + 4) % 8 == 0
    ensures Parse(d, done, Wire(d, length, body) + rest) == Finish(d, done, size, body, d.history, d.iv, rest)
  {
    LengthField(size);
    FirstBlock(8, size, false);
    var s := Wire(d, length, body) + rest;
    assert s[..4] == length && s[4..4 + size] == body && s[4 + size..] == rest;
  }

  lemma AeadRoundTrip(d: Dir, length: seq<byte>, size: nat, body: seq<byte>, done: bool, rest: seq<byte>)
    requires d.suite.Aead? && ValidDir(d) && IncIv(d.iv).Some?
    requires size == |body| && size < SEQ_LIMIT && length == ToBE(size, 4) && size >= 5
    requires size % d.suite.blockSize == 0
    ensures Parse(d, done, Wire(d, length, body) + rest)
         == Finish(d, done, size, body, d.history, IncIv(d.iv).value, rest)
  {
    LengthField(size);
    var bs := d.suite.blockSize;
    FirstBlock(bs, size, true);
    var ct := d.suite.seal(d.iv, body, length);
    var s := length + ct + rest;
    assert Wire(d, length, body) + rest == s;
    assert bs + Max0(size - bs + 4 + TAG_SIZE) == 4 + size + TAG_SIZE;
    assert s[..4] == length && s[4..4 + size + TAG_SIZE] == ct && s[4 + size + TAG_SIZE..] == rest;
  }

  lemma EtmRoundTrip(d: Dir, length: seq<byte>, size: nat, body: seq<byte>, done: bool, rest: seq<byte>)
    requires d.suite.MacThenSend? && d.suite.etm && ValidDir(d)
    requires size == |body| && size < SEQ_LIMIT && length == ToBE(size, 4) && size >= 5
    requires size % d.suite.blockSize == 0
    ensures Parse(d, done, Wire(d, length, body) + rest)
         == Finish(d, done, size, body, d.history + body, d.iv, rest)
  {
    LengthField(size);
    var bs := d.suite.blockSize;
    FirstBlock(bs, size, true);
    var ct := d.suite.cipher.enc(d.history, body);
    var tag := d.suite.mac(ToBE(d.seqno, 4) + (length + ct));
    var s := length + ct + tag + rest;
    assert Wire(d, length, body) + rest == s;
    var end := 4 + size;
    assert s[..4] == length && s[4..end] == ct;
    assert s[end..end + d.suite.macSize] == tag && s[end + d.suite.macSize..] == rest;
  }

  /** Encrypting a packet whole is encrypting its first block and then the others. */
  lemma TwoSteps(c: Cipher, bs: nat, h: seq<byte>, packet: seq<byte>)
    requires 8 <= bs <= |packet| && |packet| % bs == 0 && CipherLaws(c, bs)
    ensures var p1, p2 := packet[..bs], packet[bs..];
      && c.enc(h, packet) == c.enc(h, p1) + c.enc(h + p1, p2)
      && |c.enc(h, p1)| == bs && |c.enc(h + p1, p2)| == |packet| - bs
      && c.dec(h, c.enc(h, p1)) == p1 && c.dec(h + p1, c.enc(h + p1, p2)) == p2
  {
    var p1, p2 := packet[..bs], packet[bs..];
    assert packet == p1 + p2;
    UniqueMod(bs, bs, 1, 0);
    var q := |packet| / bs;
    assert |packet| == q * bs;
    assert |p2| == (q - 1) * bs;
    MulGrows(q, bs);
    UniqueMod(|p2|, bs, q - 1, 0);
  }

  /** What read_message makes of a first block c1, the other blocks c2 and a tag. */
  lemma MacParse(d: Dir, done: bool, c1: seq<byte>, c2: seq<byte>, tag: seq<byte>, rest: seq<byte>,
                 p1: seq<byte>, p2: seq<byte>, size: nat)
    requires d.suite.MacThenSend? && !d.suite.etm && d.suite.blockSize >= 8 && d.seqno < SEQ_LIMIT
    requires |c1| == d.suite.blockSize && |c1| + |c2| == 4 + size && |tag| == d.suite.macSize
    requires |p1| == d.suite.blockSize
    requires d.suite.cipher.dec(d.history, c1) == p1 && d.suite.cipher.dec(d.history + p1, c2) == p2
    requires size < SEQ_LIMIT && BE(p1[..4]) == size
    requires (size - (|c1| - 4)) % |c1| == 0 && size >= |c1| - 4
    ensures ParseMac(d, done, c1 + (c2 + (tag + rest)))
         == if d.suite.mac(ToBE(d.seqno, 4) + (ToBE(size, 4) + (p1[4..] + p2))) != tag then Bad
            else Finish(d, done, size, p1[4..] + p2, d.history + p1 + p2, d.iv, rest)
  {
    hide Finish, BE;
    Slices(c1, c2, tag, rest);
  }

  lemma Slices(a: seq<byte>, b: seq<byte>, c: seq<byte>, rest: seq<byte>)
    ensures var s := a + (b + (c + rest));
      && |s| == |a| + |b| + |c| + |rest|
      && s[..|a|] == a && s[|a|..|a| + |b|] == b
      && s[|a| + |b|..|a| + |b| + |c|] == c && s[|a| + |b| + |c|..] == rest
      && (|a| >= 4 ==> s[..4] == a[..4] && s[4..|a| + |b|] == a[4..] + b)
  {
  }

  lemma EtmParse(d: Dir, done: bool, a: seq<byte>, b: seq<byte>, tag: seq<byte>, rest: seq<byte>, size: nat)
    requires d.suite.MacThenSend? && d.suite.etm && d.suite.blockSize >= 4 && d.seqno < SEQ_LIMIT
    requires |a| == d.suite.blockSize && BE(a[..4]) == size && |b| == Max0(size - |a| + 4)
    requires |tag| == d.suite.macSize
    ensures var packet := d.suite.cipher.dec(d.history, a[4..] + b);
      ParseEtm(d, done, a + (b + (tag + rest)))
         == if d.suite.mac(ToBE(d.seqno, 4) + (a[..4] + (a[4..] + b))) != tag then Bad
            else Finish(d, done, size, packet, d.history + packet, d.iv, rest)
  {
    hide Finish, BE;
    Slices(a, b, tag, rest);
  }

  lemma AeadParse(d: Dir, done: bool, a: seq<byte>, b: seq<byte>, rest: seq<byte>, size: nat)
    requires d.suite.Aead? && d.suite.blockSize >= 4 && |d.iv| == 12
    requires |a| == d.suite.blockSize && BE(a[..4]) == size && |b| == Max0(size - |a| + 4 + TAG_SIZE)
    ensures var packet, iv := d.suite.open(d.iv, a[4..] + b, a[..4]), IncIv(d.iv);
      ParseAead(d, done, a + (b + rest))
         == if packet.None? || iv.None? then Bad
            else Finish(d, done, size, packet.value, d.history, iv.value, rest)
  {
    hide Finish, BE, IncIv;
    Slices(a, b, [], rest);
    assert [] + rest == rest;
  }

  lemma ClearParse(d: Dir, done: bool, a: seq<byte>, b: seq<byte>, rest: seq<byte>, size: nat)
    requires |a| == 8 && BE(a[..4]) == size && (size - 4) % 8 == 0 && |b| == size - 4
    ensures ParseClear(d, done, a + (b + rest))
         == Finish(d, done, size, a[4..] + b, d.history, d.iv, rest)
  {
    hide Finish, BE;
    Slices(a, b, [], rest);
    assert [] + rest == rest;
  }

  lemma Associate(a: seq<byte>, b: seq<byte>, c: seq<byte>, rest: seq<byte>)
    ensures (a + b) + c + rest == a + (b + (c + rest))
  {
  }

  lemma ParseIsMac(d: Dir, done: bool, s: seq<byte>)
    requires d.suite.MacThenSend? && !d.suite.etm && d.suite.blockSize >= 4 && d.seqno < SEQ_LIMIT
    ensures Parse(d, done, s) == ParseMac(d, done, s)
  {
  }

  lemma HeadAndTail(h: seq<byte>, length: seq<byte>, body: seq<byte>, bs: nat)
    requires |length| == 4 && 4 <= bs <= 4 + |body|
    ensures var p1, p2 := (length + body)[..bs], (length + body)[bs..];
      && p1[..4] == length && p1[4..] + p2 == body && h + p1 + p2 == h + length + body
  {
    var p1, p2 := (length + body)[..bs], (length + body)[bs..];
    assert p1 + p2 == length + body;
    assert h + p1 + p2 == h + (p1 + p2);
    assert h + length + body == h + (length + body);
  }

  lemma MacWire(d: Dir, length: seq<byte>, body: seq<byte>)
    requires d.suite.MacThenSend? && !d.suite.etm && ValidDir(d)
    ensures 8 <= d.suite.blockSize <= 252 && CipherLaws(d.suite.cipher, d.suite.blockSize)
    ensures d.seqno < SEQ_LIMIT == 0x1_0000_0000
    ensures var tag := d.suite.mac(ToBE(d.seqno, 4) + (length + body));
      |tag| == d.suite.macSize
      && Wire(d, length, body) == d.suite.cipher.enc(d.history, length + body) + tag
  {
  }

  lemma MacRoundTrip(d: Dir, length: seq<byte>, size: nat, body: seq<byte>, done: bool, rest: seq<byte>)
    requires d.suite.MacThenSend? && !d.suite.etm && ValidDir(d)
    requires size == |body| && size < SEQ_LIMIT && length == ToBE(size, 4) && size >= 5
    requires (size + 4) % d.suite.blockSize == 0
    ensures Parse(d, done, Wire(d, length, body) + rest)
         == Finish(d, done, size, body, d.history + length + body, d.iv, rest)
  {
    var c, bs := d.suite.cipher, d.suite.blockSize;
    var packet := length + body;
    var tag := d.suite.mac(ToBE(d.seqno, 4) + packet);
    MacWire(d, length, body);
    hide *;
    FirstBlock(bs, size, false);
    LengthField(size);
    TwoSteps(c, bs, d.history, packet);
    HeadAndTail(d.history, length, body, bs);
    var p1, p2 := packet[..bs], packet[bs..];
    MacParse(d, done, c.enc(d.history, p1), c.enc(d.history + p1, p2), tag, rest, p1, p2, size);
    Associate(c.enc(d.history, p1), c.enc(d.history + p1, p2), tag, rest);
    ParseIsMac(d, done, Wire(d, length, body) + rest);
  }

  /** One packet, in any framing: the receiver in the sender's state gets the payload back, leaves
      the bytes after the packet alone, and ends in the sender's next state: same sequence number,
      same AEAD counter, same cipher and compressor history. */
  lemma PacketRoundTrip(d: Dir, payload: seq<byte>, pad: seq<byte>, sentDone: bool, doneHere: bool,
                        rest: seq<byte>)
    requires ValidDir(d) && payload != [] && |pad| < 256 && Padded(d, payload, pad)
    requires Send(d, payload, pad, sentDone).Some?
    requires doneHere || d.seqno + 1 < SEQ_LIMIT
    ensures var (wire, next) := Send(d, payload, pad, sentDone).value;
      Parse(d, doneHere, wire + rest) == Good(payload, rest, next) && ValidDir(next)
  {
    var data := Deflated(d, payload);
    var size, body := Length(data, pad), Body(data, pad);
    var length := ToBE(size, 4);
    PaddingAligns(d.suite, |data|);
    hide Finish, Parse, Wire, Deflated, Body, Lawful, LawfulCompressor, IncIv, Padding;
    var next := After(d, payload, length, body, sentDone).value;
    assert |body| == size by { BodyLength(data, pad); }
    FinishGood(d, payload, pad, sentDone, doneHere, next.history, next.iv, rest);
    match d.suite
    case Clear => ClearRoundTrip(d, length, size, body, doneHere, rest);
    case MacThenSend(_, _, _, _, etm) =>
      if etm {
        EtmRoundTrip(d, length, size, body, doneHere, rest);
      } else {
        MacRoundTrip(d, length, size, body, doneHere, rest);
      }
    case Aead(_, _, _) => AeadRoundTrip(d, length, size, body, doneHere, rest);
  }

  lemma BodyLength(data: seq<byte>, pad: seq<byte>)
    requires |pad| < 256
    ensures |Body(data, pad)| == Length(data, pad)
  {
  }

  // ---------- what a packet is made of ----------

  /** A packet without its length field: the padding length, the data, the padding. */
  ghost predicate PacketBody(body: seq<byte>, data: seq<byte>, pad: seq<byte>) {
    |body| == 1 + |data| + |pad| && body[0] == |pad| && body[1..1 + |data|] == data && body[1 + |data|..] == pad
  }

  /** The bytes written for a body: the length in front, the message authentication code over sequence number,
      length and body, or over what is sent of them, behind. */
  ghost predicate PacketWire(d: Dir, wire: seq<byte>, body: seq<byte>, length: seq<byte>, seqno: seq<byte>) {
    && |length| == |seqno| == 4 && BE(length) == |body| && BE(seqno) == d.seqno
    && match d.suite
       case Clear => wire == length + body
       case MacThenSend(c, _, mac, _, false) =>
         wire == c.enc(d.history, length + body) + mac(seqno + (length + body))
       case MacThenSend(c, _, mac, _, true) =>
         wire == length + c.enc(d.history, body) + mac(seqno + (length + c.enc(d.history, body)))
       case Aead(seal, _, _) => wire == length + seal(d.iv, body, length)
  }

  /** The state after a packet: the sequence number has gone up by one, the AEAD counter too, and a stateful
      cipher or compressor has seen what it was given. */
  ghost predicate Stepped(d: Dir, next: Dir, plain: seq<byte>, payload: seq<byte>) {
    && next.suite == d.suite && next.compressor == d.compressor
    && next.seqno == (if d.seqno == 0xFFFF_FFFF then 0 else d.seqno + 1)
    && (d.suite.MacThenSend? ==> next.history == d.history + plain)
    && (d.compressor.Some? ==> next.compressed == d.compressed + payload)
    && (d.suite.Aead? ==>
        |d.iv| == |next.iv| == 12 && next.iv[..4] == d.iv[..4] && BE(next.iv[4..]) == BE(d.iv[4..]) + 1)
  }

  lemma IncIvMeans(iv: seq<byte>)
    requires |iv| == 12 && IncIv(iv).Some?
    ensures IncIv(iv).value[..4] == iv[..4] && BE(IncIv(iv).value[4..]) == BE(iv[4..]) + 1
  {
    Pow256Eight();
    var n := BE(iv[4..]) + 1;
    ToBERoundTrip(n, 8);
    assert IncIv(iv).value[4..] == ToBE(n, 8);
  }

  /** Section 6 of RFC 4253, and for the other framings section 5.1 of RFC 5647: what send_message writes. */
  lemma SendLayout(d: Dir, payload: seq<byte>, pad: seq<byte>, kexDone: bool)
    requires ValidDir(d) && |pad| < 256 && Send(d, payload, pad, kexDone).Some?
    ensures var (wire, next) := Send(d, payload, pad, kexDone).value;
      var data := if d.compressor.Some? then d.compressor.value.deflate(d.compressed, payload) else payload;
      exists body, length, seqno ::
        && PacketBody(body, data, pad) && PacketWire(d, wire, body, length, seqno)
        && Stepped(d, next, if d.suite.MacThenSend? && d.suite.etm then body else length + body, payload)
        && (next.seqno == 0 ==> kexDone)
  {
    var data := Deflated(d, payload);
    var body, length, seqno := Body(data, pad), ToBE(Length(data, pad), 4), ToBE(d.seqno, 4);
    var (wire, next) := Send(d, payload, pad, kexDone).value;
    BodyMeans(data, pad);
    WireMeans(d, length, body);
    AfterMeans(d, payload, length, body, kexDone);
    hide PacketBody, PacketWire, Stepped, Wire, After, BE, ValidDir, Body;
  }

  lemma BodyMeans(data: seq<byte>, pad: seq<byte>)
    requires |pad| < 256
    ensures PacketBody(Body(data, pad), data, pad)
    ensures Length(data, pad) < SEQ_LIMIT ==> BE(ToBE(Length(data, pad), 4)) == |Body(data, pad)|
  {
    if Length(data, pad) < SEQ_LIMIT {
      LengthField(Length(data, pad));
    }
    hide BE, ToBE;
  }

  lemma WireMeans(d: Dir, length: seq<byte>, body: seq<byte>)
    requires d.seqno < SEQ_LIMIT && |length| == 4 && BE(length) == |body|
    ensures PacketWire(d, Wire(d, length, body), body, length, ToBE(d.seqno, 4))
  {
    LengthField(d.seqno);
    hide BE, ToBE;
  }

  lemma AfterMeans(d: Dir, payload: seq<byte>, length: seq<byte>, body: seq<byte>, kexDone: bool)
    requires ValidDir(d) && After(d, payload, length, body, kexDone).Some?
    ensures var next := After(d, payload, length, body, kexDone).value;
      && Stepped(d, next, if d.suite.MacThenSend? && d.suite.etm then body else length + body, payload)
      && (next.seqno == 0 ==> kexDone)
  {
    if d.suite.Aead? {
      IncIvMeans(d.iv);
    }
    assert d.history + length + body == d.history + (length + body);
    hide BE, IncIv, Lawful, LawfulCompressor;
  }

  /** The stream starts with a packet of size n that holds body and whose authentication code is right. */
  ghost predicate Authentic(d: Dir, s: seq<byte>, rest: seq<byte>, body: seq<byte>, length: seq<byte>, seqno: seq<byte>)
  {
    && |length| == |seqno| == 4 && BE(seqno) == d.seqno
    && var n := |s| - |rest|;
       match d.suite
       case Clear => s == length + body + rest && BE(length) == |body|
       case MacThenSend(c, bs, mac, macSize, false) =>
         && 4 <= bs <= n - macSize == 4 + BE(length) && s[n..] == rest
         && length + body == c.dec(d.history, s[..bs]) + c.dec(d.history + c.dec(d.history, s[..bs]), s[bs..n - macSize])
         && s[n - macSize..n] == mac(seqno + (length + body))
       case MacThenSend(c, bs, mac, macSize, true) =>
         && 4 <= bs <= n - macSize && s[n..] == rest
         && n - macSize == (if BE(length) < bs - 4 then bs else 4 + BE(length))
         && length == s[..4] && body == c.dec(d.history, s[4..n - macSize])
         && s[n - macSize..n] == mac(seqno + s[..n - macSize])
       case Aead(_, open, bs) =>
         && 4 <= bs <= n && s[n..] == rest
         && n == (if BE(length) + 20 < bs then bs else BE(length) + 20)
         && length == s[..4] && open(d.iv, s[4..n], s[..4]) == Some(body)
  }

  /** What read_message makes of a body of the given length, and the state it leaves. */
  ghost predicate Taken(d: Dir, p: Parsed, done: bool, body: seq<byte>, size: nat, plain: seq<byte>)
    requires p.Good?
  {
    && body != []
    && (1 + body[0] <= size <= |body| + body[0] ==>
        var data := body[1..size - body[0]];
        p.payload == if d.compressor.Some? then d.compressor.value.inflate(d.compressed, data) else data)
    && Stepped(d, p.next, plain, p.payload)
    && (p.next.seqno == 0 ==> done)
  }

  ghost predicate Accepted(d: Dir, s: seq<byte>, p: Parsed, done: bool)
    requires p.Good?
  {
    exists body, length, seqno ::
      && |p.rest| <= |s| && Authentic(d, s, p.rest, body, length, seqno)
      && Taken(d, p, done, body, BE(length), if d.suite.MacThenSend? && d.suite.etm then body else length + body)
  }

  lemma FinishMeans(d: Dir, done: bool, size: nat, body: seq<byte>, plain: seq<byte>, history: seq<byte>,
                    iv: seq<byte>, rest: seq<byte>)
    requires ValidDir(d) && Finish(d, done, size, body, history, iv, rest).Good?
    requires d.suite.MacThenSend? ==> history == d.history + plain
    requires d.suite.Aead? ==> IncIv(d.iv) == Some(iv)
    ensures Finish(d, done, size, body, history, iv, rest).rest == rest
    ensures Taken(d, Finish(d, done, size, body, history, iv, rest), done, body, size, plain)
  {
    if d.suite.Aead? {
      IncIvMeans(d.iv);
    }
    FinishTakes(d, done, size, body, history, iv, rest);
    hide Finish, PySlice, BE, ToBE, IncIv, Lawful, LawfulCompressor;
  }

  lemma FinishTakes(d: Dir, done: bool, size: nat, body: seq<byte>, history: seq<byte>, iv: seq<byte>, rest: seq<byte>)
    requires Finish(d, done, size, body, history, iv, rest).Good?
    ensures body != []
    ensures var p := Finish(d, done, size, body, history, iv, rest);
      && (1 + body[0] <= size <= |body| + body[0] ==>
          var data := body[1..size - body[0]];
          p.payload == if d.compressor.Some? then d.compressor.value.inflate(d.compressed, data) else data)
      && p.rest == rest && p.next.suite == d.suite && p.next.compressor == d.compressor && p.next.history == history
      && p.next.iv == iv && p.next.seqno == (d.seqno + 1) % SEQ_LIMIT && (p.next.seqno == 0 ==> done)
      && (d.compressor.Some? ==> p.next.compressed == d.compressed + p.payload)
  {
    if 1 + body[0] <= size <= |body| + body[0] {
      assert PySlice(body, size - body[0]) == body[1..size - body[0]];
    }
    hide PySlice;
  }

  lemma ClearAuthentic(d: Dir, done: bool, s: seq<byte>)
    requires d.suite.Clear? && ValidDir(d) && ParseClear(d, done, s).Good?
    ensures Accepted(d, s, ParseClear(d, done, s), done)
  {
    var length, seqno := s[..4], ToBE(d.seqno, 4);
    var body := s[4..4 + BE(length)];
    LengthField(d.seqno);
    FinishMeans(d, done, BE(length), body, length + body, d.history, d.iv, s[4 + BE(length)..]);
    hide Finish, BE, ValidDir, Taken, Stepped;
    assert s == length + body + s[4 + BE(length)..];
    assert Authentic(d, s, s[4 + BE(length)..], body, length, seqno);
  }

  lemma AeadAuthentic(d: Dir, done: bool, s: seq<byte>)
    requires d.suite.Aead? && ValidDir(d) && d.suite.blockSize >= 4 && ParseAead(d, done, s).Good?
    ensures Accepted(d, s, ParseAead(d, done, s), done)
  {
    var bs, length, seqno := d.suite.blockSize, s[..4], ToBE(d.seqno, 4);
    var end := bs + Max0(BE(length) - bs + 20);
    var body := d.suite.open(d.iv, s[4..end], length).value;
    LengthField(d.seqno);
    FinishMeans(d, done, BE(length), body, length + body, d.history, IncIv(d.iv).value, s[end..]);
    hide Finish, BE, ValidDir, Taken, Stepped, IncIv;
    assert Authentic(d, s, s[end..], body, length, seqno);
  }

  lemma EtmAuthentic(d: Dir, done: bool, s: seq<byte>)
    requires d.suite.MacThenSend? && d.suite.etm && ValidDir(d) && d.suite.blockSize >= 4 && ParseEtm(d, done, s).Good?
    ensures Accepted(d, s, ParseEtm(d, done, s), done)
  {
    var bs, length, seqno := d.suite.blockSize, s[..4], ToBE(d.seqno, 4);
    var end := bs + Max0(BE(length) - bs + 4);
    var n := end + d.suite.macSize;
    var body := d.suite.cipher.dec(d.history, s[4..end]);
    LengthField(d.seqno);
    FinishMeans(d, done, BE(length), body, body, d.history + body, d.iv, s[n..]);
    hide Finish, BE, ValidDir, Taken, Stepped;
    assert length + s[4..end] == s[..end];
    assert Authentic(d, s, s[n..], body, length, seqno);
  }

  /** What the plain framing has accepted, in its own terms. */
  lemma MacAccepts(d: Dir, done: bool, s: seq<byte>)
    requires d.suite.MacThenSend? && !d.suite.etm && d.suite.blockSize >= 4 && d.seqno < SEQ_LIMIT && ParseMac(d, done, s).Good?
    ensures var bs := d.suite.blockSize;
      && |s| >= bs && |d.suite.cipher.dec(d.history, s[..bs])| >= 4
      && var header := d.suite.cipher.dec(d.history, s[..bs]);
         var size := BE(header[..4]);
         var end := 4 + size;
         && bs <= end && |s| >= end + d.suite.macSize && size < SEQ_LIMIT
         && var tail := d.suite.cipher.dec(d.history + header, s[bs..end]);
            && s[end..end + d.suite.macSize] == d.suite.mac(ToBE(d.seqno, 4) + (ToBE(size, 4) + (header[4..] + tail)))
            && ParseMac(d, done, s) == Finish(d, done, size, header[4..] + tail, d.history + header + tail, d.iv, s[end + d.suite.macSize..])
  {
    hide Finish, BE;
  }

  lemma HeaderThenTail(h: seq<byte>, header: seq<byte>, tail: seq<byte>)
    requires |header| >= 4
    ensures header[..4] + (header[4..] + tail) == header + tail
    ensures h + header + tail == h + (header[..4] + (header[4..] + tail))
    ensures ToBE(BE(header[..4]), 4) == header[..4]
  {
    ToBEOfBE(header[..4]);
    assert header[..4] + header[4..] == header;
  }

  lemma MacIsAuthentic(d: Dir, s: seq<byte>, header: seq<byte>, tail: seq<byte>, size: nat)
    requires d.suite.MacThenSend? && !d.suite.etm && d.seqno < SEQ_LIMIT && |header| >= 4 && size == BE(header[..4])
    requires 4 <= d.suite.blockSize <= 4 + size && 4 + size + d.suite.macSize <= |s|
    requires header == d.suite.cipher.dec(d.history, s[..d.suite.blockSize])
    requires tail == d.suite.cipher.dec(d.history + header, s[d.suite.blockSize..4 + size])
    requires s[4 + size..4 + size + d.suite.macSize] == d.suite.mac(ToBE(d.seqno, 4) + (header[..4] + (header[4..] + tail)))
    ensures Authentic(d, s, s[4 + size + d.suite.macSize..], header[4..] + tail, header[..4], ToBE(d.seqno, 4))
  {
    LengthField(d.seqno);
    HeaderThenTail(d.history, header, tail);
    hide BE, ToBE;
  }

  lemma AcceptedBy(d: Dir, s: seq<byte>, p: Parsed, done: bool, body: seq<byte>, length: seq<byte>, seqno: seq<byte>)
    requires p.Good? && |p.rest| <= |s| && Authentic(d, s, p.rest, body, length, seqno)
    requires Taken(d, p, done, body, BE(length), if d.suite.MacThenSend? && d.suite.etm then body else length + body)
    ensures Accepted(d, s, p, done)
  {
    hide Authentic, Taken, BE;
  }

  lemma MacAuthentic(d: Dir, done: bool, s: seq<byte>)
    requires d.suite.MacThenSend? && !d.suite.etm && ValidDir(d) && d.suite.blockSize >= 4 && ParseMac(d, done, s).Good?
    ensures Accepted(d, s, ParseMac(d, done, s), done)
  {
    assert d.seqno < SEQ_LIMIT;
    hide ParseMac, Finish, BE, ToBE, ValidDir, Taken, Authentic, Accepted;
    MacAccepts(d, done, s);
    var header := d.suite.cipher.dec(d.history, s[..d.suite.blockSize]);
    var size := BE(header[..4]);
    var n := 4 + size + d.suite.macSize;
    var tail := d.suite.cipher.dec(d.history + header, s[d.suite.blockSize..4 + size]);
    HeaderThenTail(d.history, header, tail);
    MacIsAuthentic(d, s, header, tail, size);
    FinishMeans(d, done, size, header[4..] + tail, header[..4] + (header[4..] + tail), d.history + header + tail, d.iv, s[n..]);
    AcceptedBy(d, s, ParseMac(d, done, s), done, header[4..] + tail, header[..4], ToBE(d.seqno, 4));
  }

  /** Nothing is taken from the stream that is not authentic, and what is taken is the data between the padding
      length and the padding. */
  lemma AcceptedIsAuthentic(d: Dir, done: bool, s: seq<byte>)
    requires ValidDir(d) && BlockSize(d.suite) >= 4 && Parse(d, done, s).Good?
    ensures Accepted(d, s, Parse(d, done, s), done)
  {
    hide Accepted, ParseClear, ParseMac, ParseEtm, ParseAead;
    match d.suite
    case Clear => ClearAuthentic(d, done, s);
    case MacThenSend(_, _, _, _, etm) =>
      if etm {
        EtmAuthentic(d, done, s);
      } else {
        MacAuthentic(d, done, s);
      }
    case Aead(_, _, _) => AeadAuthentic(d, done, s);
  }

  lemma ParseKeepsValid(d: Dir, done: bool, s: seq<byte>)
    requires ValidDir(d) && BlockSize(d.suite) >= 4 && Parse(d, done, s).Good?
    ensures ValidDir(Parse(d, done, s).next)
  {
    AcceptedIsAuthentic(d, done, s);
    hide Parse, Authentic, BE, Lawful, LawfulCompressor;
  }

  // ---------- a whole session ----------

  /** What the sender does: packets, and, at the same points of the stream on both sides, switches
      of keys and of compression. A strict key exchange also resets the sequence number. */
  datatype Event =
    | Packet(payload: seq<byte>, pad: seq<byte>, sentDone: bool, readDone: bool)
    | Switch(suite: Suite, iv: seq<byte>, reset: bool)
    | Compress(compressor: Compressor)

  /** The receiver's side of an event: it knows neither payload nor padding. */
  datatype Step = ReadOne(readDone: bool) | Switched(suite: Suite, iv: seq<byte>, reset: bool) | Compressed(c: Compressor)

  function StepOf(e: Event): Step {
    match e
    case Packet(_, _, _, done) => ReadOne(done)
    case Switch(s, iv, r) => Switched(s, iv, r)
    case Compress(c) => Compressed(c)
  }

  function StepsOf(events: seq<Event>): seq<Step> {
    if events == [] then [] else [StepOf(events[0])] + StepsOf(events[1..])
  }

  function Rekeyed(d: Dir, s: Suite, iv: seq<byte>, reset: bool): Dir {
    d.(suite := s, iv := iv, history := [], seqno := if reset then 0 else d.seqno)
  }

  function Compressing(d: Dir, c: Compressor): Dir {
    d.(compressor := Some(c), compressed := [])
  }

  ghost predicate ValidSwitch(s: Suite, iv: seq<byte>) {
    Lawful(s) && (s.Aead? ==> |iv| == 12)
  }

  /** The sender's run: every packet has the padding the sender computes, and none raises. */
  ghost predicate Sends(d: Dir, events: seq<Event>, wire: seq<byte>, last: Dir)
    decreases |events|
  {
    ValidDir(d) &&
    if events == [] then wire == [] && last == d
    else
      match events[0]
      case Packet(payload, pad, sentDone, readDone) =>
        && payload != [] && |pad| < 256 && Padded(d, payload, pad)
        && (readDone || d.seqno + 1 < SEQ_LIMIT)
        && Send(d, payload, pad, sentDone).Some?
        && var (out, next) := Send(d, payload, pad, sentDone).value;
        out <= wire && Sends(next, events[1..], wire[|out|..], last)
      case Switch(s, iv, reset) =>
        ValidSwitch(s, iv) && Sends(Rekeyed(d, s, iv, reset), events[1..], wire, last)
      case Compress(c) =>
        LawfulCompressor(c) && Sends(Compressing(d, c), events[1..], wire, last)
  }

  function Payloads(events: seq<Event>): seq<seq<byte>> {
    if events == [] then []
    else (if events[0].Packet? then [events[0].payload] else []) + Payloads(events[1..])
  }

  /** The receiver's run over a stream: the payloads it reads, what is left, and its last state. */
  ghost predicate Receives(d: Dir, steps: seq<Step>, s: seq<byte>, got: seq<seq<byte>>,
                           rest: seq<byte>, last: Dir)
    decreases |steps|
  {
    ValidDir(d) &&
    if steps == [] then got == [] && rest == s && last == d
    else
      match steps[0]
      case ReadOne(done) =>
        var r := Parse(d, done, s);
        r.Good? && got != [] && got[0] == r.payload && Receives(r.next, steps[1..], r.rest, got[1..], rest, last)
      case Switched(suite, iv, reset) =>
        Receives(Rekeyed(d, suite, iv, reset), steps[1..], s, got, rest, last)
      case Compressed(c) =>
        Receives(Compressing(d, c), steps[1..], s, got, rest, last)
  }

  /** However many packets are sent and however often the keys, the framing and the compression
      change, with or without sequence number resets: reading the stream gives back exactly the
      payloads sent, in order, and both ends stay in the same state. */
  lemma {:induction false} SessionRoundTrip(d: Dir, events: seq<Event>, wire: seq<byte>, last: Dir, rest: seq<byte>)
    requires Sends(d, events, wire, last)
    ensures Receives(d, StepsOf(events), wire + rest, Payloads(events), rest, last)
    decreases |events|, 1
  {
    if events == [] {
      assert wire + rest == rest;
    } else {
      assert StepsOf(events)[0] == StepOf(events[0]) && StepsOf(events)[1..] == StepsOf(events[1..]);
      match events[0]
      case Packet(payload, pad, sentDone, readDone) =>
        PacketCase(d, events, wire, last, rest);
      case Switch(s, iv, reset) =>
        SessionRoundTrip(Rekeyed(d, s, iv, reset), events[1..], wire, last, rest);
        assert Payloads(events) == [] + Payloads(events[1..]) == Payloads(events[1..]);
      case Compress(c) =>
        SessionRoundTrip(Compressing(d, c), events[1..], wire, last, rest);
        assert Payloads(events) == [] + Payloads(events[1..]) == Payloads(events[1..]);
    }
  }

  lemma {:induction false} PacketCase(d: Dir, events: seq<Event>, wire: seq<byte>, last: Dir, rest: seq<byte>)
    requires Sends(d, events, wire, last) && events != [] && events[0].Packet?
    ensures Receives(d, StepsOf(events), wire + rest, Payloads(events), rest, last)
    decreases |events|, 0
  {
    var e := events[0];
    var (out, next) := Send(d, e.payload, e.pad, e.sentDone).value;
    var later := wire[|out|..];
    assert wire + rest == out + (later + rest);
    assert StepsOf(events)[0] == ReadOne(e.readDone) && StepsOf(events)[1..] == StepsOf(events[1..]);
    assert Payloads(events)[0] == e.payload && Payloads(events)[1..] == Payloads(events[1..]);
    hide Send, Parse, Padded;
    PacketRoundTrip(d, e.payload, e.pad, e.sentDone, e.readDone, later + rest);
    SessionRoundTrip(next, events[1..], later, last, rest);
  }
}
