/** paramiko/file.py: file-style buffering over a stream that reads and writes in pieces. */
module BufferedFiles {
  import opened Options
  import opened Bytes

  const LF: byte := 10
  const CR: byte := 13
  const DEFAULT_BUFSIZE: nat := 8192

  // ---------- newline normalisation, as a function of the whole stream ----------

  /** The stream with CRLF and CR turned into LF. With afterCr, a first LF belongs to a CR
      that has been turned into LF already. */
  function Norm(s: seq<byte>, afterCr: bool): seq<byte> {
    if s == [] then []
    else if afterCr && s[0] == LF then Norm(s[1..], false)
    else if s[0] == CR then [LF] + Norm(s[1..], true)
    else [s[0]] + Norm(s[1..], false)
  }

  /** What a reader sees of the raw bytes s: normalised under the U flag, untouched otherwise. */
  function Shown(s: seq<byte>, universal: bool, afterCr: bool): seq<byte> {
    if universal then Norm(s, afterCr) else s
  }

  function Limited(s: seq<byte>, limit: int): seq<byte> {
    if 0 <= limit < |s| then s[..limit] else s
  }

  /** The same in two passes, as a reference: CRLF to LF, then CR to LF. */
  function FoldCrlf(s: seq<byte>): seq<byte> {
    if s == [] then []
    else if |s| > 1 && s[0] == CR && s[1] == LF then [LF] + FoldCrlf(s[2..])
    else [s[0]] + FoldCrlf(s[1..])
  }

  function FoldCr(s: seq<byte>): seq<byte> {
    if s == [] then [] else [if s[0] == CR then LF else s[0]] + FoldCr(s[1..])
  }

  lemma {:induction false} NormIsTwoPasses(s: seq<byte>)
    ensures Norm(s, false) == FoldCr(FoldCrlf(s))
    ensures CR !in Norm(s, false)
    decreases |s|
  {
    if s != [] {
      if |s| > 1 && s[0] == CR && s[1] == LF {
        NormIsTwoPasses(s[2..]);
        assert s[1..][0] == LF && s[1..][1..] == s[2..];
        assert Norm(s, false) == [LF] + Norm(s[2..], false);
      } else {
        NormIsTwoPasses(s[1..]);
        assert Norm(s[1..], s[0] == CR) == Norm(s[1..], false);
      }
    }
  }

  /** The bytes up to and including the first LF. */
  function FirstLine(s: seq<byte>): seq<byte> {
    if s == [] then [] else if s[0] == LF then [LF] else [s[0]] + FirstLine(s[1..])
  }

  predicate Plain(s: seq<byte>) {
    LF !in s && CR !in s
  }

  lemma {:induction false} FirstLineAt(a: seq<byte>, rest: seq<byte>)
    requires LF !in a
    ensures FirstLine(a + [LF] + rest) == a + [LF]
    ensures FirstLine(a) == a
    decreases |a|
  {
    if a != [] {
      FirstLineAt(a[1..], rest);
      assert (a + [LF] + rest)[1..] == a[1..] + [LF] + rest;
    }
  }

  lemma {:induction false} FirstLinePrefix(s: seq<byte>)
    ensures FirstLine(s) <= s && (s != [] ==> FirstLine(s) != [])
    ensures LF in s <==> FirstLine(s) != [] && FirstLine(s)[|FirstLine(s)| - 1] == LF
    ensures forall i :: 0 <= i < |FirstLine(s)| - 1 ==> FirstLine(s)[i] != LF
    ensures LF !in s ==> FirstLine(s) == s
    decreases |s|
  {
    if s != [] && s[0] != LF {
      FirstLinePrefix(s[1..]);
      assert s == [s[0]] + s[1..];
      var f := FirstLine(s[1..]);
      assert FirstLine(s) == [s[0]] + f;
      assert LF in s <==> LF in s[1..];
    }
  }

  lemma {:induction false} NormPlain(a: seq<byte>, rest: seq<byte>)
    requires Plain(a)
    ensures Norm(a + rest, false) == a + Norm(rest, false)
    decreases |a|
  {
    if a == [] {
      assert a + rest == rest;
    } else {
      assert Plain(a[1..]) by {
        assert forall b :: b in a[1..] ==> b in a;
      }
      NormPlain(a[1..], rest);
      assert (a + rest)[1..] == a[1..] + rest;
      assert a[0] in a;
    }
  }

  // ---------- one line of the buffer ----------

  function Find(s: seq<byte>, b: byte): (i: int)
    ensures -1 <= i < |s|
    ensures i >= 0 ==> s[i] == b && b !in s[..i]
    ensures i == -1 <==> b !in s
  {
    if s == [] then -1
    else if s[0] == b then 0
    else
      var j := Find(s[1..], b);
      assert s == [s[0]] + s[1..];
      if j == -1 then -1
      else
        assert s[..j + 1] == [s[0]] + s[1..][..j];
        j + 1
  }

  /** Index of the first newline, in the sense of the mode; -1 if there is none. */
  function Newline(line: seq<byte>, universal: bool): (pos: int)
    ensures -1 <= pos < |line|
    ensures pos >= 0 && universal ==> Plain(line[..pos]) && (line[pos] == LF || line[pos] == CR)
    ensures pos >= 0 && !universal ==> LF !in line[..pos] && line[pos] == LF
    ensures pos == -1 ==> LF !in line && (universal ==> CR !in line)
  {
    var p, r := Find(line, LF), Find(line, CR);
    if universal && r >= 0 && (r < p || p < 0) then
      assert p >= 0 ==> forall i :: 0 <= i < r ==> line[..r][i] == line[..p][i];
      r
    else
      assert universal && p >= 0 && r >= 0 ==> forall i :: 0 <= i < p ==> line[..p][i] == line[..r][i];
      p
  }

  /** A line taken off the buffer: the line returned, the buffer left, and the trailing-CR flag. */
  datatype Cut = Cut(line: seq<byte>, rbuffer: seq<byte>, trailingCr: bool)

  /** The tail of readline: cut the line at the newline at index pos. */
  function CutAt(line: seq<byte>, pos: nat, rest: seq<byte>): Cut
    requires pos < |line|
  {
    var xpos := if line[pos] == CR && pos + 1 < |line| && line[pos + 1] == LF then pos + 2 else pos + 1;
    var rbuffer := line[xpos..] + rest;
    Cut(line[..pos] + [LF], rbuffer, rbuffer == [] && line[pos..xpos] == [CR])
  }

  /** A CRLF pair cut in two by a size limit: the CR is the last byte of the line taken and the
      LF is the first byte of the rest already buffered. */
  predicate SplitsPair(line: seq<byte>, pos: nat, rest: seq<byte>) {
    pos + 1 == |line| && line[pos] == CR && rest != [] && rest[0] == LF
  }

  predicate CutsPair(start: seq<byte>, limit: int) {
    && 0 < limit < |start|
    && Newline(start[..limit], true) == limit - 1
    && SplitsPair(start[..limit], limit - 1, start[limit..])
  }

  lemma NormAtNewline(line: seq<byte>, pos: nat, more: seq<byte>)
    requires pos < |line| && Newline(line, true) == pos
    ensures Norm(line + more, false)
         == line[..pos] + [LF] + Norm(line[pos + 1..] + more, line[pos] == CR)
  {
    var tail := line[pos + 1..] + more;
    assert line + more == line[..pos] + ([line[pos]] + tail);
    NormPlain(line[..pos], [line[pos]] + tail);
    assert ([line[pos]] + tail)[1..] == tail;
    assert Norm([line[pos]] + tail, false) == [LF] + Norm(tail, line[pos] == CR);
  }

  lemma NormCases(b: byte, s: seq<byte>)
    ensures b == LF ==> Norm([b] + s, true) == Norm(s, false)
    ensures b == LF ==> Norm([b] + s, false) == [LF] + Norm(s, false)
    ensures b != LF ==> Norm([b] + s, true) == Norm([b] + s, false)
  {
    assert ([b] + s)[1..] == s;
  }

  lemma AfterCut(line: seq<byte>, pos: nat, rest: seq<byte>, future: seq<byte>)
    requires pos < |line| && Newline(line, true) == pos
    ensures var c := CutAt(line, pos, rest);
      Norm(line[pos + 1..] + (rest + future), line[pos] == CR) == Norm(c.rbuffer + future, c.trailingCr)
      <==> !SplitsPair(line, pos, rest)
  {
    var c := CutAt(line, pos, rest);
    var tail := line[pos + 1..] + (rest + future);
    hide Norm, Newline, Find;
    if line[pos] == CR && pos + 1 < |line| && line[pos + 1] == LF {
      assert tail == [LF] + (c.rbuffer + future);
      assert line[pos..pos + 2][1] == LF;
      NormCases(LF, c.rbuffer + future);
    } else {
      assert tail == c.rbuffer + future && line[pos..pos + 1] == [line[pos]];
      if line[pos] == CR && c.rbuffer != [] {
        var b, s := c.rbuffer[0], c.rbuffer[1..] + future;
        assert tail == [b] + s;
        assert b == LF <==> SplitsPair(line, pos, rest);
        NormCases(b, s);
        assert b == LF ==> |[LF] + Norm(s, false)| > |Norm(s, false)|;
      }
    }
  }

  lemma CutIsFaithful(line: seq<byte>, pos: nat, rest: seq<byte>, future: seq<byte>)
    requires pos < |line| && Newline(line, true) == pos
    ensures var c := CutAt(line, pos, rest);
      Norm(line + (rest + future), false) == c.line + Norm(c.rbuffer + future, c.trailingCr)
      <==> !SplitsPair(line, pos, rest)
  {
    hide Norm, Newline, SplitsPair;
    NormAtNewline(line, pos, rest + future);
    AfterCut(line, pos, rest, future);
    SameHead(CutAt(line, pos, rest).line, Norm(line[pos + 1..] + (rest + future), line[pos] == CR),
             Norm(CutAt(line, pos, rest).rbuffer + future, CutAt(line, pos, rest).trailingCr));
  }

  lemma SameHead(a: seq<byte>, x: seq<byte>, y: seq<byte>)
    ensures a + x == a + y <==> x == y
  {
    if a + x == a + y {
      assert x == (a + x)[|a|..] && y == (a + y)[|a|..];
    }
  }

  lemma CutPlain(line: seq<byte>, pos: nat, rest: seq<byte>)
    requires pos < |line| && Newline(line, false) == pos
    ensures var c := CutAt(line, pos, rest);
      c.line + c.rbuffer == line + rest && !c.trailingCr
  {
    assert line[pos..pos + 1] == [LF];
    assert line == line[..pos] + [LF] + line[pos + 1..];
  }

  // ---------- the stream underneath ----------

  /** What a subclass provides as _read and _write: the bytes still to come, handed out in pieces
      of any size, and the bytes accepted so far, taken in pieces of any size. */
  class RawStream {
    var remaining: seq<byte>
    var sink: seq<byte>

    constructor (input: seq<byte>)
      ensures remaining == input && sink == []
    {
      remaining, sink := input, [];
    }

    /** The empty result stands for None, an empty read and EOFError alike. */
    method Read(n: nat) returns (data: seq<byte>)
      requires n > 0
      modifies this`remaining
      ensures old(remaining) == data + remaining && |data| <= n
      ensures data == [] <==> old(remaining) == []
    {
      if |remaining| == 0 {
        return [];
      }
      var k: nat :| 1 <= k <= |remaining| && k <= n;
      data := remaining[..k];
      remaining := remaining[k..];
    }

    method Write(data: seq<byte>) returns (count: nat)
      requires data != []
      modifies this`sink
      ensures 1 <= count <= |data| && sink == old(sink) + data[..count]
    {
      count :| 1 <= count <= |data|;
      sink := sink + data[..count];
    }
  }

  datatype Result = Bytes(data: seq<byte>) | IOError

  function Min(a: nat, b: nat): nat {
    if a < b then a else b
  }

  class BufferedFile {
    const raw: RawStream
    const canRead: bool
    const canWrite: bool
    const append: bool
    const universal: bool
    const buffered: bool
    const lineBuffered: bool
    const bufsize: nat
    var rbuffer: seq<byte>
    var wbuffer: seq<byte>
    var atTrailingCr: bool
    var closed: bool
    var pos: int
    var realpos: int
    var size: int

    ghost predicate Valid()
      reads this, raw
    {
      && Positioned()
      && (!buffered ==> wbuffer == [])
      && (lineBuffered ==> LF !in wbuffer)
      && (buffered && !lineBuffered ==> |wbuffer| < bufsize)
    }

    ghost predicate Positioned()
      reads this
    {
      && bufsize > 0
      && (lineBuffered ==> buffered)
      && (!universal ==> !atTrailingCr)
      && (!universal && !append ==> pos + |rbuffer| == realpos)
    }

    /** __init__ and _set_mode: the mode letters as flags, and the meaning of bufsize. */
    constructor (raw: RawStream, canRead: bool, canWrite: bool, append: bool, universal: bool,
                 bufsize: int, fileSize: nat)
      ensures Valid() && this.raw == raw && rbuffer == [] && wbuffer == [] && !atTrailingCr
      ensures this.universal == universal && this.canRead == canRead && this.append == append
      ensures this.canWrite == (canWrite || append) && !closed
      ensures buffered == (bufsize >= 1) && lineBuffered == (bufsize == 1)
      ensures this.bufsize == if bufsize > 1 then bufsize else 8192
      ensures pos == realpos == size == if append then fileSize else 0
    {
      this.raw, this.canRead, this.append, this.universal := raw, canRead, append, universal;
      this.canWrite := canWrite || append;
      this.buffered := bufsize >= 1;
      this.lineBuffered := bufsize == 1;
      this.bufsize := if bufsize > 1 then bufsize else DEFAULT_BUFSIZE;
      rbuffer, wbuffer, atTrailingCr, closed := [], [], false, false;
      size := if append then fileSize else 0;
      pos := if append then fileSize else 0;
      realpos := if append then fileSize else 0;
    }

    /** The raw bytes still to be read, buffered or not. */
    ghost function Raw(): seq<byte>
      reads this, raw
    {
      rbuffer + raw.remaining
    }

    /** What is left to read, as the mode presents it: normalised under the U flag. */
    ghost function Pending(): seq<byte>
      reads this, raw
    {
      Shown(Raw(), universal, atTrailingCr)
    }

    /** The buffer readline starts from: a LF completing an earlier CR is dropped first. */
    ghost function Start(): seq<byte>
      reads this
    {
      if universal && atTrailingCr && rbuffer != [] && rbuffer[0] == LF then rbuffer[1..] else rbuffer
    }

    /** A size limit that ends between the CR and the LF of one CRLF, both already buffered. */
    ghost predicate LimitSplitsPair(limit: int)
      reads this
    {
      universal && CutsPair(Start(), limit)
    }

    /** read(size): the exact raw bytes, at most size of them; all of them if size is negative. */
    method Read(size: int) returns (r: Result)
      requires Valid()
      modifies this`rbuffer, this`pos, this`realpos, raw`remaining
      ensures Valid()
      ensures r.IOError? <==> closed || !canRead
      ensures r.IOError? ==> Raw() == old(Raw()) && pos == old(pos)
      ensures r.Bytes? ==> r.data + Raw() == old(Raw()) && pos == old(pos) + |r.data|
      ensures r.Bytes? ==> |r.data| == if size < 0 then |old(Raw())| else Min(size, |old(Raw())|)
    {
      if closed || !canRead {
        return IOError;
      }
      if size < 0 {
        var all := ReadToEnd();
        return Bytes(all);
      }
      if size <= |rbuffer| {
        var data := rbuffer[..size];
        rbuffer := rbuffer[size..];
        pos := pos + |data|;
        return Bytes(data);
      }
      while |rbuffer| < size
        invariant Raw() == old(Raw()) && pos == old(pos)
        invariant !universal && !append ==> pos + |rbuffer| == realpos
        invariant wbuffer == old(wbuffer) && closed == old(closed)
        decreases |raw.remaining|
      {
        var readSize := size - |rbuffer|;
        if buffered && readSize < bufsize {
          readSize := bufsize;
        }
        var data := raw.Read(readSize);
        if |data| == 0 {
          break;
        }
        rbuffer := rbuffer + data;
        realpos := realpos + |data|;
      }
      var n := Min(size, |rbuffer|);
      var data := rbuffer[..n];
      rbuffer := rbuffer[n..];
      pos := pos + |data|;
      r := Bytes(data);
    }

    method ReadToEnd() returns (all: seq<byte>)
      requires Valid()
      modifies this`rbuffer, this`pos, this`realpos, raw`remaining
      ensures Valid() && all == old(Raw()) && Raw() == [] && pos == old(pos) + |all|
    {
      all := rbuffer;
      rbuffer := [];
      pos := pos + |all|;
      while true
        invariant all + raw.remaining == old(Raw()) && rbuffer == []
        invariant pos == old(pos) + |all|
        invariant !universal && !append ==> pos == realpos
        decreases |raw.remaining|
      {
        var data := raw.Read(DEFAULT_BUFSIZE);
        if |data| == 0 {
          break;
        }
        all := all + data;
        realpos := realpos + |data|;
        pos := pos + |data|;
      }
    }

    /** The loop of readline: gather bytes until there is a newline, the limit is reached or
        the stream ends. A negative limit is no limit. */
    method FillLine(limit: int) returns (line: seq<byte>, truncated: bool, eof: bool)
      requires Valid()
      modifies this`rbuffer, this`realpos, this`atTrailingCr, raw`remaining
      ensures var rest := if truncated then rbuffer else [];
        Shown(line + (rest + raw.remaining), universal, atTrailingCr) == old(Pending())
      ensures truncated && rbuffer != [] ==> line + rbuffer == old(Start())
      ensures 0 <= limit < |old(Start())| ==>
        truncated && line == old(Start())[..limit] && rbuffer == old(Start())[limit..]
      ensures universal && line != [] ==> !atTrailingCr
      ensures !universal ==> !atTrailingCr
      ensures limit >= 0 ==> |line| <= limit
      ensures truncated ==> |line| == limit && !eof
      ensures eof ==> raw.remaining == [] && Newline(line, universal) == -1 && rbuffer == []
      ensures !truncated && !eof ==> Newline(line, universal) >= 0 && (limit >= 0 ==> |line| < limit)
      ensures !universal && !append ==>
        pos + |line| + (if truncated then |rbuffer| else 0) == realpos
    {
      hide Norm, Newline, Find;
      line, truncated, eof := rbuffer, false, false;
      ghost var first := true;
      while true
        invariant first ==> line == old(rbuffer) && atTrailingCr == old(atTrailingCr)
        invariant !first ==> limit < 0 || (|line| <= limit && |old(Start())| <= limit)
        invariant rbuffer == old(rbuffer) && (!universal ==> !atTrailingCr)
        invariant Shown(line + raw.remaining, universal, atTrailingCr) == old(Pending())
        invariant !universal && !append ==> pos + |line| == realpos
        decreases |raw.remaining|
      {
        DropCompletingLf(line, raw.remaining, atTrailingCr);
        if atTrailingCr && universal && |line| > 0 {
          if line[0] == LF {
            line := line[1..];
          }
          atTrailingCr := false;
        }
        var n := bufsize;
        if limit >= 0 {
          if |line| >= limit {
            Rejoin(line, limit, raw.remaining);
            rbuffer := line[limit..];
            line := line[..limit];
            truncated := true;
            return;
          }
          n := limit - |line|;
        }
        NoRest(line, raw.remaining);
        if Newline(line, universal) >= 0 {
          return;
        }
        ghost var before := raw.remaining;
        var data := raw.Read(n);
        if |data| == 0 {
          rbuffer := [];
          eof := true;
          return;
        }
        Regroup(line, data, raw.remaining);
        line := line + data;
        realpos := realpos + |data|;
        first := false;
      }
    }

    /** readline. Without a limit, or without the U flag, the line returned and the state left
        depend on the bytes still to be read only, not on how the stream hands them out: the
        line is the first line of what is pending, cut to the limit.
        With both, nothing is lost or invented except when the limit cuts a buffered CRLF in two:
        then, and only then, one newline too many comes out. */
    method Readline(limit: int) returns (r: Result)
      requires Valid()
      modifies this`rbuffer, this`pos, this`realpos, this`atTrailingCr, raw`remaining
      ensures Valid()
      ensures r.IOError? <==> closed || !canRead
      ensures r.IOError? ==> Pending() == old(Pending()) && pos == old(pos)
      ensures r.Bytes? ==> pos == old(pos) + |r.data|
      ensures r.Bytes? && limit >= 0 ==> |r.data| <= limit
      ensures r.Bytes? && (limit < 0 || !universal) ==>
        r.data == Limited(FirstLine(old(Pending())), limit) && r.data + Pending() == old(Pending())
      ensures r.Bytes? && universal ==>
        (r.data + Pending() == old(Pending()) <==> !old(LimitSplitsPair(limit)))
      ensures r.Bytes? && !old(LimitSplitsPair(limit)) ==> r.data == Limited(FirstLine(old(Pending())), limit)
      ensures r.Bytes? && limit != 0 ==> (r.data == [] <==> old(Pending()) == [])
    {
      if closed || !canRead {
        return IOError;
      }
      hide Norm, Find, Newline, Shown, FirstLine, SplitsPair, CutsPair, Limited, CutOf, Start, Min;
      var line, truncated, eof := FillLine(limit);
      var rest := if truncated then rbuffer else [];
      var at := if eof then -1 else Newline(line, universal);
      TakeLine(line, at, rest, raw.remaining, universal, atTrailingCr, limit);
      if universal {
        LimitCase(line, at, rest, limit, truncated, old(Start()));
      }
      var cut := CutOf(line, at, rest);
      rbuffer := cut.rbuffer;
      if cut.trailingCr {
        atTrailingCr := true;
      }
      pos := pos + |cut.line|;
      r := Bytes(cut.line);
    }

    /** readlines: whole lines of everything pending, until they make up the size hint, if one is given;
        the rest stays pending. False on IOError. */
    method Readlines(sizehint: Option<int>) returns (ok: bool, lines: seq<seq<byte>>)
      requires Valid()
      modifies this`rbuffer, this`pos, this`realpos, this`atTrailingCr, raw`remaining
      ensures Valid()
      ensures ok <==> !closed && canRead
      ensures ok ==> lines == UpTo(Lines(old(Pending())), sizehint) && Concat(lines) + Pending() == old(Pending())
      ensures ok && sizehint.None? ==> lines == Lines(old(Pending())) && Pending() == []
      ensures ok ==> lines <= Lines(old(Pending()))
      ensures ok && sizehint.Some? ==> lines == Lines(old(Pending())) || |Concat(lines)| >= sizehint.value
      ensures ok && sizehint.Some? && |lines| > 1 ==> |Concat(lines[..|lines| - 1])| < sizehint.value
    {
      if closed || !canRead {
        return false, [];
      }
      ghost var all := Lines(Pending());
      hide Lines, UpTo, Concat;
      lines := GatherLines(sizehint);
      if sizehint.Some? {
        UpToMeans(all, sizehint.value);
      } else {
        UpToNone(all);
      }
      ok := true;
    }

    method GatherLines(sizehint: Option<int>) returns (lines: seq<seq<byte>>)
      requires Valid() && !closed && canRead
      modifies this`rbuffer, this`pos, this`realpos, this`atTrailingCr, raw`remaining
      ensures Valid()
      ensures lines == UpTo(Lines(old(Pending())), sizehint) && Concat(lines) + Pending() == old(Pending())
      ensures sizehint.None? ==> Pending() == []
    {
      lines := [];
      ghost var all := Lines(Pending());
      var left := sizehint;
      while true
        invariant Valid()
        invariant Concat(lines) + Pending() == old(Pending())
        invariant lines + UpTo(Lines(Pending()), left) == UpTo(all, sizehint)
        invariant left.None? <==> sizehint.None?
        decreases |Pending()|
      {
        ghost var before := Pending();
        hide Norm, Shown, Lines, UpTo, Concat;
        var r := Readline(-1);
        LinesStep(before, r.data, Pending());
        UpToStep(r.data, Lines(Pending()), left);
        if |r.data| == 0 {
          NoLines(lines);
          break;
        }
        RegroupLines(lines, r.data, UpTo(Lines(Pending()), Less(left, |r.data|)));
        ConcatPush(lines, r.data, Pending());
        lines := lines + [r.data];
        if left.Some? && |r.data| >= left.value {
          NoLines(lines);
          return lines;
        }
        left := Less(left, |r.data|);
      }
    }

    method WriteAll(data0: seq<byte>)
      modifies this`pos, this`realpos, this`size, raw`sink
      ensures raw.sink == old(raw.sink) + data0
      ensures !append ==> pos - old(pos) == |data0| == realpos - old(realpos)
      ensures append && data0 != [] ==> pos == realpos == size
      ensures append ==> size == old(size) + |data0|
    {
      var data := data0;
      while |data| > 0
        invariant raw.sink + data == old(raw.sink) + data0
        invariant !append ==> pos - old(pos) == |data0| - |data| == realpos - old(realpos)
        invariant append ==> size == old(size) + |data0| - |data|
        invariant append && |data| < |data0| ==> pos == realpos == size
        decreases |data|
      {
        var count := raw.Write(data);
        assert data == data[..count] + data[count..];
        data := data[count..];
        if append {
          size := size + count;
          pos := size;
          realpos := size;
        } else {
          pos := pos + count;
          realpos := realpos + count;
        }
      }
    }

    method Flush()
      requires Positioned()
      modifies this`pos, this`realpos, this`size, this`wbuffer, raw`sink
      ensures Valid() && wbuffer == []
      ensures raw.sink == old(raw.sink) + old(wbuffer)
    {
      WriteAll(wbuffer);
      wbuffer := [];
    }

    method Close()
      requires Valid()
      modifies this`pos, this`realpos, this`size, this`wbuffer, this`closed, raw`sink
      ensures Valid() && closed && wbuffer == []
      ensures raw.sink == old(raw.sink) + old(wbuffer)
    {
      Flush();
      closed := true;
    }

    /** write: whatever the buffering, the bytes handed to the stream followed by the bytes still
        buffered are the bytes written so far, in order. A line-buffered file never keeps a
        LF back, but, whatever its length, keeps what follows the last one; an unbuffered
        file keeps nothing; a buffered one less than bufsize bytes. */
    method Write(data: seq<byte>) returns (ok: bool)
      requires Valid()
      modifies this`pos, this`realpos, this`size, this`wbuffer, raw`sink
      ensures Valid()
      ensures ok <==> !closed && canWrite
      ensures ok ==> raw.sink + wbuffer == old(raw.sink + wbuffer) + data
      ensures !ok ==> raw.sink == old(raw.sink) && wbuffer == old(wbuffer) && pos == old(pos)
      ensures ok && !buffered ==> raw.sink == old(raw.sink) + data
      ensures ok && lineBuffered && LF !in data ==> raw.sink == old(raw.sink)
      ensures ok && lineBuffered && LF in data ==> raw.sink != [] && raw.sink[|raw.sink| - 1] == LF
      ensures ok && buffered && !lineBuffered ==>
        if |old(wbuffer)| + |data| < bufsize then raw.sink == old(raw.sink) else wbuffer == []
    {
      if closed || !canWrite {
        return false;
      }
      ok := true;
      if !buffered {
        WriteAll(data);
        assert wbuffer == [] && raw.sink + wbuffer == raw.sink && old(raw.sink + wbuffer) == old(raw.sink);
      } else if lineBuffered {
        WriteLines(data);
      } else {
        Regroup(raw.sink, wbuffer, data);
        wbuffer := wbuffer + data;
        if |wbuffer| >= bufsize {
          Flush();
          assert raw.sink + [] == raw.sink;
        }
      }
    }

    method WriteLines(data: seq<byte>)
      requires Positioned() && lineBuffered && LF !in wbuffer
      modifies this`pos, this`realpos, this`size, this`wbuffer, raw`sink
      ensures Positioned() && LF !in wbuffer
      ensures raw.sink + wbuffer == old(raw.sink + wbuffer) + data
      ensures LF !in data ==> raw.sink == old(raw.sink)
      ensures LF in data ==> raw.sink != [] && raw.sink[|raw.sink| - 1] == LF
    {
      hide FindLast;
      Regroup(raw.sink, wbuffer, data);
      var last := FindLast(data, LF);
      AppendedNewlines(wbuffer, data, last);
      wbuffer := wbuffer + data;
      if last >= 0 {
        FlushThrough(|wbuffer| - |data| + last + 1);
      }
    }

    method FlushThrough(n: nat)
      requires Positioned() && n <= |wbuffer|
      modifies this`pos, this`realpos, this`size, this`wbuffer, raw`sink
      ensures Positioned() && wbuffer == old(wbuffer)[n..]
      ensures raw.sink == old(raw.sink) + old(wbuffer)[..n] && raw.sink + wbuffer == old(raw.sink + wbuffer)
    {
      Rejoin(wbuffer, n, []);
      Regroup(raw.sink, wbuffer[..n], wbuffer[n..]);
      WriteAll(wbuffer[..n]);
      wbuffer := wbuffer[n..];
    }
  }

  /** rfind. */
  function FindLast(s: seq<byte>, b: byte): (i: int)
    ensures -1 <= i < |s|
    ensures i >= 0 ==> s[i] == b
    ensures forall j :: i < j < |s| ==> s[j] != b
  {
    if s == [] then -1
    else if s[|s| - 1] == b then |s| - 1
    else FindLast(s[..|s| - 1], b)
  }

  lemma AppendedNewlines(before: seq<byte>, data: seq<byte>, last: int)
    requires last == FindLast(data, LF) && LF !in before
    ensures last == -1 ==> LF !in before + data
    ensures (before + data)[|before| + last + 1..] == data[last + 1..]
    ensures last >= 0 ==> (before + data)[|before| + last] == LF
    ensures last == -1 ==> LF !in data
  {
    assert data[0..] == data;
  }

  /** A stream cut into lines. */
  function Lines(s: seq<byte>): seq<seq<byte>>
    decreases |s|
  {
    if s == [] then []
    else
      FirstLinePrefix(s);
      [FirstLine(s)] + Lines(s[|FirstLine(s)|..])
  }

  lemma LinesStep(p: seq<byte>, line: seq<byte>, q: seq<byte>)
    requires line + q == p && line == Limited(FirstLine(p), -1)
    ensures line == [] ==> p == [] && q == [] && Lines(q) == []
    ensures line != [] ==> Lines(p) == [line] + Lines(q) && |q| < |p|
  {
    FirstLinePrefix(p);
    assert p[|line|..] == q;
  }

  function Less(hint: Option<int>, n: nat): Option<int> {
    if hint.None? then None else Some(hint.value - n)
  }

  /** The first lines that make up the hint; all of them without one. */
  function UpTo(lines: seq<seq<byte>>, hint: Option<int>): seq<seq<byte>> {
    if lines == [] then []
    else if hint.Some? && |lines[0]| >= hint.value then [lines[0]]
    else [lines[0]] + UpTo(lines[1..], Less(hint, |lines[0]|))
  }

  lemma {:induction false} UpToNone(lines: seq<seq<byte>>)
    ensures UpTo(lines, None) == lines
  {
    if lines != [] {
      UpToNone(lines[1..]);
    }
  }

  /** The lines taken are the first ones, and just enough of them. */
  lemma {:induction false} UpToMeans(lines: seq<seq<byte>>, hint: int)
    ensures var r := UpTo(lines, Some(hint));
      && r <= lines
      && (r == lines || |Concat(r)| >= hint)
      && (|r| > 1 ==> |Concat(r[..|r| - 1])| < hint)
    decreases |lines|
  {
    if lines != [] && |lines[0]| < hint {
      UpToMeans(lines[1..], hint - |lines[0]|);
      var r, later := UpTo(lines, Some(hint)), UpTo(lines[1..], Some(hint - |lines[0]|));
      assert r == [lines[0]] + later && r[1..] == later;
      if |r| > 1 {
        var front := r[..|r| - 1];
        assert front[1..] == later[..|later| - 1];
        if |r| == 2 {
          assert front[1..] == [];
        }
      }
    }
  }

  lemma {:induction false} UpToStep(line: seq<byte>, rest: seq<seq<byte>>, hint: Option<int>)
    ensures UpTo([], hint) == []
    ensures UpTo([line] + rest, hint)
         == [line] + if hint.Some? && |line| >= hint.value then [] else UpTo(rest, Less(hint, |line|))
  {
    assert ([line] + rest)[1..] == rest;
  }

  lemma NoLines(lines: seq<seq<byte>>)
    ensures lines + [] == lines
  {
  }

  lemma {:induction false} ConcatPush(lines: seq<seq<byte>>, line: seq<byte>, rest: seq<byte>)
    ensures Concat(lines + [line]) + rest == Concat(lines) + (line + rest)
  {
    if lines == [] {
      assert [] + [line] == [line] && [line][1..] == [];
    } else {
      assert (lines + [line])[1..] == lines[1..] + [line];
      ConcatPush(lines[1..], line, rest);
      var x := Concat(lines[1..]);
      assert lines[0] + (x + (line + rest)) == (lines[0] + x) + (line + rest);
      var y := Concat(lines[1..] + [line]);
      assert (lines[0] + y) + rest == lines[0] + (y + rest);
    }
  }

  lemma RegroupLines(a: seq<seq<byte>>, line: seq<byte>, b: seq<seq<byte>>)
    ensures a + ([line] + b) == (a + [line]) + b
  {
  }

  function Concat(lines: seq<seq<byte>>): seq<byte> {
    if lines == [] then [] else lines[0] + Concat(lines[1..])
  }

  /** The lines make up the stream; each is non-empty, has no LF but a last one, and only the
      last line may lack it. */
  lemma {:induction false} LinesMakeUpStream(s: seq<byte>)
    ensures Concat(Lines(s)) == s
    ensures forall i :: 0 <= i < |Lines(s)| ==>
      Lines(s)[i] != [] && LF !in Lines(s)[i][..|Lines(s)[i]| - 1]
    ensures forall i :: 0 <= i < |Lines(s)| - 1 ==> Lines(s)[i][|Lines(s)[i]| - 1] == LF
    decreases |s|
  {
    if s != [] {
      FirstLinePrefix(s);
      var f := FirstLine(s);
      var rest := s[|f|..];
      LinesMakeUpStream(rest);
      assert s == f + rest;
      assert Lines(s)[1..] == Lines(rest);
      if f[|f| - 1] != LF {
        assert rest == [];
      }
      forall i | 1 <= i < |Lines(s)| ensures Lines(s)[i] == Lines(rest)[i - 1] {
      }
    }
  }

  /** With no newline the line is returned as it is. */
  function CutOf(line: seq<byte>, at: int, rest: seq<byte>): Cut
    requires at < |line|
  {
    if at < 0 then Cut(line, rest, false) else CutAt(line, at, rest)
  }

  lemma TakeLine(line: seq<byte>, at: int, rest: seq<byte>, future: seq<byte>, universal: bool,
                 afterCr: bool, limit: int)
    requires at == Newline(line, universal) && (afterCr ==> universal && line == [])
    requires limit >= 0 ==> |line| <= limit
    requires at == -1 ==> |line| == limit || (rest == [] && future == [])
    ensures var c := CutOf(line, at, rest);
      var p, q := Shown(line + (rest + future), universal, afterCr),
                  Shown(c.rbuffer + future, universal, afterCr || c.trailingCr);
      && (p == c.line + q <==> !universal || at < 0 || !SplitsPair(line, at, rest))
      && (p == c.line + q ==> Limited(FirstLine(p), limit) == c.line)
      && (limit >= 0 ==> |c.line| <= limit)
      && (limit != 0 ==> (c.line == [] <==> p == []))
      && (!universal ==> |c.line| + |c.rbuffer| == |line| + |rest| && !c.trailingCr)
  {
    hide Norm, Find, Newline, FirstLine, SplitsPair, CutAt;
    if at == -1 {
      hide Shown;
      CutNowhere(line, rest, future, universal, afterCr, limit);
      EndOfStream(rest, future);
    } else {
      CutAtNewline(line, at, rest, future, universal, limit);
    }
  }

  lemma LimitCase(line: seq<byte>, at: int, rest: seq<byte>, limit: int, truncated: bool, start: seq<byte>)
    requires -1 <= at < |line|
    requires truncated ==> |line| == limit
    requires rest != [] ==> truncated && line + rest == start
    requires 0 <= limit < |start| ==> truncated && line == start[..limit] && rest == start[limit..]
    requires truncated ==> at == Newline(line, true)
    ensures CutsPair(start, limit) <==> at >= 0 && SplitsPair(line, at, rest)
  {
    if rest != [] {
      assert start[..limit] == line && start[limit..] == rest;
    }
  }

  lemma {:induction false} FirstLineOf(a: seq<byte>, more: seq<byte>)
    requires LF !in a
    ensures FirstLine(a + more) == a + FirstLine(more)
    decreases |a|
  {
    if a == [] {
      assert a + more == more;
    } else {
      FirstLineOf(a[1..], more);
      assert (a + more)[1..] == a[1..] + more;
      assert a == [a[0]] + a[1..];
    }
  }

  /** The line has no newline: it is returned whole. */
  lemma CutNowhere(line: seq<byte>, rest: seq<byte>, future: seq<byte>, universal: bool, afterCr: bool,
                   limit: int)
    requires Newline(line, universal) == -1 && (afterCr ==> universal && line == [])
    ensures var p, q := Shown(line + (rest + future), universal, afterCr), Shown(rest + future, universal, afterCr);
      && p == line + q
      && FirstLine(p) == line + FirstLine(q)
      && (|line| == limit || q == [] ==> limit < 0 || |line| <= limit ==> Limited(FirstLine(p), limit) == line)
  {
    var q := Shown(rest + future, universal, afterCr);
    if line == [] {
      assert line + (rest + future) == rest + future;
      assert line + q == q;
    } else if universal {
      NormPlain(line, rest + future);
    }
    FirstLineOf(line, q);
    if q == [] {
      assert line + FirstLine(q) == line;
    }
  }

  lemma EndOfStream(rest: seq<byte>, future: seq<byte>)
    ensures rest == [] && future == [] ==> forall u, c :: Shown(rest + future, u, c) == []
  {
  }

  /** The line has a newline at index at. */
  lemma CutAtNewline(line: seq<byte>, at: nat, rest: seq<byte>, future: seq<byte>, universal: bool,
                     limit: int)
    requires Newline(line, universal) == at && (limit >= 0 ==> |line| <= limit)
    ensures var c := CutAt(line, at, rest);
      var p, q := Shown(line + (rest + future), universal, false),
                  Shown(c.rbuffer + future, universal, c.trailingCr);
      && c.line != [] && p != [] && (limit >= 0 ==> |c.line| <= limit)
      && (p == c.line + q <==> !universal || !SplitsPair(line, at, rest))
      && (p == c.line + q ==> Limited(FirstLine(p), limit) == c.line)
      && (!universal ==> |c.line| + |c.rbuffer| == |line| + |rest| && !c.trailingCr)
  {
    var c := CutAt(line, at, rest);
    var q := Shown(c.rbuffer + future, universal, c.trailingCr);
    FirstLineAt(line[..at], q);
    assert line[..at] + [LF] + q == c.line + q;
    if universal {
      CutIsFaithful(line, at, rest, future);
    } else {
      CutPlain(line, at, rest);
      assert line + (rest + future) == c.line + (c.rbuffer + future);
    }
  }

  lemma DropCompletingLf(line: seq<byte>, future: seq<byte>, afterCr: bool)
    ensures line != [] && afterCr && line[0] == LF ==> Norm(line[1..] + future, false) == Norm(line + future, true)
    ensures line != [] && afterCr && line[0] != LF ==> Norm(line + future, false) == Norm(line + future, true)
  {
    if line != [] {
      assert (line + future)[1..] == line[1..] + future;
    }
  }

  lemma Regroup(a: seq<byte>, b: seq<byte>, c: seq<byte>)
    ensures a + (b + c) == (a + b) + c
  {
  }

  lemma NoRest(line: seq<byte>, future: seq<byte>)
    ensures [] + future == future && line + [] == line
    ensures future == [] ==> line + future == line
  {
  }

  lemma Rejoin(line: seq<byte>, n: nat, future: seq<byte>)
    requires n <= |line|
    ensures line[..n] + (line[n..] + future) == line + future && line[..n] + line[n..] == line
  {
  }
}
