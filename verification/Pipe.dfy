/** paramiko/pipe.py and paramiko/buffered_pipe.py: the two receive buffers of a channel, and
    the OS pipe that makes them pollable. */
module Pipes {
  import opened Bytes

  // ---------- state, as values ----------

  /** An OS pipe holding some number of bytes, with the flags PosixPipe keeps about it. */
  datatype OsPipe = OsPipe(level: nat, isSet: bool, forever: bool, closed: bool)

  function PipeSet(p: OsPipe): OsPipe {
    if p.isSet || p.closed then p else p.(isSet := true, level := p.level + 1)
  }

  /** os.read on an empty pipe would block for ever. */
  predicate MayClear(p: OsPipe) {
    p.isSet && !p.forever ==> p.level > 0
  }

  function PipeClear(p: OsPipe): OsPipe
    requires MayClear(p)
  {
    if !p.isSet || p.forever then p else p.(isSet := false, level := p.level - 1)
  }

  function PipeSetForever(p: OsPipe): OsPipe {
    PipeSet(p.(forever := true))
  }

  /** A receive buffer together with the OrPipe attached to it. */
  datatype Half = Half(buffer: seq<byte>, closed: bool, isSet: bool)

  datatype Side = Out | Err

  datatype Poll = Poll(os: OsPipe, out: Half, err: Half) {
    function Get(side: Side): Half {
      if side.Out? then out else err
    }
    function Put(side: Side, h: Half): Poll {
      if side.Out? then this.(out := h) else this.(err := h)
    }
    function Other(side: Side): Half {
      if side.Out? then err else out
    }
  }

  function OrSet(p: Poll, side: Side): Poll {
    var q := p.Put(side, p.Get(side).(isSet := true));
    if p.Other(side).isSet then q else q.(os := PipeSet(p.os))
  }

  function OrClear(p: Poll, side: Side): Poll
    requires MayClear(p.os)
  {
    var q := p.Put(side, p.Get(side).(isSet := false));
    if p.Other(side).isSet then q else q.(os := PipeClear(p.os))
  }

  datatype Op =
    | Feed(side: Side, data: seq<byte>)
    | Read(side: Side, nbytes: nat)
    | Empty(side: Side)
    | Close(side: Side)
    | Eof

  function WithBuffer(p: Poll, side: Side, b: seq<byte>): Poll {
    p.Put(side, p.Get(side).(buffer := b))
  }

  function TakeAll(p: Poll, side: Side): Poll
    requires MayClear(p.os)
  {
    var q := WithBuffer(p, side, []);
    if p.Get(side).closed then q else OrClear(q, side)
  }

  function CloseHalf(p: Poll, side: Side): Poll {
    OrSet(p.Put(side, p.Get(side).(closed := true)), side)
  }

  function Apply(p: Poll, op: Op): Poll
    requires MayClear(p.os)
  {
    match op
    case Feed(side, data) => WithBuffer(OrSet(p, side), side, p.Get(side).buffer + data)
    case Read(side, n) =>
      var b := p.Get(side).buffer;
      if b == [] then p
      else if |b| <= n then TakeAll(p, side)
      else WithBuffer(p, side, b[n..])
    case Empty(side) => TakeAll(p, side)
    case Close(side) => CloseHalf(p, side)
    case Eof =>
      var q := CloseHalf(CloseHalf(p, Out), Err);
      q.(os := PipeSetForever(q.os))
  }

  /** What a read returns: a blocked read waits, or raises PipeTimeout. */
  datatype ReadResult = Data(bytes: seq<byte>) | Blocked

  function ReadResultOf(h: Half, n: nat): ReadResult {
    if h.buffer == [] then (if h.closed then Data([]) else Blocked)
    else if |h.buffer| <= n then Data(h.buffer) else Data(h.buffer[..n])
  }

  // ---------- the invariant ----------

  predicate Ready(h: Half) {
    h.buffer != [] || h.closed
  }

  /** The pipe holds one byte exactly when one of the two OrPipes is set (or it is set for ever),
      and an OrPipe is set whenever its buffer has something to say. */
  predicate Inv(p: Poll) {
    && !p.os.closed
    && (p.os.isSet <==> p.out.isSet || p.err.isSet || p.os.forever)
    && p.os.level == (if p.os.isSet then 1 else 0)
    && (Ready(p.out) ==> p.out.isSet)
    && (Ready(p.err) ==> p.err.isSet)
    && (p.os.forever ==> p.out.closed && p.err.closed)
  }

  /** No OrPipe is set without a reason. */
  predicate Exact(p: Poll) {
    (p.out.isSet ==> Ready(p.out)) && (p.err.isSet ==> Ready(p.err))
  }

  /** A zero-length feed of an idle open buffer: BufferedPipe.feed sets the event all the same. */
  predicate Spurious(p: Poll, op: Op) {
    op.Feed? && op.data == [] && !Ready(p.Get(op.side))
  }

  /** Every operation keeps the invariant. It also keeps the descriptor exact, unless it is a
      zero-length feed of an idle buffer: then, and only then, the descriptor polls readable
      with nothing to read. */
  lemma StepKeepsInv(p: Poll, op: Op)
    requires Inv(p)
    ensures Inv(Apply(p, op))
    ensures Exact(p) ==> (Exact(Apply(p, op)) <==> !Spurious(p, op))
  {
  }

  // ---------- whole runs ----------

  function Initial(out: Half, err: Half): Poll {
    Poll(OsPipe(0, false, false, false), out.(isSet := false), err.(isSet := false))
  }

  /** BufferedPipe.set_event: start set when there is something to say, clear otherwise. */
  function SetEvent(p: Poll, side: Side): Poll
    requires MayClear(p.os)
  {
    if Ready(p.Get(side)) then OrSet(p, side) else OrClear(p, side)
  }

  function AfterFileno(out: Half, err: Half): Poll {
    SetEvent(SetEvent(Initial(out, err), Out), Err)
  }

  ghost predicate Run(p: Poll, ops: seq<Op>, q: Poll)
    decreases |ops|
  {
    if ops == [] then p == q else MayClear(p.os) && Run(Apply(p, ops[0]), ops[1..], q)
  }

  ghost predicate NeverSpurious(p: Poll, ops: seq<Op>)
    decreases |ops|
  {
    ops != [] && MayClear(p.os) ==>
      !Spurious(p, ops[0]) && NeverSpurious(Apply(p, ops[0]), ops[1..])
  }

  lemma {:induction false} RunKeepsInv(p: Poll, ops: seq<Op>, q: Poll)
    requires Inv(p) && Run(p, ops, q)
    ensures Inv(q)
    ensures Exact(p) && NeverSpurious(p, ops) ==> Exact(q)
    decreases |ops|
  {
    if ops != [] {
      StepKeepsInv(p, ops[0]);
      RunKeepsInv(Apply(p, ops[0]), ops[1..], q);
    }
  }

  /** The pollable descriptor: whatever was buffered when fileno() was first called and whatever
      runs after it, the OS pipe holds one byte whenever a buffer has data or is closed, never more
      than one, and none otherwise provided no idle buffer was fed an empty string. */
  lemma DescriptorIsFaithful(out: Half, err: Half, ops: seq<Op>, q: Poll)
    requires Run(AfterFileno(out, err), ops, q)
    ensures q.os.level <= 1 && MayClear(q.os)
    ensures Ready(q.out) || Ready(q.err) ==> q.os.level == 1
    ensures NeverSpurious(AfterFileno(out, err), ops) && !Ready(q.out) && !Ready(q.err)
            ==> q.os.level == 0
  {
    RunKeepsInv(AfterFileno(out, err), ops, q);
  }

  /** The failing case, concretely: an empty CHANNEL_DATA makes select() report a read that blocks. */
  lemma EmptyFeedIsSpurious()
    ensures var p := AfterFileno(Half([], false, false), Half([], false, false));
            var q := Apply(p, Feed(Out, []));
            q.os.level == 1 && ReadResultOf(q.out, 100) == Blocked
  {
  }

  // ---------- the bytes ----------

  /** What is fed to one side over a run. */
  function Fed(ops: seq<Op>, side: Side): seq<byte> {
    if ops == [] then []
    else (if ops[0].Feed? && ops[0].side == side then ops[0].data else []) + Fed(ops[1..], side)
  }

  /** What one operation hands to the reader of a side. */
  function Handed(p: Poll, op: Op, side: Side): seq<byte> {
    match op
    case Read(s, n) =>
      if s != side then []
      else
        var r := ReadResultOf(p.Get(side), n);
        if r.Data? then r.bytes else []
    case Empty(s) => if s == side then p.Get(side).buffer else []
    case _ => []
  }

  ghost function HandedOver(p: Poll, ops: seq<Op>, side: Side): seq<byte>
    decreases |ops|
  {
    if ops == [] || !MayClear(p.os) then []
    else Handed(p, ops[0], side) + HandedOver(Apply(p, ops[0]), ops[1..], side)
  }

  lemma StepKeepsBytes(p: Poll, op: Op, side: Side)
    requires MayClear(p.os)
    ensures Handed(p, op, side) + Apply(p, op).Get(side).buffer
         == p.Get(side).buffer + if op.Feed? && op.side == side then op.data else []
  {
  }

  /** Over any run, on either side: the bytes read, in order, followed by those still buffered, are those buffered
      at first followed by those fed. */
  lemma {:induction false} BytesArriveInOrder(p: Poll, ops: seq<Op>, q: Poll, side: Side)
    requires Run(p, ops, q)
    ensures HandedOver(p, ops, side) + q.Get(side).buffer == p.Get(side).buffer + Fed(ops, side)
    decreases |ops|
  {
    if ops != [] {
      StepKeepsBytes(p, ops[0], side);
      var next := Apply(p, ops[0]);
      var fed := if ops[0].Feed? && ops[0].side == side then ops[0].data else [];
      hide Apply, Handed;
      BytesArriveInOrder(next, ops[1..], q, side);
      Shuffle(Handed(p, ops[0], side), HandedOver(next, ops[1..], side), next.Get(side).buffer,
              q.Get(side).buffer, p.Get(side).buffer, fed, Fed(ops[1..], side));
    }
  }

  lemma Shuffle(now: seq<byte>, later: seq<byte>, next: seq<byte>, last: seq<byte>, first: seq<byte>,
                fed: seq<byte>, rest: seq<byte>)
    requires now + next == first + fed && later + last == next + rest
    ensures (now + later) + last == first + (fed + rest)
  {
    assert (now + later) + last == now + (later + last);
    assert now + (next + rest) == (now + next) + rest;
    assert (first + fed) + rest == first + (fed + rest);
  }

  // ---------- the classes ----------

  class PosixPipe {
    var level: nat
    var isSet: bool
    var forever: bool
    var closed: bool

    function State(): OsPipe
      reads this
    {
      OsPipe(level, isSet, forever, closed)
    }

    constructor ()
      ensures State() == OsPipe(0, false, false, false)
    {
      level, isSet, forever, closed := 0, false, false, false;
    }

    method Clear()
      requires MayClear(State())
      modifies this
      ensures State() == PipeClear(old(State()))
    {
      if !isSet || forever {
        return;
      }
      level := level - 1;
      isSet := false;
    }

    method Set()
      modifies this
      ensures State() == PipeSet(old(State()))
    {
      if isSet || closed {
        return;
      }
      isSet := true;
      level := level + 1;
    }

    method SetForever()
      modifies this
      ensures State() == PipeSetForever(old(State()))
    {
      forever := true;
      Set();
    }
  }

  class OrPipe {
    var isSet: bool
    var partner: OrPipe?
    const pipe: PosixPipe

    constructor (pipe: PosixPipe)
      ensures !isSet && partner == null && this.pipe == pipe
    {
      isSet, partner := false, null;
      this.pipe := pipe;
    }

    ghost predicate Paired()
      reads this
    {
      partner != null && partner != this
    }

    method Set()
      requires Paired()
      modifies this`isSet, pipe
      ensures isSet
      ensures pipe.State() == if partner.isSet then old(pipe.State()) else PipeSet(old(pipe.State()))
    {
      isSet := true;
      if !partner.isSet {
        pipe.Set();
      }
    }

    method Clear()
      requires Paired() && MayClear(pipe.State())
      modifies this`isSet, pipe
      ensures !isSet
      ensures pipe.State() == if partner.isSet then old(pipe.State()) else PipeClear(old(pipe.State()))
    {
      isSet := false;
      if !partner.isSet {
        pipe.Clear();
      }
    }
  }

  /** make_or_pipe: two views of one pipe. */
  method MakeOrPipe(pipe: PosixPipe) returns (p1: OrPipe, p2: OrPipe)
    ensures fresh(p1) && fresh(p2) && p1 != p2
    ensures p1.pipe == pipe && p2.pipe == pipe && p1.partner == p2 && p2.partner == p1
    ensures !p1.isSet && !p2.isSet
  {
    p1 := new OrPipe(pipe);
    p2 := new OrPipe(pipe);
    p1.partner := p2;
    p2.partner := p1;
  }

  class BufferedPipe {
    var event: OrPipe?
    var buffer: seq<byte>
    var closed: bool

    constructor ()
      ensures event == null && buffer == [] && !closed
    {
      event, buffer, closed := null, [], false;
    }
  }

  /** The part of a Channel that receives: its two buffers and the pipe behind fileno(). */
  class Receiver {
    const inBuffer: BufferedPipe
    const inStderrBuffer: BufferedPipe
    var pipe: PosixPipe?

    constructor ()
      ensures fresh(inBuffer) && fresh(inStderrBuffer) && inBuffer != inStderrBuffer && pipe == null
      ensures inBuffer.event == null && inStderrBuffer.event == null
      ensures !inBuffer.closed && !inStderrBuffer.closed
      ensures inBuffer.buffer == [] && inStderrBuffer.buffer == []
    {
      inBuffer := new BufferedPipe();
      inStderrBuffer := new BufferedPipe();
      pipe := null;
    }

    /** fileno() has been called: both buffers carry an OrPipe on the same OS pipe. */
    ghost predicate Wired()
      reads this, inBuffer, inStderrBuffer, inBuffer.event, inStderrBuffer.event
    {
      && inBuffer != inStderrBuffer
      && pipe != null && inBuffer.event != null && inStderrBuffer.event != null
      && inBuffer.event != inStderrBuffer.event
      && inBuffer.event.partner == inStderrBuffer.event
      && inStderrBuffer.event.partner == inBuffer.event
      && inBuffer.event.pipe == pipe && inStderrBuffer.event.pipe == pipe
    }

    ghost function Footprint(): set<object>
      requires Wired()
      reads this, inBuffer, inStderrBuffer, inBuffer.event, inStderrBuffer.event
    {
      {inBuffer, inStderrBuffer, inBuffer.event, inStderrBuffer.event, pipe}
    }

    ghost function View(): Poll
      requires Wired()
      reads this, inBuffer, inStderrBuffer, inBuffer.event, inStderrBuffer.event, pipe
    {
      Poll(pipe.State(),
           Half(inBuffer.buffer, inBuffer.closed, inBuffer.event.isSet),
           Half(inStderrBuffer.buffer, inStderrBuffer.closed, inStderrBuffer.event.isSet))
    }

    function BufferOf(side: Side): BufferedPipe {
      if side.Out? then inBuffer else inStderrBuffer
    }

    method Fileno()
      requires pipe == null && inBuffer != inStderrBuffer
      modifies this, inBuffer, inStderrBuffer
      ensures Wired() && fresh(Footprint() - {inBuffer, inStderrBuffer})
      ensures View() == AfterFileno(
        Half(old(inBuffer.buffer), old(inBuffer.closed), false),
        Half(old(inStderrBuffer.buffer), old(inStderrBuffer.closed), false))
      ensures Inv(View()) && Exact(View())
    {
      var p := new PosixPipe();
      pipe := p;
      var p1, p2 := MakeOrPipe(p);
      inBuffer.event := p1;
      inStderrBuffer.event := p2;
      AttachEvent(Out);
      AttachEvent(Err);
    }

    /** BufferedPipe.set_event, after the assignment of the event. */
    method AttachEvent(side: Side)
      requires Wired() && MayClear(View().os)
      modifies BufferOf(side).event, pipe
      ensures Wired() && View() == SetEvent(old(View()), side)
    {
      var b := BufferOf(side);
      if b.closed || |b.buffer| > 0 {
        b.event.Set();
      } else {
        b.event.Clear();
      }
    }

    method FeedBuffer(side: Side, data: seq<byte>)
      requires Wired() && Inv(View())
      modifies Footprint()
      ensures Wired() && View() == Apply(old(View()), Feed(side, data))
      ensures Inv(View())
    {
      var b := BufferOf(side);
      StepKeepsInv(View(), Feed(side, data));
      b.event.Set();
      b.buffer := b.buffer + data;
    }

    method ReadBuffer(side: Side, nbytes: nat) returns (r: ReadResult)
      requires Wired() && Inv(View())
      modifies Footprint()
      ensures Wired() && View() == Apply(old(View()), Read(side, nbytes))
      ensures r == ReadResultOf(old(View()).Get(side), nbytes)
      ensures r.Data? ==> r.bytes + BufferOf(side).buffer == old(BufferOf(side).buffer) && |r.bytes| <= nbytes
      ensures r.Data? && |r.bytes| < nbytes ==> BufferOf(side).buffer == []
      ensures r.Blocked? <==> old(BufferOf(side).buffer == [] && !BufferOf(side).closed)
      ensures Inv(View())
    {
      var b := BufferOf(side);
      StepKeepsInv(View(), Read(side, nbytes));
      if |b.buffer| == 0 {
        return if b.closed then Data([]) else Blocked;
      }
      if |b.buffer| <= nbytes {
        r := Data(b.buffer);
        b.buffer := [];
        if !b.closed {
          b.event.Clear();
        }
      } else {
        r := Data(b.buffer[..nbytes]);
        b.buffer := b.buffer[nbytes..];
      }
    }

    method EmptyBuffer(side: Side) returns (data: seq<byte>)
      requires Wired() && Inv(View())
      modifies Footprint()
      ensures Wired() && View() == Apply(old(View()), Empty(side))
      ensures data == old(View()).Get(side).buffer
      ensures Inv(View())
    {
      var b := BufferOf(side);
      StepKeepsInv(View(), Empty(side));
      data := b.buffer;
      b.buffer := [];
      if !b.closed {
        b.event.Clear();
      }
    }

    method CloseBuffer(side: Side)
      requires Wired()
      modifies Footprint()
      ensures Wired() && View() == CloseHalf(old(View()), side)
      ensures fresh(Footprint() - old(Footprint()))
    {
      var b := BufferOf(side);
      b.closed := true;
      b.event.Set();
    }

    method HandleEof()
      requires Wired() && Inv(View())
      modifies Footprint()
      ensures Wired() && View() == Apply(old(View()), Eof)
      ensures Inv(View())
    {
      StepKeepsInv(View(), Eof);
      CloseBuffer(Out);
      CloseBuffer(Err);
      pipe.SetForever();
    }
  }
}
