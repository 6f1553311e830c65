/** paramiko/transport.py: the allocation of channel ids. */
module ChannelIds {

  const M: int := 0x100_0000

  predicate HasFree(live: set<int>) {
    exists f :: 0 <= f < M && f !in live
  }

  /** How far id lies after the counter, going round. */
  function Distance(counter: int, id: int): (d: int)
    ensures 0 <= d < M
  {
    (id - counter) % M
  }

  /** The first free id at or after the counter, going round. */
  ghost function FirstFree(counter: int, live: set<int>): (id: int)
    requires 0 <= counter < M && HasFree(live)
    ensures 0 <= id < M && id !in live
    ensures forall x :: 0 <= x < M && Distance(counter, x) < Distance(counter, id) ==> x in live
  {
    var f :| 0 <= f < M && f !in live;
    Nearest(counter, live, f)
  }

  /** From a free id back to the nearest one. */
  ghost function Nearest(counter: int, live: set<int>, f: int): (id: int)
    requires 0 <= counter < M && 0 <= f < M && f !in live
    ensures 0 <= id < M && id !in live
    ensures forall x :: 0 <= x < M && Distance(counter, x) < Distance(counter, id) ==> x in live
    decreases Distance(counter, f)
  {
    if x :| 0 <= x < M && x !in live && Distance(counter, x) < Distance(counter, f) then Nearest(counter, live, x) else f
  }

  lemma DistanceInjective(counter: int, x: int, y: int)
    requires 0 <= counter < M && 0 <= x < M && 0 <= y < M && Distance(counter, x) == Distance(counter, y)
    ensures x == y
  {
  }

  class Allocator<T> {
    var channelCounter: int
    var channels: map<int, T>

    constructor ()
      ensures Valid() && channels == map[]
    {
      channelCounter, channels := 0, map[];
    }

    predicate Valid()
      reads this
    {
      0 <= channelCounter < M && forall id :: id in channels ==> 0 <= id < M
    }

    /** _next_channel: its loop ends exactly when some id is free, and finds the first such. */
    method NextChannel() returns (chanid: int)
      requires Valid() && HasFree(channels.Keys)
      modifies this`channelCounter
      ensures Valid() && chanid == FirstFree(old(channelCounter), channels.Keys)
      ensures channelCounter == (chanid + 1) % M
    {
      ghost var start := channelCounter;
      ghost var target := FirstFree(start, channels.Keys);
      chanid := channelCounter;
      while chanid in channels
        invariant Valid() && chanid == channelCounter
        invariant Distance(start, chanid) <= Distance(start, target)
        decreases Distance(start, target) - Distance(start, chanid)
      {
        Forward(start, chanid, target);
        channelCounter := (channelCounter + 1) % M;
        chanid := channelCounter;
      }
      if chanid != target {
        Forward(start, chanid, target);
      }
      channelCounter := (channelCounter + 1) % M;
    }

    /** Allocation and put under one lock: no live channel is ever replaced. */
    method OpenChannel(chan: T) returns (chanid: int)
      requires Valid() && HasFree(channels.Keys)
      modifies this
      ensures Valid() && chanid !in old(channels) && channels == old(channels)[chanid := chan]
      ensures chanid == FirstFree(old(channelCounter), old(channels.Keys)) && channelCounter == (chanid + 1) % M
    {
      chanid := NextChannel();
      channels := channels[chanid := chan];
    }

    method UnlinkChannel(chanid: int)
      requires Valid()
      modifies this`channels
      ensures Valid() && channels == old(channels) - {chanid}
    {
      channels := channels - {chanid};
    }
  }

  lemma Forward(start: int, id: int, target: int)
    requires 0 <= start < M && 0 <= id < M && 0 <= target < M && id != target && Distance(start, id) <= Distance(start, target)
    ensures Distance(start, (id + 1) % M) == Distance(start, id) + 1 <= Distance(start, target)
  {
    if Distance(start, id) == Distance(start, target) {
      DistanceInjective(start, id, target);
    }
  }

  /** Fewer than 2^24 live channels leave an id free. */
  lemma RoomLeft(live: set<int>)
    requires |live| < M
    ensures HasFree(live)
  {
    if !HasFree(live) {
      Full(live, M);
    }
  }

  lemma {:induction false} Full(live: set<int>, n: nat)
    requires forall f :: 0 <= f < n ==> f in live
    ensures |live| >= n
    decreases n
  {
    if n > 0 {
      var rest := live - {n - 1};
      Full(rest, n - 1);
      assert |rest| == |live| - 1;
    }
  }

  /** Two allocations without a put in between still differ, unless the first took the last free id:
      only then does the second hand out the same one. */
  lemma TwoAllocations(counter: int, live: set<int>)
    requires 0 <= counter < M && HasFree(live)
    ensures var a := FirstFree(counter, live);
            var b := FirstFree((a + 1) % M, live);
      a == b <==> forall f :: 0 <= f < M && f != a ==> f in live
  {
    var a := FirstFree(counter, live);
    var c := (a + 1) % M;
    var b := FirstFree(c, live);
    if a == b {
      forall f | 0 <= f < M && f != a ensures f in live {
        JustBehind(a, f);
      }
    }
  }

  lemma JustBehind(a: int, f: int)
    requires 0 <= a < M && 0 <= f < M && f != a
    ensures var c := (a + 1) % M; Distance(c, f) < Distance(c, a)
  {
    var c := (a + 1) % M;
    assert Distance(c, a) == M - 1;
    if Distance(c, f) == M - 1 {
      DistanceInjective(c, a, f);
    }
  }
}
