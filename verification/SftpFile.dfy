/** paramiko/sftp_file.py: positional reads of a remote file through a read-ahead cache that is
    filled by responses in any order and of any non-zero length. */
module SftpFiles {
  import opened Options
  import opened Bytes

  const MAX_REQUEST_SIZE: nat := 32768

  /** A read request of the prefetch thread. Once the server has refused it, it stays in
      _prefetch_extents although no data will come. */
  datatype Extent = Extent(num: nat, off: nat, len: nat, answered: bool)

  datatype Chunk = Chunk(off: nat, len: nat)

  function Min(a: int, b: int): int {
    if a < b then a else b
  }

  /** A plain positional read. */
  function Slice(file: seq<byte>, pos: nat, n: nat): seq<byte> {
    if pos >= |file| then [] else file[pos..Min(pos + n, |file|)]
  }

  // ---------- the coverage test ----------

  /** k[-1] after the stable sort: the extent starting last at or before the offset, the
      latest in insertion order among equals. */
  function LastBefore(extents: seq<Extent>, offset: nat): (r: Option<Extent>)
    ensures r.Some? ==> r.value in extents && r.value.off <= offset
    ensures forall e :: e in extents && e.off <= offset ==> r.Some? && e.off <= r.value.off
  {
    if extents == [] then None
    else
      var e := extents[|extents| - 1];
      var r := LastBefore(extents[..|extents| - 1], offset);
      if e.off <= offset && (r.None? || r.value.off <= e.off) then Some(e) else r
  }

  /** _data_in_prefetch_requests; the recursion ends because the rest asked for shrinks. */
  predicate InRequests(extents: seq<Extent>, offset: nat, size: nat)
    decreases size
  {
    var r := LastBefore(extents, offset);
    if r.None? || r.value.off + r.value.len <= offset then false
    else
      var end := r.value.off + r.value.len;
      if end >= offset + size then true else InRequests(extents, end, offset + size - end)
  }

  predicate Covers(e: Extent, x: nat) {
    e.off <= x < e.off + e.len
  }

  /** A positive answer is never wrong: every byte asked for lies in a pending extent. */
  lemma {:induction false} InRequestsIsSound(extents: seq<Extent>, offset: nat, size: nat, x: nat)
    requires InRequests(extents, offset, size) && offset <= x < offset + size
    ensures exists e :: e in extents && Covers(e, x)
    decreases size
  {
    var e := LastBefore(extents, offset).value;
    if x < e.off + e.len {
      assert Covers(e, x);
    } else {
      InRequestsIsSound(extents, e.off + e.len, offset + size - e.off - e.len, x);
    }
  }

  ghost predicate AnyCovers(extents: seq<Extent>, x: nat) {
    exists e :: e in extents && Covers(e, x)
  }

  /** The only extent the test looks at for a byte covers it. */
  predicate PickCovers(extents: seq<Extent>, x: nat) {
    var r := LastBefore(extents, x);
    r.Some? && Covers(r.value, x)
  }

  ghost predicate AllCovered(extents: seq<Extent>, offset: nat, size: nat) {
    forall x: nat :: offset <= x < offset + size ==> AnyCovers(extents, x)
  }

  /** Where an extent ends within another, the extent that starts last before that point goes on. */
  ghost predicate HandedOn(extents: seq<Extent>) {
    forall e :: e in extents && AnyCovers(extents, e.off + e.len) ==> PickCovers(extents, e.off + e.len)
  }

  lemma {:induction false} SamePick(extents: seq<Extent>, y: nat, x: nat)
    requires y <= x && LastBefore(extents, x).Some? && LastBefore(extents, x).value.off <= y
    ensures LastBefore(extents, y) == LastBefore(extents, x)
  {
    if extents != [] {
      var init := extents[..|extents| - 1];
      var e := extents[|extents| - 1];
      if LastBefore(init, x).Some? && LastBefore(init, x).value.off <= y {
        SamePick(init, y, x);
      }
    }
  }

  lemma {:induction false} HandedOnAt(extents: seq<Extent>, e: Extent)
    requires HandedOn(extents) && e in extents && AnyCovers(extents, e.off + e.len)
    ensures PickCovers(extents, e.off + e.len)
  {
    hide AnyCovers, PickCovers;
  }

  lemma {:induction false} CoverEnds(extents: seq<Extent>, x: nat)
    requires AnyCovers(extents, x)
    ensures LastBefore(extents, x).Some?
    ensures var j := LastBefore(extents, x).value;
      j in extents && j.off <= x && (j.off + j.len <= x ==> AnyCovers(extents, j.off + j.len))
  {
    hide LastBefore;
    var e :| e in extents && Covers(e, x);
    var end := LastBefore(extents, x).value.off + LastBefore(extents, x).value.len;
    if end <= x {
      assert Covers(e, end);
    }
  }

  lemma {:induction false} PickAtCovered(extents: seq<Extent>, x: nat)
    requires HandedOn(extents) && AnyCovers(extents, x)
    ensures PickCovers(extents, x)
  {
    hide LastBefore, AnyCovers, HandedOn;
    CoverEnds(extents, x);
    var j := LastBefore(extents, x).value;
    var end := j.off + j.len;
    if end <= x {
      HandedOnAt(extents, j);
      SamePick(extents, end, x);
    }
  }

  lemma {:induction false} InRequestsStep(extents: seq<Extent>, offset: nat, size: nat)
    requires PickCovers(extents, offset)
    ensures LastBefore(extents, offset).Some?
    ensures var e := LastBefore(extents, offset).value;
      var end := e.off + e.len;
      && end > offset
      && (InRequests(extents, offset, size) <==> end >= offset + size || InRequests(extents, end, offset + size - end))
  {
    hide LastBefore;
  }

  lemma {:induction false} CoveredTail(extents: seq<Extent>, offset: nat, size: nat, end: nat)
    requires size > 0 && AllCovered(extents, offset, size) && end >= offset
    ensures AnyCovers(extents, offset)
    ensures end < offset + size ==> AllCovered(extents, end, offset + size - end)
  {
    hide AnyCovers;
  }

  lemma {:induction false} InRequestsIsComplete(extents: seq<Extent>, offset: nat, size: nat)
    requires HandedOn(extents) && size > 0 && AllCovered(extents, offset, size)
    ensures InRequests(extents, offset, size)
    decreases size
  {
    hide *;
    CoveredTail(extents, offset, size, offset);
    PickAtCovered(extents, offset);
    InRequestsStep(extents, offset, size);
    var e := LastBefore(extents, offset).value;
    var end := e.off + e.len;
    if end < offset + size {
      CoveredTail(extents, offset, size, end);
      InRequestsIsComplete(extents, end, offset + size - end);
    }
  }

  /** A negative answer can be wrong, since only the extent starting last is looked at. The test is
      right about every range if and only if the extents hand on to each other. */
  lemma {:induction false} InRequestsIsExactIff(extents: seq<Extent>)
    ensures (forall offset: nat, size: nat :: size > 0 ==>
              (InRequests(extents, offset, size) <==> AllCovered(extents, offset, size)))
      <==> HandedOn(extents)
  {
    if HandedOn(extents) {
      forall offset: nat, size: nat | size > 0
        ensures InRequests(extents, offset, size) <==> AllCovered(extents, offset, size)
      {
        if AllCovered(extents, offset, size) {
          InRequestsIsComplete(extents, offset, size);
        }
        if InRequests(extents, offset, size) {
          forall x: nat | offset <= x < offset + size ensures AnyCovers(extents, x) {
            InRequestsIsSound(extents, offset, size, x);
          }
        }
      }
    } else {
      var e :| e in extents && AnyCovers(extents, e.off + e.len) && !PickCovers(extents, e.off + e.len);
      var end := e.off + e.len;
      assert AllCovered(extents, end, 1);
      assert !InRequests(extents, end, 1);
    }
  }

  /** Extents of which none lies within another. */
  ghost predicate Unnested(extents: seq<Extent>) {
    forall d, e :: d in extents && e in extents && d.off <= e.off ==> d.off + d.len <= e.off + e.len
  }

  lemma {:induction false} UnnestedIsExact(extents: seq<Extent>, offset: nat, size: nat)
    requires Unnested(extents) && size > 0
    ensures InRequests(extents, offset, size) <==> AllCovered(extents, offset, size)
  {
    forall e | e in extents && AnyCovers(extents, e.off + e.len) ensures PickCovers(extents, e.off + e.len) {
      var end := e.off + e.len;
      var d :| d in extents && Covers(d, end);
      assert d.off > e.off;
      var p := LastBefore(extents, end).value;
      assert d.off <= p.off;
    }
    InRequestsIsExactIff(extents);
  }

  /** Nesting alone does no harm, if another extent takes over where the inner one ends. */
  lemma {:induction false} NestedMayBeHandedOn()
    ensures var es := [Extent(0, 0, 100, false), Extent(1, 10, 10, false), Extent(2, 20, 80, false)];
      HandedOn(es) && !Unnested(es)
  {
    var es := [Extent(0, 0, 100, false), Extent(1, 10, 10, false), Extent(2, 20, 80, false)];
    assert es[..2] == [es[0], es[1]] && es[..2][..1] == [es[0]] && es[..1][..0] == [];
    assert es[0] in es && es[1] in es && es[2] in es;
    assert LastBefore([es[0]], 20) == Some(es[0]);
    assert LastBefore([es[0], es[1]], 20) == Some(es[1]);
    assert LastBefore(es, 20) == Some(es[2]);
    assert PickCovers(es, 20);
    assert forall e :: e in es ==> e == es[0] || e == es[1] || e == es[2];
    assert !AnyCovers(es, 100);
    assert es[0].off <= es[1].off && es[0].off + es[0].len > es[1].off + es[1].len;
  }

  // ---------- the cache ----------

  type Cache = map<nat, seq<byte>>

  /** Every cached buffer holds the bytes of the file at its key. */
  ghost predicate Genuine(cache: Cache, file: seq<byte>) {
    forall k :: k in cache ==> k + |cache[k]| <= |file| && file[k..k + |cache[k]|] == cache[k]
  }

  ghost predicate Cached(cache: Cache, x: nat) {
    exists k :: k in cache && k <= x < k + |cache[k]|
  }

  /** Some byte of a range is not cached. */
  ghost predicate HasGap(cache: Cache, from: nat, to: nat) {
    exists x: nat :: from <= x < to && !Cached(cache, x)
  }

  ghost predicate FirstGap(cache: Cache, c: Chunk) {
    HasGap(cache, c.off, c.off + c.len)
  }

  predicate IsLastKey(cache: Cache, offset: nat, k: nat) {
    k in cache && k <= offset && forall j :: j in cache && j <= offset ==> j <= k
  }

  lemma {:induction false} LastKeyExists(cache: Cache, keys: set<nat>, offset: nat, k: nat) returns (best: nat)
    requires keys <= cache.Keys && k in keys && k <= offset
    ensures best in keys && best <= offset && forall j :: j in keys && j <= offset ==> j <= best
    decreases keys
  {
    best := k;
    var rest := keys - {k};
    assert forall j :: j in keys ==> j == k || j in rest;
    if j :| j in rest && j <= offset {
      best := LastKeyExists(cache, rest, offset, j);
      if best < k {
        best := k;
      }
    }
  }

  /** _data_in_prefetch_buffers: the buffer with the last key at or before the offset, if it
      reaches that far. */
  method DataInPrefetchBuffers(cache: Cache, offset: nat) returns (r: Option<nat>)
    ensures r.Some? ==> IsLastKey(cache, offset, r.value) && offset < r.value + |cache[r.value]|
    ensures r.None? ==> forall k: nat :: IsLastKey(cache, offset, k) ==> k + |cache[k]| <= offset
  {
    if !exists k :: k in cache && k <= offset {
      return None;
    }
    ghost var k0 :| k0 in cache && k0 <= offset;
    ghost var best := LastKeyExists(cache, cache.Keys, offset, k0);
    assert IsLastKey(cache, offset, best);
    var index: nat :| index in cache && IsLastKey(cache, offset, index);
    if offset - index >= |cache[index]| {
      return None;
    }
    r := Some(index);
  }

  /** The end of _read_prefetch: cut the wanted bytes out of a buffer and put back what stands
      before and after them. */
  function Cut(cache: Cache, key: nat, pos: nat, size: nat): (seq<byte>, Cache)
    requires key in cache && key <= pos < key + |cache[key]|
  {
    var buf := cache[key];
    var c1 := cache - {key};
    var c2 := if pos > key then c1[key := buf[..pos - key]] else c1;
    var tail := buf[pos - key..];
    if size < |tail| then (tail[..size], c2[pos + size := tail[size..]]) else (tail, c2)
  }

  /** The bytes from a to b of a genuine buffer, as a buffer of their own. */
  ghost predicate PartOf(cache: Cache, file: seq<byte>, from: nat, part: seq<byte>) {
    && from + |part| <= |file| && file[from..from + |part|] == part
    && forall x: nat :: from <= x < from + |part| ==> Cached(cache, x)
  }

  lemma SliceOfSlice(s: seq<byte>, i: nat, j: nat, a: nat, b: nat)
    requires i <= j <= |s| && a <= b <= j - i
    ensures s[i..j][a..b] == s[i + a..i + b]
  {
    var l, r := s[i..j][a..b], s[i + a..i + b];
    forall k | 0 <= k < |l| ensures l[k] == r[k] {
      assert l[k] == s[i..j][a + k];
    }
  }

  lemma PartIsGenuine(cache: Cache, file: seq<byte>, key: nat, a: nat, b: nat)
    requires Genuine(cache, file) && key in cache && a <= b <= |cache[key]|
    ensures PartOf(cache, file, key + a, cache[key][a..b])
  {
    var whole := file[key..key + |cache[key]|];
    assert whole == cache[key];
    SliceOfSlice(file, key, key + |whole|, a, b);
    forall x | key + a <= x < key + b ensures Cached(cache, x) {
      assert key <= x < key + |cache[key]|;
    }
  }

  lemma AllParts(cache: Cache, file: seq<byte>, rest: Cache)
    requires forall k: nat :: k in rest ==> PartOf(cache, file, k, rest[k])
    ensures Genuine(rest, file) && forall x: nat :: Cached(rest, x) ==> Cached(cache, x)
  {
    forall x: nat | Cached(rest, x) ensures Cached(cache, x) {
      var k: nat :| k in rest && k <= x < k + |rest[k]|;
      assert PartOf(cache, file, k, rest[k]);
    }
  }

  /** What a cut leaves at key k: another buffer, the bytes before the cut, or those after it. */
  ghost predicate Leftover(cache: Cache, key: nat, a: nat, b: nat, k: nat, r: seq<byte>)
    requires key in cache && a <= b <= |cache[key]|
  {
    || (k in cache && r == cache[k])
    || (k == key && r == cache[key][0..a])
    || (k == key + b && r == cache[key][b..|cache[key]|])
  }

  lemma CutParts(cache: Cache, key: nat, pos: nat, size: nat)
    requires key in cache && key <= pos < key + |cache[key]| && size > 0
    ensures var (data, rest) := Cut(cache, key, pos, size);
      var a := pos - key;
      && 0 < |data| <= size && a + |data| <= |cache[key]| && data == cache[key][a..a + |data|]
      && forall k: nat :: k in rest ==> Leftover(cache, key, a, a + |data|, k, rest[k])
  {
    var (data, rest) := Cut(cache, key, pos, size);
    var buf, a := cache[key], pos - key;
    assert data == buf[a..a + |data|];
    assert buf[a..][|data|..] == buf[a + |data|..|buf|];
    assert buf[0..a] == buf[..a];
  }

  lemma LeftoverIsPart(cache: Cache, file: seq<byte>, key: nat, a: nat, b: nat, k: nat, r: seq<byte>)
    requires Genuine(cache, file) && key in cache && a <= b <= |cache[key]|
    requires Leftover(cache, key, a, b, k, r)
    ensures PartOf(cache, file, k, r)
  {
    hide Genuine, PartOf;
    PartIsGenuine(cache, file, key, b, |cache[key]|);
    PartIsGenuine(cache, file, key, 0, a);
    if k in cache {
      PartIsGenuine(cache, file, k, 0, |cache[k]|);
      assert cache[k][0..|cache[k]|] == cache[k];
    }
  }

  lemma CutIsGenuine(cache: Cache, file: seq<byte>, key: nat, pos: nat, size: nat)
    requires Genuine(cache, file) && key in cache && key <= pos < key + |cache[key]|
    requires size > 0
    ensures var (data, rest) := Cut(cache, key, pos, size);
      && 0 < |data| <= size
      && PartOf(cache, file, pos, data)
      && Genuine(rest, file)
      && forall x: nat :: Cached(rest, x) ==> Cached(cache, x)
  {
    hide Genuine, PartOf, Cached, Cut, Leftover;
    var (data, rest) := Cut(cache, key, pos, size);
    CutParts(cache, key, pos, size);
    PartIsGenuine(cache, file, key, pos - key, pos - key + |data|);
    forall k: nat | k in rest ensures PartOf(cache, file, k, rest[k]) {
      LeftoverIsPart(cache, file, key, pos - key, pos - key + |data|, k, rest[k]);
    }
    AllParts(cache, file, rest);
  }

  // ---------- reading from the cache alone ----------

  /** The buffer a read at pos is served from. */
  ghost predicate Serves(cache: Cache, pos: nat, k: nat) {
    IsLastKey(cache, pos, k) && pos < k + |cache[k]|
  }

  ghost predicate Servable(cache: Cache, pos: nat) {
    exists k :: Serves(cache, pos, k)
  }

  ghost function KeyFor(cache: Cache, pos: nat): (k: nat)
    requires Servable(cache, pos)
    ensures Serves(cache, pos, k)
  {
    var k :| Serves(cache, pos, k);
    k
  }

  function AskFor(size: nat, least: nat): (n: nat)
    ensures size > 0 ==> 0 < n <= MAX_REQUEST_SIZE
    ensures least <= size ==> n <= size
  {
    Min(if size < least then least else size, MAX_REQUEST_SIZE)
  }

  /** What is left of the cache when size bytes from pos are served from it, one last buffer at or before
      the position after another; None where there is no such buffer. A buffered file asks for
      at least as much as its buffer holds, and a read takes what it gets out of the cache. */
  ghost function Drain(cache: Cache, pos: nat, size: nat, least: nat): Option<Cache>
    decreases size
  {
    if size == 0 then Some(cache)
    else if !Servable(cache, pos) then None
    else
      var (data, rest) := Cut(cache, KeyFor(cache, pos), pos, AskFor(size, least));
      if |data| >= size then Some(rest)
      else if data == [] then None
      else Drain(rest, pos + |data|, size - |data|, least)
  }

  ghost function DrainAll(cache: Cache, chunks: seq<Chunk>, least: nat): Option<Cache>
    decreases |chunks|
  {
    if chunks == [] then Some(cache)
    else
      var r := Drain(cache, chunks[0].off, chunks[0].len, least);
      if r.None? then None else DrainAll(r.value, chunks[1..], least)
  }

  ghost predicate AllCached(cache: Cache, from: nat, to: nat) {
    forall x: nat :: from <= x < to ==> Cached(cache, x)
  }

  lemma {:induction false} DrainIsCached(cache: Cache, file: seq<byte>, pos: nat, size: nat, least: nat)
    requires Genuine(cache, file) && Drain(cache, pos, size, least).Some?
    ensures AllCached(cache, pos, pos + size)
    decreases size
  {
    if size > 0 {
      var k, n := KeyFor(cache, pos), AskFor(size, least);
      CutIsGenuine(cache, file, k, pos, n);
      var (data, rest) := Cut(cache, k, pos, n);
      hide Genuine, Cached, Serves, Cut;
      if |data| < size {
        DrainIsCached(rest, file, pos + |data|, size - |data|, least);
      }
    }
  }

  /** Buffers that do not overlap, as prefetching any range once leaves them. */
  ghost predicate Tidy(cache: Cache) {
    forall j, k :: j in cache && k in cache && j < k ==> j + |cache[j]| <= k
  }

  lemma {:induction false} TidyServes(cache: Cache, pos: nat)
    requires Tidy(cache)
    ensures Servable(cache, pos) <==> Cached(cache, pos)
  {
    if Cached(cache, pos) {
      var k: nat :| k in cache && k <= pos < k + |cache[k]|;
      var best := LastKeyExists(cache, cache.Keys, pos, k);
      assert IsLastKey(cache, pos, best);
      assert Serves(cache, pos, best);
    }
    if Servable(cache, pos) {
      var k := KeyFor(cache, pos);
      assert k in cache && k <= pos < k + |cache[k]|;
    }
  }

  /** The cache after a cut, key by key. */
  lemma {:induction false} CutKeys(cache: Cache, key: nat, pos: nat, size: nat)
    requires Tidy(cache) && Serves(cache, pos, key) && size > 0
    ensures var (data, rest) := Cut(cache, key, pos, size);
      var end := key + |cache[key]|;
      && 0 < |data| <= size && pos + |data| <= end
      && (forall j: nat :: j in rest <==> (j in cache && j != key) || (j == key && key < pos) || (j == pos + |data| && pos + |data| < end))
      && (forall j: nat :: j in cache && j != key && j in rest ==> rest[j] == cache[j])
      && (key < pos ==> key in rest && |rest[key]| == pos - key)
      && (pos + |data| < end ==> pos + |data| in rest && |rest[pos + |data|]| == end - pos - |data|)
  {
    var (data, rest) := Cut(cache, key, pos, size);
    if pos + size < key + |cache[key]| {
      assert pos + size !in cache || pos + size == key;
    }
  }

  /** rest holds the buffers of cache, but of the one at key only what lies before pos and from cut on. */
  ghost predicate WithoutMiddle(cache: Cache, key: nat, pos: nat, cut: nat, rest: Cache)
    requires key in cache
  {
    var end := key + |cache[key]|;
    && (forall j: nat :: j in rest <==> (j in cache && j != key) || (j == key && key < pos) || (j == cut && cut < end))
    && (forall j: nat :: j in cache && j != key && j in rest ==> rest[j] == cache[j])
    && (key < pos ==> key in rest && |rest[key]| == pos - key)
    && (cut < end ==> cut in rest && |rest[cut]| == end - cut)
  }

  lemma {:induction false} WithoutMiddleTidy(cache: Cache, key: nat, pos: nat, cut: nat, rest: Cache)
    requires Tidy(cache) && key in cache && key <= pos < cut <= key + |cache[key]|
    requires WithoutMiddle(cache, key, pos, cut, rest)
    ensures Tidy(rest)
  {
    var end := key + |cache[key]|;
    forall j, k | j in rest && k in rest && j < k ensures j + |rest[j]| <= k {
      assert j in cache || j == cut;
      assert k in cache || k == cut;
    }
  }

  lemma {:induction false} StillCached(cache: Cache, key: nat, pos: nat, cut: nat, rest: Cache, x: nat)
    requires Tidy(cache) && key in cache && key <= pos < cut <= key + |cache[key]|
    requires WithoutMiddle(cache, key, pos, cut, rest)
    requires Cached(cache, x) && !(pos <= x < cut)
    ensures Cached(rest, x)
  {
    var j: nat :| j in cache && j <= x < j + |cache[j]|;
    if j == key {
      var at := if x < pos then key else cut;
      assert at in rest && at <= x < at + |rest[at]|;
    } else {
      assert j in rest && j <= x < j + |rest[j]|;
    }
  }

  lemma {:induction false} WasCached(cache: Cache, key: nat, pos: nat, cut: nat, rest: Cache, x: nat)
    requires Tidy(cache) && key in cache && key <= pos < cut <= key + |cache[key]|
    requires WithoutMiddle(cache, key, pos, cut, rest)
    requires Cached(rest, x)
    ensures Cached(cache, x) && !(pos <= x < cut)
  {
    var end := key + |cache[key]|;
    var j: nat :| j in rest && j <= x < j + |rest[j]|;
    var at := if (j == cut && cut < end) || j == key then key else j;
    assert at in cache && at <= x < at + |cache[at]|;
  }

  /** The bytes of a range, and no others, have left the cache, which is still tidy. */
  ghost predicate Drained(cache: Cache, from: nat, to: nat, rest: Cache) {
    Tidy(rest) && forall x: nat :: Cached(rest, x) <==> Cached(cache, x) && !(from <= x < to)
  }

  lemma {:induction false} DrainedOn(cache: Cache, from: nat, mid: nat, to: nat, rest: Cache, last: Cache)
    requires from <= mid <= to && Drained(cache, from, mid, rest)
    ensures Drained(rest, mid, to, last) ==> Drained(cache, from, to, last)
    ensures AllCached(cache, from, mid) ==> (AllCached(rest, mid, to) <==> AllCached(cache, from, to))
  {
    hide Cached, Tidy;
  }

  lemma {:induction false} CutTidy(cache: Cache, key: nat, pos: nat, size: nat)
    requires Tidy(cache) && Serves(cache, pos, key) && size > 0
    ensures var (data, rest) := Cut(cache, key, pos, size);
      0 < |data| <= size && Drained(cache, pos, pos + |data|, rest)
  {
    CutKeys(cache, key, pos, size);
    var (data, rest) := Cut(cache, key, pos, size);
    var cut := pos + |data|;
    assert key in cache && key <= pos < cut <= key + |cache[key]|;
    assert WithoutMiddle(cache, key, pos, cut, rest);
    hide Cut, WithoutMiddle, Tidy, Cached, Serves;
    WithoutMiddleTidy(cache, key, pos, cut, rest);
    forall x: nat ensures Cached(rest, x) <==> Cached(cache, x) && !(pos <= x < cut) {
      if Cached(rest, x) {
        WasCached(cache, key, pos, cut, rest, x);
      }
      if Cached(cache, x) && !(pos <= x < cut) {
        StillCached(cache, key, pos, cut, rest, x);
      }
    }
  }

  /** With buffers that do not overlap and no read buffer in between, a range is served exactly if every
      byte of it is cached, and those bytes, no others, then leave the cache. */
  lemma {:induction false} DrainTidy(cache: Cache, pos: nat, size: nat)
    requires Tidy(cache)
    ensures var r := Drain(cache, pos, size, 0);
      && (r.Some? <==> AllCached(cache, pos, pos + size))
      && (r.Some? ==> Drained(cache, pos, pos + size, r.value))
    decreases size
  {
    hide Drain, Cut, Drained, Tidy, Cached, Servable;
    NothingToDrain(cache, pos);
    if size > 0 {
      TidyServes(cache, pos);
      if Servable(cache, pos) {
        TidyStep(cache, pos, size);
        var (data, rest) := Cut(cache, KeyFor(cache, pos), pos, AskFor(size, 0));
        if |data| < size {
          DrainTidy(rest, pos + |data|, size - |data|);
          var r := Drain(rest, pos + |data|, size - |data|, 0);
          DrainedOn(cache, pos, pos + |data|, pos + size, rest, if r.Some? then r.value else rest);
        }
      } else {
        NotServed(cache, pos, size, 0);
      }
    }
  }

  lemma NothingToDrain(cache: Cache, pos: nat)
    ensures Drain(cache, pos, 0, 0) == Some(cache)
    ensures Tidy(cache) ==> Drained(cache, pos, pos, cache)
  {
  }

  lemma NotServed(cache: Cache, pos: nat, size: nat, least: nat)
    requires size > 0 && !Servable(cache, pos)
    ensures Drain(cache, pos, size, least).None?
  {
  }

  lemma {:induction false} TidyStep(cache: Cache, pos: nat, size: nat)
    requires Tidy(cache) && size > 0 && Servable(cache, pos)
    ensures var (data, rest) := Cut(cache, KeyFor(cache, pos), pos, AskFor(size, 0));
      && 0 < |data| <= size && Tidy(rest) && Drained(cache, pos, pos + |data|, rest)
      && AllCached(cache, pos, pos + |data|)
      && Drain(cache, pos, size, 0) == if |data| >= size then Some(rest) else Drain(rest, pos + |data|, size - |data|, 0)
  {
    hide Drain, Cut, Tidy, Cached, Serves, Servable;
    DrainOnce(cache, pos, size, 0);
    var k, n := KeyFor(cache, pos), AskFor(size, 0);
    CutTidy(cache, k, pos, n);
    ServedPart(cache, k, pos, n);
  }

  lemma {:induction false} DrainOnce(cache: Cache, pos: nat, size: nat, least: nat)
    requires size > 0 && Servable(cache, pos)
    ensures var (data, rest) := Cut(cache, KeyFor(cache, pos), pos, AskFor(size, least));
      data != [] && Drain(cache, pos, size, least) == if |data| >= size then Some(rest) else Drain(rest, pos + |data|, size - |data|, least)
  {
    CutParts(cache, KeyFor(cache, pos), pos, AskFor(size, least));
    hide Cut;
  }

  lemma {:induction false} ServedPart(cache: Cache, key: nat, pos: nat, size: nat)
    requires Serves(cache, pos, key) && size > 0
    ensures AllCached(cache, pos, pos + |Cut(cache, key, pos, size).0|)
  {
    var data := Cut(cache, key, pos, size).0;
    forall x: nat | pos <= x < pos + |data| ensures Cached(cache, x) {
      assert key in cache && key <= x < key + |cache[key]|;
    }
  }

  predicate InChunk(c: Chunk, x: nat) {
    c.off <= x < c.off + c.len
  }

  /** Every byte asked for is cached, and none is asked for twice. */
  ghost predicate CachedOnce(cache: Cache, chunks: seq<Chunk>) {
    && (forall i, x: nat :: 0 <= i < |chunks| && InChunk(chunks[i], x) ==> Cached(cache, x))
    && (forall i, j, x: nat :: 0 <= i < j < |chunks| && InChunk(chunks[i], x) ==> !InChunk(chunks[j], x))
  }

  lemma {:induction false} DrainAllTidy(cache: Cache, chunks: seq<Chunk>)
    requires Tidy(cache)
    ensures DrainAll(cache, chunks, 0).Some? <==> CachedOnce(cache, chunks)
    decreases |chunks|
  {
    if chunks != [] {
      var c, tail := chunks[0], chunks[1..];
      DrainTidy(cache, c.off, c.len);
      var r := Drain(cache, c.off, c.len, 0);
      FirstCached(cache, chunks);
      assert DrainAll(cache, chunks, 0) == if r.None? then None else DrainAll(r.value, tail, 0);
      assert forall x: nat :: InChunk(c, x) <==> c.off <= x < c.off + c.len;
      assert r.Some? ==> Tidy(r.value);
      hide Drain, Cached, Tidy, DrainAll, CachedOnce, InChunk;
      if r.Some? {
        DrainAllTidy(r.value, tail);
        CachedTail(cache, r.value, chunks);
      }
    }
  }

  lemma {:induction false} FirstCached(cache: Cache, chunks: seq<Chunk>)
    requires chunks != []
    ensures CachedOnce(cache, chunks) ==> AllCached(cache, chunks[0].off, chunks[0].off + chunks[0].len)
  {
    hide Cached;
    assert forall x: nat :: chunks[0].off <= x < chunks[0].off + chunks[0].len ==> InChunk(chunks[0], x);
  }

  lemma {:induction false} CachedTail(cache: Cache, rest: Cache, chunks: seq<Chunk>)
    requires chunks != []
    requires AllCached(cache, chunks[0].off, chunks[0].off + chunks[0].len)
    requires forall x: nat :: Cached(rest, x) <==> Cached(cache, x) && !InChunk(chunks[0], x)
    ensures CachedOnce(cache, chunks) <==> CachedOnce(rest, chunks[1..])
  {
    var c, tail := chunks[0], chunks[1..];
    hide Cached;
    assert forall i :: 0 <= i < |tail| ==> tail[i] == chunks[i + 1];
    if CachedOnce(cache, chunks) {
      forall i, x: nat | 0 <= i < |tail| && InChunk(tail[i], x) ensures Cached(rest, x) {
        assert InChunk(chunks[i + 1], x);
        assert !InChunk(chunks[0], x);
      }
      forall i, j, x: nat | 0 <= i < j < |tail| && InChunk(tail[i], x) ensures !InChunk(tail[j], x) {
        assert InChunk(chunks[i + 1], x) && !InChunk(chunks[j + 1], x);
      }
    }
    if CachedOnce(rest, tail) {
      forall i, x: nat | 0 <= i < |chunks| && InChunk(chunks[i], x) ensures Cached(cache, x) {
        if i > 0 {
          assert InChunk(tail[i - 1], x);
        }
      }
      forall i, j, x: nat | 0 <= i < j < |chunks| && InChunk(chunks[i], x) ensures !InChunk(chunks[j], x) {
        assert InChunk(chunks[j], x) == InChunk(tail[j - 1], x);
        assert i > 0 ==> InChunk(tail[i - 1], x);
      }
    }
  }

  // ---------- pieces ----------

  /** A range cut into requests of at most MAX_REQUEST_SIZE bytes. */
  function Pieces(off: nat, size: nat): (r: seq<Chunk>)
    ensures size > 0 <==> r != []
    decreases size
  {
    if size == 0 then []
    else
      var n := Min(size, MAX_REQUEST_SIZE);
      [Chunk(off, n)] + Pieces(off + n, size - n)
  }

  /** They lie end to end over the range, each of 32768 bytes but a last one that may be shorter. */
  lemma {:induction false} PiecesTile(off: nat, size: nat)
    ensures var r := Pieces(off, size);
      && (size == 0 ==> r == [])
      && (size > 0 ==> r != [] && r[0].off == off && r[|r| - 1].off + r[|r| - 1].len == off + size)
      && (forall i :: 0 <= i < |r| ==> 1 <= r[i].len <= 0x8000)
      && (forall i :: 0 <= i < |r| - 1 ==> r[i].len == 0x8000 && r[i + 1].off == r[i].off + 0x8000)
    decreases size
  {
    if size > 0 {
      var n := Min(size, MAX_REQUEST_SIZE);
      var r, later := Pieces(off, size), Pieces(off + n, size - n);
      PiecesTile(off + n, size - n);
      assert r == [Chunk(off, n)] + later;
      forall i | 0 <= i < |r| - 1 ensures r[i].len == 0x8000 && r[i + 1].off == r[i].off + 0x8000 {
        assert r[i + 1] == later[i];
        if i > 0 {
          assert r[i] == later[i - 1];
        }
      }
    }
  }

  /** Every request starts inside the file, so the server has at least one byte to send for it. */
  ghost predicate Inside(chunks: seq<Chunk>, file: seq<byte>) {
    forall i :: 0 <= i < |chunks| ==> chunks[i].off < |file| && chunks[i].len > 0
  }

  // ---------- the file ----------

  datatype Status =
    | Ok      // the call returned normally
    | Raised  // it raised the error a response carried
    | Hang    // it waits for a response nobody owes it

  predicate AllUnanswered(extents: seq<Extent>) {
    forall i :: 0 <= i < |extents| ==> !extents[i].answered
  }

  ghost predicate ExtentsInside(extents: seq<Extent>, file: seq<byte>) {
    forall i :: 0 <= i < |extents| ==> extents[i].off < |file| && extents[i].len > 0
  }

  function Unanswered(extents: seq<Extent>): nat {
    if extents == [] then 0
    else (if extents[0].answered then 0 else 1) + Unanswered(extents[1..])
  }

  lemma {:induction false} UnansweredAppend(p: seq<Extent>, q: seq<Extent>)
    ensures Unanswered(p + q) == Unanswered(p) + Unanswered(q)
  {
    if p == [] {
      assert p + q == q;
    } else {
      assert (p + q)[1..] == p[1..] + q;
      UnansweredAppend(p[1..], q);
    }
  }

  lemma {:induction false} UnansweredZero(extents: seq<Extent>)
    ensures Unanswered(extents) == 0 <==> forall i :: 0 <= i < |extents| ==> extents[i].answered
  {
    if extents != [] {
      UnansweredZero(extents[1..]);
      assert extents == [extents[0]] + extents[1..];
    }
  }

  function RemoveAt<T>(s: seq<T>, i: nat): seq<T>
    requires i < |s|
  {
    s[..i] + s[i + 1..]
  }

  lemma UnansweredAt(extents: seq<Extent>, i: nat)
    requires i < |extents| && !extents[i].answered
    ensures Unanswered(RemoveAt(extents, i)) == Unanswered(extents) - 1
    ensures Unanswered(extents[i := extents[i].(answered := true)]) == Unanswered(extents) - 1
  {
    var p, e, q := extents[..i], extents[i], extents[i + 1..];
    assert extents == p + ([e] + q);
    assert extents[i := e.(answered := true)] == p + ([e.(answered := true)] + q);
    UnansweredAppend(p, [e] + q);
    UnansweredAppend(p, [e.(answered := true)] + q);
    UnansweredAppend([e], q);
    UnansweredAppend([e.(answered := true)], q);
    UnansweredAppend(p, q);
  }

  lemma Removed(extents: seq<Extent>, i: nat, file: seq<byte>)
    requires i < |extents|
    ensures AllUnanswered(extents) ==> AllUnanswered(RemoveAt(extents, i))
    ensures ExtentsInside(extents, file) ==> ExtentsInside(RemoveAt(extents, i), file)
    ensures ExtentsInside(extents, file)
      ==> ExtentsInside(extents[i := extents[i].(answered := true)], file)
  {
    forall j | 0 <= j < |RemoveAt(extents, i)|
      ensures RemoveAt(extents, i)[j] == extents[if j < i then j else j + 1]
    {
    }
  }

  lemma StillGenuine(cache: Cache, file: seq<byte>, off: nat, k: nat)
    requires Genuine(cache, file) && off + k <= |file|
    ensures Genuine(cache[off := file[off..off + k]], file)
  {
  }

  /** The first k bytes of what a request asks for are there to be sent. */
  predicate GoodPart(file: seq<byte>, e: Extent, k: nat) {
    1 <= k <= e.len && e.off + k <= |file|
  }

  /** The cache after a response to a request. */
  ghost predicate Responded(file: seq<byte>, e: Extent, before: Cache, after: Cache) {
    exists k: nat :: GoodPart(file, e, k) && after == before[e.off := file[e.off..e.off + k]]
  }

  /** The bytes a read may return at a position: some of the file from there on. */
  predicate IsRead(file: seq<byte>, pos: nat, data: seq<byte>) {
    data == [] || (pos + |data| <= |file| && file[pos..pos + |data|] == data)
  }

  class SftpFile {
    /** The remote file, and whether the server answers every read inside it with data. */
    const file: seq<byte>
    const reliable: bool
    const buffered: bool
    const bufsize: nat
    var pos: nat
    var realpos: nat
    var rbuffer: seq<byte>
    var prefetching: bool
    var prefetchDone: bool
    var prefetchData: Cache
    var extents: seq<Extent>
    var toSend: seq<Chunk>
    var nextNum: nat
    var savedException: bool

    ghost predicate Valid()
      reads this
    {
      && Genuine(prefetchData, file)
      && ExtentsInside(extents, file)
      && Inside(toSend, file)
      && pos + |rbuffer| == realpos
      && IsRead(file, pos, rbuffer)
    }

    /** The responses still to come, counting a request not yet sent twice. */
    ghost function Work(): nat
      reads this
    {
      2 * |toSend| + Unanswered(extents)
    }

    ghost predicate Pending()
      reads this
    {
      extents != [] || toSend != []
    }

    /** No error has come back, and whoever waits for read-ahead data has some to wait for. */
    ghost predicate Live()
      reads this
    {
      && reliable && AllUnanswered(extents) && !savedException
      && (prefetching && !prefetchDone ==> Pending())
    }

    /** The least a read asks for. */
    function Least(): nat
      reads this
    {
      if buffered then bufsize else 0
    }

    /** Nothing is pending, yet reads wait for the read-ahead. */
    ghost predicate Idle()
      reads this
    {
      prefetching && !prefetchDone && extents == [] && toSend == [] && !savedException
    }

    constructor (file: seq<byte>, reliable: bool, bufsize: int)
      ensures Valid() && this.file == file && this.reliable == reliable && pos == 0
      ensures prefetchData == map[] && extents == [] && toSend == [] && !prefetching && !savedException
      ensures nextNum == 0 && this.buffered == (bufsize >= 1)
      ensures reliable ==> Live()
    {
      this.file, this.reliable := file, reliable;
      this.buffered := bufsize >= 1;
      this.bufsize := if bufsize > 1 then bufsize else 8192;
      pos, realpos, rbuffer := 0, 0, [];
      prefetching, prefetchDone, savedException := false, false, false;
      prefetchData, extents, toSend, nextNum := map[], [], [], 0;
    }

    /** The prefetch thread sends its next request and records it. The reader cannot tell the two
        apart: _async_response spins until the request is recorded. */
    method ThreadSends(i: nat)
      requires Valid() && i < |toSend|
      modifies this`toSend, this`extents, this`nextNum
      ensures Valid() && extents != [] && Work() == old(Work()) - 1
      ensures toSend == RemoveAt(old(toSend), i) && nextNum == old(nextNum) + 1
      ensures extents == old(extents) + [Extent(old(nextNum), old(toSend[i]).off, old(toSend[i]).len, false)]
      ensures AllUnanswered(old(extents)) ==> AllUnanswered(extents)
    {
      UnansweredAppend(extents, [Extent(nextNum, toSend[i].off, toSend[i].len, false)]);
      extents := extents + [Extent(nextNum, toSend[i].off, toSend[i].len, false)];
      nextNum := nextNum + 1;
      toSend := toSend[..i] + toSend[i + 1..];
    }

    /** _async_response: some outstanding request is answered, with any non-empty part of what
        it asked for, or with an error. */
    method Answer(i: nat)
      requires Valid() && i < |extents| && !extents[i].answered
      modifies this`extents, this`prefetchData, this`prefetchDone, this`savedException
      ensures Valid() && Work() == old(Work()) - 1
      ensures prefetchDone == (old(prefetchDone) || extents == [])
      ensures reliable && AllUnanswered(old(extents)) ==> AllUnanswered(extents)
      ensures reliable ==> savedException == old(savedException)
      ensures (Responded(file, old(extents[i]), old(prefetchData), prefetchData) && extents == RemoveAt(old(extents), i))
        || (!reliable && savedException && prefetchData == old(prefetchData) && extents == old(extents)[i := old(extents[i]).(answered := true)])
    {
      var e := extents[i];
      assert e.off < |file| && e.len > 0;
      if !reliable {
        var refused: bool :| true;
        if refused {
          Refuse(i);
          return;
        }
      }
      var k: nat :| 1 <= k <= e.len && e.off + k <= |file|;
      hide Unanswered, RemoveAt, Genuine, ExtentsInside, AllUnanswered, Inside, IsRead, Responded;
      Deliver(i, k);
    }

    /** An error response is kept for the next read; its extent stays. */
    method Refuse(i: nat)
      requires Valid() && i < |extents| && !extents[i].answered
      modifies this`extents, this`savedException
      ensures Valid() && Work() == old(Work()) - 1 && extents != [] && savedException
      ensures extents == old(extents)[i := old(extents[i]).(answered := true)]
    {
      UnansweredAt(extents, i);
      Removed(extents, i, file);
      hide Unanswered, RemoveAt, Genuine, ExtentsInside, AllUnanswered, Inside, IsRead;
      extents := extents[i := extents[i].(answered := true)];
      savedException := true;
    }

    /** Data goes into the cache and takes its extent away; with the last one the read-ahead is done. */
    method Deliver(i: nat, k: nat)
      requires Valid() && i < |extents| && !extents[i].answered && GoodPart(file, extents[i], k)
      modifies this`extents, this`prefetchData, this`prefetchDone
      ensures Valid() && Work() == old(Work()) - 1
      ensures prefetchDone == (old(prefetchDone) || extents == [])
      ensures AllUnanswered(old(extents)) ==> AllUnanswered(extents)
      ensures Responded(file, old(extents[i]), old(prefetchData), prefetchData) && extents == RemoveAt(old(extents), i)
    {
      var e := extents[i];
      UnansweredAt(extents, i);
      Removed(extents, i, file);
      StillGenuine(prefetchData, file, e.off, k);
      ghost var after := prefetchData[e.off := file[e.off..e.off + k]];
      assert Responded(file, e, prefetchData, after);
      hide Unanswered, RemoveAt, Genuine, ExtentsInside, AllUnanswered, Inside, IsRead, Responded;
      prefetchData := prefetchData[e.off := file[e.off..e.off + k]];
      extents := RemoveAt(extents, i);
      if |extents| == 0 {
        prefetchDone := true;
      }
    }

    /** SFTPClient._read_response: while waiting, the prefetch thread may send any number of
        requests, and then any outstanding one is answered. False means there is none. */
    method ReadResponse() returns (ok: bool)
      requires Valid()
      modifies this`toSend, this`extents, this`nextNum, this`prefetchData, this`prefetchDone,
               this`savedException
      ensures Valid()
      ensures ok ==> Work() < old(Work())
      ensures !ok ==> toSend == [] && prefetchData == old(prefetchData) && prefetchDone == old(prefetchDone)
      ensures old(extents) == [] && old(toSend) == [] ==> !ok && extents == []
      ensures old(Live()) ==> Live() && (ok || !old(Pending()))
      ensures reliable ==> savedException == old(savedException)
      ensures !ok ==> savedException == old(savedException)
    {
      while toSend != []
        invariant Valid() && Work() <= old(Work())
        invariant old(Pending()) <==> Pending()
        invariant AllUnanswered(old(extents)) ==> AllUnanswered(extents)
        invariant old(toSend) == [] ==> toSend == [] && extents == old(extents)
        invariant savedException == old(savedException)
        invariant prefetchData == old(prefetchData) && prefetchDone == old(prefetchDone)
        decreases |toSend|
      {
        var enough: bool :| true;
        if enough && Unanswered(extents) > 0 {
          break;
        }
        var i: nat :| i < |toSend|;
        ThreadSends(i);
      }
      UnansweredZero(extents);
      if Unanswered(extents) == 0 {
        return false;
      }
      var i: nat :| i < |extents| && !extents[i].answered;
      Answer(i);
      ok := true;
    }

    /** While the reader waits for one response of its own, any others may come in. */
    method Background()
      requires Valid()
      modifies this`toSend, this`extents, this`nextNum, this`prefetchData, this`prefetchDone,
               this`savedException
      ensures Valid()
      ensures old(Live()) ==> Live()
    {
      while true
        invariant Valid()
        invariant old(Live()) ==> Live()
        decreases Work()
      {
        var enough: bool :| true;
        if enough {
          return;
        }
        var ok := ReadResponse();
        if !ok {
          return;
        }
      }
    }

    /** The synchronous request of _read; the empty result is the end-of-file status. */
    method DirectRead(size: nat) returns (status: Status, data: seq<byte>)
      requires Valid() && size > 0
      modifies this`toSend, this`extents, this`nextNum, this`prefetchData, this`prefetchDone,
               this`savedException
      ensures Valid() && status != Hang
      ensures status == Ok ==> IsRead(file, realpos, data) && |data| <= size
      ensures status == Ok ==> (data == [] <==> realpos >= |file|)
      ensures old(Live()) ==> Live() && status == Ok
    {
      Background();
      if !reliable {
        var refused: bool :| true;
        if refused {
          return Raised, [];
        }
      }
      if realpos >= |file| {
        return Ok, [];
      }
      var k: nat :| 1 <= k <= size && realpos + k <= |file|;
      return Ok, file[realpos..realpos + k];
    }

    /** _read_prefetch; None means the caller must ask the server itself. */
    method ReadPrefetch(size: nat) returns (status: Status, r: Option<seq<byte>>)
      requires Valid() && size > 0 && prefetching
      modifies this`toSend, this`extents, this`nextNum, this`prefetchData, this`prefetchDone,
               this`savedException, this`prefetching
      ensures Valid()
      ensures status == Ok && r.Some? ==> r.value != [] && |r.value| <= size && IsRead(file, realpos, r.value)
      ensures status == Ok ==> prefetching == r.Some? && (r.None? ==> prefetchDone)
      ensures old(Live()) ==> Live() && status == Ok
      ensures old(Idle()) ==>
        Idle() && status == if Servable(old(prefetchData), realpos) then Ok else Hang
      ensures old(Idle()) && status == Ok ==>
        r.Some? && (r.value, prefetchData) == Cut(old(prefetchData), KeyFor(old(prefetchData), realpos), realpos, size)
    {
      var key: Option<nat> := None;
      while true
        invariant Valid() && prefetching
        invariant old(Live()) ==> Live()
        invariant old(Idle()) ==> Idle() && prefetchData == old(prefetchData)
        decreases Work()
      {
        key := DataInPrefetchBuffers(prefetchData, realpos);
        if key.Some? || prefetchDone {
          break;
        }
        var ok := ReadResponse();
        if !ok {
          NotServable(prefetchData, realpos);
          return Hang, None;
        }
        if savedException {
          savedException := false;
          return Raised, None;
        }
      }
      if key.None? {
        prefetching := false;
        return Ok, None;
      }
      CutIsGenuine(prefetchData, file, key.value, realpos, size);
      assert Serves(prefetchData, realpos, key.value);
      OneKey(prefetchData, realpos, key.value);
      hide Cut, Servable, Serves;
      var (data, rest) := Cut(prefetchData, key.value, realpos, size);
      prefetchData := rest;
      return Ok, Some(data);
    }

    /** _read: from the cache if read-ahead is on, else from the server. */
    method ReadSome(size0: nat) returns (status: Status, data: seq<byte>)
      requires Valid() && size0 > 0
      modifies this`toSend, this`extents, this`nextNum, this`prefetchData, this`prefetchDone,
               this`savedException, this`prefetching
      ensures Valid()
      ensures status == Ok ==> IsRead(file, realpos, data) && |data| <= size0
      ensures status == Ok ==> (data == [] ==> realpos >= |file|)
      ensures old(Live()) ==> Live() && status == Ok
      ensures old(Idle()) ==>
        Idle() && status == if Servable(old(prefetchData), realpos) then Ok else Hang
      ensures old(Idle()) && status == Ok ==>
        (data, prefetchData) == Cut(old(prefetchData), KeyFor(old(prefetchData), realpos), realpos, Min(size0, MAX_REQUEST_SIZE))
    {
      hide Cut, Servable;
      var size := Min(size0, MAX_REQUEST_SIZE);
      if prefetching {
        var r;
        status, r := ReadPrefetch(size);
        if status != Ok {
          return status, [];
        }
        if r.Some? {
          return Ok, r.value;
        }
      }
      status, data := DirectRead(size);
    }

    /** seek with SEEK_SET (0), SEEK_CUR (1) or SEEK_END. */
    method Seek(offset: int, whence: int)
      requires Valid()
      requires (if whence == 0 then offset else if whence == 1 then pos + offset else |file| + offset) >= 0
      modifies this`pos, this`realpos, this`rbuffer
      ensures Valid() && rbuffer == []
      ensures pos == if whence == 0 then offset else if whence == 1 then old(pos) + offset else |file| + offset
    {
      if whence == 0 {
        pos := offset;
      } else if whence == 1 {
        pos := pos + offset;
      } else {
        pos := |file| + offset;
      }
      realpos := pos;
      rbuffer := [];
    }

    /** read(size), over the cache: whatever was prefetched, and in whatever order and pieces the
        responses came, a read that returns gives exactly the bytes a plain positional read gives.
        It returns, unless an error comes back or the reader waits for responses nobody owes. */
    method Read(size: nat) returns (status: Status, data: seq<byte>)
      requires Valid()
      modifies this
      ensures Valid()
      ensures status == Ok ==> data == Slice(file, old(pos), size) && pos == old(pos) + |data|
      ensures old(Live()) ==> Live() && status == Ok
      ensures old(Idle()) && HasGap(old(prefetchData), old(realpos), old(pos) + size) ==> status == Hang
      ensures old(Idle()) ==>
        var left := Drain(old(prefetchData), old(realpos), Missing(size, old(rbuffer)), Least());
        && Idle() && status == (if left.Some? then Ok else Hang)
        && (left.Some? ==> prefetchData == left.value)
    {
      if Drain(prefetchData, realpos, Missing(size, rbuffer), Least()).Some? {
        DrainIsCached(prefetchData, file, realpos, Missing(size, rbuffer), Least());
      }
      hide Slice, IsRead, Cached, Genuine, ExtentsInside, Inside, Unanswered, AllUnanswered, Drain;
      status := Ok;
      var eof := false;
      while |rbuffer| < size && !eof
        invariant Valid() && pos == old(pos) && status == Ok
        invariant old(Live()) ==> Live()
        invariant eof ==> realpos >= |file|
        invariant old(Idle()) ==> Idle() && !eof
        invariant old(Idle()) ==>
          Drain(prefetchData, realpos, Missing(size, rbuffer), Least())
          == Drain(old(prefetchData), old(realpos), Missing(size, old(rbuffer)), Least())
        decreases !eof, |file| - |rbuffer| - pos
      {
        status, eof := FillOnce(size);
        if status != Ok {
          return status, [];
        }
      }
      NothingLeftToDrain(prefetchData, realpos, Least());
      var n := Min(size, |rbuffer|);
      Served(file, pos, rbuffer, n, size);
      data := rbuffer[..n];
      rbuffer := rbuffer[n..];
      pos := pos + |data|;
      status := Ok;
    }

    /** One pass of the loop of read. */
    method FillOnce(size: nat) returns (status: Status, eof: bool)
      requires Valid() && |rbuffer| < size
      modifies this
      ensures Valid() && pos == old(pos)
      ensures old(Live()) ==> Live() && status == Ok
      ensures status == Ok && eof ==> realpos >= |file|
      ensures status == Ok && !eof ==> realpos > old(realpos) && realpos <= |file|
      ensures old(Idle()) ==>
        Idle() && status == if Servable(old(prefetchData), old(realpos)) then Ok else Hang
      ensures old(Idle()) && status != Ok ==> Drain(old(prefetchData), old(realpos), Missing(size, old(rbuffer)), Least()).None?
      ensures old(Idle()) && status == Ok ==>
        !eof && Drain(prefetchData, realpos, Missing(size, rbuffer), Least())
                == Drain(old(prefetchData), old(realpos), Missing(size, old(rbuffer)), Least())
    {
      DrainStep(prefetchData, realpos, Missing(size, rbuffer), Least());
      hide IsRead, Genuine, ExtentsInside, Inside, Unanswered, AllUnanswered, Drain, Cut, Servable;
      var readSize := size - |rbuffer|;
      if buffered && readSize < bufsize {
        readSize := bufsize;
      }
      var more;
      status, more := ReadSome(readSize);
      eof := |more| == 0;
      if status == Ok && !eof {
        NothingLeftToDrain(prefetchData, realpos + |more|, Least());
        Extended(file, pos, rbuffer, more);
        rbuffer := rbuffer + more;
        realpos := realpos + |more|;
      }
    }

    method StartPrefetch(chunks: seq<Chunk>)
      requires Valid() && Inside(chunks, file)
      modifies this`prefetching, this`prefetchDone, this`toSend
      ensures Valid() && prefetching && !prefetchDone && toSend == old(toSend) + chunks
    {
      prefetching := true;
      prefetchDone := false;
      toSend := toSend + chunks;
    }

    /** prefetch: ask for the rest of the file, from the current position on. */
    method Prefetch(fileSize: nat)
      requires Valid() && fileSize <= |file|
      modifies this`prefetching, this`prefetchDone, this`toSend
      ensures Valid()
      ensures old(Live()) ==> Live()
      ensures toSend == old(toSend) + Pieces(realpos, if realpos < fileSize then fileSize - realpos else 0)
    {
      var chunks := RestOfFile(realpos, fileSize);
      hide Pieces, Inside, Genuine, IsRead, ExtentsInside;
      if |chunks| > 0 {
        StartPrefetch(chunks);
      } else {
        assert toSend + [] == toSend;
      }
    }

    method RestOfFile(from: nat, fileSize: nat) returns (chunks: seq<Chunk>)
      requires fileSize <= |file|
      ensures Inside(chunks, file)
      ensures chunks == Pieces(from, if from < fileSize then fileSize - from else 0)
    {
      chunks := [];
      var n := from;
      while n < fileSize
        invariant from <= n
        invariant n <= fileSize || chunks == []
        invariant Inside(chunks, file)
        invariant var size := if from < fileSize then fileSize - from else 0;
                  Pieces(from, size) == chunks + Pieces(n, if n < fileSize then fileSize - n else 0)
      {
        var chunk := Min(MAX_REQUEST_SIZE, fileSize - n);
        chunks := chunks + [Chunk(n, chunk)];
        n := n + chunk;
      }
      assert chunks + [] == chunks;
    }

    /** readv makes no request for such a block. A buffer at key 0 does not count, since 0 is false in Python. */
    ghost predicate Skipped(c: Chunk)
      reads this
    {
      PassedOver(prefetchData, extents, c)
    }

    /** Nothing is pending and nothing will be asked for. */
    ghost predicate Starves(chunks: seq<Chunk>)
      reads this
    {
      !Pending() && forall c :: c in chunks ==> Skipped(c)
    }

    /** readv: the blocks wanted, in order. They are right whenever they are returned.
        If nothing has gone wrong before, readv returns all of them, provided something is
        pending or something is requested. If not, it sets reads to wait for responses nobody
        owes, and returns exactly when the cache alone serves the blocks one after another. For an
        unbuffered file and buffers that do not overlap, that is when every byte is cached and
        none is wanted twice; otherwise it waits for ever. */
    method Readv(chunks: seq<Chunk>) returns (status: Status, blocks: seq<seq<byte>>)
      requires Valid()
      requires forall i :: 0 <= i < |chunks| ==> Inside(Pieces(chunks[i].off, chunks[i].len), file)
      modifies this
      ensures Valid()
      ensures |blocks| <= |chunks| && (status == Ok ==> |blocks| == |chunks|)
      ensures forall i :: 0 <= i < |blocks| ==> blocks[i] == Slice(file, chunks[i].off, chunks[i].len)
      ensures old(Live() && !Starves(chunks)) ==> Live() && status == Ok
      ensures old(Live() && Starves(chunks)) && chunks != []
        ==> (FirstGap(old(prefetchData), chunks[0]) ==> status == Hang)
      ensures old(Live() && Starves(chunks)) ==>
        status == if DrainAll(old(prefetchData), chunks, Least()).Some? then Ok else Hang
      ensures old(Live() && Starves(chunks)) && Tidy(old(prefetchData)) && !buffered ==>
        status == if CachedOnce(old(prefetchData), chunks) then Ok else Hang
    {
      TidyServed(prefetchData, chunks, Least());
      hide DrainAll, CachedOnce, Tidy, Pieces, Inside, Slice, FirstGap, Genuine, IsRead, ExtentsInside, AllUnanswered,
        InRequests, BufferedAt;
      var readChunks := Gather(chunks);
      StartPrefetch(readChunks);
      status, blocks := ReadBlocks(chunks);
    }

    /** The requests readv makes: none for a block it takes to be cached or on its way. */
    method Gather(chunks: seq<Chunk>) returns (readChunks: seq<Chunk>)
      requires Valid()
      requires forall i :: 0 <= i < |chunks| ==> Inside(Pieces(chunks[i].off, chunks[i].len), file)
      ensures Inside(readChunks, file)
      ensures readChunks == [] <==> forall c :: c in chunks ==> Skipped(c)
      ensures readChunks == RequestsFor(prefetchData, extents, chunks)
    {
      readChunks := [];
      var i := 0;
      assert chunks[0..] == chunks;
      while i < |chunks|
        invariant 0 <= i <= |chunks|
        invariant Inside(readChunks, file)
        invariant readChunks == [] <==> forall j :: 0 <= j < i ==> Skipped(chunks[j])
        invariant RequestsFor(prefetchData, extents, chunks) == readChunks + RequestsFor(prefetchData, extents, chunks[i..])
      {
        NextRequest(prefetchData, extents, chunks, i, readChunks);
        hide RequestsFor, Pieces, Inside, InRequests;
        var c := chunks[i];
        var key := DataInPrefetchBuffers(prefetchData, c.off);
        BufferedAtKey(prefetchData, c.off, key);
        if !((key.Some? && key.value != 0) || InRequests(extents, c.off, c.len)) {
          readChunks := AddPieces(readChunks, c);
        }
        i := i + 1;
      }
    }

    /** Requests no larger than a single read may be. */
    method AddPieces(before: seq<Chunk>, c: Chunk) returns (chunks: seq<Chunk>)
      requires Inside(before, file) && Inside(Pieces(c.off, c.len), file)
      ensures chunks == before + Pieces(c.off, c.len) && Inside(chunks, file)
    {
      chunks := before;
      var offset: nat, size: nat := c.off, c.len;
      while size > 0
        invariant before + Pieces(c.off, c.len) == chunks + Pieces(offset, size)
      {
        var n := Min(size, MAX_REQUEST_SIZE);
        chunks := chunks + [Chunk(offset, n)];
        offset := offset + n;
        size := size - n;
      }
    }

    method ReadBlock(c: Chunk) returns (status: Status, data: seq<byte>)
      requires Valid()
      modifies this
      ensures Valid()
      ensures status == Ok ==> data == Slice(file, c.off, c.len)
      ensures old(Live()) ==> Live() && status == Ok
      ensures old(Idle()) ==>
        var left := Drain(old(prefetchData), c.off, c.len, Least());
        && Idle() && status == (if left.Some? then Ok else Hang)
        && (left.Some? ==> prefetchData == left.value)
    {
      hide Slice, Drain, IsRead, Genuine;
      Seek(c.off, 0);
      status, data := Read(c.len);
    }

    /** The second half of readv: one plain read for each block. */
    method ReadBlocks(chunks: seq<Chunk>) returns (status: Status, blocks: seq<seq<byte>>)
      requires Valid()
      modifies this
      ensures Valid()
      ensures |blocks| <= |chunks| && (status == Ok ==> |blocks| == |chunks|)
      ensures forall i :: 0 <= i < |blocks| ==> blocks[i] == Slice(file, chunks[i].off, chunks[i].len)
      ensures old(Live()) ==> Live() && status == Ok
      ensures old(Idle()) && chunks != [] && FirstGap(old(prefetchData), chunks[0]) ==> status == Hang
      ensures old(Idle()) ==> status == if DrainAll(old(prefetchData), chunks, Least()).Some? then Ok else Hang
    {
      if chunks != [] {
        GapStops(prefetchData, file, chunks, Least());
      }
      AllDrained(prefetchData, [], Least());
      hide Slice, IsRead, Genuine, ExtentsInside, Inside, Unanswered, AllUnanswered, Drain, DrainAll, FirstGap, HasGap;
      blocks := [];
      status := Ok;
      var i := 0;
      assert chunks[0..] == chunks;
      while i < |chunks|
        invariant 0 <= i <= |chunks| && |blocks| == i && status == Ok
        invariant Valid()
        invariant old(Idle()) ==> Idle()
        invariant old(Idle()) ==> DrainAll(prefetchData, chunks[i..], Least()) == DrainAll(old(prefetchData), chunks, Least())
        invariant old(Live()) ==> Live()
        invariant forall j :: 0 <= j < i ==> blocks[j] == Slice(file, chunks[j].off, chunks[j].len)
      {
        AllDrained(prefetchData, chunks[i..], Least());
        assert chunks[i..][1..] == chunks[i + 1..];
        var data;
        status, data := ReadBlock(chunks[i]);
        if status != Ok {
          return;
        }
        blocks := blocks + [data];
        i := i + 1;
      }
      AllDrained(prefetchData, chunks[i..], Least());
    }
  }

  predicate PassedOver(cache: Cache, extents: seq<Extent>, c: Chunk) {
    c.len == 0 || BufferedAt(cache, c.off) || InRequests(extents, c.off, c.len)
  }

  /** The pieces of every block that is not passed over, in order. */
  function RequestsFor(cache: Cache, extents: seq<Extent>, chunks: seq<Chunk>): seq<Chunk> {
    if chunks == [] then []
    else
      (if PassedOver(cache, extents, chunks[0]) then [] else Pieces(chunks[0].off, chunks[0].len))
      + RequestsFor(cache, extents, chunks[1..])
  }

  lemma NextRequest(cache: Cache, extents: seq<Extent>, chunks: seq<Chunk>, i: nat, before: seq<Chunk>)
    requires i < |chunks|
    ensures before + RequestsFor(cache, extents, chunks[i..])
         == (if PassedOver(cache, extents, chunks[i]) then before else before + Pieces(chunks[i].off, chunks[i].len))
            + RequestsFor(cache, extents, chunks[i + 1..])
    ensures chunks[i].len == 0 ==> before + Pieces(chunks[i].off, chunks[i].len) == before
    ensures i + 1 == |chunks| ==> RequestsFor(cache, extents, chunks[i + 1..]) == []
  {
    hide *;
    var l, c := chunks[i..], chunks[i];
    assert l[0] == c && l[1..] == chunks[i + 1..];
    RequestsStep(cache, extents, l);
    NoPieces(c, before);
    GroupChunks(before, if PassedOver(cache, extents, c) then [] else Pieces(c.off, c.len), RequestsFor(cache, extents, l[1..]));
    if i + 1 == |chunks| {
      assert l[1..] == [];
    }
  }

  lemma RequestsStep(cache: Cache, extents: seq<Extent>, l: seq<Chunk>)
    requires l != []
    ensures RequestsFor(cache, extents, l)
         == (if PassedOver(cache, extents, l[0]) then [] else Pieces(l[0].off, l[0].len)) + RequestsFor(cache, extents, l[1..])
    ensures RequestsFor(cache, extents, []) == []
  {
    hide PassedOver, Pieces;
  }

  lemma NoPieces(c: Chunk, before: seq<Chunk>)
    ensures c.len == 0 ==> before + Pieces(c.off, c.len) == before
  {
  }

  lemma GroupChunks(a: seq<Chunk>, b: seq<Chunk>, c: seq<Chunk>)
    ensures a + (b + c) == (a + b) + c && (b == [] ==> a + b == a)
  {
  }

  function Missing(size: nat, rbuffer: seq<byte>): nat {
    if |rbuffer| < size then size - |rbuffer| else 0
  }

  lemma NotServable(cache: Cache, pos: nat)
    requires forall k: nat :: IsLastKey(cache, pos, k) ==> k + |cache[k]| <= pos
    ensures !Servable(cache, pos)
  {
  }

  lemma OneKey(cache: Cache, pos: nat, k: nat)
    requires Serves(cache, pos, k)
    ensures Servable(cache, pos) && KeyFor(cache, pos) == k
  {
  }

  lemma {:induction false} DrainStep(cache: Cache, pos: nat, size: nat, least: nat)
    ensures size > 0 && !Servable(cache, pos) ==> Drain(cache, pos, size, least).None?
    ensures size > 0 && Servable(cache, pos) ==>
      var (data, rest) := Cut(cache, KeyFor(cache, pos), pos, AskFor(size, least));
      data != [] && Drain(cache, pos, size, least)
        == if |data| >= size then Some(rest) else Drain(rest, pos + |data|, size - |data|, least)
  {
    if size > 0 && Servable(cache, pos) {
      DrainOnce(cache, pos, size, least);
    }
  }

  lemma NothingLeftToDrain(cache: Cache, pos: nat, least: nat)
    ensures Drain(cache, pos, 0, least) == Some(cache)
  {
  }

  lemma AllDrained(cache: Cache, chunks: seq<Chunk>, least: nat)
    ensures chunks == [] ==> DrainAll(cache, chunks, least) == Some(cache)
    ensures chunks != [] ==>
      var r := Drain(cache, chunks[0].off, chunks[0].len, least);
      DrainAll(cache, chunks, least) == if r.None? then None else DrainAll(r.value, chunks[1..], least)
  {
  }

  lemma {:induction false} GapStops(cache: Cache, file: seq<byte>, chunks: seq<Chunk>, least: nat)
    requires Genuine(cache, file) && chunks != []
    ensures FirstGap(cache, chunks[0]) ==> DrainAll(cache, chunks, least).None?
  {
    if Drain(cache, chunks[0].off, chunks[0].len, least).Some? {
      DrainIsCached(cache, file, chunks[0].off, chunks[0].len, least);
    }
  }

  lemma TidyServed(cache: Cache, chunks: seq<Chunk>, least: nat)
    ensures Tidy(cache) && least == 0 ==> (DrainAll(cache, chunks, least).Some? <==> CachedOnce(cache, chunks))
  {
    if Tidy(cache) {
      DrainAllTidy(cache, chunks);
    }
    hide DrainAll, CachedOnce;
  }

  /** The cache test of readv. */
  predicate BufferedAt(cache: Cache, off: nat) {
    exists k :: k in cache && k != 0 && IsLastKey(cache, off, k) && off < k + |cache[k]|
  }

  lemma BufferedAtKey(cache: Cache, off: nat, r: Option<nat>)
    requires r.Some? ==> IsLastKey(cache, off, r.value) && off < r.value + |cache[r.value]|
    requires r.None? ==> forall k: nat :: IsLastKey(cache, off, k) ==> k + |cache[k]| <= off
    ensures BufferedAt(cache, off) <==> r.Some? && r.value != 0
  {
  }

  lemma Extended(file: seq<byte>, pos: nat, buf: seq<byte>, more: seq<byte>)
    requires IsRead(file, pos, buf) && IsRead(file, pos + |buf|, more) && more != []
    ensures IsRead(file, pos, buf + more) && pos + |buf + more| <= |file|
  {
    var end := pos + |buf|;
    assert file[pos..end + |more|] == file[pos..end] + file[end..end + |more|];
  }

  lemma Served(file: seq<byte>, pos: nat, buf: seq<byte>, n: nat, size: nat)
    requires IsRead(file, pos, buf) && n <= |buf| && n == Min(size, |buf|)
    requires |buf| < size ==> pos + |buf| >= |file|
    ensures buf[..n] == Slice(file, pos, size)
    ensures IsRead(file, pos + n, buf[n..])
  {
  }

  // ---------- the failing cases, reached by prefetching ----------

  /** A file whose bytes 10 to 19 have been asked for. */
  method Requested() returns (f: SftpFile)
    ensures fresh(f) && f.Valid() && f.Live() && !f.buffered && |f.file| == 100
    ensures f.extents == [Extent(0, 10, 10, false)] && f.toSend == [] && f.prefetchData == map[]
  {
    f := new SftpFile(seq(100, i => 7), true, -1);
    f.Seek(10, 0);
    assert Pieces(10, 10) == [Chunk(10, 10)];
    hide Pieces, Inside, Genuine, IsRead, ExtentsInside, Unanswered;
    f.Prefetch(20);
    assert f.toSend == [Chunk(10, 10)];
    f.ThreadSends(0);
    assert f.extents == [Extent(0, 10, 10, false)];
  }

  /** The server has sent some of them. */
  method ReadAhead() returns (f: SftpFile)
    ensures fresh(f) && f.Valid() && f.Live() && !f.buffered && |f.file| == 100
    ensures f.extents == [] && f.toSend == []
    ensures exists k: nat :: GoodPart(f.file, Extent(0, 10, 10, false), k) && f.prefetchData == map[10 := f.file[10..10 + k]]
  {
    hide Inside, Genuine, IsRead, ExtentsInside, Responded, GoodPart;
    f := Requested();
    f.Answer(0);
    OneResponse(f.file, Extent(0, 10, 10, false), f.prefetchData);
  }

  lemma OneResponse(file: seq<byte>, e: Extent, cache: Cache)
    ensures Responded(file, e, map[], cache) ==> exists k: nat :: GoodPart(file, e, k) && cache == map[e.off := file[e.off..e.off + k]]
  {
  }

  /** One byte is cached, so nothing is requested, and the read of the others waits for ever. */
  method PartlyCachedReadv() returns (status: Status)
    ensures status == Hang
  {
    var f := ReadAhead();
    var chunks := [Chunk(10, 20)];
    OnlyBuffer(f.prefetchData, f.file);
    assert Skipped1(f, chunks[0]);
    assert InChunk(chunks[0], 29);
    assert Pieces(10, 20) == [Chunk(10, 20)];
    var blocks;
    status, blocks := f.Readv(chunks);
  }

  /** Every byte is cached, but one is wanted twice: the first read takes it out of the cache. */
  method RepeatedReadv() returns (status: Status)
    ensures status == Hang
  {
    var f := ReadAhead();
    var chunks := [Chunk(10, 1), Chunk(10, 1)];
    OnlyBuffer(f.prefetchData, f.file);
    assert Skipped1(f, chunks[0]);
    assert InChunk(chunks[0], 10) && InChunk(chunks[1], 10);
    assert Pieces(10, 1) == [Chunk(10, 1)];
    var blocks;
    status, blocks := f.Readv(chunks);
  }

  ghost predicate Skipped1(f: SftpFile, c: Chunk)
    reads f
  {
    f.Skipped(c)
  }

  lemma OnlyBuffer(cache: Cache, file: seq<byte>)
    requires |file| == 100
    requires exists k: nat :: GoodPart(file, Extent(0, 10, 10, false), k) && cache == map[10 := file[10..10 + k]]
    ensures Tidy(cache) && BufferedAt(cache, 10) && !Cached(cache, 29)
  {
    assert IsLastKey(cache, 10, 10);
  }

  /** A request for one byte, then one for a range around it: the test now denies a part of the range
      although the answer is on its way. */
  method DeniedThoughPending() returns (f: SftpFile)
    ensures fresh(f) && f.Valid()
    ensures !InRequests(f.extents, 7, 10) && AllCovered(f.extents, 7, 10)
  {
    f := new SftpFile(seq(100, i => 7), true, -1);
    hide InRequests, AllCovered, Genuine, IsRead, ExtentsInside;
    f.StartPrefetch([Chunk(5, 1)]);
    f.ThreadSends(0);
    f.StartPrefetch([Chunk(0, 100)]);
    f.ThreadSends(0);
    assert f.extents == [Extent(0, 5, 1, false), Extent(1, 0, 100, false)];
    InRequestsIsIncomplete();
  }

  lemma {:induction false} InRequestsIsIncomplete()
    ensures var es := [Extent(0, 5, 1, false), Extent(1, 0, 100, false)];
      !InRequests(es, 7, 10) && AllCovered(es, 7, 10)
  {
    var es := [Extent(0, 5, 1, false), Extent(1, 0, 100, false)];
    assert es[..1] == [es[0]] && es[..1][..0] == [];
    assert LastBefore([es[0]], 7) == Some(es[0]);
    assert LastBefore(es, 7) == Some(es[0]);
    assert es[1] in es;
    forall x: nat | 7 <= x < 17 ensures AnyCovers(es, x) {
      assert Covers(es[1], x);
    }
  }
}
