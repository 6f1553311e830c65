/** paramiko/sftp_attr.py: the flag-driven attribute block of SFTP. */
module SftpAttributes {
  import opened Options
  import opened Bytes
  import opened Messages

  const FLAG_SIZE := 1
  const FLAG_UIDGID := 2
  const FLAG_PERMISSIONS := 4
  const FLAG_AMTIME := 8
  const FLAG_EXTENDED := 0x8000_0000

  type Pair = (seq<byte>, seq<byte>)

  datatype Attr = Attr(size: Option<int>, uid: Option<int>, gid: Option<int>, mode: Option<int>,
                       atime: Option<int>, mtime: Option<int>, pairs: seq<Pair>)

  const Empty := Attr(None, None, None, None, None, None, [])

  /** A Python dict: keys are distinct, and kept in the order of their first insertion. */
  ghost predicate DistinctKeys(pairs: seq<Pair>) {
    forall i, j :: 0 <= i < j < |pairs| ==> pairs[i].0 != pairs[j].0
  }

  function Put(pairs: seq<Pair>, k: seq<byte>, v: seq<byte>): seq<Pair> {
    if pairs == [] then [(k, v)]
    else if pairs[0].0 == k then [(k, v)] + pairs[1..]
    else [pairs[0]] + Put(pairs[1..], k, v)
  }

  lemma ConsDistinct(x: Pair, rest: seq<Pair>)
    ensures DistinctKeys([x] + rest) <==> DistinctKeys(rest) && forall p :: p in rest ==> p.0 != x.0
    ensures forall p :: p in [x] + rest <==> p == x || p in rest
  {
    var l := [x] + rest;
    assert forall i :: 0 <= i < |rest| ==> l[i + 1] == rest[i];
    if DistinctKeys(l) {
      forall p | p in rest ensures p.0 != x.0 {
        var i :| 0 <= i < |rest| && rest[i] == p;
        assert l[0].0 != l[i + 1].0;
      }
      forall i, j | 0 <= i < j < |rest| ensures rest[i].0 != rest[j].0 {
        assert l[i + 1].0 != l[j + 1].0;
      }
    }
  }

  /** A dict assignment: the key has the new value, and every other key keeps its own. */
  lemma {:induction false} PutMeans(pairs: seq<Pair>, k: seq<byte>, v: seq<byte>)
    requires DistinctKeys(pairs)
    ensures DistinctKeys(Put(pairs, k, v))
    ensures forall p :: p in Put(pairs, k, v) <==> p == (k, v) || (p in pairs && p.0 != k)
  {
    if pairs == [] {
      ConsDistinct((k, v), []);
      assert [(k, v)] + [] == [(k, v)];
    } else {
      var x, rest := pairs[0], pairs[1..];
      assert pairs == [x] + rest;
      ConsDistinct(x, rest);
      ConsDistinct((k, v), rest);
      hide DistinctKeys;
      if x.0 != k {
        PutMeans(rest, k, v);
        ConsDistinct(x, Put(rest, k, v));
      }
    }
  }

  // ---------- what becomes of the extended pairs ----------

  /** self.attr[msg.get_string()] = msg.get_string(): Python evaluates the right-hand side first, so
      the first string on the wire is the value and the second the key, while _pack writes the key
      first. Each packed pair is therefore stored the other way round. */
  function PutSwapped(done: seq<Pair>, todo: seq<Pair>): seq<Pair>
    decreases |todo|
  {
    if todo == [] then done else PutSwapped(Put(done, todo[0].1, todo[0].0), todo[1..])
  }

  function Swapped(pairs: seq<Pair>): seq<Pair> {
    PutSwapped([], pairs)
  }

  ghost predicate SameDict(a: seq<Pair>, b: seq<Pair>) {
    forall p :: p in a <==> p in b
  }

  /** p, the other way round, is the last of the pairs whose value is p's key. */
  ghost predicate IsLastValue(pairs: seq<Pair>, p: Pair) {
    exists i :: 0 <= i < |pairs| && pairs[i] == (p.1, p.0) && forall j :: i < j < |pairs| ==> pairs[j].1 != p.0
  }

  predicate HasValue(pairs: seq<Pair>, v: seq<byte>) {
    exists i :: 0 <= i < |pairs| && pairs[i].1 == v
  }

  lemma LastValueStep(pairs: seq<Pair>, p: Pair)
    requires pairs != []
    ensures IsLastValue(pairs, p) <==>
      IsLastValue(pairs[1..], p) || (pairs[0] == (p.1, p.0) && !HasValue(pairs[1..], p.0))
    ensures HasValue(pairs, p.0) <==> pairs[0].1 == p.0 || HasValue(pairs[1..], p.0)
  {
    var rest := pairs[1..];
    assert forall i :: 0 <= i < |rest| ==> rest[i] == pairs[i + 1];
    if IsLastValue(rest, p) {
      var i :| 0 <= i < |rest| && rest[i] == (p.1, p.0) && forall j :: i < j < |rest| ==> rest[j].1 != p.0;
      assert pairs[i + 1] == (p.1, p.0);
      forall j | i + 1 < j < |pairs| ensures pairs[j].1 != p.0 {
        assert pairs[j] == rest[j - 1];
      }
    }
    if IsLastValue(pairs, p) {
      var i :| 0 <= i < |pairs| && pairs[i] == (p.1, p.0) && forall j :: i < j < |pairs| ==> pairs[j].1 != p.0;
      if i > 0 {
        assert rest[i - 1] == (p.1, p.0);
      }
    }
    if HasValue(rest, p.0) {
      var i :| 0 <= i < |rest| && rest[i].1 == p.0;
      assert pairs[i + 1].1 == p.0;
    }
    if HasValue(pairs, p.0) && pairs[0].1 != p.0 {
      var i :| 0 <= i < |pairs| && pairs[i].1 == p.0;
      assert rest[i - 1].1 == p.0;
    }
  }

  lemma {:induction false} PutSwappedMeans(done: seq<Pair>, todo: seq<Pair>, p: Pair)
    requires DistinctKeys(done)
    ensures DistinctKeys(PutSwapped(done, todo))
    ensures p in PutSwapped(done, todo) <==> IsLastValue(todo, p) || (p in done && !HasValue(todo, p.0))
    decreases |todo|
  {
    if todo != [] {
      PutMeans(done, todo[0].1, todo[0].0);
      LastValueStep(todo, p);
      hide IsLastValue, HasValue, Put, DistinctKeys;
      PutSwappedMeans(Put(done, todo[0].1, todo[0].0), todo[1..], p);
    }
  }

  /** The dict that comes back: keys and values have changed places, and of several pairs with one
      value only the last is left. */
  lemma SwappedMeans(pairs: seq<Pair>, p: Pair)
    ensures DistinctKeys(Swapped(pairs))
    ensures p in Swapped(pairs) <==> IsLastValue(pairs, p)
  {
    PutSwappedMeans([], pairs, p);
    hide IsLastValue;
  }

  /** The dict comes back as it was sent if and only if every pair is there both ways round; in
      particular when there is none. */
  lemma SameDictIff(pairs: seq<Pair>)
    requires DistinctKeys(pairs)
    ensures SameDict(Swapped(pairs), pairs) <==> forall p :: p in pairs ==> (p.1, p.0) in pairs
  {
    if SameDict(Swapped(pairs), pairs) {
      forall p | p in pairs ensures (p.1, p.0) in pairs {
        SwappedMeans(pairs, p);
      }
    }
    if forall p :: p in pairs ==> (p.1, p.0) in pairs {
      forall p ensures p in Swapped(pairs) <==> p in pairs {
        SwappedMeans(pairs, p);
        BothWays(pairs, p);
      }
    }
  }

  lemma BothWays(pairs: seq<Pair>, p: Pair)
    requires DistinctKeys(pairs) && forall q :: q in pairs ==> (q.1, q.0) in pairs
    ensures IsLastValue(pairs, p) <==> p in pairs
  {
    if IsLastValue(pairs, p) {
      var i :| 0 <= i < |pairs| && pairs[i] == (p.1, p.0);
      assert pairs[i] in pairs && (pairs[i].1, pairs[i].0) == p;
    }
    if p in pairs {
      assert (p.1, p.0) in pairs;
      var i :| 0 <= i < |pairs| && pairs[i] == (p.1, p.0);
      forall j | i < j < |pairs| ensures pairs[j].1 != p.0 {
        if pairs[j].1 == p.0 {
          var q := pairs[j];
          assert q in pairs && (q.1, q.0) in pairs;
          OneValue(pairs, (q.1, q.0), p);
        }
      }
    }
  }

  lemma OneValue(pairs: seq<Pair>, p: Pair, q: Pair)
    requires DistinctKeys(pairs) && p in pairs && q in pairs && p.0 == q.0
    ensures p == q
  {
  }

  /** The failing case: a single pair of different strings comes back as another dict. */
  lemma OnePairComesBackSwapped(k: seq<byte>, v: seq<byte>)
    requires k != v
    ensures Swapped([(k, v)]) == [(v, k)] && !SameDict(Swapped([(k, v)]), [(k, v)])
  {
    assert [(k, v)][1..] == [];
    assert Put([], v, k) == [(v, k)] && PutSwapped([(v, k)], []) == [(v, k)];
    assert (v, k) in [(v, k)] && (v, k) !in [(k, v)];
  }

  /** What _pack writes of a block: owner and group only together, and the two times only together. */
  function Complete(a: Attr): Attr {
    a.(uid := if a.gid.None? then None else a.uid, gid := if a.uid.None? then None else a.gid,
       atime := if a.mtime.None? then None else a.atime, mtime := if a.atime.None? then None else a.mtime)
  }

  /** What the receiver makes of it. */
  function Arrives(a: Attr): Attr {
    Complete(a).(pairs := Swapped(a.pairs))
  }

  // ---------- writing ----------

  function FlagsOf(a: Attr): int {
    (if a.size.Some? then FLAG_SIZE else 0)
    + (if a.uid.Some? && a.gid.Some? then FLAG_UIDGID else 0)
    + (if a.mode.Some? then FLAG_PERMISSIONS else 0)
    + (if a.atime.Some? && a.mtime.Some? then FLAG_AMTIME else 0)
    + (if a.pairs != [] then FLAG_EXTENDED else 0)
  }

  /** flags & bit */
  predicate Has(flags: int, bit: int)
    requires bit > 0
  {
    flags / bit % 2 == 1
  }

  function PairItems(pairs: seq<Pair>): seq<Item> {
    if pairs == [] then [] else [Str(pairs[0].0), Str(pairs[0].1)] + PairItems(pairs[1..])
  }

  function Two(x: Option<int>, y: Option<int>): seq<Item> {
    if x.Some? && y.Some? then [Int(x.value), Int(y.value)] else []
  }

  function SizeItems(a: Attr): seq<Item> {
    if a.size.Some? then [Int64(a.size.value)] else []
  }

  function ModeItems(a: Attr): seq<Item> {
    if a.mode.Some? then [Int(a.mode.value)] else []
  }

  function ExtendedItems(a: Attr): seq<Item> {
    if a.pairs == [] then [] else [Int(|a.pairs|)] + PairItems(a.pairs)
  }

  /** The fields of an attribute block, in order. */
  function PackItems(a: Attr): seq<Item> {
    [Int(FlagsOf(a))] + (SizeItems(a) + (Two(a.uid, a.gid) + (ModeItems(a) + (Two(a.atime, a.mtime) + ExtendedItems(a)))))
  }

  lemma FlagBits(a: Attr)
    ensures Has(FlagsOf(a), FLAG_SIZE) == a.size.Some?
    ensures Has(FlagsOf(a), FLAG_UIDGID) == (a.uid.Some? && a.gid.Some?)
    ensures Has(FlagsOf(a), FLAG_PERMISSIONS) == a.mode.Some?
    ensures Has(FlagsOf(a), FLAG_AMTIME) == (a.atime.Some? && a.mtime.Some?)
    ensures Has(FlagsOf(a), FLAG_EXTENDED) == (a.pairs != [])
    ensures 0 <= FlagsOf(a) < 0x1_0000_0000
  {
  }

  /** The strings of the pairs as they are written, each key before its value. */
  lemma {:induction false} PairsInOrder(pairs: seq<Pair>)
    ensures var r := PairItems(pairs);
      |r| == 2 * |pairs| && forall i :: 0 <= i < |pairs| ==> r[2 * i] == Str(pairs[i].0) && r[2 * i + 1] == Str(pairs[i].1)
  {
    if pairs != [] {
      PairsInOrder(pairs[1..]);
      var r, later := PairItems(pairs), PairItems(pairs[1..]);
      forall i | 0 <= i < |pairs| ensures r[2 * i] == Str(pairs[i].0) && r[2 * i + 1] == Str(pairs[i].1) {
        if i > 0 {
          assert pairs[1..][i - 1] == pairs[i];
          assert r[2 * i] == later[2 * (i - 1)] && r[2 * i + 1] == later[2 * (i - 1) + 1];
        }
      }
    }
  }

  /** The block of the file transfer protocol, field by field. */
  lemma BlockLayout(a: Attr)
    ensures PackItems(a)
         == [Int((if a.size.Some? then 1 else 0) + (if a.uid.Some? && a.gid.Some? then 2 else 0)
                 + (if a.mode.Some? then 4 else 0) + (if a.atime.Some? && a.mtime.Some? then 8 else 0)
                 + (if a.pairs != [] then 0x8000_0000 else 0))]
            + (if a.size.Some? then [Int64(a.size.value)] else [])
            + (if a.uid.Some? && a.gid.Some? then [Int(a.uid.value), Int(a.gid.value)] else [])
            + (if a.mode.Some? then [Int(a.mode.value)] else [])
            + (if a.atime.Some? && a.mtime.Some? then [Int(a.atime.value), Int(a.mtime.value)] else [])
            + (if a.pairs != [] then [Int(|a.pairs|)] + PairItems(a.pairs) else [])
  {
    var f, x1, x2, x3, x4, x5 := [Int(FlagsOf(a))], SizeItems(a), Two(a.uid, a.gid), ModeItems(a), Two(a.atime, a.mtime), ExtendedItems(a);
    Flatten(f, x1, x2, x3, x4, x5);
    hide PairItems;
  }

  lemma Flatten(a: seq<Item>, b: seq<Item>, c: seq<Item>, d: seq<Item>, e: seq<Item>, f: seq<Item>)
    ensures a + (b + (c + (d + (e + f)))) == a + b + c + d + e + f
  {
    assert d + (e + f) == d + e + f;
    assert c + (d + e + f) == c + d + e + f;
    assert b + (c + d + e + f) == b + c + d + e + f;
  }

  // ---------- reading ----------

  /** A cursor that has moved on, with the number or string it passed. */
  function GetInt(c: seq<byte>, pos: nat): (r: (nat, nat))
    requires pos <= |c|
    ensures r.1 <= |c|
  {
    var (b, p) := ReadBytes(c, pos, 4);
    (BE(b), p)
  }

  function GetInt64(c: seq<byte>, pos: nat): (r: (int, nat))
    requires pos <= |c|
    ensures r.1 <= |c|
  {
    var (b, p) := ReadBytes(c, pos, 8);
    (BE(b), p)
  }

  function UnpackPairs(n: nat, c: seq<byte>, pos: nat, pairs: seq<Pair>): (r: (seq<Pair>, nat))
    requires pos <= |c|
    ensures r.1 <= |c|
  {
    if n == 0 then (pairs, pos)
    else
      var (v, p) := ReadString(c, pos);
      var (k, q) := ReadString(c, p);
      UnpackPairs(n - 1, c, q, Put(pairs, k, v))
  }

  /** One optional field, or two that come together. */
  function One(c: seq<byte>, pos: nat, present: bool): (r: (Option<int>, nat))
    requires pos <= |c|
    ensures r.1 <= |c|
  {
    if present then var (n, p) := GetInt(c, pos); (Some(n), p) else (None, pos)
  }

  function Unpack(c: seq<byte>, pos: nat): (r: (Attr, nat))
    requires pos <= |c|
    ensures r.1 <= |c|
  {
    var (flags, p0) := GetInt(c, pos);
    var (size, p1) := if Has(flags, FLAG_SIZE) then var (n, p) := GetInt64(c, p0); (Some(n), p) else (None, p0);
    var (uid, p2) := One(c, p1, Has(flags, FLAG_UIDGID));
    var (gid, p3) := One(c, p2, Has(flags, FLAG_UIDGID));
    var (mode, p4) := One(c, p3, Has(flags, FLAG_PERMISSIONS));
    var (atime, p5) := One(c, p4, Has(flags, FLAG_AMTIME));
    var (mtime, p6) := One(c, p5, Has(flags, FLAG_AMTIME));
    if Has(flags, FLAG_EXTENDED) then
      var (count, p7) := GetInt(c, p6);
      var (pairs, p8) := UnpackPairs(count, c, p7, []);
      (Attr(size, uid, gid, mode, atime, mtime, pairs), p8)
    else (Attr(size, uid, gid, mode, atime, mtime, []), p6)
  }

  // ---------- round trip ----------

  lemma IntAt(c: seq<byte>, pos: nat, n: int)
    requires Encodable(Int(n)) && IsAt(c, pos, Encode(Int(n)))
    ensures GetInt(c, pos) == (n, pos + |Encode(Int(n))|) && pos + |Encode(Int(n))| <= |c|
  {
    Pow256Four();
    ReadExactNumber(c, pos, n, 4);
  }

  lemma Int64At(c: seq<byte>, pos: nat, n: int)
    requires Encodable(Int64(n)) && IsAt(c, pos, Encode(Int64(n)))
    ensures GetInt64(c, pos) == (n, pos + |Encode(Int64(n))|) && pos + |Encode(Int64(n))| <= |c|
  {
    Pow256Eight();
    ReadExactNumber(c, pos, n, 8);
  }

  /** The items stand in the content from the given position on. */
  ghost predicate ItemsAt(c: seq<byte>, pos: nat, items: seq<Item>) {
    AllEncodable(items) && IsAt(c, pos, EncodeAll(items))
  }

  lemma {:induction false} NextItem(c: seq<byte>, pos: nat, i: Item, rest: seq<Item>)
    requires ItemsAt(c, pos, [i] + rest)
    ensures Encodable(i) && IsAt(c, pos, Encode(i)) && ItemsAt(c, pos + |Encode(i)|, rest)
    ensures |EncodeAll([i] + rest)| == |Encode(i)| + |EncodeAll(rest)|
  {
    var items := [i] + rest;
    assert items[1..] == rest && items[0] == i;
    assert AllEncodable(rest) by {
      assert forall k :: 0 <= k < |rest| ==> rest[k] == items[k + 1];
    }
    IsAtSplit(c, pos, Encode(i), EncodeAll(rest));
  }

  lemma {:induction false} StrHead(c: seq<byte>, pos: nat, k: seq<byte>, rest: seq<Item>)
    requires ItemsAt(c, pos, [Str(k)] + rest) && pos <= |c|
    ensures var (b, p) := ReadString(c, pos);
      && b == k && ItemsAt(c, p, rest) && AllEncodable([Str(k)] + rest) && AllEncodable(rest)
      && p + |EncodeAll(rest)| == pos + |EncodeAll([Str(k)] + rest)|
  {
    NextItem(c, pos, Str(k), rest);
    ReadExactString(c, pos, k);
    hide ReadString, EncodeAll, IsAt;
  }

  lemma {:induction false} PairHead(c: seq<byte>, pos: nat, todo: seq<Pair>)
    requires todo != [] && ItemsAt(c, pos, PairItems(todo)) && pos <= |c|
    ensures var (k, v) := todo[0];
      var p := ReadString(c, pos).1;
      var q := ReadString(c, p).1;
      && ReadString(c, pos).0 == k && ReadString(c, p).0 == v && ItemsAt(c, q, PairItems(todo[1..]))
      && AllEncodable(PairItems(todo)) && AllEncodable(PairItems(todo[1..]))
      && q + |EncodeAll(PairItems(todo[1..]))| == pos + |EncodeAll(PairItems(todo))|
  {
    var (k, v) := todo[0];
    var rest := PairItems(todo[1..]);
    PairSplit(todo);
    hide *;
    StrHead(c, pos, k, [Str(v)] + rest);
    StrHead(c, ReadString(c, pos).1, v, rest);
  }

  lemma {:induction false} PairSplit(todo: seq<Pair>)
    requires todo != []
    ensures PairItems(todo) == [Str(todo[0].0)] + ([Str(todo[0].1)] + PairItems(todo[1..]))
  {
  }

  lemma {:induction false} NoPairs(c: seq<byte>, pos: nat, done: seq<Pair>)
    requires pos <= |c|
    ensures UnpackPairs(0, c, pos, done) == (done, pos) && PutSwapped(done, []) == done && PairItems([]) == []
    ensures AllEncodable([]) && |EncodeAll([])| == 0
  {
  }

  lemma {:induction false} UnpackStep(n: nat, c: seq<byte>, pos: nat, pairs: seq<Pair>)
    requires n > 0 && pos <= |c|
    ensures var (v, p) := ReadString(c, pos);
            var (k, q) := ReadString(c, p);
      UnpackPairs(n, c, pos, pairs) == UnpackPairs(n - 1, c, q, Put(pairs, k, v))
  {
  }

  lemma {:induction false} SwapStep(done: seq<Pair>, todo: seq<Pair>)
    requires todo != []
    ensures PutSwapped(done, todo) == PutSwapped(Put(done, todo[0].1, todo[0].0), todo[1..])
  {
  }

  /** Packed pairs read back swapped, one after another. */
  lemma {:induction false} PairsAt(c: seq<byte>, pos: nat, todo: seq<Pair>, done: seq<Pair>)
    requires ItemsAt(c, pos, PairItems(todo)) && pos <= |c|
    ensures AllEncodable(PairItems(todo))
    ensures UnpackPairs(|todo|, c, pos, done) == (PutSwapped(done, todo), pos + |EncodeAll(PairItems(todo))|)
    decreases |todo|
  {
    hide *;
    if todo == [] {
      NoPairs(c, pos, done);
    } else {
      PairHead(c, pos, todo);
      SwapStep(done, todo);
      UnpackStep(|todo|, c, pos, done);
      var (v, p) := ReadString(c, pos);
      var (k, q) := ReadString(c, p);
      PairsAt(c, q, todo[1..], Put(done, k, v));
    }
  }

  /** After the reader has moved to p, the rest of what stood at pos stands there. */
  ghost predicate Leaves(c: seq<byte>, pos: nat, items: seq<Item>, p: nat, rest: seq<Item>) {
    && AllEncodable(items) && ItemsAt(c, p, rest) && p <= |c|
    && p + |EncodeAll(rest)| == pos + |EncodeAll(items)|
  }

  lemma {:induction false} IntHead(c: seq<byte>, pos: nat, n: int, rest: seq<Item>)
    requires ItemsAt(c, pos, [Int(n)] + rest) && pos <= |c|
    ensures GetInt(c, pos).0 == n && Leaves(c, pos, [Int(n)] + rest, GetInt(c, pos).1, rest)
  {
    NextItem(c, pos, Int(n), rest);
    IntAt(c, pos, n);
    hide GetInt, EncodeAll, IsAt;
  }

  lemma {:induction false} SizeHead(c: seq<byte>, pos: nat, a: Attr, rest: seq<Item>)
    requires ItemsAt(c, pos, SizeItems(a) + rest) && pos <= |c|
    ensures a.size.Some? ==>
      GetInt64(c, pos).0 == a.size.value && Leaves(c, pos, SizeItems(a) + rest, GetInt64(c, pos).1, rest)
    ensures a.size.None? ==> SizeItems(a) + rest == rest && Leaves(c, pos, SizeItems(a) + rest, pos, rest)
  {
    if a.size.Some? {
      NextItem(c, pos, Int64(a.size.value), rest);
      Int64At(c, pos, a.size.value);
    } else {
      assert SizeItems(a) + rest == rest;
    }
    hide GetInt64, EncodeAll, IsAt;
  }

  lemma {:induction false} TwoHead(c: seq<byte>, pos: nat, x: Option<int>, y: Option<int>, rest: seq<Item>)
    requires ItemsAt(c, pos, Two(x, y) + rest) && pos <= |c|
    ensures var present := x.Some? && y.Some?;
      var (u, p) := One(c, pos, present);
      var (v, q) := One(c, p, present);
      (if present then u == x && v == y else u.None? && v.None?) && Leaves(c, pos, Two(x, y) + rest, q, rest)
  {
    if x.Some? && y.Some? {
      assert Two(x, y) + rest == [Int(x.value)] + ([Int(y.value)] + rest);
      IntHead(c, pos, x.value, [Int(y.value)] + rest);
      IntHead(c, GetInt(c, pos).1, y.value, rest);
    } else {
      assert Two(x, y) + rest == rest;
    }
    hide GetInt, EncodeAll, IsAt;
  }

  lemma {:induction false} ModeHead(c: seq<byte>, pos: nat, a: Attr, rest: seq<Item>)
    requires ItemsAt(c, pos, ModeItems(a) + rest) && pos <= |c|
    ensures var (m, p) := One(c, pos, a.mode.Some?);
      m == a.mode && Leaves(c, pos, ModeItems(a) + rest, p, rest)
  {
    if a.mode.Some? {
      IntHead(c, pos, a.mode.value, rest);
    } else {
      assert ModeItems(a) + rest == rest;
    }
    hide GetInt, EncodeAll, IsAt;
  }

  lemma {:induction false} ExtendedHead(c: seq<byte>, pos: nat, a: Attr)
    requires ItemsAt(c, pos, ExtendedItems(a)) && pos <= |c|
    ensures AllEncodable(ExtendedItems(a))
    ensures a.pairs == [] ==> EncodeAll(ExtendedItems(a)) == []
    ensures a.pairs != [] ==>
      var (n, p) := GetInt(c, pos);
      n == |a.pairs| && UnpackPairs(n, c, p, []) == (PutSwapped([], a.pairs), pos + |EncodeAll(ExtendedItems(a))|)
  {
    ExtendedAre(a);
    hide *;
    if a.pairs != [] {
      IntHead(c, pos, |a.pairs|, PairItems(a.pairs));
      LeavesMeans(c, pos, ExtendedItems(a), GetInt(c, pos).1, PairItems(a.pairs));
      PairsAt(c, GetInt(c, pos).1, a.pairs, []);
    }
  }

  lemma {:induction false} LeavesMeans(c: seq<byte>, pos: nat, items: seq<Item>, p: nat, rest: seq<Item>)
    requires Leaves(c, pos, items, p, rest)
    ensures AllEncodable(items) && ItemsAt(c, p, rest) && p <= |c| && AllEncodable(rest)
    ensures p + |EncodeAll(rest)| == pos + |EncodeAll(items)|
  {
  }

  lemma {:induction false} ExtendedAre(a: Attr)
    ensures a.pairs != [] ==> ExtendedItems(a) == [Int(|a.pairs|)] + PairItems(a.pairs)
    ensures a.pairs == [] ==> ExtendedItems(a) == [] && AllEncodable([]) && EncodeAll([]) == []
    ensures a.pairs == [] ==> Swapped(a.pairs) == []
  {
  }

  /** Unpacking what was packed gives every number back, incomplete pairs apart, for every combination
      of fields, and the extended pairs swapped; it stops right after the block. */
  lemma {:induction false} RoundTrip(a: Attr, c: seq<byte>, pos: nat)
    requires ItemsAt(c, pos, PackItems(a)) && pos <= |c|
    ensures AllEncodable(PackItems(a))
    ensures Unpack(c, pos) == (Arrives(a), pos + |EncodeAll(PackItems(a))|)
  {
    FlagBits(a);
    ExtendedAre(a);
    var r4 := Two(a.atime, a.mtime) + ExtendedItems(a);
    var r3 := ModeItems(a) + r4;
    var r2 := Two(a.uid, a.gid) + r3;
    var r1 := SizeItems(a) + r2;
    hide GetInt, GetInt64, One, FlagsOf, Has, ItemsAt, EncodeAll, AllEncodable, UnpackPairs, Two, ModeItems, SizeItems, ExtendedItems;
    IntHead(c, pos, FlagsOf(a), r1);
    var p0 := GetInt(c, pos).1;
    SizeHead(c, p0, a, r2);
    var p1 := if a.size.Some? then GetInt64(c, p0).1 else p0;
    TwoHead(c, p1, a.uid, a.gid, r3);
    var p2 := One(c, p1, a.uid.Some? && a.gid.Some?).1;
    var p3 := One(c, p2, a.uid.Some? && a.gid.Some?).1;
    ModeHead(c, p3, a, r4);
    var p4 := One(c, p3, a.mode.Some?).1;
    TwoHead(c, p4, a.atime, a.mtime, ExtendedItems(a));
    var p5 := One(c, p4, a.atime.Some? && a.mtime.Some?).1;
    var p6 := One(c, p5, a.atime.Some? && a.mtime.Some?).1;
    ExtendedHead(c, p6, a);
  }

  // ---------- the class ----------

  lemma {:induction false} OneMore(base: seq<byte>, done: seq<Item>, i: Item)
    requires AllEncodable(done)
    ensures AllEncodable(done + [i]) <==> Encodable(i)
    ensures Encodable(i) ==> base + EncodeAll(done + [i]) == (base + EncodeAll(done)) + Encode(i)
  {
    if Encodable(i) {
      assert AllEncodable([i]);
      EncodeAllAppend(done, [i]);
      assert EncodeAll([i]) == Encode(i);
    } else {
      assert (done + [i])[|done|] == i;
    }
  }

  lemma {:induction false} Begins(items: seq<Item>, part: seq<Item>)
    requires part <= items && AllEncodable(items)
    ensures AllEncodable(part)
  {
    assert forall k :: 0 <= k < |part| ==> part[k] == items[k];
  }

  /** A message under construction: the items so far, then one more, unless struct.pack refuses it. */
  method AddItem(m: Message, i: Item, ghost base: seq<byte>, ghost done: seq<Item>, before: bool) returns (ok: bool)
    requires m.Valid() && (before ==> AllEncodable(done) && m.packet == base + EncodeAll(done) && m.pos == |m.packet|)
    requires before == AllEncodable(done)
    modifies m
    ensures m.Valid() && ok == AllEncodable(done + [i])
    ensures ok ==> m.packet == base + EncodeAll(done + [i]) && m.pos == |m.packet|
  {
    ok := before;
    if before {
      OneMore(base, done, i);
      WriteAtEnd(m.packet, Encode2(i));
      hide Encode, EncodeAll, AllEncodable, Encodable, WriteAt;
      ok := m.Add(i);
    } else {
      if AllEncodable(done + [i]) {
        Begins(done + [i], done);
      }
    }
  }

  lemma SizeItemsAre(a: Attr)
    ensures SizeItems(a) == if a.size.None? then [] else [Int64(a.size.value)]
    ensures ModeItems(a) == if a.mode.None? then [] else [Int(a.mode.value)]
  {
  }

  lemma {:induction false} InOrder(a: Attr)
    ensures [Int(FlagsOf(a))] + SizeItems(a) + Two(a.uid, a.gid) + ModeItems(a) + Two(a.atime, a.mtime) + ExtendedItems(a)
         == PackItems(a)
  {
    hide SizeItems, Two, ModeItems, ExtendedItems, FlagsOf;
  }

  function Encode2(i: Item): seq<byte> {
    if Encodable(i) then Encode(i) else []
  }

  class SFTPAttributes {
    var flags: int
    var size: Option<int>
    var uid: Option<int>
    var gid: Option<int>
    var mode: Option<int>
    var atime: Option<int>
    var mtime: Option<int>
    var attr: seq<Pair>

    constructor ()
      ensures View() == Empty
    {
      flags, size, uid, gid, mode, atime, mtime, attr := 0, None, None, None, None, None, None, [];
    }

    function View(): Attr
      reads this
    {
      Attr(size, uid, gid, mode, atime, mtime, attr)
    }

    /** _unpack, into a new object as _from_msg does. */
    method UnpackFrom(msg: Message)
      requires View() == Empty && msg.Valid()
      modifies this, msg`pos
      ensures msg.Valid() && (View(), msg.pos) == Unpack(msg.packet, old(msg.pos))
    {
      hide ReadBytes, ReadString, BE, Has, GetInt, UnpackPairs;
      var n := GetNumber(msg);
      flags := n;
      if Has(flags, FLAG_SIZE) {
        var i := msg.Get(KInt64);
        size := Some(i.n);
      }
      hide One;
      uid := UnpackOne(msg, Has(flags, FLAG_UIDGID));
      gid := UnpackOne(msg, Has(flags, FLAG_UIDGID));
      mode := UnpackOne(msg, Has(flags, FLAG_PERMISSIONS));
      atime := UnpackOne(msg, Has(flags, FLAG_AMTIME));
      mtime := UnpackOne(msg, Has(flags, FLAG_AMTIME));
      if Has(flags, FLAG_EXTENDED) {
        UnpackExtended(msg);
      }
    }

    /** A number, if the flags announce it. */
    method UnpackOne(msg: Message, present: bool) returns (x: Option<int>)
      requires msg.Valid()
      modifies msg`pos
      ensures msg.Valid() && (x, msg.pos) == One(msg.packet, old(msg.pos), present)
    {
      x := None;
      if present {
        var n := GetNumber(msg);
        x := Some(n);
      }
    }

    method GetNumber(msg: Message) returns (n: nat)
      requires msg.Valid()
      modifies msg`pos
      ensures msg.Valid() && (n, msg.pos) == GetInt(msg.packet, old(msg.pos))
    {
      var i := msg.Get(KInt);
      n := i.n;
    }

    method UnpackExtended(msg: Message)
      requires msg.Valid() && attr == []
      modifies this`attr, msg`pos
      ensures msg.Valid()
      ensures var (count, p) := GetInt(msg.packet, old(msg.pos)); (attr, msg.pos) == UnpackPairs(count, msg.packet, p, [])
    {
      hide UnpackPairs, GetInt;
      var count := GetNumber(msg);
      UnpackItems(msg, count);
    }

    method UnpackItems(msg: Message, count: nat)
      requires msg.Valid()
      modifies this`attr, msg`pos
      ensures msg.Valid() && (attr, msg.pos) == UnpackPairs(count, msg.packet, old(msg.pos), old(attr))
    {
      hide ReadString, UnpackPairs, Put;
      var i := 0;
      while i < count
        invariant 0 <= i <= count && msg.Valid() && msg.packet == old(msg.packet)
        invariant UnpackPairs(count - i, msg.packet, msg.pos, attr) == UnpackPairs(count, msg.packet, old(msg.pos), old(attr))
      {
        UnpackStep(count - i, msg.packet, msg.pos, attr);
        UnpackPair(msg);
        i := i + 1;
      }
      NoPairs(msg.packet, msg.pos, attr);
    }

    method UnpackPair(msg: Message)
      requires msg.Valid()
      modifies this`attr, msg`pos
      ensures msg.Valid()
      ensures var (v, p) := ReadString(msg.packet, old(msg.pos));
              var (k, q) := ReadString(msg.packet, p);
        attr == Put(old(attr), k, v) && msg.pos == q
    {
      hide ReadString, Put;
      var v := msg.GetString();
      var k := msg.GetString();
      attr := Put(attr, k, v);
    }

    /** _pack: flags first, then what they announce. False where struct.pack refuses a number. */
    method Pack(msg: Message) returns (ok: bool)
      requires msg.Valid() && msg.pos == |msg.packet|
      modifies this`flags, msg
      ensures msg.Valid() && ok == AllEncodable(PackItems(View()))
      ensures ok ==> msg.packet == old(msg.packet) + EncodeAll(PackItems(View())) && msg.pos == |msg.packet|
    {
      flags := FlagsOf(View());
      FlagBits(View());
      ghost var base, start: seq<Item> := msg.packet, [];
      assert AllEncodable(start) && msg.packet == base + EncodeAll(start) && start + [Int(flags)] == [Int(flags)];
      hide EncodeAll, AllEncodable, Has, FlagsOf, Two, SizeItems, ModeItems, ExtendedItems;
      ok := AddItem(msg, Int(flags), base, start, true);
      ghost var d1 := [Int(flags)];
      SizeItemsAre(View());
      ok := PackOne(msg, if Has(flags, FLAG_SIZE) then size else None, true, base, d1, ok);
      ghost var d2 := d1 + SizeItems(View());
      ok := PackTwo(msg, uid, gid, Has(flags, FLAG_UIDGID), base, d2, ok);
      ghost var d3 := d2 + Two(uid, gid);
      ok := PackOne(msg, if Has(flags, FLAG_PERMISSIONS) then mode else None, false, base, d3, ok);
      ghost var d4 := d3 + ModeItems(View());
      ok := PackTwo(msg, atime, mtime, Has(flags, FLAG_AMTIME), base, d4, ok);
      ghost var d5 := d4 + Two(atime, mtime);
      ok := PackExtended(msg, base, d5, ok);
      InOrder(View());
    }

    /** The size or the mode, if announced. */
    method PackOne(msg: Message, x: Option<int>, wide: bool, ghost base: seq<byte>, ghost before: seq<Item>, good: bool)
      returns (ok: bool)
      requires msg.Valid() && good == AllEncodable(before)
      requires good ==> msg.packet == base + EncodeAll(before) && msg.pos == |msg.packet|
      modifies msg
      ensures msg.Valid()
      ensures var done := before + if x.None? then [] else [if wide then Int64(x.value) else Int(x.value)];
        ok == AllEncodable(done) && (ok ==> msg.packet == base + EncodeAll(done) && msg.pos == |msg.packet|)
    {
      hide EncodeAll, AllEncodable;
      ok := good;
      if x.Some? {
        ok := AddItem(msg, if wide then Int64(x.value) else Int(x.value), base, before, ok);
      } else {
        assert before + [] == before;
      }
    }

    method PackTwo(msg: Message, x: Option<int>, y: Option<int>, present: bool, ghost base: seq<byte>,
                   ghost before: seq<Item>, good: bool) returns (ok: bool)
      requires present == (x.Some? && y.Some?)
      requires msg.Valid() && good == AllEncodable(before)
      requires good ==> msg.packet == base + EncodeAll(before) && msg.pos == |msg.packet|
      modifies msg
      ensures msg.Valid() && ok == AllEncodable(before + Two(x, y))
      ensures ok ==> msg.packet == base + EncodeAll(before + Two(x, y)) && msg.pos == |msg.packet|
    {
      hide EncodeAll, AllEncodable;
      ok := good;
      if present {
        ok := AddItem(msg, Int(x.value), base, before, ok);
        ok := AddItem(msg, Int(y.value), base, before + [Int(x.value)], ok);
        assert before + Two(x, y) == before + [Int(x.value)] + [Int(y.value)];
      } else {
        assert before + Two(x, y) == before;
      }
    }

    method PackExtended(msg: Message, ghost base: seq<byte>, ghost before: seq<Item>, good: bool) returns (ok: bool)
      requires msg.Valid() && good == AllEncodable(before)
      requires good ==> msg.packet == base + EncodeAll(before) && msg.pos == |msg.packet|
      modifies msg
      ensures msg.Valid() && ok == AllEncodable(before + ExtendedItems(View()))
      ensures ok ==> msg.packet == base + EncodeAll(before + ExtendedItems(View())) && msg.pos == |msg.packet|
    {
      ok := good;
      hide EncodeAll, AllEncodable;
      if attr == [] {
        assert before + ExtendedItems(View()) == before;
        return;
      }
      ghost var done := before + [Int(|attr|)];
      ok := AddItem(msg, Int(|attr|), base, before, ok);
      var i := 0;
      while i < |attr|
        invariant 0 <= i <= |attr| && msg.Valid() && ok == AllEncodable(done)
        invariant ok ==> msg.packet == base + EncodeAll(done) && msg.pos == |msg.packet|
        invariant done + PairItems(attr[i..]) == before + ExtendedItems(View())
      {
        var (k, v) := attr[i];
        assert attr[i..][1..] == attr[i + 1..];
        PairSplit(attr[i..]);
        ok := AddItem(msg, Str(k), base, done, ok);
        ok := AddItem(msg, Str(v), base, done + [Str(k)], ok);
        done := done + [Str(k)] + [Str(v)];
        i := i + 1;
      }
      assert attr[i..] == [] && done + PairItems(attr[i..]) == done;
    }
  }
}
