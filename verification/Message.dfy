/** paramiko/message.py: the SSH message codec, a byte stream with a cursor. */
module Messages {
  import opened Bytes
  import Util

  /** From this size on a short read is not padded. */
  const MAX_PAD_SIZE := 0x10_0000
  const BIG_INT := 0xFF00_0000
  const COMMA: byte := 44

  // ---------- one field at a time ----------

  datatype Item =
    | Raw(bytes: seq<byte>)
    | Bool(flag: bool)
    | Int(n: int)
    | Int64(n: int)
    | Adaptive(n: int)
    | Mpint(n: int)
    | Str(bytes: seq<byte>)
    | NameList(names: seq<seq<byte>>)

  datatype Kind = KRaw(n: nat) | KBool | KInt | KInt64 | KAdaptive | KMpint | KStr | KNameList

  function KindOf(i: Item): Kind {
    match i
    case Raw(b) => KRaw(|b|)
    case Bool(_) => KBool
    case Int(_) => KInt
    case Int64(_) => KInt64
    case Adaptive(_) => KAdaptive
    case Mpint(_) => KMpint
    case Str(_) => KStr
    case NameList(_) => KNameList
  }

  function Join(names: seq<seq<byte>>): seq<byte> {
    if |names| == 0 then []
    else if |names| == 1 then names[0]
    else names[0] + [COMMA] + Join(names[1..])
  }

  function FindFrom(s: seq<byte>, b: byte, start: nat): (i: nat)
    requires start <= |s|
    ensures start <= i <= |s|
    ensures i < |s| ==> s[i] == b
    ensures forall j :: start <= j < i ==> s[j] != b
    decreases |s| - start
  {
    if start == |s| || s[start] == b then start else FindFrom(s, b, start + 1)
  }

  function Split(s: seq<byte>): (names: seq<seq<byte>>)
    ensures names != []
    decreases |s|
  {
    var i := FindFrom(s, COMMA, 0);
    if i == |s| then [s] else [s[..i]] + Split(s[i + 1..])
  }

  /** struct.pack raises outside these bounds. */
  predicate Encodable(i: Item) {
    match i
    case Raw(_) => true
    case Bool(_) => true
    case Int(n) => 0 <= n < 0x1_0000_0000
    case Int64(n) => 0 <= n < 0x1_0000_0000_0000_0000
    case Adaptive(n) => 0 <= n && (n >= BIG_INT ==> |Util.Mpint(n)| < 0x1_0000_0000)
    case Mpint(n) => |Util.Mpint(n)| < 0x1_0000_0000
    case Str(b) => |b| < 0x1_0000_0000
    case NameList(l) => |Join(l)| < 0x1_0000_0000
  }

  function EncodeString(b: seq<byte>): seq<byte>
    requires |b| < 0x1_0000_0000
  {
    ToBE(|b|, 4) + b
  }

  function Encode(i: Item): seq<byte>
    requires Encodable(i)
  {
    match i
    case Raw(b) => b
    case Bool(f) => if f then [1] else [0]
    case Int(n) => ToBE(n, 4)
    case Int64(n) => ToBE(n, 8)
    case Adaptive(n) => if n >= BIG_INT then [255] + EncodeString(Util.Mpint(n)) else ToBE(n, 4)
    case Mpint(n) => EncodeString(Util.Mpint(n))
    case Str(b) => EncodeString(b)
    case NameList(l) => EncodeString(Join(l))
  }

  /** n in four bytes, the most significant first. */
  ghost predicate NumberField(e: seq<byte>, n: int) {
    |e| == 4 && n == 0x100_0000 * (e[0] as int) + 0x1_0000 * (e[1] as int) + 0x100 * (e[2] as int) + e[3] as int
  }

  lemma NumberLayout(n: nat)
    requires n < 0x1_0000_0000
    ensures NumberField(ToBE(n, 4), n)
  {
    var a, b, c := n / 256, n / 256 / 256, n / 256 / 256 / 256;
    assert ToBE(n, 4) == ToBE(a, 3) + [n % 256] && ToBE(a, 3) == ToBE(b, 2) + [a % 256];
    assert ToBE(b, 2) == ToBE(c, 1) + [b % 256] && ToBE(c, 1) == ToBE(c / 256, 0) + [c % 256];
  }

  /** A string field holding b: its length in four bytes, then b. */
  ghost predicate StringField(e: seq<byte>, b: seq<byte>) {
    |e| == 4 + |b| && NumberField(e[..4], |b|) && e[4..] == b
  }

  /** A string field holding the shortest two's-complement form of n. */
  ghost predicate MpintField(e: seq<byte>, n: int) {
    |e| >= 4 && StringField(e, e[4..]) && Signed(e[4..]) == n && Util.Canonical(e[4..])
  }

  /** Section 5 of RFC 4251, but that the number zero is one zero byte and not none: what the bytes of a field
      are. The adaptive integer is paramiko's own. */
  ghost predicate FieldLayout(i: Item, e: seq<byte>) {
    match i
    case Raw(b) => e == b
    case Bool(f) => e == [if f then 1 else 0]
    case Int(n) => NumberField(e, n)
    case Int64(n) => |e| == 8 && BE(e) == n && NumberField(e[..4], n / 0x1_0000_0000)
    case Adaptive(n) =>
      if n < 0xFF00_0000 then NumberField(e, n) && e[0] != 255
      else |e| >= 1 && e[0] == 255 && MpintField(e[1..], n)
    case Mpint(n) => MpintField(e, n)
    case Str(b) => StringField(e, b)
    case NameList(l) => exists b :: StringField(e, b) && CommaSeparated(l, b)
  }

  /** b is the names in order with one comma between neighbours. */
  ghost predicate CommaSeparated(names: seq<seq<byte>>, b: seq<byte>) {
    match |names|
    case 0 => b == []
    case 1 => b == names[0]
    case _ =>
      var k := |names[0]|;
      k < |b| && b[..k] == names[0] && b[k] == 44 && CommaSeparated(names[1..], b[k + 1..])
  }

  lemma StringLayout(b: seq<byte>)
    requires |b| < 0x1_0000_0000
    ensures StringField(EncodeString(b), b)
  {
    NumberLayout(|b|);
    var e := EncodeString(b);
    assert e[..4] == ToBE(|b|, 4) && e[4..] == b;
  }

  lemma Int64Layout(n: nat)
    requires n < 0x1_0000_0000_0000_0000
    ensures BE(ToBE(n, 8)) == n && NumberField(ToBE(n, 8)[..4], n / 0x1_0000_0000)
  {
    Pow256Eight();
    ToBERoundTrip(n, 8);
    var m := n / 256 / 256 / 256 / 256;
    assert m == n / 0x1_0000_0000;
    assert ToBE(n, 8)[..7] == ToBE(n / 256, 7) && ToBE(n / 256, 7)[..6] == ToBE(n / 256 / 256, 6);
    assert ToBE(n / 256 / 256, 6)[..5] == ToBE(n / 256 / 256 / 256, 5) && ToBE(n / 256 / 256 / 256, 5)[..4] == ToBE(m, 4);
    assert ToBE(n, 8)[..4] == ToBE(m, 4);
    NumberLayout(m);
  }

  lemma MpintLayout(n: int)
    requires |Util.Mpint(n)| < 0x1_0000_0000
    ensures MpintField(EncodeString(Util.Mpint(n)), n)
  {
    var b := Util.Mpint(n);
    StringLayout(b);
    Util.MpintValue(n);
    Util.MpintCanonical(n);
    hide EncodeString, Signed, Util.Canonical;
  }

  lemma {:induction false} JoinLayout(names: seq<seq<byte>>)
    ensures CommaSeparated(names, Join(names))
  {
    if |names| > 1 {
      var k, b := |names[0]|, Join(names);
      JoinLayout(names[1..]);
      assert b == names[0] + ([COMMA] + Join(names[1..]));
      assert b[..k] == names[0] && b[k + 1..] == Join(names[1..]);
    }
  }

  /** Whatever is written is laid out as the standard has it. */
  lemma EncodeMeans(i: Item)
    requires Encodable(i)
    ensures FieldLayout(i, Encode(i))
  {
    hide NumberField, StringField, MpintField, ToBE, BE, EncodeString, Util.Mpint, CommaSeparated, Join;
    match i
    case Int(n) => NumberLayout(n);
    case Int64(n) => Int64Layout(n);
    case Adaptive(n) =>
      if n >= BIG_INT {
        MpintLayout(n);
        assert Encode(i)[1..] == EncodeString(Util.Mpint(n));
      } else {
        NumberLayout(n);
        SmallFirstByte(n);
      }
    case Mpint(n) => MpintLayout(n);
    case Str(b) => StringLayout(b);
    case NameList(l) => StringLayout(Join(l)); JoinLayout(l);
    case _ =>
  }

  // ---------- reading ----------

  function Min(a: int, b: int): int {
    if a < b then a else b
  }

  /** get_bytes: a short read is padded with zeros, unless a megabyte or more was asked for. */
  function ReadBytes(content: seq<byte>, pos: nat, n: nat): (r: (seq<byte>, nat))
    requires pos <= |content|
    ensures r.1 <= |content|
    ensures |r.0| == n || (pos + n > |content| && n >= MAX_PAD_SIZE)
  {
    var end := Min(pos + n, |content|);
    var b := content[pos..end];
    (if |b| < n < MAX_PAD_SIZE then b + Repeat(0, n - |b|) else b, end)
  }

  function ReadString(content: seq<byte>, pos: nat): (r: (seq<byte>, nat))
    requires pos <= |content|
    ensures r.1 <= |content|
  {
    var (len, p) := ReadBytes(content, pos, 4);
    ReadBytes(content, p, BE(len))
  }

  function ReadAdaptive(content: seq<byte>, pos: nat): (r: (int, nat))
    requires pos <= |content|
    ensures r.1 <= |content|
  {
    var (first, p) := ReadBytes(content, pos, 1);
    if first == [255] then
      var (b, p2) := ReadString(content, p);
      (Signed(b), p2)
    else
      var (rest, p2) := ReadBytes(content, p, 3);
      (BE(first + rest), p2)
  }

  function Decode(k: Kind, content: seq<byte>, pos: nat): (r: (Item, nat))
    requires pos <= |content|
    ensures r.1 <= |content|
  {
    match k
    case KRaw(n) => var (b, p) := ReadBytes(content, pos, n); (Raw(b), p)
    case KBool => var (b, p) := ReadBytes(content, pos, 1); (Bool(b != [0]), p)
    case KInt => var (b, p) := ReadBytes(content, pos, 4); (Int(BE(b)), p)
    case KInt64 => var (b, p) := ReadBytes(content, pos, 8); (Int64(BE(b)), p)
    case KAdaptive => var (n, p) := ReadAdaptive(content, pos); (Adaptive(n), p)
    case KMpint => var (b, p) := ReadString(content, pos); (Mpint(Signed(b)), p)
    case KStr => var (b, p) := ReadString(content, pos); (Str(b), p)
    case KNameList => var (b, p) := ReadString(content, pos); (NameList(Split(b)), p)
  }

  // ---------- whole messages ----------

  predicate AllEncodable(items: seq<Item>) {
    forall i :: 0 <= i < |items| ==> Encodable(items[i])
  }

  function EncodeAll(items: seq<Item>): seq<byte>
    requires AllEncodable(items)
  {
    if items == [] then [] else Encode(items[0]) + EncodeAll(items[1..])
  }

  function Kinds(items: seq<Item>): seq<Kind> {
    if items == [] then [] else [KindOf(items[0])] + Kinds(items[1..])
  }

  function DecodeAll(kinds: seq<Kind>, content: seq<byte>, pos: nat): (r: (seq<Item>, nat))
    requires pos <= |content|
    ensures r.1 <= |content|
    decreases |kinds|
  {
    if kinds == [] then ([], pos)
    else
      var (i, p) := Decode(kinds[0], content, pos);
      var (rest, q) := DecodeAll(kinds[1..], content, p);
      ([i] + rest, q)
  }

  /** Name lists survive the comma-separated form exactly when they are not empty and
      no name contains a comma. */
  predicate PlainNames(names: seq<seq<byte>>) {
    names != [] && forall i :: 0 <= i < |names| ==> COMMA !in names[i]
  }

  predicate PlainItem(i: Item) {
    i.NameList? ==> PlainNames(i.names)
  }

  predicate AllPlain(items: seq<Item>) {
    forall i :: 0 <= i < |items| ==> PlainItem(items[i])
  }

  lemma FindAtSeparator(a: seq<byte>, rest: seq<byte>)
    requires COMMA !in a
    ensures FindFrom(a + [COMMA] + rest, COMMA, 0) == |a|
  {
    var s := a + [COMMA] + rest;
    assert s[|a|] == COMMA;
    assert forall j :: 0 <= j < |a| ==> s[j] == a[j] && a[j] in a;
  }

  lemma {:induction false} SplitPieces(s: seq<byte>)
    ensures PlainNames(Split(s)) && Join(Split(s)) == s
    decreases |s|
  {
    var i := FindFrom(s, COMMA, 0);
    if i < |s| {
      SplitPieces(s[i + 1..]);
      assert s == s[..i] + [COMMA] + s[i + 1..];
      assert Split(s)[1..] == Split(s[i + 1..]);
    }
  }

  lemma {:induction false} SplitJoin(names: seq<seq<byte>>)
    ensures Split(Join(names)) == names <==> PlainNames(names)
  {
    SplitPieces(Join(names));
    if PlainNames(names) {
      if |names| == 1 {
        assert FindFrom(names[0], COMMA, 0) == |names[0]|;
      } else {
        SplitJoin(names[1..]);
        FindAtSeparator(names[0], Join(names[1..]));
        assert Join(names)[|names[0]| + 1..] == Join(names[1..]);
        assert Join(names)[..|names[0]|] == names[0];
        assert names == [names[0]] + names[1..];
      }
    }
  }

  /** The string b stands in the content at the given position. */
  ghost predicate IsAt(content: seq<byte>, pos: nat, b: seq<byte>) {
    pos + |b| <= |content| && content[pos..pos + |b|] == b
  }

  lemma IsAtSplit(content: seq<byte>, pos: nat, a: seq<byte>, b: seq<byte>)
    requires IsAt(content, pos, a + b)
    ensures IsAt(content, pos, a) && IsAt(content, pos + |a|, b)
    ensures pos + |a| + |b| <= |content|
  {
    var s := content[pos..pos + |a + b|];
    assert s[..|a|] == a && s[|a|..] == b;
    assert content[pos..pos + |a|] == s[..|a|];
    assert content[pos + |a|..pos + |a| + |b|] == s[|a|..];
  }

  lemma ReadExact(content: seq<byte>, pos: nat, b: seq<byte>)
    requires IsAt(content, pos, b)
    ensures ReadBytes(content, pos, |b|) == (b, pos + |b|)
  {
  }

  lemma ReadExactString(content: seq<byte>, pos: nat, b: seq<byte>)
    requires |b| < 0x1_0000_0000 && IsAt(content, pos, EncodeString(b))
    ensures ReadString(content, pos) == (b, pos + 4 + |b|)
  {
    Pow256Four();
    ToBERoundTrip(|b|, 4);
    IsAtSplit(content, pos, ToBE(|b|, 4), b);
    ReadExact(content, pos, ToBE(|b|, 4));
    ReadExact(content, pos + 4, b);
  }

  lemma SmallFirstByte(n: nat)
    requires n < BIG_INT
    ensures ToBE(n, 4)[0] != 255 && BE(ToBE(n, 4)) == n
  {
    Pow256Four();
    ToBERoundTrip(n, 4);
    BEFirst(ToBE(n, 4));
    assert Pow256(3) == 0x100_0000 by {
      assert Pow256(1) == 256 && Pow256(2) == 0x1_0000;
    }
  }

  lemma ReadExactAdaptive(content: seq<byte>, pos: nat, n: int)
    requires Encodable(Adaptive(n)) && IsAt(content, pos, Encode(Adaptive(n)))
    ensures ReadAdaptive(content, pos) == (n, pos + |Encode(Adaptive(n))|)
  {
    if n >= BIG_INT {
      ReadLarge(content, pos, n);
    } else {
      ReadSmall(content, pos, n);
    }
  }

  lemma ReadLarge(content: seq<byte>, pos: nat, n: int)
    requires n >= BIG_INT && Encodable(Adaptive(n)) && IsAt(content, pos, Encode(Adaptive(n)))
    ensures ReadAdaptive(content, pos) == (n, pos + |Encode(Adaptive(n))|)
  {
    var m := Util.Mpint(n);
    assert Encode(Adaptive(n)) == [255] + EncodeString(m);
    IsAtSplit(content, pos, [255], EncodeString(m));
    Util.MpintValue(n);
    hide IsAt, ReadBytes, ReadString, Signed;
    ReadExact(content, pos, [255]);
    ReadExactString(content, pos + 1, m);
  }

  lemma ReadSmall(content: seq<byte>, pos: nat, n: int)
    requires 0 <= n < BIG_INT && IsAt(content, pos, ToBE(n, 4))
    ensures ReadAdaptive(content, pos) == (n, pos + 4)
  {
    SmallFirstByte(n);
    var e := ToBE(n, 4);
    assert e == [e[0]] + e[1..];
    IsAtSplit(content, pos, [e[0]], e[1..]);
    hide IsAt, ReadBytes, ToBE, BE;
    ReadExact(content, pos, [e[0]]);
    ReadExact(content, pos + 1, e[1..]);
  }

  lemma ReadExactNumber(content: seq<byte>, pos: nat, n: nat, width: nat)
    requires n < Pow256(width) && IsAt(content, pos, ToBE(n, width))
    ensures var (b, p) := ReadBytes(content, pos, width); BE(b) == n && p == pos + width
  {
    ToBERoundTrip(n, width);
    ReadExact(content, pos, ToBE(n, width));
  }

  lemma DecodeEncodeNumber(i: Item, content: seq<byte>, pos: nat)
    requires i.Raw? || i.Bool? || i.Int? || i.Int64? || i.Adaptive?
    requires Encodable(i) && IsAt(content, pos, Encode(i))
    ensures Decode(KindOf(i), content, pos) == (i, pos + |Encode(i)|)
  {
    match i
    case Raw(b) => ReadExact(content, pos, b);
    case Bool(f) => ReadExact(content, pos, if f then [1] else [0]);
    case Int(n) => Pow256Four(); ReadExactNumber(content, pos, n, 4);
    case Int64(n) => Pow256Eight(); ReadExactNumber(content, pos, n, 8);
    case Adaptive(n) => ReadExactAdaptive(content, pos, n);
    case _ =>
  }

  lemma DecodeEncodeString(i: Item, content: seq<byte>, pos: nat)
    requires i.Mpint? || i.Str? || i.NameList?
    requires Encodable(i) && PlainItem(i) && IsAt(content, pos, Encode(i))
    ensures Decode(KindOf(i), content, pos) == (i, pos + |Encode(i)|)
  {
    match i
    case Mpint(n) => ReadExactString(content, pos, Util.Mpint(n)); Util.MpintValue(n);
    case Str(b) => ReadExactString(content, pos, b);
    case NameList(l) => ReadExactString(content, pos, Join(l)); SplitJoin(l);
    case _ =>
  }

  /** Reading a field where it was written gives the field and leaves the cursor right
      after it, whatever else the message holds. */
  lemma DecodeEncode(i: Item, content: seq<byte>, pos: nat)
    requires Encodable(i) && PlainItem(i) && IsAt(content, pos, Encode(i))
    ensures Decode(KindOf(i), content, pos) == (i, pos + |Encode(i)|)
  {
    hide Decode, KindOf, Encode, Encodable, PlainItem, IsAt;
    if i.Mpint? || i.Str? || i.NameList? {
      DecodeEncodeString(i, content, pos);
    } else {
      DecodeEncodeNumber(i, content, pos);
    }
  }

  lemma DecodeAllCons(kinds: seq<Kind>, content: seq<byte>, pos: nat, p: nat, i: Item,
                      tail: seq<Item>, q: nat)
    requires kinds != [] && pos <= |content| && p <= |content|
    requires Decode(kinds[0], content, pos) == (i, p)
    requires DecodeAll(kinds[1..], content, p) == (tail, q)
    ensures DecodeAll(kinds, content, pos) == ([i] + tail, q)
  {
  }

  lemma Uncons(items: seq<Item>)
    requires items != [] && AllEncodable(items) && AllPlain(items)
    ensures Encodable(items[0]) && PlainItem(items[0])
    ensures AllEncodable(items[1..]) && AllPlain(items[1..])
    ensures EncodeAll(items) == Encode(items[0]) + EncodeAll(items[1..])
    ensures Kinds(items) != [] && Kinds(items)[0] == KindOf(items[0])
    ensures Kinds(items)[1..] == Kinds(items[1..])
    ensures items == [items[0]] + items[1..]
  {
  }

  lemma {:induction false} KindsByItem(items: seq<Item>)
    ensures |Kinds(items)| == |items|
    ensures forall i :: 0 <= i < |items| ==> Kinds(items)[i] == KindOf(items[i])
  {
    if items != [] {
      KindsByItem(items[1..]);
    }
  }

  lemma NoItems(content: seq<byte>, pos: nat)
    requires pos <= |content|
    ensures DecodeAll(Kinds([]), content, pos) == ([], pos + |EncodeAll([])|)
  {
  }

  /** A whole message, written field by field, reads back as the same fields and consumes
      exactly its own bytes, so trailing junk does not matter. */
  lemma {:induction false} RoundTrip(items: seq<Item>, content: seq<byte>, pos: nat)
    requires AllEncodable(items) && AllPlain(items)
    requires pos <= |content| && IsAt(content, pos, EncodeAll(items))
    ensures DecodeAll(Kinds(items), content, pos) == (items, pos + |EncodeAll(items)|)
    decreases |items|
  {
    hide *;
    if items == [] {
      NoItems(content, pos);
    } else {
      Uncons(items);
      var e, tail := Encode(items[0]), EncodeAll(items[1..]);
      IsAtSplit(content, pos, e, tail);
      DecodeEncode(items[0], content, pos);
      RoundTrip(items[1..], content, pos + |e|);
      DecodeAllCons(Kinds(items), content, pos, pos + |e|, items[0], items[1..],
                    pos + |e| + |tail|);
    }
  }

  lemma {:induction false} EncodeAllAppend(items: seq<Item>, more: seq<Item>)
    requires AllEncodable(items) && AllEncodable(more)
    ensures AllEncodable(items + more)
    ensures EncodeAll(items + more) == EncodeAll(items) + EncodeAll(more)
  {
    if items == [] {
      assert items + more == more;
    } else {
      assert (items + more)[1..] == items[1..] + more;
      EncodeAllAppend(items[1..], more);
    }
  }

  // ---------- the class ----------

  /** BytesIO.write at a cursor. */
  function WriteAt(content: seq<byte>, pos: nat, b: seq<byte>): seq<byte>
    requires pos <= |content|
  {
    content[..pos] + b + content[Min(pos + |b|, |content|)..]
  }

  /** What an add_* that raises has written by then: the marker of a large adaptive integer stands before
      its length is found not to fit, and nothing else does. */
  function WrittenBeforeRaising(i: Item): seq<byte> {
    if i.Adaptive? && i.n >= BIG_INT then [255] else []
  }

  lemma WriteNothing(content: seq<byte>, pos: nat)
    requires pos <= |content|
    ensures WriteAt(content, pos, []) == content
  {
  }

  class Message {
    var packet: seq<byte>
    var pos: nat

    predicate Valid()
      reads this
    {
      pos <= |packet|
    }

    constructor (content: seq<byte>)
      ensures Valid() && packet == content && pos == 0
    {
      packet, pos := content, 0;
    }

    method Rewind()
      requires Valid()
      modifies this`pos
      ensures Valid() && pos == 0
    {
      pos := 0;
    }

    /** The bytes read so far and the bytes left always make up the content, and
        asking for either moves nothing. */
    method SoFarAndRemainder() returns (soFar: seq<byte>, remainder: seq<byte>)
      requires Valid()
      ensures soFar + remainder == packet && |soFar| == pos
    {
      soFar := packet[..pos];
      remainder := packet[pos..];
    }

    // The add_* methods write at the cursor and report whether struct.pack accepted the value;
    // where it does not, Python raises.

    method Write(b: seq<byte>)
      requires Valid()
      modifies this
      ensures Valid() && packet == WriteAt(old(packet), old(pos), b) && pos == old(pos) + |b|
    {
      packet := packet[..pos] + b + packet[Min(pos + |b|, |packet|)..];
      pos := pos + |b|;
    }

    method Add(i: Item) returns (ok: bool)
      requires Valid()
      modifies this
      ensures Valid() && ok == Encodable(i)
      ensures ok ==> packet == WriteAt(old(packet), old(pos), Encode(i))
      ensures ok ==> pos == old(pos) + |Encode(i)|
      ensures !ok ==> packet == WriteAt(old(packet), old(pos), WrittenBeforeRaising(i)) && pos == old(pos) + |WrittenBeforeRaising(i)|
    {
      ok := true;
      WriteNothing(packet, pos);
      match i {
        case Raw(b) => Write(b);
        case Bool(f) => if f { Write([1]); } else { Write([0]); }
        case Int(n) => ok := AddNumber(n, 4, 0x1_0000_0000);
        case Int64(n) => ok := AddNumber(n, 8, 0x1_0000_0000_0000_0000);
        case Adaptive(n) => ok := AddAdaptiveInt(n);
        case Mpint(n) =>
          var m := Util.DeflateLong(n, true);
          ok := AddString(m);
        case Str(b) => ok := AddString(b);
        case NameList(l) => ok := AddString(Join(l));
      }
    }

    method AddNumber(n: int, width: nat, limit: int) returns (ok: bool)
      requires Valid()
      modifies this
      ensures Valid() && (ok <==> 0 <= n < limit)
      ensures ok ==> packet == WriteAt(old(packet), old(pos), ToBE(n, width))
      ensures ok ==> pos == old(pos) + width
      ensures !ok ==> packet == old(packet) && pos == old(pos)
    {
      ok := 0 <= n < limit;
      if ok {
        Write(ToBE(n, width));
      }
    }

    method AddString(b: seq<byte>) returns (ok: bool)
      requires Valid()
      modifies this
      ensures Valid() && (ok <==> |b| < 0x1_0000_0000)
      ensures ok ==> packet == WriteAt(old(packet), old(pos), EncodeString(b))
      ensures ok ==> pos == old(pos) + 4 + |b|
      ensures !ok ==> packet == old(packet) && pos == old(pos)
    {
      ok := AddNumber(|b|, 4, 0x1_0000_0000);
      if ok {
        Write(b);
        WriteTwice(old(packet), old(pos), ToBE(|b|, 4), b);
      }
    }

    method AddAdaptiveInt(n: int) returns (ok: bool)
      requires Valid()
      modifies this
      ensures Valid() && ok == Encodable(Adaptive(n))
      ensures ok ==> packet == WriteAt(old(packet), old(pos), Encode(Adaptive(n)))
      ensures ok ==> pos == old(pos) + |Encode(Adaptive(n))|
      ensures !ok ==>
        packet == WriteAt(old(packet), old(pos), WrittenBeforeRaising(Adaptive(n)))
        && pos == old(pos) + |WrittenBeforeRaising(Adaptive(n))|
    {
      WriteNothing(packet, pos);
      if n >= BIG_INT {
        Write([255]);
        var m := Util.DeflateLong(n, true);
        ok := AddString(m);
        if ok {
          WriteTwice(old(packet), old(pos), [255], EncodeString(m));
        }
      } else {
        ok := AddNumber(n, 4, 0x1_0000_0000);
      }
    }

    /** Every get_* method reads at the cursor what Decode reads there. */
    method GetBytes(n: nat) returns (b: seq<byte>)
      requires Valid()
      modifies this`pos
      ensures Valid() && (b, pos) == ReadBytes(packet, old(pos), n)
      ensures |b| == if n < 0x10_0000 || old(pos) + n <= |packet| then n else |packet| - old(pos)
      ensures forall i :: 0 <= i < |b| ==> b[i] == if old(pos) + i < |packet| then packet[old(pos) + i] else 0
      ensures pos == if old(pos) + n <= |packet| then old(pos) + n else |packet|
    {
      var end := Min(pos + n, |packet|);
      b := packet[pos..end];
      pos := end;
      if |b| < n && n < MAX_PAD_SIZE {
        b := b + Repeat(0, n - |b|);
      }
    }

    method GetString() returns (b: seq<byte>)
      requires Valid()
      modifies this`pos
      ensures Valid() && (b, pos) == ReadString(packet, old(pos))
    {
      var len := GetBytes(4);
      b := GetBytes(BE(len));
    }

    method Get(k: Kind) returns (i: Item)
      requires Valid()
      modifies this`pos
      ensures Valid() && (i, pos) == Decode(k, packet, old(pos))
    {
      match k {
        case KRaw(n) => var b := GetBytes(n); i := Raw(b);
        case KBool => var b := GetBytes(1); i := Bool(b != [0]);
        case KInt => var b := GetBytes(4); i := Int(BE(b));
        case KInt64 => var b := GetBytes(8); i := Int64(BE(b));
        case KAdaptive =>
          var first := GetBytes(1);
          if first == [255] {
            var b := GetString();
            var n := Util.InflateLong(b, false);
            i := Adaptive(n);
          } else {
            var rest := GetBytes(3);
            i := Adaptive(BE(first + rest));
          }
        case KMpint =>
          var b := GetString();
          var n := Util.InflateLong(b, false);
          i := Mpint(n);
        case KStr => var b := GetString(); i := Str(b);
        case KNameList => var b := GetString(); i := NameList(Split(b));
      }
    }
  }

  lemma WriteTwice(content: seq<byte>, pos: nat, a: seq<byte>, b: seq<byte>)
    requires pos <= |content|
    ensures WriteAt(WriteAt(content, pos, a), pos + |a|, b) == WriteAt(content, pos, a + b)
  {
  }

  lemma EncodeOneMore(items: seq<Item>, i: nat)
    requires i < |items| && AllEncodable(items)
    ensures Encodable(items[i]) && AllEncodable(items[..i]) && AllEncodable(items[..i + 1])
    ensures EncodeAll(items[..i + 1]) == EncodeAll(items[..i]) + Encode(items[i])
  {
    assert items[..i + 1] == items[..i] + [items[i]];
    EncodeAllAppend(items[..i], [items[i]]);
    assert EncodeAll([items[i]]) == Encode(items[i]);
  }

  lemma WriteAtEnd(content: seq<byte>, b: seq<byte>)
    ensures WriteAt(content, |content|, b) == content + b
  {
  }

  lemma DecodeOneMore(kinds: seq<Kind>, i: nat, content: seq<byte>, pos: nat)
    requires i < |kinds| && pos <= |content|
    ensures var (item, p) := Decode(kinds[i], content, pos);
            var (tail, q) := DecodeAll(kinds[i + 1..], content, p);
            DecodeAll(kinds[i..], content, pos) == ([item] + tail, q)
  {
    assert kinds[i..][1..] == kinds[i + 1..];
  }

  /** A message built field by field and read back by its receiver. */
  method Transmit(items: seq<Item>, junk: seq<byte>) returns (back: seq<Item>, soFar: seq<byte>)
    requires AllEncodable(items) && AllPlain(items)
    ensures back == items
    ensures soFar == EncodeAll(items)
  {
    assert AllEncodable(items[..0]) && EncodeAll(items[..0]) == [];
    hide AllEncodable, Encodable, EncodeAll, Encode, Decode, WriteAt, DecodeAll, Kinds;
    var m := new Message([]);
    var i := 0;
    while i < |items|
      invariant 0 <= i <= |items| && fresh(m) && m.Valid()
      invariant AllEncodable(items[..i]) && m.packet == EncodeAll(items[..i])
      invariant m.pos == |m.packet|
    {
      EncodeOneMore(items, i);
      WriteAtEnd(m.packet, Encode(items[i]));
      var ok := m.Add(items[i]);
      i := i + 1;
    }
    assert items[..i] == items;
    back, soFar := Receive(items, m.packet + junk);
  }

  method Receive(items: seq<Item>, content: seq<byte>) returns (back: seq<Item>, soFar: seq<byte>)
    requires AllEncodable(items) && AllPlain(items)
    requires EncodeAll(items) <= content
    ensures back == items && soFar == EncodeAll(items)
  {
    RoundTrip(items, content, 0);
    var kinds := Kinds(items);
    assert kinds[0..] == kinds && [] + items == items;
    ghost var soFarSize := |EncodeAll(items)|;
    assert content[..soFarSize] == EncodeAll(items);
    hide *;
    var r := new Message(content);
    back := [];
    var i := 0;
    while i < |kinds|
      invariant 0 <= i <= |kinds| && fresh(r) && r.Valid() && r.packet == content
      invariant back + DecodeAll(kinds[i..], content, r.pos).0 == items
      invariant DecodeAll(kinds[i..], content, r.pos).1 == soFarSize
    {
      DecodeOneMore(kinds, i, content, r.pos);
      var item := r.Get(kinds[i]);
      Shift(back, item, DecodeAll(kinds[i + 1..], content, r.pos).0);
      back := back + [item];
      i := i + 1;
    }
    NothingLeft(content, r.pos);
    assert kinds[i..] == [] && back + [] == back;
    var remainder;
    soFar, remainder := r.SoFarAndRemainder();
    assert (soFar + remainder)[..soFarSize] == soFar;
  }

  lemma Shift(back: seq<Item>, item: Item, tail: seq<Item>)
    ensures back + ([item] + tail) == (back + [item]) + tail
  {
  }

  lemma NothingLeft(content: seq<byte>, pos: nat)
    requires pos <= |content|
    ensures DecodeAll([], content, pos) == ([], pos)
  {
  }
}
