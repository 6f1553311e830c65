/** paramiko/transport.py: the KEXINIT message, and the copy of it that its receiver rebuilds. */
module KexInits {
  import opened Bytes
  import opened Messages
  import N = Negotiation

  const KEXINIT: byte := 20

  /** A string of names, however it was composed, is the join of the names it splits into. */
  function Normal(i: Item): Item {
    if i.NameList? then NameList(Split(Join(i.names))) else i
  }

  function NormalAll(items: seq<Item>): (r: seq<Item>)
    ensures |r| == |items|
    ensures forall i :: 0 <= i < |r| ==> r[i] == Normal(items[i])
  {
    if items == [] then [] else [Normal(items[0])] + NormalAll(items[1..])
  }

  lemma NormalEncodes(i: Item)
    ensures Encodable(Normal(i)) <==> Encodable(i)
    ensures Encodable(i) ==> Encode(Normal(i)) == Encode(i)
    ensures KindOf(Normal(i)) == KindOf(i) && PlainItem(Normal(i))
  {
    if i.NameList? {
      SplitPieces(Join(i.names));
    }
  }

  lemma {:induction false} NormalEncodesAll(items: seq<Item>)
    requires AllEncodable(items)
    ensures AllEncodable(NormalAll(items)) && AllPlain(NormalAll(items))
    ensures EncodeAll(NormalAll(items)) == EncodeAll(items) && Kinds(NormalAll(items)) == Kinds(items)
  {
    forall i | 0 <= i < |items|
      ensures Encodable(NormalAll(items)[i]) && PlainItem(NormalAll(items)[i])
    {
      NormalEncodes(items[i]);
    }
    if items != [] {
      NormalEncodes(items[0]);
      NormalEncodesAll(items[1..]);
      var n := NormalAll(items);
      assert n[0] == Normal(items[0]) && n[1..] == NormalAll(items[1..]);
    }
  }

  /** Any message reads back normalised, name lists included whatever their names are, and the
      reader stops exactly at its end: bytes appended to it are not part of get_so_far. */
  lemma ReadsBackNormalised(items: seq<Item>, junk: seq<byte>)
    requires AllEncodable(items)
    ensures DecodeAll(Kinds(items), EncodeAll(items) + junk, 0)
         == (NormalAll(items), |EncodeAll(items)|)
  {
    hide *;
    NormalEncodesAll(items);
    var content := EncodeAll(items) + junk;
    IsAtFront(EncodeAll(NormalAll(items)), junk);
    RoundTrip(NormalAll(items), content, 0);
  }

  lemma IsAtFront(a: seq<byte>, junk: seq<byte>)
    ensures IsAt(a + junk, 0, a)
  {
  }

  // ---------- the message ----------

  /** What _send_kex_init writes after the type byte. */
  function Fields(cookie: seq<byte>, l: N.Lists): (r: seq<Item>)
  {
    Head(cookie, l) + [Str([]), Str([]), Bool(false), Int(0)]
  }

  function Head(cookie: seq<byte>, l: N.Lists): (r: seq<Item>) {
    [Raw(cookie), NameList(l.kex), NameList(l.keys), NameList(l.clientEncrypt), NameList(l.serverEncrypt),
     NameList(l.clientMac), NameList(l.serverMac), NameList(l.clientCompress), NameList(l.serverCompress)]
  }

  /** The same, with the two language lists as the reader sees them. */
  function FieldsRead(cookie: seq<byte>, l: N.Lists): (r: seq<Item>) {
    Head(cookie, l) + [NameList([]), NameList([]), Bool(false), Int(0)]
  }

  predicate Sendable(l: N.Lists) {
    AllEncodable([NameList(l.kex), NameList(l.keys), NameList(l.clientEncrypt), NameList(l.serverEncrypt),
                  NameList(l.clientMac), NameList(l.serverMac), NameList(l.clientCompress), NameList(l.serverCompress)])
  }

  lemma HeadEncodable(cookie: seq<byte>, l: N.Lists)
    requires Sendable(l)
    ensures AllEncodable(Head(cookie, l))
  {
    var lists := [NameList(l.kex), NameList(l.keys), NameList(l.clientEncrypt), NameList(l.serverEncrypt),
                  NameList(l.clientMac), NameList(l.serverMac), NameList(l.clientCompress), NameList(l.serverCompress)];
    assert Head(cookie, l) == [Raw(cookie)] + lists;
  }

  lemma TailsEncodeAlike()
    ensures var sent, read := [Str([]), Str([]), Bool(false), Int(0)], [NameList([]), NameList([]), Bool(false), Int(0)];
      AllEncodable(sent) && AllEncodable(read) && EncodeAll(sent) == EncodeAll(read)
  {
    var rest: seq<Item> := [Bool(false), Int(0)];
    var s, n := Str([]), NameList([]);
    assert Encodable(s) && Encodable(n) && Encode(s) == Encode(n);
    assert AllEncodable(rest);
    assert [s, s, Bool(false), Int(0)] == [s] + ([s] + rest);
    assert [n, n, Bool(false), Int(0)] == [n] + ([n] + rest);
    Prepend(s, rest);
    Prepend(n, rest);
    Prepend(s, [s] + rest);
    Prepend(n, [n] + rest);
  }

  lemma Prepend(i: Item, rest: seq<Item>)
    requires Encodable(i) && AllEncodable(rest)
    ensures AllEncodable([i] + rest) && EncodeAll([i] + rest) == Encode(i) + EncodeAll(rest)
  {
    assert ([i] + rest)[1..] == rest;
  }

  lemma SameBytes(cookie: seq<byte>, l: N.Lists)
    requires Sendable(l)
    ensures AllEncodable(Fields(cookie, l)) && AllEncodable(FieldsRead(cookie, l))
    ensures EncodeAll(FieldsRead(cookie, l)) == EncodeAll(Fields(cookie, l))
  {
    HeadEncodable(cookie, l);
    TailsEncodeAlike();
    EncodeAllAppend(Head(cookie, l), [Str([]), Str([]), Bool(false), Int(0)]);
    EncodeAllAppend(Head(cookie, l), [NameList([]), NameList([]), Bool(false), Int(0)]);
  }

  function LocalKexInit(cookie: seq<byte>, l: N.Lists): seq<byte>
    requires Sendable(l)
  {
    HeadEncodable(cookie, l);
    SameBytes(cookie, l);
    [KEXINIT] + EncodeAll(Fields(cookie, l))
  }

  // ---------- its receiver ----------

  function NamesAt(items: seq<Item>, i: nat): seq<N.Name> {
    if i < |items| && items[i].NameList? then items[i].names else []
  }

  function ReadKinds(): seq<Kind> {
    [KRaw(16), KNameList, KNameList, KNameList, KNameList, KNameList, KNameList, KNameList, KNameList,
     KNameList, KNameList, KBool, KInt]
  }

  /** _really_parse_kex_init, and where it leaves the cursor. */
  function ReallyParseKexInit(m: seq<byte>): (r: (N.Lists, nat))
    ensures r.1 <= |m|
  {
    var (f, p) := DecodeAll(ReadKinds(), m, 0);
    (N.Lists(NamesAt(f, 1), NamesAt(f, 2), NamesAt(f, 3), NamesAt(f, 4), NamesAt(f, 5), NamesAt(f, 6),
             NamesAt(f, 7), NamesAt(f, 8)), p)
  }

  /** remote_kex_init: the type byte and get_so_far. */
  function RemoteKexInit(m: seq<byte>): seq<byte> {
    [KEXINIT] + m[..ReallyParseKexInit(m).1]
  }

  ghost predicate NoCommas(names: seq<N.Name>) {
    forall x :: x in names ==> COMMA !in x
  }

  ghost predicate NoCommasIn(l: N.Lists) {
    && NoCommas(l.kex) && NoCommas(l.keys) && NoCommas(l.clientEncrypt) && NoCommas(l.serverEncrypt)
    && NoCommas(l.clientMac) && NoCommas(l.serverMac) && NoCommas(l.clientCompress) && NoCommas(l.serverCompress)
  }

  lemma FieldKinds(cookie: seq<byte>, l: N.Lists)
    requires |cookie| == 16
    ensures Kinds(FieldsRead(cookie, l)) == ReadKinds()
  {
    KindsByItem(FieldsRead(cookie, l));
    hide Kinds;
  }

  /** The receiver's copy of a KEXINIT is byte for byte the sender's, whatever names were sent
      and whatever junk follows the message. */
  lemma KexInitRebuilt(cookie: seq<byte>, l: N.Lists, junk: seq<byte>)
    requires |cookie| == 16 && Sendable(l)
    ensures AllEncodable(Fields(cookie, l))
    ensures RemoteKexInit(EncodeAll(Fields(cookie, l)) + junk) == LocalKexInit(cookie, l)
  {
    SameBytes(cookie, l);
    FieldKinds(cookie, l);
    var body := EncodeAll(Fields(cookie, l));
    hide AllEncodable, EncodeAll, DecodeAll, Kinds, Fields, FieldsRead, ReadKinds;
    ReadsBackNormalised(FieldsRead(cookie, l), junk);
    assert (body + junk)[..|body|] == body;
  }

  lemma FieldsAt(cookie: seq<byte>, l: N.Lists)
    ensures var f := FieldsRead(cookie, l);
      |f| == 13 && f[1..9] == [NameList(l.kex), NameList(l.keys), NameList(l.clientEncrypt),
                               NameList(l.serverEncrypt), NameList(l.clientMac), NameList(l.serverMac),
                               NameList(l.clientCompress), NameList(l.serverCompress)]
  {
  }

  lemma NamesRead(cookie: seq<byte>, l: N.Lists)
    requires NoCommasIn(l)
    ensures var f := NormalAll(FieldsRead(cookie, l));
      N.Lists(NamesAt(f, 1), NamesAt(f, 2), NamesAt(f, 3), NamesAt(f, 4), NamesAt(f, 5), NamesAt(f, 6),
              NamesAt(f, 7), NamesAt(f, 8)) == N.Received(l)
  {
    FieldsAt(cookie, l);
    var items := FieldsRead(cookie, l);
    hide FieldsRead, NormalAll, NamesAt, NoCommas, N.OnWire;
    var part := items[1..9];
    assert forall i :: 1 <= i < 9 ==> items[i] == part[i - 1];
    NamesNormalised(items, 1, l.kex);
    NamesNormalised(items, 2, l.keys);
    NamesNormalised(items, 3, l.clientEncrypt);
    NamesNormalised(items, 4, l.serverEncrypt);
    NamesNormalised(items, 5, l.clientMac);
    NamesNormalised(items, 6, l.serverMac);
    NamesNormalised(items, 7, l.clientCompress);
    NamesNormalised(items, 8, l.serverCompress);
  }

  /** And it reads the sender's lists, an empty one as one empty name, provided no name holds a comma. */
  lemma KexInitRead(cookie: seq<byte>, l: N.Lists, junk: seq<byte>)
    requires |cookie| == 16 && Sendable(l) && NoCommasIn(l)
    ensures AllEncodable(Fields(cookie, l))
    ensures ReallyParseKexInit(EncodeAll(Fields(cookie, l)) + junk).0 == N.Received(l)
  {
    SameBytes(cookie, l);
    FieldKinds(cookie, l);
    ReadsBackNormalised(FieldsRead(cookie, l), junk);
    NamesRead(cookie, l);
    hide AllEncodable, EncodeAll, DecodeAll, Kinds, ReadKinds, N.Received, NormalAll, NamesAt, Fields,
      FieldsRead, NoCommasIn, Sendable;
  }

  lemma NamesNormalised(items: seq<Item>, i: nat, names: seq<N.Name>)
    requires i < |items| && items[i] == NameList(names) && NoCommas(names)
    ensures NamesAt(NormalAll(items), i) == N.OnWire(names)
  {
    N.OnWireIsSplitJoin(names);
  }
}
