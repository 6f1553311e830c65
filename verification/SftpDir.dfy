/** Directory listing over SFTP: paramiko/sftp_client.py against paramiko/sftp_server.py. */
module SftpDirectories {
  import opened Bytes
  import opened Messages
  import A = SftpAttributes

  const BATCH := 16
  const SFTP_OK := 0
  const SFTP_EOF := 1
  const SFTP_FAILURE := 4
  const SFTP_BAD_MESSAGE := 5

  datatype Entry = Entry(filename: seq<byte>, longname: seq<byte>, attr: A.Attr)

  /** What the application's list_folder returns. */
  datatype Listing = Files(entries: seq<Entry>) | Refused(code: int)

  datatype Reply = Handle(name: seq<byte>) | Names(body: seq<byte>) | Status(code: int)

  // ---------- handle names ----------

  function Decimal(n: nat): (r: seq<byte>)
    ensures r != [] && (|r| == 1 <==> n < 10)
  {
    if n < 10 then [48 + n] else Decimal(n / 10) + [48 + n % 10]
  }

  /** b"hx%d" */
  function HandleName(n: nat): seq<byte> {
    [104, 120] + Decimal(n)
  }

  lemma {:induction false} DecimalInjective(a: nat, b: nat)
    requires Decimal(a) == Decimal(b)
    ensures a == b
  {
    var x, y := Decimal(a), Decimal(b);
    assert x[|x| - 1] == y[|y| - 1];
    if a >= 10 && b >= 10 {
      assert x[..|x| - 1] == Decimal(a / 10) && y[..|y| - 1] == Decimal(b / 10);
      DecimalInjective(a / 10, b / 10);
    }
  }

  lemma HandleInjective(a: nat, b: nat)
    requires HandleName(a) == HandleName(b)
    ensures a == b
  {
    assert HandleName(a)[2..] == Decimal(a) && HandleName(b)[2..] == Decimal(b);
    DecimalInjective(a, b);
  }

  /** One of the handles given out so far. */
  ghost predicate Issued(h: seq<byte>, next: nat) {
    exists k: nat :: 1 <= k < next && h == HandleName(k)
  }

  lemma Fresh(next: nat)
    requires next >= 1
    ensures !Issued(HandleName(next), next) && Issued(HandleName(next), next + 1)
  {
    if Issued(HandleName(next), next) {
      var k: nat :| 1 <= k < next && HandleName(next) == HandleName(k);
      HandleInjective(k, next);
    }
  }

  lemma StillIssued(h: seq<byte>, next: nat)
    requires Issued(h, next)
    ensures Issued(h, next + 1)
  {
  }

  // ---------- the wire ----------

  function EntryItems(e: Entry): seq<Item> {
    [Str(e.filename)] + ([Str(e.longname)] + A.PackItems(e.attr))
  }

  function EntriesItems(es: seq<Entry>): seq<Item> {
    if es == [] then [] else EntryItems(es[0]) + EntriesItems(es[1..])
  }

  /** The server can write the entry: names and numbers fit their fields. */
  ghost predicate Sendable(e: Entry) {
    AllEncodable(EntryItems(e))
  }

  ghost predicate AllSendable(es: seq<Entry>) {
    forall i :: 0 <= i < |es| ==> Sendable(es[i])
  }

  function ReadEntry(c: seq<byte>, pos: nat): (r: (Entry, nat))
    requires pos <= |c|
    ensures r.1 <= |c|
  {
    var (name, p) := ReadString(c, pos);
    var (longname, q) := ReadString(c, p);
    var (attr, z) := A.Unpack(c, q);
    (Entry(name, longname, attr), z)
  }

  function ReadEntries(n: nat, c: seq<byte>, pos: nat): seq<Entry>
    requires pos <= |c|
  {
    if n == 0 then []
    else var (e, p) := ReadEntry(c, pos); [e] + ReadEntries(n - 1, c, p)
  }

  /** An entry as it arrives: incomplete attribute pairs are gone, and extended ones swapped. */
  function Arrived(e: Entry): Entry {
    e.(attr := A.Arrives(e.attr))
  }

  function AllArrived(es: seq<Entry>): seq<Entry> {
    if es == [] then [] else [Arrived(es[0])] + AllArrived(es[1..])
  }

  predicate IsDot(e: Entry) {
    e.filename == [46] || e.filename == [46, 46]
  }

  /** Everything but "." and "..", in order. */
  function Visible(es: seq<Entry>): seq<Entry> {
    if es == [] then [] else (if IsDot(es[0]) then [] else [es[0]]) + Visible(es[1..])
  }

  /** The entry named by a dot and the one named by two are gone, and every other is there as often as before. */
  lemma {:induction false} VisibleMeans(es: seq<Entry>, e: Entry)
    ensures multiset(Visible(es))[e] == if e.filename == [46] || e.filename == [46, 46] then 0 else multiset(es)[e]
  {
    if es != [] {
      VisibleMeans(es[1..], e);
      assert es == [es[0]] + es[1..];
    }
  }

  /** In a response an entry is its two names, the short one first, and its attributes. */
  lemma EntryLayout(e: Entry)
    ensures var r := EntryItems(e); |r| >= 2 && r[0] == Str(e.filename) && r[1] == Str(e.longname) && r[2..] == A.PackItems(e.attr)
  {
  }

  lemma {:induction false} VisibleAppend(a: seq<Entry>, b: seq<Entry>)
    ensures Visible(a + b) == Visible(a) + Visible(b)
    decreases |a|
  {
    if a == [] {
      assert a + b == b;
    } else {
      assert (a + b)[1..] == a[1..] + b;
      VisibleAppend(a[1..], b);
    }
  }

  lemma {:induction false} ArrivedAppend(a: seq<Entry>, b: seq<Entry>)
    ensures AllArrived(a + b) == AllArrived(a) + AllArrived(b)
    decreases |a|
  {
    if a == [] {
      assert a + b == b;
    } else {
      assert (a + b)[1..] == a[1..] + b;
      ArrivedAppend(a[1..], b);
    }
  }

  lemma {:induction false} SplitItems(c: seq<byte>, pos: nat, a: seq<Item>, b: seq<Item>)
    requires A.ItemsAt(c, pos, a + b)
    ensures A.ItemsAt(c, pos, a)
    ensures AllEncodable(a) && A.ItemsAt(c, pos + |EncodeAll(a)|, b)
  {
    assert forall i :: 0 <= i < |a| ==> a[i] == (a + b)[i];
    assert forall i :: 0 <= i < |b| ==> b[i] == (a + b)[|a| + i];
    hide Encodable;
    EncodeAllAppend(a, b);
    hide EncodeAll;
    IsAtSplit(c, pos, EncodeAll(a), EncodeAll(b));
  }

  lemma {:induction false} EntrySplit(e: Entry, rest: seq<Item>)
    ensures EntryItems(e) + rest == [Str(e.filename)] + ([Str(e.longname)] + (A.PackItems(e.attr) + rest))
  {
    hide A.PackItems;
  }

  lemma {:induction false} ReadEntryIs(c: seq<byte>, pos: nat)
    requires pos <= |c|
    ensures var p := ReadString(c, pos).1;
      var q := ReadString(c, p).1;
      ReadEntry(c, pos) == (Entry(ReadString(c, pos).0, ReadString(c, p).0, A.Unpack(c, q).0), A.Unpack(c, q).1)
  {
    hide ReadString, A.Unpack;
  }

  lemma {:induction false} ArrivedIs(e: Entry)
    ensures Arrived(e) == Entry(e.filename, e.longname, A.Arrives(e.attr))
  {
    hide A.Arrives;
  }

  lemma {:induction false} EntryAt(c: seq<byte>, pos: nat, e: Entry, rest: seq<Item>)
    requires A.ItemsAt(c, pos, EntryItems(e) + rest) && pos <= |c|
    ensures var (r, p) := ReadEntry(c, pos); r == Arrived(e) && A.ItemsAt(c, p, rest)
  {
    hide *;
    var attrs := A.PackItems(e.attr);
    ArrivedIs(e);
    EntrySplit(e, rest);
    ReadEntryIs(c, pos);
    A.StrHead(c, pos, e.filename, [Str(e.longname)] + (attrs + rest));
    var p := ReadString(c, pos).1;
    A.StrHead(c, p, e.longname, attrs + rest);
    var q := ReadString(c, p).1;
    SplitItems(c, q, attrs, rest);
    A.RoundTrip(e.attr, c, q);
  }

  lemma {:induction false} EntriesStep(es: seq<Entry>, n: nat, c: seq<byte>, pos: nat)
    requires pos <= |c|
    ensures es != [] ==> EntriesItems(es) == EntryItems(es[0]) + EntriesItems(es[1..])
    ensures es != [] ==> AllArrived(es) == [Arrived(es[0])] + AllArrived(es[1..])
    ensures es == [] ==> AllArrived(es) == [] && ReadEntries(0, c, pos) == []
    ensures es != [] && AllSendable(es) ==> AllSendable(es[1..])
    ensures n > 0 ==> ReadEntries(n, c, pos) == [ReadEntry(c, pos).0] + ReadEntries(n - 1, c, ReadEntry(c, pos).1)
  {
    hide EntryItems, ReadEntry;
  }

  lemma {:induction false} EntriesAt(c: seq<byte>, pos: nat, es: seq<Entry>)
    requires A.ItemsAt(c, pos, EntriesItems(es)) && pos <= |c| && AllSendable(es)
    ensures ReadEntries(|es|, c, pos) == AllArrived(es)
    decreases |es|
  {
    hide *;
    EntriesStep(es, |es|, c, pos);
    if es != [] {
      EntryAt(c, pos, es[0], EntriesItems(es[1..]));
      EntriesAt(c, ReadEntry(c, pos).1, es[1..]);
    }
  }

  function NamesItems(es: seq<Entry>): seq<Item> {
    [Int(|es|)] + EntriesItems(es)
  }

  lemma {:induction false} EntriesEncodable(es: seq<Entry>)
    requires AllSendable(es)
    ensures AllEncodable(EntriesItems(es))
  {
    if es != [] {
      EntriesEncodable(es[1..]);
      EncodableAppend(EntryItems(es[0]), EntriesItems(es[1..]));
    }
  }

  lemma EncodableAppend(a: seq<Item>, b: seq<Item>)
    requires AllEncodable(a) && AllEncodable(b)
    ensures AllEncodable(a + b)
  {
  }

  /** A batch, written and read back. */
  lemma {:induction false} BatchArrives(es: seq<Entry>)
    requires AllSendable(es) && |es| <= BATCH
    ensures AllEncodable(NamesItems(es))
    ensures var c := EncodeAll(NamesItems(es));
      var (n, p) := A.GetInt(c, 0);
      n == |es| && ReadEntries(n, c, p) == AllArrived(es)
  {
    EntriesEncodable(es);
    EncodableAppend([Int(|es|)], EntriesItems(es));
    var c := EncodeAll(NamesItems(es));
    assert IsAt(c, 0, c);
    assert A.ItemsAt(c, 0, [Int(|es|)] + EntriesItems(es));
    hide EncodeAll, IsAt, AllEncodable, EntriesItems, ReadEntries, A.GetInt;
    A.IntHead(c, 0, |es|, EntriesItems(es));
    EntriesAt(c, A.GetInt(c, 0).1, es);
  }

  /** The same name and numbers, and the same dict of extended attributes. */
  ghost predicate SameEntry(a: Entry, b: Entry) {
    a.filename == b.filename && a.longname == b.longname
    && a.attr.(pairs := []) == b.attr.(pairs := []) && A.SameDict(a.attr.pairs, b.attr.pairs)
  }

  ghost predicate BothWays(e: Entry) {
    forall p :: p in e.attr.pairs ==> (p.1, p.0) in e.attr.pairs
  }

  lemma {:induction false} ArrivedAt(es: seq<Entry>)
    ensures |AllArrived(es)| == |es| && forall i :: 0 <= i < |es| ==> AllArrived(es)[i] == Arrived(es[i])
  {
    if es != [] {
      ArrivedAt(es[1..]);
    }
  }

  /** Every entry arrives as the server has it, incomplete pairs apart, exactly when each extended pair
      of each entry is there both ways round. */
  lemma ArriveAsSentIff(es: seq<Entry>)
    requires forall i :: 0 <= i < |es| ==> A.DistinctKeys(es[i].attr.pairs)
    ensures |AllArrived(es)| == |es|
    ensures (forall i :: 0 <= i < |es| ==> SameEntry(AllArrived(es)[i], es[i].(attr := A.Complete(es[i].attr))))
      <==> forall i :: 0 <= i < |es| ==> BothWays(es[i])
  {
    ArrivedAt(es);
    forall i | 0 <= i < |es|
      ensures SameEntry(AllArrived(es)[i], es[i].(attr := A.Complete(es[i].attr))) <==> BothWays(es[i])
    {
      A.SameDictIff(es[i].attr.pairs);
      hide A.SameDict, A.Swapped;
    }
    hide SameEntry, BothWays, AllArrived;
  }

  // ---------- the server ----------

  class SFTPServer {
    const listFolder: seq<byte> -> Listing
    var nextHandle: nat
    var fileTable: set<seq<byte>>
    var folderTable: map<seq<byte>, seq<Entry>>

    constructor (listFolder: seq<byte> -> Listing)
      ensures Valid() && folderTable == map[] && fileTable == {} && this.listFolder == listFolder
    {
      this.listFolder, nextHandle, fileTable, folderTable := listFolder, 1, {}, map[];
    }

    /** Every handle in use was made by an earlier _send_handle_response. */
    ghost predicate Valid()
      reads this
    {
      && nextHandle >= 1 && fileTable !! folderTable.Keys
      && (forall h :: h in folderTable ==> Issued(h, nextHandle))
      && (forall h :: h in fileTable ==> Issued(h, nextHandle))
    }

    method SendHandleResponse(files: seq<Entry>) returns (r: Reply)
      requires Valid()
      modifies this`nextHandle, this`folderTable
      ensures Valid() && r.Handle? && r.name !in old(folderTable) && r.name !in fileTable
      ensures folderTable == old(folderTable)[r.name := files] && nextHandle == old(nextHandle) + 1
    {
      var name := HandleName(nextHandle);
      Fresh(nextHandle);
      forall h | Issued(h, nextHandle) ensures Issued(h, nextHandle + 1) {
        StillIssued(h, nextHandle);
      }
      hide HandleName, Issued;
      nextHandle := nextHandle + 1;
      folderTable := folderTable[name := files];
      r := Handle(name);
    }

    method OpenFolder(path: seq<byte>) returns (r: Reply)
      requires Valid()
      modifies this`nextHandle, this`folderTable
      ensures Valid()
      ensures match listFolder(path)
        case Refused(code) => r == Status(code) && folderTable == old(folderTable)
        case Files(entries) =>
          r.Handle? && r.name !in old(folderTable) && r.name !in fileTable && folderTable == old(folderTable)[r.name := entries]
    {
      match listFolder(path) {
        case Files(entries) => r := SendHandleResponse(entries);
        case Refused(code) => r := Status(code);
      }
    }

    /** The next batch of at most 16 names; an exception while it is written becomes SFTP_FAILURE. */
    method ReadFolder(handle: seq<byte>) returns (r: Reply)
      requires Valid()
      modifies this`folderTable
      ensures Valid() && folderTable.Keys == old(folderTable.Keys)
      ensures handle !in old(folderTable) ==> r == Status(SFTP_BAD_MESSAGE) && folderTable == old(folderTable)
      ensures handle in old(folderTable) ==>
        var files := old(folderTable[handle]);
        var batch := if |files| < 16 then files else files[..16];
        && folderTable == old(folderTable)[handle := files[|batch|..]]
        && r == (if files == [] then Status(SFTP_EOF)
                 else if AllEncodable(NamesItems(batch)) then Names(EncodeAll(NamesItems(batch)))
                 else Status(SFTP_FAILURE))
    {
      if handle !in folderTable {
        return Status(SFTP_BAD_MESSAGE);
      }
      hide NamesItems, EncodeAll, AllEncodable, Issued;
      var files := folderTable[handle];
      var n := if |files| < BATCH then |files| else BATCH;
      var flist := files[..n];
      folderTable := folderTable[handle := files[n..]];
      assert |files| < BATCH ==> flist == files;
      if |flist| == 0 {
        return Status(SFTP_EOF);
      }
      r := if AllEncodable(NamesItems(flist)) then Names(EncodeAll(NamesItems(flist))) else Status(SFTP_FAILURE);
    }

    method CloseHandle(handle: seq<byte>) returns (r: Reply)
      requires Valid()
      modifies this`folderTable, this`fileTable
      ensures Valid() && folderTable == old(folderTable) - {handle}
      ensures fileTable == if handle in old(folderTable) then old(fileTable) else old(fileTable) - {handle}
      ensures r == Status(if handle in old(folderTable) || handle in old(fileTable) then SFTP_OK else SFTP_BAD_MESSAGE)
    {
      hide Issued;
      if handle in folderTable {
        folderTable := folderTable - {handle};
        return Status(SFTP_OK);
      }
      if handle in fileTable {
        fileTable := fileTable - {handle};
        return Status(SFTP_OK);
      }
      r := Status(SFTP_BAD_MESSAGE);
    }
  }

  // ---------- the client ----------

  datatype Result<T> = Ok(value: T) | Error

  /** One CMD_NAME response: its entries, less the dots. */
  method ParseNames(body: seq<byte>) returns (filelist: seq<Entry>)
    ensures var (n, p) := A.GetInt(body, 0); filelist == Visible(ReadEntries(n, body, p))
  {
    var msg := new Message(body);
    var first := msg.Get(KInt);
    filelist := ParseEntries(msg, first.n);
  }

  method ParseEntries(msg: Message, count: nat) returns (filelist: seq<Entry>)
    requires msg.Valid()
    modifies msg`pos
    ensures msg.Valid() && filelist == Visible(ReadEntries(count, msg.packet, old(msg.pos)))
  {
    ghost var all := ReadEntries(count, msg.packet, msg.pos);
    filelist := [];
    assert filelist + Visible(all) == Visible(all);
    hide Visible, ReadEntry, ReadEntries;
    var i := 0;
    while i < count
      invariant 0 <= i <= count && msg.Valid() && msg.packet == old(msg.packet)
      invariant filelist + Visible(ReadEntries(count - i, msg.packet, msg.pos)) == Visible(all)
    {
      filelist := AddEntry(msg, filelist, count - i);
      i := i + 1;
    }
    NoEntries(msg.packet, msg.pos);
    assert filelist + [] == filelist;
  }

  method AddEntry(msg: Message, before: seq<Entry>, ghost left: nat) returns (filelist: seq<Entry>)
    requires msg.Valid() && left > 0
    modifies msg`pos
    ensures msg.Valid()
    ensures filelist + Visible(ReadEntries(left - 1, msg.packet, msg.pos))
         == before + Visible(ReadEntries(left, msg.packet, old(msg.pos)))
  {
    TakeOne(left, msg.packet, msg.pos, before);
    hide Visible, ReadEntry, ReadEntries;
    var e := ParseEntry(msg);
    filelist := before;
    if e.filename != [46] && e.filename != [46, 46] {
      filelist := filelist + [e];
    }
  }

  lemma {:induction false} NoEntries(c: seq<byte>, pos: nat)
    requires pos <= |c|
    ensures Visible(ReadEntries(0, c, pos)) == []
  {
  }

  lemma {:induction false} TakeOne(n: nat, body: seq<byte>, pos: nat, filelist: seq<Entry>)
    requires n > 0 && pos <= |body|
    ensures var (e, p) := ReadEntry(body, pos);
      filelist + Visible(ReadEntries(n, body, pos))
      == (if IsDot(e) then filelist else filelist + [e]) + Visible(ReadEntries(n - 1, body, p))
  {
    var (e, p) := ReadEntry(body, pos);
    var rest := ReadEntries(n - 1, body, p);
    hide ReadEntry;
    VisibleAppend([e], rest);
    assert Visible([e]) == if IsDot(e) then [] else [e];
    assert ReadEntries(n, body, pos) == [e] + rest;
    hide Visible, ReadEntries, IsDot;
    Regroup(filelist, Visible([e]), Visible(rest));
    assert filelist + [] == filelist;
  }

  method ParseEntry(msg: Message) returns (e: Entry)
    requires msg.Valid()
    modifies msg`pos
    ensures msg.Valid() && (e, msg.pos) == ReadEntry(msg.packet, old(msg.pos))
  {
    hide ReadString, A.Unpack;
    var filename := msg.GetString();
    var longname := msg.GetString();
    var attr := new A.SFTPAttributes();
    attr.UnpackFrom(msg);
    e := Entry(filename, longname, attr.View());
  }

  /** listdir_attr against the server: every entry once, in order, without the dots, in batches; and
      the server is left as it was found, but for the handle number it used up. */
  method ListdirAttr(server: SFTPServer, path: seq<byte>) returns (r: Result<seq<Entry>>)
    requires server.Valid()
    modifies server
    ensures server.Valid()
    ensures match server.listFolder(path)
      case Refused(_) => r == Error && server.folderTable == old(server.folderTable)
      case Files(entries) =>
        AllSendable(entries) ==>
          r == Ok(Visible(AllArrived(entries)))
          && server.folderTable == old(server.folderTable) && server.fileTable == old(server.fileTable)
  {
    var resp := server.OpenFolder(path);
    if !resp.Handle? {
      return Error;
    }
    var handle := resp.name;
    ghost var table := server.folderTable;
    hide AllSendable, Visible, AllArrived, Issued;
    r := ReadAll(server, handle);
    if r.Ok? {
      Restored(old(server.folderTable), handle, table[handle], server.folderTable[handle]);
      var closed := server.CloseHandle(handle);
    }
  }

  method ReadAll(server: SFTPServer, handle: seq<byte>) returns (r: Result<seq<Entry>>)
    requires server.Valid() && handle in server.folderTable
    modifies server`folderTable
    ensures server.Valid() && handle in server.folderTable
    ensures server.folderTable == old(server.folderTable)[handle := server.folderTable[handle]]
    ensures AllSendable(old(server.folderTable[handle])) ==> r == Ok(Visible(AllArrived(old(server.folderTable[handle]))))
  {
    var filelist: seq<Entry> := [];
    ghost var all := server.folderTable[handle];
    ghost var good := AllSendable(all);
    Nothing(all);
    hide AllSendable, Visible, AllArrived;
    while true
      invariant server.Valid() && handle in server.folderTable
      invariant server.folderTable == old(server.folderTable)[handle := server.folderTable[handle]]
      invariant good ==> AllSendable(server.folderTable[handle])
      invariant good ==> filelist + Visible(AllArrived(server.folderTable[handle])) == Visible(AllArrived(all))
      decreases |server.folderTable[handle]|
    {
      ghost var files, table := server.folderTable[handle], server.folderTable;
      var batch := ReadDir(server, handle);
      Overwrite(old(server.folderTable), handle, table[handle], server.folderTable[handle]);
      if batch.Eof? {
        Nothing(files);
        assert filelist + [] == filelist;
        break;
      }
      if batch.Failed? {
        return Error;
      }
      Regroup(filelist, batch.entries, Visible(AllArrived(server.folderTable[handle])));
      filelist := filelist + batch.entries;
    }
    r := Ok(filelist);
  }

  lemma Regroup(a: seq<Entry>, b: seq<Entry>, c: seq<Entry>)
    ensures (a + b) + c == a + (b + c)
  {
  }

  lemma Restored(m: map<seq<byte>, seq<Entry>>, h: seq<byte>, a: seq<Entry>, b: seq<Entry>)
    requires h !in m
    ensures m[h := a][h := b] - {h} == m
  {
  }

  lemma Overwrite(m: map<seq<byte>, seq<Entry>>, h: seq<byte>, a: seq<Entry>, b: seq<Entry>)
    ensures m[h := a][h := b] == m[h := b]
  {
  }

  datatype Batch = Got(entries: seq<Entry>) | Eof | Failed

  /** One CMD_READDIR request and what the client makes of the response. */
  method ReadDir(server: SFTPServer, handle: seq<byte>) returns (b: Batch)
    requires server.Valid() && handle in server.folderTable
    modifies server`folderTable
    ensures server.Valid() && handle in server.folderTable
    ensures server.folderTable == old(server.folderTable)[handle := server.folderTable[handle]]
    ensures b.Eof? <==> old(server.folderTable[handle]) == []
    ensures b.Eof? ==> server.folderTable[handle] == []
    ensures b.Got? ==> |server.folderTable[handle]| < |old(server.folderTable[handle])|
    ensures AllSendable(old(server.folderTable[handle])) ==>
      !b.Failed? && AllSendable(server.folderTable[handle])
      && (b.Got? ==> b.entries + Visible(AllArrived(server.folderTable[handle])) == Visible(AllArrived(old(server.folderTable[handle]))))
  {
    ghost var files := server.folderTable[handle];
    if AllSendable(files) {
      NextBatch(files);
    }
    hide AllSendable, Visible, AllArrived, NamesItems, EncodeAll, AllEncodable, ReadEntries, A.GetInt;
    var reply := server.ReadFolder(handle);
    if reply == Status(SFTP_EOF) {
      return Eof;
    }
    if !reply.Names? {
      return Failed;
    }
    var more := ParseNames(reply.body);
    b := Got(more);
  }

  lemma {:induction false} Nothing(all: seq<Entry>)
    ensures [] + Visible(AllArrived(all)) == Visible(AllArrived(all))
    ensures all == [] ==> Visible(AllArrived(all)) == []
  {
  }

  lemma {:induction false} PartsSendable(a: seq<Entry>, b: seq<Entry>)
    requires AllSendable(a + b)
    ensures AllSendable(a) && AllSendable(b)
  {
    hide Sendable;
    assert forall i :: 0 <= i < |a| ==> (a + b)[i] == a[i];
    assert forall i :: 0 <= i < |b| ==> (a + b)[|a| + i] == b[i];
  }

  lemma BatchSplit(files: seq<Entry>)
    ensures var batch := if |files| < BATCH then files else files[..BATCH];
      files == batch + files[|batch|..] && |batch| <= BATCH
  {
  }

  lemma {:induction false} NextBatch(files: seq<Entry>)
    requires AllSendable(files)
    ensures var batch := if |files| < BATCH then files else files[..BATCH];
      && AllEncodable(NamesItems(batch))
      && AllSendable(files[|batch|..])
      && var c := EncodeAll(NamesItems(batch));
         var (n, p) := A.GetInt(c, 0);
         Visible(ReadEntries(n, c, p)) + Visible(AllArrived(files[|batch|..])) == Visible(AllArrived(files))
  {
    var batch := if |files| < BATCH then files else files[..BATCH];
    var rest := files[|batch|..];
    BatchSplit(files);
    hide *;
    PartsSendable(batch, rest);
    BatchArrives(batch);
    ArrivedAppend(batch, rest);
    VisibleAppend(AllArrived(batch), AllArrived(rest));
  }
}
