/** paramiko/ber.py: a small nested tag-length-value codec. */
module Ber {
  import opened Options
  import opened Bytes
  import opened Messages
  import Util

  /** What encode accepts: nested lists of integers and booleans. */
  datatype Tree = Number(n: int) | Flag(b: bool) | List(items: seq<Tree>)

  /** What decode_next gives back: None, a value, or a BERException. */
  datatype Outcome<+T> = Nothing | Value(value: T) | Raise

  const ID_BOOL: byte := 1
  const ID_INT: byte := 2
  const ID_SEQUENCE: byte := 0x30

  // ---------- encoding ----------

  /** byte_chr raises when the length of the length does not fit in seven bits. */
  function Tlv(ident: byte, val: seq<byte>): Option<seq<byte>> {
    if |val| > 0x7F then
      var len := Util.Mpint(|val|);
      if |len| > 0x7F then None else Some([ident, 0x80 + |len|] + len + val)
    else
      Some([ident, |val|] + val)
  }

  function EncodeTree(t: Tree): (r: Option<seq<byte>>)
    decreases t, 1
  {
    match t
    case Number(n) => Tlv(ID_INT, Util.Mpint(n))
    case Flag(b) => Tlv(ID_BOOL, [if b then 255 else 0])
    case List(items) =>
      var body := EncodeForest(items);
      if body.None? then None else Tlv(ID_SEQUENCE, body.value)
  }

  function EncodeForest(ts: seq<Tree>): Option<seq<byte>>
    decreases ts, 0
  {
    if ts == [] then Some([])
    else
      Joined(EncodeTree(ts[0]), EncodeForest(ts[1..]))
  }

  function Joined(a: Option<seq<byte>>, b: Option<seq<byte>>): Option<seq<byte>> {
    if a.None? || b.None? then None else Some(a.value + b.value)
  }

  /** Definite-length basic encoding: the tag, the length in one byte or, behind a byte that says how many, in the
      fewest bytes that show it positive, and the value. */
  ghost predicate TlvLayout(ident: byte, val: seq<byte>, r: seq<byte>) {
    && |r| >= 2 && r[0] == ident
    && if |val| <= 127 then r[1] == |val| && r[2..] == val
       else
         && r[1] > 128
         && var k: int := r[1] - 128;
            |r| == 2 + k + |val| && BE(r[2..2 + k]) == |val| && Util.Canonical(r[2..2 + k]) && r[2] < 128 && r[2 + k..] == val
  }

  lemma TlvMeans(ident: byte, val: seq<byte>)
    requires Tlv(ident, val).Some?
    ensures TlvLayout(ident, val, Tlv(ident, val).value)
  {
    var r := Tlv(ident, val).value;
    if |val| > 127 {
      var len := Util.Mpint(|val|);
      Util.MpintValue(|val|);
      Util.MpintCanonical(|val|);
      BEBound(len);
      hide BE, Pow256, Util.Mpint, Util.Canonical;
      assert r[2..2 + |len|] == len && r[2 + |len|..] == val;
    }
  }

  /** The tags are those of INTEGER, BOOLEAN and SEQUENCE. */
  lemma TreeLayout(t: Tree)
    requires EncodeTree(t).Some?
    ensures var r := EncodeTree(t).value;
      match t
      case Number(n) => exists val :: Signed(val) == n && Util.Canonical(val) && TlvLayout(2, val, r)
      case Flag(b) => TlvLayout(1, [if b then 255 else 0], r)
      case List(items) => EncodeForest(items).Some? && TlvLayout(0x30, EncodeForest(items).value, r)
  {
    hide TlvLayout, Tlv, Signed, Util.Canonical, Util.Mpint;
    match t
    case Number(n) =>
      TlvMeans(2, Util.Mpint(n));
      Util.MpintValue(n);
      Util.MpintCanonical(n);
    case Flag(b) => TlvMeans(1, [if b then 255 else 0]);
    case List(items) =>
      var body := EncodeForest(items);
      TlvMeans(0x30, body.value);
  }

  lemma JoinedMore(a: seq<byte>, b: Option<seq<byte>>, c: Option<seq<byte>>)
    ensures b.Some? ==> Joined(Some(a), Joined(b, c)) == Joined(Some(a + b.value), c)
    ensures b.None? ==> Joined(Some(a), Joined(b, c)) == None
    ensures Joined(Some([]), c) == c
    ensures Joined(Some(a), Some([])) == Some(a)
  {
    assert a + [] == a;
    if b.Some? && c.Some? {
      assert a + (b.value + c.value) == (a + b.value) + c.value;
    }
    if c.Some? {
      assert [] + c.value == c.value;
    }
  }

  // ---------- decoding ----------

  /** The tag and the index after it; a tag of 31 or more continues in base 128. */
  function LongIdent(c: seq<byte>, idx: nat, sofar: nat): (r: (nat, nat))
    requires idx <= |c|
    ensures idx <= r.1 <= |c|
    decreases |c| - idx
  {
    if idx == |c| then (sofar, idx)
    else if c[idx] < 0x80 then (sofar * 128 + c[idx] % 128, idx + 1)
    else LongIdent(c, idx + 1, sofar * 128 + c[idx] % 128)
  }

  function ReadIdent(c: seq<byte>, idx: nat): (r: (nat, nat))
    requires idx < |c|
    ensures idx < r.1 <= |c|
  {
    if c[idx] % 32 == 31 then LongIdent(c, idx + 1, 0) else (c[idx], idx + 1)
  }

  /** The length field: None when it runs past the end. */
  function ReadLength(c: seq<byte>, idx: nat): (r: (Option<nat>, nat))
    requires idx < |c|
    ensures idx < r.1 <= |c|
  {
    if c[idx] >= 0x80 then
      var t := c[idx] % 128;
      if idx + 1 + t > |c| then (None, idx + 1)
      else (Some(BE(c[idx + 1..idx + 1 + t])), idx + 1 + t)
    else
      (Some(c[idx]), idx + 1)
  }

  datatype Field = Field(ident: nat, data: seq<byte>)

  function ReadField(c: seq<byte>, idx: nat): (r: (Option<Field>, nat))
    requires idx <= |c|
    ensures idx <= r.1 <= |c|
    ensures r.0.Some? ==> idx + |r.0.value.data| < r.1
  {
    if idx == |c| then (None, idx)
    else
      var (ident, p) := ReadIdent(c, idx);
      if p == |c| then (None, p)
      else
        var (len, q) := ReadLength(c, p);
        if len.None? || q + len.value > |c| then (None, q)
        else (Some(Field(ident, c[q..q + len.value])), q + len.value)
  }

  /** decode_next, as a total function: every byte string is decoded in finitely many steps. */
  function DecodeNext(c: seq<byte>, idx: nat): (r: (Outcome<Tree>, nat))
    requires idx <= |c|
    ensures idx <= r.1 <= |c|
    ensures r.0.Value? ==> idx < r.1
    decreases |c|, |c| - idx, 0
  {
    var (field, p) := ReadField(c, idx);
    match field
    case None => (Nothing, p)
    case Some(Field(ident, data)) =>
      if ident == ID_SEQUENCE as int then
        var items := DecodeItems(data, 0);
        (if items.Value? then Value(List(items.value)) else Raise, p)
      else if ident == ID_INT as int then (Value(Number(Signed(data))), p)
      else (Raise, p)
  }

  /** The loop of decode_sequence from index idx on: it stops at the first None. */
  function DecodeItems(c: seq<byte>, idx: nat): (r: Outcome<seq<Tree>>)
    requires idx <= |c|
    ensures !r.Nothing?
    decreases |c|, |c| - idx, 1
  {
    var (x, p) := DecodeNext(c, idx);
    match x
    case Nothing => Value([])
    case Raise => Raise
    case Value(t) =>
      Prepend([t], DecodeItems(c, p))
  }

  function Prepend(items: seq<Tree>, others: Outcome<seq<Tree>>): (r: Outcome<seq<Tree>>)
    ensures !r.Nothing?
  {
    if others.Value? then Value(items + others.value) else Raise
  }

  lemma PrependMore(items: seq<Tree>, t: Tree, others: Outcome<seq<Tree>>)
    ensures Prepend(items, Prepend([t], others)) == Prepend(items + [t], others)
    ensures !others.Nothing? ==> Prepend([], others) == others
    ensures Prepend(items, Value([])) == Value(items)
  {
    assert items + [] == items;
    if others.Value? {
      assert [] + others.value == others.value;
      assert items + ([t] + others.value) == (items + [t]) + others.value;
    }
  }

  // ---------- the round trip ----------

  /** Booleans can be encoded but the decoder refuses them. */
  predicate FlagFree(t: Tree) {
    match t
    case Number(_) => true
    case Flag(_) => false
    case List(items) => forall i :: 0 <= i < |items| ==> FlagFree(items[i])
  }

  predicate AllFlagFree(ts: seq<Tree>) {
    forall i :: 0 <= i < |ts| ==> FlagFree(ts[i])
  }

  lemma PositiveMpint(n: nat)
    ensures BE(Util.Mpint(n)) == n
  {
    Util.MpintValue(n);
    BEBound(Util.Mpint(n));
  }

  lemma ComposeField(c: seq<byte>, idx: nat, ident: nat, p: nat, q: nat, val: seq<byte>)
    requires idx < |c| && ReadIdent(c, idx) == (ident, p)
    requires p < |c| && ReadLength(c, p) == (Some(|val|), q)
    requires IsAt(c, q, val)
    ensures ReadField(c, idx) == (Some(Field(ident, val)), q + |val|)
  {
  }

  function LengthField(size: nat): seq<byte>
    requires size > 0x7F ==> |Util.Mpint(size)| <= 0x7F
  {
    if size > 0x7F then [0x80 + |Util.Mpint(size)|] + Util.Mpint(size) else [size]
  }

  lemma LengthReadsBack(c: seq<byte>, idx: nat, size: nat)
    requires size > 0x7F ==> |Util.Mpint(size)| <= 0x7F
    requires IsAt(c, idx, LengthField(size))
    ensures idx < |c| && ReadLength(c, idx) == (Some(size), idx + |LengthField(size)|)
  {
    if size > 0x7F {
      LongLength(c, idx, size);
    } else {
      assert c[idx..idx + 1][0] == size;
    }
  }

  lemma {:induction false} LongLength(c: seq<byte>, idx: nat, size: nat)
    requires size > 0x7F && |Util.Mpint(size)| <= 0x7F
    requires IsAt(c, idx, LengthField(size))
    ensures idx < |c| && ReadLength(c, idx) == (Some(size), idx + |LengthField(size)|)
  {
    var m := Util.Mpint(size);
    PositiveMpint(size);
    hide BE, Util.Mpint;
    IsAtSplit(c, idx, [0x80 + |m|], m);
    LengthByte(c, idx, m);
    hide IsAt;
  }

  lemma {:induction false} LengthByte(c: seq<byte>, idx: nat, m: seq<byte>)
    requires 1 <= |m| <= 0x7F && IsAt(c, idx, [0x80 + |m|]) && IsAt(c, idx + 1, m)
    ensures idx < |c| && ReadLength(c, idx) == (Some(BE(m)), idx + 1 + |m|)
  {
    hide BE;
    assert c[idx..idx + 1][0] == 0x80 + |m|;
    assert c[idx] == 0x80 + |m| && c[idx + 1..idx + 1 + |m|] == m;
    assert (0x80 + |m|) % 128 == |m|;
    hide IsAt;
  }

  lemma SplitTlv(c: seq<byte>, idx: nat, ident: byte, val: seq<byte>)
    requires Tlv(ident, val).Some? && IsAt(c, idx, Tlv(ident, val).value)
    ensures |val| > 0x7F ==> |Util.Mpint(|val|)| <= 0x7F
    ensures idx < |c| && c[idx] == ident
    ensures IsAt(c, idx + 1, LengthField(|val|) + val)
    ensures |Tlv(ident, val).value| == 1 + |LengthField(|val|)| + |val|
  {
    assert Tlv(ident, val).value == [ident] + (LengthField(|val|) + val);
    IsAtSplit(c, idx, [ident], LengthField(|val|) + val);
    assert c[idx..idx + 1][0] == ident;
  }

  lemma FieldReadsBack(c: seq<byte>, idx: nat, ident: byte, val: seq<byte>)
    requires ident % 32 != 31
    requires Tlv(ident, val).Some? && IsAt(c, idx, Tlv(ident, val).value)
    ensures idx <= |c|
    ensures ReadField(c, idx) == (Some(Field(ident, val)), idx + |Tlv(ident, val).value|)
  {
    hide *;
    SplitTlv(c, idx, ident, val);
    ShortIdent(c, idx);
    var lenField := LengthField(|val|);
    IsAtSplit(c, idx + 1, lenField, val);
    LengthReadsBack(c, idx + 1, |val|);
    ComposeField(c, idx, ident, idx + 1, idx + 1 + |lenField|, val);
  }

  lemma ShortIdent(c: seq<byte>, idx: nat)
    requires idx < |c| && c[idx] % 32 != 31
    ensures ReadIdent(c, idx) == (c[idx] as nat, idx + 1)
  {
  }

  lemma SwitchOnIdent(c: seq<byte>, idx: nat, ident: nat, data: seq<byte>, p: nat)
    requires idx <= |c| && ReadField(c, idx) == (Some(Field(ident, data)), p)
    ensures ident == 0x30 && DecodeItems(data, 0).Value? ==>
      DecodeNext(c, idx) == (Value(List(DecodeItems(data, 0).value)), p)
    ensures ident == 0x30 && !DecodeItems(data, 0).Value? ==> DecodeNext(c, idx) == (Raise, p)
    ensures ident == 2 ==> DecodeNext(c, idx) == (Value(Number(Signed(data))), p)
    ensures ident == 1 ==> DecodeNext(c, idx) == (Raise, p)
  {
  }

  lemma TreeCases(t: Tree)
    requires EncodeTree(t).Some?
    ensures t.Number? ==> Tlv(ID_INT, Util.Mpint(t.n)) == EncodeTree(t) && FlagFree(t)
    ensures t.Flag? ==> Tlv(ID_BOOL, [if t.b then 255 else 0]) == EncodeTree(t) && !FlagFree(t)
    ensures t.List? ==> EncodeForest(t.items).Some? && (FlagFree(t) <==> AllFlagFree(t.items))
                        && Tlv(ID_SEQUENCE, EncodeForest(t.items).value) == EncodeTree(t)
  {
  }

  /** The decoder undoes the encoder on a list of integers nested in any way, wherever the encoding
      stands, through short and long lengths; on anything holding a boolean it raises instead. */
  lemma {:induction false} RoundTrip(t: Tree, c: seq<byte>, idx: nat)
    requires EncodeTree(t).Some? && IsAt(c, idx, EncodeTree(t).value) && idx <= |c|
    ensures DecodeNext(c, idx)
      == (if FlagFree(t) then Value(t) else Raise, idx + |EncodeTree(t).value|)
    decreases t, 1
  {
    TreeCases(t);
    assert ID_INT == 2 && ID_BOOL == 1 && ID_SEQUENCE == 0x30;
    hide *;
    var p := idx + |EncodeTree(t).value|;
    match t
    case Number(n) =>
      FieldReadsBack(c, idx, ID_INT, Util.Mpint(n));
      SwitchOnIdent(c, idx, ID_INT, Util.Mpint(n), p);
      Util.MpintValue(n);
    case Flag(b) =>
      var val := [if b then 255 else 0];
      FieldReadsBack(c, idx, ID_BOOL, val);
      SwitchOnIdent(c, idx, ID_BOOL, val, p);
    case List(items) =>
      var body := EncodeForest(items).value;
      FieldReadsBack(c, idx, ID_SEQUENCE, body);
      SwitchOnIdent(c, idx, ID_SEQUENCE, body, p);
      WholeSuffix(body);
      ForestRoundTrip(items, body, 0);
  }

  lemma WholeSuffix(s: seq<byte>)
    ensures s[0..] == s
  {
  }

  lemma ForestCons(ts: seq<Tree>)
    requires ts != [] && EncodeForest(ts).Some?
    ensures EncodeTree(ts[0]).Some? && EncodeForest(ts[1..]).Some?
    ensures EncodeForest(ts).value == EncodeTree(ts[0]).value + EncodeForest(ts[1..]).value
    ensures AllFlagFree(ts) <==> FlagFree(ts[0]) && AllFlagFree(ts[1..])
    ensures ts == [ts[0]] + ts[1..]
  {
    if FlagFree(ts[0]) && AllFlagFree(ts[1..]) {
      forall i | 0 <= i < |ts| ensures FlagFree(ts[i]) {
        if i > 0 {
          assert ts[i] == ts[1..][i - 1];
        }
      }
    }
  }

  lemma ItemsCons(c: seq<byte>, idx: nat, p: nat, x: Outcome<Tree>)
    requires idx <= |c| && DecodeNext(c, idx) == (x, p)
    ensures x.Value? ==> DecodeItems(c, idx) == Prepend([x.value], DecodeItems(c, p))
    ensures x.Raise? ==> DecodeItems(c, idx) == Raise
    ensures x.Nothing? ==> DecodeItems(c, idx) == Value([])
    ensures idx == |c| ==> DecodeItems(c, idx) == Value([])
  {
  }

  lemma {:induction false} ForestRoundTrip(ts: seq<Tree>, c: seq<byte>, idx: nat)
    requires EncodeForest(ts).Some? && idx <= |c| && c[idx..] == EncodeForest(ts).value
    ensures DecodeItems(c, idx) == if AllFlagFree(ts) then Value(ts) else Raise
    decreases ts, 0
  {
    hide *;
    if ts == [] {
      NoTrees(c, idx);
    } else {
      ForestCons(ts);
      var first, others := EncodeTree(ts[0]).value, EncodeForest(ts[1..]).value;
      SuffixSplit(c, idx, first, others);
      RoundTrip(ts[0], c, idx);
      ForestRoundTrip(ts[1..], c, idx + |first|);
      ItemsCons(c, idx, DecodeNext(c, idx).1, DecodeNext(c, idx).0);
      PrependValue(ts[0], ts[1..]);
    }
  }

  lemma NoTrees(c: seq<byte>, idx: nat)
    requires idx <= |c| && EncodeForest([]).Some? && c[idx..] == EncodeForest([]).value
    ensures DecodeItems(c, idx) == Value([]) && AllFlagFree([])
  {
    assert idx == |c|;
  }

  lemma PrependValue(t: Tree, ts: seq<Tree>)
    ensures Prepend([t], Value(ts)) == Value([t] + ts) && Prepend([t], Raise) == Raise
  {
  }

  lemma SuffixSplit(c: seq<byte>, idx: nat, first: seq<byte>, others: seq<byte>)
    requires idx <= |c| && c[idx..] == first + others
    ensures IsAt(c, idx, first) && idx + |first| <= |c| && c[idx + |first|..] == others
  {
    assert c[idx..][..|first|] == first && c[idx..][|first|..] == others;
    assert c[idx + |first|..] == c[idx..][|first|..];
  }

  // ---------- the class ----------

  class BER {
    var content: seq<byte>
    var idx: nat

    predicate Valid()
      reads this
    {
      idx <= |content|
    }

    constructor (content: seq<byte>)
      ensures Valid() && this.content == content && idx == 0
    {
      this.content, idx := content, 0;
    }

    method NextIdent() returns (ident: nat)
      requires Valid() && idx < |content|
      modifies this`idx
      ensures Valid() && (ident, idx) == ReadIdent(content, old(idx))
    {
      ident := content[idx];
      idx := idx + 1;
      if ident % 32 == 31 {
        ident := 0;
        var more := true;
        ghost var start := idx;
        while idx < |content| && more
          invariant start <= idx <= |content|
          invariant more ==> LongIdent(content, idx, ident) == LongIdent(content, start, 0)
          invariant !more ==> (ident, idx) == LongIdent(content, start, 0)
          decreases |content| - idx
        {
          var t := content[idx];
          idx := idx + 1;
          ident := ident * 128 + t % 128;
          more := t >= 0x80;
        }
      }
    }

    method NextField() returns (field: Option<Field>)
      requires Valid()
      modifies this`idx
      ensures Valid() && (field, idx) == ReadField(content, old(idx))
    {
      if idx >= |content| {
        return None;
      }
      var ident := NextIdent();
      if idx >= |content| {
        return None;
      }
      var size: int := content[idx];
      idx := idx + 1;
      if size >= 0x80 {
        var t := size % 128;
        if idx + t > |content| {
          return None;
        }
        size := Util.InflateLong(content[idx..idx + t], true);
        idx := idx + t;
      }
      if idx + size > |content| {
        return None;
      }
      field := Some(Field(ident, content[idx..idx + size]));
      idx := idx + size;
    }

    /** decode_next computes what the function DecodeNext says, cursor included. */
    method Next() returns (x: Outcome<Tree>)
      requires Valid()
      modifies this`idx
      ensures Valid() && (x, idx) == DecodeNext(content, old(idx))
      decreases |content|, 0
    {
      var field := NextField();
      match field {
        case None => x := Nothing;
        case Some(Field(ident, data)) =>
          if ident == ID_SEQUENCE as int {
            var items := DecodeSequence(data);
            x := if items.Value? then Value(List(items.value)) else Raise;
          } else if ident == ID_INT as int {
            var n := Util.InflateLong(data, false);
            x := Value(Number(n));
          } else {
            x := Raise;
          }
      }
    }

    static method DecodeSequence(data: seq<byte>) returns (out: Outcome<seq<Tree>>)
      ensures out == DecodeItems(data, 0)
      decreases |data|, 1
    {
      var items := [];
      var ber := new BER(data);
      PrependMore([], Number(0), DecodeItems(data, 0));
      hide DecodeItems, DecodeNext;
      while true
        invariant fresh(ber) && ber.Valid() && ber.content == data
        invariant DecodeItems(data, 0) == Prepend(items, DecodeItems(data, ber.idx))
        decreases |data| - ber.idx
      {
        ghost var was := ber.idx;
        var x := ber.Next();
        ItemsCons(data, was, ber.idx, x);
        PrependMore(items, if x.Value? then x.value else Number(0), DecodeItems(data, ber.idx));
        match x {
          case Nothing => return Value(items);
          case Raise => return Raise;
          case Value(t) => items := items + [t];
        }
      }
    }

    method AddTlv(ident: byte, val: seq<byte>) returns (ok: bool)
      modifies this`content
      ensures ok <==> Tlv(ident, val).Some?
      ensures ok ==> content == old(content) + Tlv(ident, val).value
    {
      content := content + [ident];
      if |val| > 0x7F {
        var len := Util.DeflateLong(|val|, true);
        if 0x80 + |len| > 255 {
          return false;
        }
        content := content + [0x80 + |len|] + len;
      } else {
        content := content + [|val|];
      }
      content := content + val;
      ok := true;
    }

    /** encode appends the reference encoding, or raises when there is none. */
    method Encode(t: Tree) returns (ok: bool)
      modifies this`content
      ensures ok <==> EncodeTree(t).Some?
      ensures ok ==> content == old(content) + EncodeTree(t).value
      decreases t, 1
    {
      match t {
        case Number(n) =>
          var m := Util.DeflateLong(n, true);
          ok := AddTlv(ID_INT, m);
        case Flag(b) =>
          ok := AddTlv(ID_BOOL, [if b then 255 else 0]);
        case List(items) =>
          var body := EncodeSequence(items);
          if body.None? {
            return false;
          }
          ok := AddTlv(ID_SEQUENCE, body.value);
      }
    }

    static method EncodeSequence(ts: seq<Tree>) returns (r: Option<seq<byte>>)
      ensures r == EncodeForest(ts)
      decreases ts, 0
    {
      var ber := new BER([]);
      assert ts[0..] == ts;
      JoinedMore([], None, EncodeForest(ts));
      var i := 0;
      while i < |ts|
        invariant 0 <= i <= |ts| && fresh(ber)
        invariant EncodeForest(ts) == Joined(Some(ber.content), EncodeForest(ts[i..]))
      {
        assert ts[i..][1..] == ts[i + 1..];
        JoinedMore(ber.content, EncodeTree(ts[i]), EncodeForest(ts[i + 1..]));
        var ok := ber.Encode(ts[i]);
        if !ok {
          return None;
        }
        i := i + 1;
      }
      assert ts[i..] == [];
      JoinedMore(ber.content, None, None);
      r := Some(ber.content);
    }
  }

  /** Encoding and then decoding, with anything after the encoding. */
  method EncodeDecode(t: Tree, junk: seq<byte>) returns (back: Outcome<Tree>, consumed: nat)
    ensures EncodeTree(t).Some? ==> back == if FlagFree(t) then Value(t) else Raise
    ensures EncodeTree(t).Some? ==> consumed == |EncodeTree(t).value|
    ensures EncodeTree(t).None? <==> back == Nothing
  {
    var e := new BER([]);
    var ok := e.Encode(t);
    if !ok {
      return Nothing, 0;
    }
    var d := new BER(e.content + junk);
    RoundTrip(t, d.content, 0);
    back := d.Next();
    consumed := d.idx;
  }
}
