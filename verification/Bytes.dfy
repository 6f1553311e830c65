/** Byte strings and their big-endian readings, shared by every other module. */
module Bytes {

  type byte = x: int | 0 <= x < 256

  /** 256 to the power k. */
  function Pow256(k: nat): (p: nat)
    ensures p > 0
  {
    if k == 0 then 1 else 256 * Pow256(k - 1)
  }

  /** The unsigned value of a byte string, most significant byte first. */
  function BE(s: seq<byte>): nat {
    if s == [] then 0 else BE(s[..|s| - 1]) * 256 + s[|s| - 1]
  }

  /** n written in exactly k bytes, as struct.pack does for the sizes 1, 4 and 8. */
  function ToBE(n: nat, k: nat): (s: seq<byte>)
    ensures |s| == k
  {
    if k == 0 then [] else ToBE(n / 256, k - 1) + [n % 256]
  }

  /** A string literal of the source as bytes; '?' stands for anything outside ASCII. */
  function Ascii(s: string): (r: seq<byte>)
    ensures |r| == |s|
  {
    seq(|s|, i requires 0 <= i < |s| => if s[i] as int < 128 then s[i] as int else 63)
  }

  /** The byte b repeated k times. */
  function Repeat(b: byte, k: nat): (s: seq<byte>)
    ensures |s| == k
    ensures forall i :: 0 <= i < k ==> s[i] == b
  {
    seq(k, _ => b)
  }

  /** Value of a two's-complement string, the reading of an SSH mpint. */
  function Signed(s: seq<byte>): int {
    if s != [] && s[0] >= 128 then BE(s) - Pow256(|s|) else BE(s)
  }

  lemma Pow256Four()
    ensures Pow256(4) == 0x1_0000_0000
  {
    assert Pow256(1) == 256 && Pow256(2) == 0x1_0000 && Pow256(3) == 0x100_0000;
  }

  lemma Pow256Eight()
    ensures Pow256(8) == 0x1_0000_0000_0000_0000
  {
    Pow256Four();
    assert Pow256(5) == 0x100_0000_0000 && Pow256(6) == 0x1_0000_0000_0000
        && Pow256(7) == 0x100_0000_0000_0000;
  }

  lemma {:induction false} Pow256Add(a: nat, b: nat)
    ensures Pow256(a + b) == Pow256(a) * Pow256(b)
  {
    if a > 0 {
      Pow256Add(a - 1, b);
      calc {
        Pow256(a + b);
        256 * Pow256(a - 1 + b);
        256 * (Pow256(a - 1) * Pow256(b));
        (256 * Pow256(a - 1)) * Pow256(b);
      }
    }
  }

  lemma BEPush(s: seq<byte>, b: byte)
    ensures BE(s + [b]) == BE(s) * 256 + b
  {
    assert (s + [b])[..|s|] == s;
  }

  lemma {:induction false} BEBound(s: seq<byte>)
    ensures BE(s) < Pow256(|s|)
  {
    if s != [] {
      BEBound(s[..|s| - 1]);
    }
  }

  lemma ShiftIn(x: int, p: int, y: int, b: int)
    ensures (x * p + y) * 256 + b == x * (256 * p) + (y * 256 + b)
  {
    assert x * (256 * p) == 256 * (x * p);
  }

  lemma {:induction false} BEConcat(s: seq<byte>, t: seq<byte>)
    ensures BE(s + t) == BE(s) * Pow256(|t|) + BE(t)
  {
    if t == [] {
      assert s + t == s;
    } else {
      var u, b := t[..|t| - 1], t[|t| - 1];
      assert s + t == (s + u) + [b];
      BEPush(s + u, b);
      BEConcat(s, u);
      ShiftIn(BE(s), Pow256(|u|), BE(u), b);
    }
  }

  /** Writing and reading back a fixed-width number, in both directions. */
  lemma {:induction false} ToBERoundTrip(n: nat, k: nat)
    requires n < Pow256(k)
    ensures BE(ToBE(n, k)) == n
  {
    if k > 0 {
      ToBERoundTrip(n / 256, k - 1);
      BEPush(ToBE(n / 256, k - 1), n % 256);
    }
  }

  lemma {:induction false} ToBEOfBE(s: seq<byte>)
    ensures ToBE(BE(s), |s|) == s
  {
    if s != [] {
      ToBEOfBE(s[..|s| - 1]);
    }
  }

  lemma {:induction false} BEZeros(k: nat)
    ensures BE(Repeat(0, k)) == 0
  {
    if k > 0 {
      BEZeros(k - 1);
      assert Repeat(0, k)[..k - 1] == Repeat(0, k - 1);
    }
  }

  lemma {:induction false} BEOnes(k: nat)
    ensures BE(Repeat(255, k)) == Pow256(k) - 1
  {
    if k > 0 {
      BEOnes(k - 1);
      assert Repeat(255, k)[..k - 1] == Repeat(255, k - 1);
    }
  }

  lemma BESingle(b: byte)
    ensures BE([b]) == b
  {
    assert [b][..0] == [];
  }

  /** Reading a first byte off the front of a string. */
  lemma BEFirst(s: seq<byte>)
    requires s != []
    ensures BE(s) == s[0] * Pow256(|s| - 1) + BE(s[1..])
  {
    var b, t := s[0], s[1..];
    assert s == [b] + t;
    BESingle(b);
    BEConcat([b], t);
  }

  lemma SignedPush(s: seq<byte>, b: byte)
    requires s != []
    ensures Signed(s + [b]) == Signed(s) * 256 + b
  {
    BEPush(s, b);
  }
}
