/** paramiko/util.py: signed big integers as byte strings, and the modular inverse. */
module Util {
  import opened Bytes

  // ---------- mpint strings ----------

  /** No leading byte could be dropped: the shortest two's-complement form of a number.
      RFC 4251 section 5 writes zero as the empty string; this code writes one zero byte. */
  predicate Canonical(s: seq<byte>) {
    && s != []
    && (|s| == 1 || !(s[0] == 0 && s[1] < 128))
    && (|s| == 1 || !(s[0] == 255 && s[1] >= 128))
  }

  /** Reference form of an mpint body, one byte at a time from the low end. */
  function Mpint(n: int): (s: seq<byte>)
    ensures s != []
    decreases if n < 0 then -n else n
  {
    if -128 <= n < 128 then [n % 256] else Mpint(n / 256) + [n % 256]
  }

  lemma {:induction false} MpintValue(n: int)
    ensures Signed(Mpint(n)) == n
    decreases if n < 0 then -n else n
  {
    if -128 <= n < 128 {
      BESingle(n % 256);
      assert Pow256(1) == 256;
    } else {
      MpintValue(n / 256);
      SignedPush(Mpint(n / 256), n % 256);
    }
  }

  lemma {:induction false} CanonicalIsLarge(s: seq<byte>)
    requires Canonical(s) && |s| >= 2
    ensures !(-128 <= Signed(s) < 128)
  {
    var u, b := s[..|s| - 1], s[|s| - 1];
    assert s == u + [b];
    SignedPush(u, b);
    if |s| == 2 {
      assert u == [s[0]];
      BESingle(s[0]);
      assert Pow256(1) == 256;
    } else {
      CanonicalIsLarge(u);
    }
  }

  /** A canonical string is the reference form of its own value. */
  lemma {:induction false} MpintOfSigned(s: seq<byte>)
    requires Canonical(s)
    ensures Mpint(Signed(s)) == s
  {
    if |s| == 1 {
      assert s == [s[0]];
      BESingle(s[0]);
      assert Pow256(1) == 256;
    } else {
      var u, b := s[..|s| - 1], s[|s| - 1];
      assert s == u + [b];
      SignedPush(u, b);
      CanonicalIsLarge(s);
      MpintOfSigned(u);
    }
  }

  lemma {:induction false} MpintCanonical(n: int)
    ensures Canonical(Mpint(n))
    decreases if n < 0 then -n else n
  {
    if !(-128 <= n < 128) {
      MpintCanonical(n / 256);
      var u := Mpint(n / 256);
      MpintValue(n / 256);
      if |u| == 1 {
        assert u == [u[0]];
        BESingle(u[0]);
        assert Pow256(1) == 256;
      }
    }
  }

  /** Every non-empty string with a given value ends in the canonical one, which is therefore
      the unique shortest string decoding to that value. */
  lemma {:induction false} MpintIsShortest(t: seq<byte>)
    requires t != []
    ensures var m := Mpint(Signed(t)); |m| <= |t| && t[|t| - |m|..] == m
    ensures Canonical(t) <==> t == Mpint(Signed(t))
  {
    if Canonical(t) {
      MpintOfSigned(t);
    } else {
      BEFirst(t);
      BEFirst(t[1..]);
      assert Signed(t) == Signed(t[1..]);
      MpintIsShortest(t[1..]);
    }
  }

  /** It is the form RFC 4251 section 5 asks for, the shortest of all, for every number but zero, which that writes
      as no byte at all. */
  lemma MpintIsRfcIff(n: int)
    ensures (forall t: seq<byte> :: Signed(t) == n ==> |Mpint(n)| <= |t|) <==> n != 0
  {
    assert Signed([]) == 0;
    if n != 0 {
      forall t: seq<byte> | Signed(t) == n ensures |Mpint(n)| <= |t| {
        MpintIsShortest(t);
      }
    }
  }

  lemma MulSplit(q: int, w: int, r: int, p: int)
    ensures (q * w + r) * p == q * (w * p) + r * p
  {
    assert (q * w) * p == q * (w * p);
    assert (q * w + r) * p == (q * w) * p + r * p;
  }

  /** Sign extension by k bytes keeps the value. */
  lemma PadKeepsValue(s: seq<byte>, k: nat, negative: bool)
    ensures var f := if negative then 255 else 0;
            SignedAs(Repeat(f, k) + s, negative) == SignedAs(s, negative)
  {
    if negative {
      BEConcat(Repeat(255, k), s);
      BEOnes(k);
      Pow256Add(k, |s|);
      MulSplit(Pow256(k), 1, -1, Pow256(|s|));
    } else {
      BEConcat(Repeat(0, k), s);
      BEZeros(k);
    }
  }

  function SignedAs(s: seq<byte>, negative: bool): int {
    if negative then BE(s) - Pow256(|s|) else BE(s)
  }

  lemma AppendWord(s: seq<byte>, i: nat)
    requires i + 4 <= |s|
    ensures BE(s[..i + 4]) == BE(s[..i]) * 0x1_0000_0000 + BE(s[i..i + 4])
  {
    assert s[..i + 4] == s[..i] + s[i..i + 4];
    BEConcat(s[..i], s[i..i + 4]);
    Pow256Four();
  }

  /** inflate_long: reads the string in 32-bit words, after padding it on the left. */
  method InflateLong(s0: seq<byte>, alwaysPositive: bool) returns (out: int)
    ensures out == if alwaysPositive then BE(s0) else Signed(s0)
  {
    var s := s0;
    var negative := !alwaysPositive && |s| > 0 && s[0] >= 128;
    if |s| % 4 != 0 {
      PadKeepsValue(s, 4 - |s| % 4, negative);
      var filler := if negative then 255 else 0;
      s := Repeat(filler, 4 - |s| % 4) + s;
    }
    assert SignedAs(s, negative) == SignedAs(s0, negative);
    assert |s| % 4 == 0;
    out := 0;
    var i := 0;
    assert BE(s[..i]) == 0;
    hide BE, Pow256;
    while i < |s|
      invariant 0 <= i <= |s| && i % 4 == 0
      invariant out == BE(s[..i])
    {
      AppendWord(s, i);
      out := out * 0x1_0000_0000 + BE(s[i..i + 4]);
      i := i + 4;
    }
    assert s[..i] == s;
    if negative {
      out := out - Pow256(|s|);
    }
  }

  /** The number whose low bytes are s and whose remaining high part is n. */
  function Value(n: int, s: seq<byte>): int {
    n * Pow256(|s|) + BE(s)
  }

  lemma WordStep(n: int, s: seq<byte>)
    ensures Value(n, s) == Value(n / 0x1_0000_0000, ToBE(n % 0x1_0000_0000, 4) + s)
  {
    var q, r := n / 0x1_0000_0000, n % 0x1_0000_0000;
    Pow256Four();
    ToBERoundTrip(r, 4);
    BEConcat(ToBE(r, 4), s);
    Pow256Add(4, |s|);
    MulSplit(q, 0x1_0000_0000, r, Pow256(|s|));
  }

  /** Dropping or adding a leading sign byte keeps the value. */
  lemma SignByte(sign: int, s: seq<byte>)
    requires sign == 0 || sign == -1
    ensures Value(sign, [sign % 256] + s) == Value(sign, s)
  {
    BEFirst([sign % 256] + s);
    assert ([sign % 256] + s)[1..] == s;
  }

  /** deflate_long. With sign padding it writes the canonical string, whatever n is.
      Without, it writes the shortest magnitude, whose sign the reader must already know. */
  method DeflateLong(n0: int, addSignPadding: bool) returns (s: seq<byte>)
    ensures addSignPadding ==> s == Mpint(n0)
    ensures !addSignPadding && n0 >= 0 ==> BE(s) == n0 && s != [] && (|s| == 1 || s[0] != 0)
    ensures !addSignPadding && n0 < 0 ==>
      BE(s) - Pow256(|s|) == n0 && s != [] && (|s| == 1 || s[0] != 255)
  {
    s := [];
    var n := n0;
    while n != 0 && n != -1
      invariant n0 == Value(n, s)
      invariant n0 >= 0 <==> n >= 0
      decreases if n < 0 then -n else n
    {
      WordStep(n, s);
      s := ToBE(n % 0x1_0000_0000, 4) + s;
      n := n / 0x1_0000_0000;
    }
    var fill := if n == 0 then 0 else 255;
    var i := 0;
    while i < |s| && s[i] == fill
      invariant 0 <= i <= |s|
      invariant n0 == Value(n, s[i..])
    {
      SignByte(n, s[i + 1..]);
      assert s[i..] == [n % 256] + s[i + 1..];
      i := i + 1;
    }
    if i == |s| {
      SignByte(n, []);
      assert [n % 256] + [] == [fill];
      s, i := [fill], 0;
    }
    s := s[i..];
    if addSignPadding {
      if (n == 0 && s[0] >= 128) || (n == -1 && s[0] < 128) {
        SignByte(n, s);
        s := [fill] + s;
      }
      MpintOfSigned(s);
    }
  }

  /** The two methods undo each other on every integer and on every canonical string. */
  method InflateDeflate(n: int) returns (back: int)
    ensures back == n
  {
    var s := DeflateLong(n, true);
    MpintValue(n);
    back := InflateLong(s, false);
  }

  method DeflateInflate(s: seq<byte>) returns (back: seq<byte>)
    requires s != []
    ensures back == s <==> Canonical(s)
  {
    var n := InflateLong(s, false);
    MpintIsShortest(s);
    back := DeflateLong(n, true);
  }

  // ---------- mod_inverse ----------

  /** Euclid's algorithm, as a reference for the greatest common divisor. */
  function Gcd(a: nat, b: nat): nat
    decreases b
  {
    if b == 0 then a else Gcd(b, a % b)
  }

  ghost predicate Divides(d: int, a: int) {
    exists k :: d * k == a
  }

  lemma DividesCombination(d: int, a: int, b: int, q: int)
    requires Divides(d, a) && Divides(d, b)
    ensures Divides(d, a - b * q)
  {
    var i :| d * i == a;
    var j :| d * j == b;
    assert d * (i - j * q) == d * i - (d * j) * q;
  }

  /** Gcd is a common divisor that every common divisor divides. */
  lemma {:induction false} GcdIsGreatest(a: nat, b: nat, d: int)
    ensures Divides(Gcd(a, b), a) && Divides(Gcd(a, b), b)
    ensures Divides(d, a) && Divides(d, b) ==> Divides(d, Gcd(a, b))
    decreases b
  {
    if b == 0 {
      assert a * 1 == a && a * 0 == b;
    } else {
      GcdIsGreatest(b, a % b, d);
      var g := Gcd(b, a % b);
      assert a % b - b * (-(a / b)) == a;
      DividesCombination(g, a % b, b, -(a / b));
      assert a - b * (a / b) == a % b;
      if Divides(d, a) && Divides(d, b) {
        DividesCombination(d, a, b, a / b);
      }
    }
  }

  datatype Row = Row(c1: int, c2: int, rem: int)

  function NextRow(u: Row, v: Row): Row
    requires v.rem > 0
  {
    var q := u.rem / v.rem;
    Row(u.c1 - v.c1 * q, u.c2 - v.c2 * q, u.rem - v.rem * q)
  }

  /** The invariant of the loop: a Bezout identity for each row, and the exact
      size of the cofactors, which alternate in sign and grow as the remainders shrink. */
  ghost predicate Rows(x: int, m: int, u: Row, v: Row) {
    && u.rem > 0 && v.rem >= 0
    && u.c1 * m + u.c2 * x == u.rem
    && v.c1 * m + v.c2 * x == v.rem
    && ((u.c2 >= 0 && v.c2 <= 0) || (u.c2 <= 0 && v.c2 >= 0))
    && Abs(u.c2) * v.rem + Abs(v.c2) * u.rem == m
    && (v.rem == 0 ==> Abs(u.c2) <= Abs(v.c2))
  }

  lemma Quotient(a: int, b: int)
    requires a > 0 && b > 0
    ensures var q := a / b; q >= 0 && 0 <= a - b * q < b && a - b * q == a % b
    ensures a - b * (a / b) == 0 ==> a / b >= 1
  {
    if a / b == 0 {
      assert b * (a / b) == 0;
    }
  }

  lemma CofactorStep(a: int, b: int, q: int)
    requires q >= 0
    requires (a >= 0 && b <= 0) || (a <= 0 && b >= 0)
    ensures var c := a - b * q; (b >= 0 && c <= 0) || (b <= 0 && c >= 0)
    ensures Abs(a - b * q) == Abs(a) + Abs(b) * q
    ensures q >= 1 ==> Abs(b) <= Abs(a - b * q)
  {
    if b >= 0 {
      assert b * q >= 0;
    } else {
      assert (-b) * q >= 0 && (-b) * q == -(b * q);
    }
    if q >= 1 {
      assert Abs(b) * q == Abs(b) + Abs(b) * (q - 1) && Abs(b) * (q - 1) >= 0;
    }
  }

  lemma BezoutStep(a1: int, a2: int, a3: int, b1: int, b2: int, b3: int, q: int, x: int, m: int)
    requires a1 * m + a2 * x == a3 && b1 * m + b2 * x == b3
    ensures (a1 - b1 * q) * m + (a2 - b2 * q) * x == a3 - b3 * q
  {
    MulSplit(b1, q, -a1, m);
    MulSplit(b2, q, -a2, x);
    assert (b1 * m + b2 * x) * q == b1 * (q * m) + b2 * (q * x);
  }

  lemma SizeStep(a2: int, a3: int, b2: int, b3: int, q: int, m: int)
    requires a2 * b3 + b2 * a3 == m
    ensures b2 * (a3 - b3 * q) + (a2 + b2 * q) * b3 == m
  {
    MulSplit(b2, q, a2, b3);
    assert b2 * (a3 - b3 * q) == b2 * a3 - b2 * (q * b3);
  }

  lemma RowStep(x: int, m: int, u: Row, v: Row)
    requires Rows(x, m, u, v) && v.rem > 0
    ensures Rows(x, m, v, NextRow(u, v))
    ensures NextRow(u, v).rem == u.rem % v.rem
  {
    var q := u.rem / v.rem;
    Quotient(u.rem, v.rem);
    BezoutStep(u.c1, u.c2, u.rem, v.c1, v.c2, v.rem, q, x, m);
    CofactorStep(u.c2, v.c2, q);
    SizeStep(Abs(u.c2), u.rem, Abs(v.c2), v.rem, q, m);
  }

  /** mod_inverse. The result is a cofactor of x modulo m reduced to the range 0..m-1,
      so it is an inverse of x exactly when x and m are coprime. */
  method ModInverse(x: nat, m: nat) returns (r: int)
    requires m >= 2
    ensures 0 <= r < m
    ensures Divides(m, r * x - Gcd(m, x))
  {
    var u1: int, u2: int, u3: int := 1, 0, m;
    var v1: int, v2: int, v3: int := 0, 1, x;
    while v3 > 0
      invariant u3 > 0 && v3 >= 0
      invariant Gcd(u3, v3) == Gcd(m, x)
      invariant Rows(x, m, Row(u1, u2, u3), Row(v1, v2, v3))
      decreases v3
    {
      RowStep(x, m, Row(u1, u2, u3), Row(v1, v2, v3));
      var q := u3 / v3;
      u1, v1 := v1, u1 - v1 * q;
      u2, v2 := v2, u2 - v2 * q;
      u3, v3 := v3, u3 - v3 * q;
    }
    CofactorRange(x, m, Row(u1, u2, u3), Row(v1, v2, v3));
    ReducedCofactor(x, m, u1, u2, u3);
    r := u2;
    if r < 0 {
      r := r + m;
    }
  }

  lemma ReducedCofactor(x: int, m: int, u1: int, u2: int, g: int)
    requires u1 * m + u2 * x == g
    ensures Divides(m, u2 * x - g) && Divides(m, (u2 + m) * x - g)
  {
    assert m * (-u1) == u2 * x - g by { assert m * (-u1) == -(u1 * m); }
    assert m * (x - u1) == (u2 + m) * x - g by {
      assert m * (x - u1) == m * x + m * (-u1) && (u2 + m) * x == u2 * x + m * x;
    }
  }

  function Abs(a: int): nat {
    if a < 0 then -a else a
  }

  lemma CofactorRange(x: int, m: int, u: Row, v: Row)
    requires m >= 2 && Rows(x, m, u, v) && v.rem == 0
    ensures -m < u.c2 < m
  {
    if u.rem == 1 {
      if u.c2 == m || u.c2 == -m {
        var sign := if u.c2 == m then 1 else -1;
        assert m * (u.c1 + sign * x) == u.c1 * m + u.c2 * x;
        NoUnit(m, u.c1 + sign * x);
      }
    } else {
      TwiceAtMost(Abs(v.c2), u.rem);
    }
  }

  lemma TwiceAtMost(a: nat, k: int)
    requires k >= 2
    ensures 2 * a <= a * k
  {
    assert a * (k - 2) >= 0;
  }

  lemma NoUnit(m: int, k: int)
    requires m >= 2
    ensures m * k != 1
  {
    if k >= 1 {
      assert m * k >= m;
    } else {
      assert m * k <= 0;
    }
  }

  /** What the result means to a caller: an inverse exists if and only if Gcd(m, x) == 1, and then
      the number mod_inverse returns is one. */
  lemma InverseIffCoprime(x: nat, m: nat, r: int)
    requires m >= 2
    requires Divides(m, r * x - Gcd(m, x))
    ensures Gcd(m, x) == 1 <==> Divides(m, r * x - 1)
  {
    var g := Gcd(m, x);
    if Divides(m, r * x - 1) {
      GcdIsGreatest(m, x, 1);
      DividesTrans(g, m, r * x - 1);
      var j :| g * j == x;
      assert g * (j * r) == r * x by { assert g * (j * r) == (g * j) * r; }
      DividesCombination(g, r * x, r * x - 1, 1);
      var k :| g * k == 1;
      if g >= 2 {
        NoUnit(g, k);
      }
    }
  }

  lemma DividesTrans(d: int, m: int, a: int)
    requires Divides(d, m) && Divides(m, a)
    ensures Divides(d, a)
  {
    var i :| d * i == m;
    var j :| m * j == a;
    assert d * (i * j) == (d * i) * j;
  }
}
