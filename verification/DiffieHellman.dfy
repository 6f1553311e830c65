/** Modular powers, and the secret exponents of paramiko/kex_group14.py and paramiko/kex_gex.py. */
module DiffieHellman {
  import opened Options
  import opened Bytes
  import Util

  // ---------- pow(b, e, m) ----------

  function Power(b: int, e: nat): int {
    if e == 0 then 1 else b * Power(b, e - 1)
  }

  function ModPow(b: int, e: nat, m: int): (r: int)
    requires m > 0
    ensures 0 <= r < m
  {
    Power(b, e) % m
  }

  lemma {:induction false} PowerAdd(b: int, x: nat, y: nat)
    ensures Power(b, x + y) == Power(b, x) * Power(b, y)
  {
    if x > 0 {
      PowerAdd(b, x - 1, y);
      assert b * (Power(b, x - 1) * Power(b, y)) == (b * Power(b, x - 1)) * Power(b, y);
    }
  }

  lemma {:induction false} PowerPower(b: int, x: nat, y: nat)
    ensures Power(Power(b, x), y) == Power(b, x * y)
  {
    if y > 0 {
      PowerPower(b, x, y - 1);
      PowerAdd(b, x, x * (y - 1));
      assert x + x * (y - 1) == x * y;
    } else {
      assert x * y == 0;
    }
  }

  lemma SmallMultiple(k: int, m: int)
    requires -m < k * m < m
    ensures k == 0
  {
  }

  lemma Division(a: int, q: int, m: int, r: int)
    requires a == q * m + r && 0 <= r < m
    ensures a / m == q && a % m == r
  {
    var d, e := a / m, a % m;
    assert a == d * m + e;
    assert (q - d) * m == e - r by {
      assert (q - d) * m == q * m - d * m;
    }
    SmallMultiple(q - d, m);
  }

  lemma EqualModulo(a: int, k: int, m: int)
    requires m > 0
    ensures (a + k * m) % m == a % m
  {
    var q, r := a / m, a % m;
    assert a == q * m + r;
    assert (q + k) * m == q * m + k * m;
    Division(a + k * m, q + k, m, r);
  }

  lemma Expand(qa: int, ra: int, qb: int, rb: int, m: int)
    ensures exists k :: (qa * m + ra) * (qb * m + rb) == ra * rb + k * m
  {
    var k := (qa * m + ra) * qb + qa * rb;
    Distribute(qa * m + ra, qb * m, rb);
    assert (qa * m + ra) * (qb * m) == ((qa * m + ra) * qb) * m;
    Distribute(rb, qa * m, ra);
    assert rb * (qa * m) == (qa * rb) * m;
    Distribute(m, (qa * m + ra) * qb, qa * rb);
    assert (qa * m + ra) * (qb * m + rb) == ra * rb + k * m;
  }

  lemma Distribute(a: int, b: int, c: int)
    ensures a * (b + c) == a * b + a * c
  {
  }

  lemma MulModulo(a: int, b: int, m: int)
    requires m > 0
    ensures ((a % m) * (b % m)) % m == (a * b) % m
  {
    var qa, ra, qb, rb := a / m, a % m, b / m, b % m;
    Euclid(a, m);
    Euclid(b, m);
    Expand(qa, ra, qb, rb, m);
    var k :| (qa * m + ra) * (qb * m + rb) == ra * rb + k * m;
    EqualModulo(ra * rb, k, m);
  }

  lemma Euclid(a: int, m: int)
    requires m > 0
    ensures a == (a / m) * m + a % m && (a % m) % m == a % m
  {
  }

  lemma CongruentProduct(a: int, b: int, c: int, d: int, m: int)
    requires m > 0 && a % m == c % m && b % m == d % m
    ensures (a * b) % m == (c * d) % m
  {
    MulModulo(a, b, m);
    MulModulo(c, d, m);
  }

  lemma {:induction false} PowerModulo(b: int, e: nat, m: int)
    requires m > 0
    ensures Power(b % m, e) % m == Power(b, e) % m
  {
    if e > 0 {
      PowerModulo(b, e - 1, m);
      Euclid(b, m);
      CongruentProduct(b % m, Power(b % m, e - 1), b, Power(b, e - 1), m);
    }
  }

  /** Each side raises the other's public value to its own exponent: one secret, g^xy mod p. */
  lemma SharedSecret(g: int, x: nat, y: nat, p: int)
    requires p > 0
    ensures ModPow(ModPow(g, x, p), y, p) == ModPow(ModPow(g, y, p), x, p) == ModPow(g, x * y, p)
  {
    PowerModulo(Power(g, x), y, p);
    PowerModulo(Power(g, y), x, p);
    PowerPower(g, x, y);
    PowerPower(g, y, x);
    assert x * y == y * x;
  }

  lemma {:induction false} OddNeverDivides(p: int, x: nat, k: int)
    requires p > 1 && p % 2 == 1
    ensures Power(2, x) != p * k
  {
    if x == 0 {
      Util.NoUnit(p, k);
    } else if p * k == Power(2, x) {
      Parity(p, k);
      var h := k / 2;
      assert p * (2 * h) == 2 * (p * h);
      OddNeverDivides(p, x - 1, h);
    }
  }

  lemma Parity(p: int, k: int)
    requires p % 2 == 1 && (p * k) % 2 == 0
    ensures k % 2 == 0
  {
    MulModulo(p, k, 2);
  }

  /** With g = 2 and an odd modulus the range check of the peer never fails. */
  lemma PublicValueInRange(x: nat, p: int)
    requires p > 1 && p % 2 == 1
    ensures 1 <= ModPow(2, x, p) <= p - 1
  {
    var q := Power(2, x) / p;
    OddNeverDivides(p, x, q);
    assert Power(2, x) == p * q + Power(2, x) % p;
  }

  /** No power of the generator is a multiple of the modulus, as for a prime that does not divide it. */
  ghost predicate GoodBase(g: int, p: int) {
    p > 1 && forall x: nat :: 1 <= ModPow(g, x, p) <= p - 1
  }

  lemma TwoIsGood(p: int)
    requires p > 1 && p % 2 == 1
    ensures GoodBase(2, p)
  {
    forall x: nat ensures 1 <= ModPow(2, x, p) <= p - 1 {
      PublicValueInRange(x, p);
    }
  }

  // ---------- KexGroup14SHA256._generate_x ----------

  /** byte_mask(x_bytes[0], mask) + x_bytes[1:], for a mask of one-bits. */
  function MaskFirst(b: seq<byte>, mask: byte): (r: seq<byte>)
    requires b != []
    ensures |r| == |b|
  {
    [b[0] % (mask + 1)] + b[1..]
  }

  const B7FFFFFFFFFFFFFFF: seq<byte> := [0x7F] + Repeat(255, 7)
  const B0000000000000000: seq<byte> := Repeat(0, 8)

  predicate GroupAccepts(xBytes: seq<byte>) {
    |xBytes| == 128 && xBytes[0] < 128
    && xBytes[..8] != B7FFFFFFFFFFFFFFF && xBytes[..8] != B0000000000000000
  }

  const TOP64: nat := 0xFFFF_FFFF_FFFF_FFFF

  /** All of the fixed groups have a prime at least this large: 64 one-bits, then 120 bytes or more. */
  ghost predicate LargePrime(p: int) {
    p >= TOP64 * Pow256(120)
  }

  lemma {:induction false} BEInjective(a: seq<byte>, b: seq<byte>)
    requires |a| == |b| && BE(a) == BE(b)
    ensures a == b
  {
    ToBEOfBE(a);
    ToBEOfBE(b);
  }

  lemma BounderFacts()
    ensures BE(B7FFFFFFFFFFFFFFF) == 0x7FFF_FFFF_FFFF_FFFF && BE(B0000000000000000) == 0
    ensures |B7FFFFFFFFFFFFFFF| == |B0000000000000000| == 8
    ensures Pow256(7) == 0x100_0000_0000_0000
  {
    Pow256Eight();
    BEOnes(7);
    BEZeros(8);
    BESingle(0x7F);
    BEConcat([0x7F], Repeat(255, 7));
  }

  /** A draw with its top bit cleared is refused exactly when its first eight bytes are as small or as large as
      they can be. */
  lemma GroupAcceptsIff(xBytes: seq<byte>)
    requires |xBytes| == 128 && xBytes[0] < 128
    ensures GroupAccepts(xBytes) <==> 1 <= BE(xBytes[..8]) < 0x7FFF_FFFF_FFFF_FFFF
  {
    BounderFacts();
    if GroupAccepts(xBytes) {
      LeadingEight(xBytes);
    }
  }

  lemma LeadingEight(xBytes: seq<byte>)
    requires GroupAccepts(xBytes)
    ensures 1 <= BE(xBytes[..8]) < 0x7FFF_FFFF_FFFF_FFFF
  {
    var h := xBytes[..8];
    BounderFacts();
    BEFirst(h);
    BEBound(h[1..]);
    if BE(h) == 0 {
      BEInjective(h, B0000000000000000);
    }
    if BE(h) == 0x7FFF_FFFF_FFFF_FFFF {
      BEInjective(h, B7FFFFFFFFFFFFFFF);
    }
  }

  lemma Between(h: int, t: int, w: int, p: int)
    requires 1 <= h <= 0x7FFF_FFFF_FFFF_FFFE && 0 <= t < w && w > 1 && p >= TOP64 * w
    ensures 1 < h * w + t < (p - 1) / 2
  {
    assert h * w >= w && h * w <= 0x7FFF_FFFF_FFFF_FFFE * w;
    assert h * w + t < 0x7FFF_FFFF_FFFF_FFFF * w;
  }

  /** The eight-byte test keeps every accepted x strictly between 1 and (p - 1) / 2, for a prime of
      1024 bits or of any larger size. */
  lemma GroupXInRange(xBytes: seq<byte>, p: int)
    requires GroupAccepts(xBytes) && LargePrime(p)
    ensures 1 < BE(xBytes) < (p - 1) / 2
    ensures Signed(xBytes) == BE(xBytes)
  {
    LeadingEight(xBytes);
    assert xBytes == xBytes[..8] + xBytes[8..];
    BEConcat(xBytes[..8], xBytes[8..]);
    BEBound(xBytes[8..]);
    Between(BE(xBytes[..8]), BE(xBytes[8..]), Pow256(120), p);
  }

  /** x is the first of the draws that is accepted, its top bit cleared. */
  ghost predicate GroupFirst(draws: seq<seq<byte>>, x: nat) {
    exists i :: 0 <= i < |draws| && draws[i] != [] && GroupAccepts(MaskFirst(draws[i], 127))
                && x == BE(MaskFirst(draws[i], 127))
                && forall j :: 0 <= j < i ==> draws[j] != [] && !GroupAccepts(MaskFirst(draws[j], 127))
  }

  /** draws are the successive results of os.urandom(128); None if all of them are rejected. */
  method GroupGenerateX(draws: seq<seq<byte>>, p: int) returns (x: Option<nat>)
    requires LargePrime(p)
    requires forall i :: 0 <= i < |draws| ==> |draws[i]| == 128
    ensures x.Some? ==> 1 < x.value < (p - 1) / 2 && GroupFirst(draws, x.value)
    ensures x.Some? <==> exists i :: 0 <= i < |draws| && GroupAccepts(MaskFirst(draws[i], 127))
  {
    var i := 0;
    while i < |draws|
      invariant 0 <= i <= |draws|
      invariant forall j :: 0 <= j < i ==> !GroupAccepts(MaskFirst(draws[j], 127))
    {
      var xBytes := MaskFirst(draws[i], 127);
      if xBytes[..8] != B7FFFFFFFFFFFFFFF && xBytes[..8] != B0000000000000000 {
        assert GroupAccepts(xBytes);
        GroupXInRange(xBytes, p);
        var n := Util.InflateLong(xBytes, false);
        return Some(n);
      }
      i := i + 1;
    }
    x := None;
  }

  // ---------- KexGexSHA256._generate_x ----------

  /** The smallest all-ones mask that covers the byte. */
  ghost predicate TightMask(mask: int, h: int) {
    h <= mask < 2 * h && mask in {1, 3, 7, 15, 31, 63, 127, 255}
  }

  method TopMask(h: byte) returns (qmask: byte)
    requires h > 0
    ensures TightMask(qmask, h)
  {
    qmask := 0xFF;
    var qhbyte: int := h;
    ghost var k: int := 1;
    while qhbyte < 128
      invariant 0 < qhbyte < 256 && qhbyte == h * k
      invariant (qmask, k) in {(255, 1), (127, 2), (63, 4), (31, 8), (15, 16), (7, 32), (3, 64), (1, 128)}
      decreases 256 - qhbyte
    {
      qhbyte := qhbyte * 2;
      qmask := qmask / 2;
      k := k * 2;
    }
  }

  lemma MaskedIsRemainder(b: byte, mask: int)
    requires 0 < mask < 256
    ensures b % (mask + 1) <= mask
    ensures b <= mask ==> b % (mask + 1) == b
  {
  }

  ghost predicate GexAccepts(b: seq<byte>, mask: byte, q: int) {
    b != [] && 1 < BE(MaskFirst(b, mask)) < q
  }

  /** How many bytes are drawn and how the first is masked: q's own length, and the mask that fits its first byte. */
  ghost predicate GexParameters(p: int, byteCount: nat, qmask: byte) {
    var q := (p - 1) / 2;
    byteCount > 0 && Pow256(byteCount - 1) <= q < Pow256(byteCount) && TightMask(qmask, q / Pow256(byteCount - 1))
  }

  lemma {:induction false} PowersGrow(a: nat, b: nat)
    requires a <= b
    ensures Pow256(a) <= Pow256(b)
    decreases b
  {
    if a < b {
      PowersGrow(a, b - 1);
    }
  }

  lemma ParametersAreUnique(p: int, m: nat, mask: byte, n: nat, other: byte)
    requires GexParameters(p, m, mask) && GexParameters(p, n, other)
    ensures m == n && mask == other
  {
    if m < n {
      PowersGrow(m, n - 1);
    } else if n < m {
      PowersGrow(n, m - 1);
    }
  }

  /** Some draw gives an x in range. */
  ghost predicate GexDrawable(draws: seq<seq<byte>>, p: int) {
    exists i, byteCount: nat, qmask: byte ::
      0 <= i < |draws| && GexParameters(p, byteCount, qmask) && GexAccepts(draws[i], qmask, (p - 1) / 2)
  }

  /** x is the first of the draws, masked, that is in range. */
  ghost predicate GexFirst(draws: seq<seq<byte>>, p: int, x: nat) {
    exists i, byteCount: nat, qmask: byte ::
      && 0 <= i < |draws| && GexParameters(p, byteCount, qmask) && GexAccepts(draws[i], qmask, (p - 1) / 2)
      && x == BE(MaskFirst(draws[i], qmask)) && forall j :: 0 <= j < i ==> !GexAccepts(draws[j], qmask, (p - 1) / 2)
  }

  lemma DrawableIff(draws: seq<seq<byte>>, p: int, byteCount: nat, qmask: byte)
    requires GexParameters(p, byteCount, qmask)
    ensures GexDrawable(draws, p) <==> exists i :: 0 <= i < |draws| && GexAccepts(draws[i], qmask, (p - 1) / 2)
  {
    if GexDrawable(draws, p) {
      var i, n: nat, mask: byte :|
        0 <= i < |draws| && GexParameters(p, n, mask) && GexAccepts(draws[i], mask, (p - 1) / 2);
      ParametersAreUnique(p, byteCount, qmask, n, mask);
    }
    hide GexParameters, GexAccepts;
  }

  /** draws are the successive results of os.urandom(byte_count). */
  method GexGenerateX(draws: seq<seq<byte>>, p: int) returns (x: Option<nat>, byteCount: nat, qmask: byte)
    requires p >= 3
    requires forall i :: 0 <= i < |draws| ==> draws[i] != []
    ensures GexParameters(p, byteCount, qmask)
    ensures x.Some? ==> 1 < x.value < (p - 1) / 2 && GexFirst(draws, p, x.value)
    ensures x.Some? <==> GexDrawable(draws, p)
  {
    var q := (p - 1) / 2;
    var qnorm := Util.DeflateLong(q, false);
    byteCount := |qnorm|;
    MagnitudeFacts(qnorm, q);
    qmask := TopMask(qnorm[0]);
    assert GexParameters(p, byteCount, qmask);
    DrawableIff(draws, p, byteCount, qmask);
    hide GexParameters, GexDrawable, Pow256;
    var i := 0;
    while i < |draws|
      invariant 0 <= i <= |draws|
      invariant forall j :: 0 <= j < i ==> !GexAccepts(draws[j], qmask, q)
    {
      var n := Util.InflateLong(MaskFirst(draws[i], qmask), true);
      if n > 1 && n < q {
        return Some(n), byteCount, qmask;
      }
      i := i + 1;
    }
    x := None;
  }

  lemma Positive(h: int, w: int)
    requires h > 0 && w > 0
    ensures h * w >= w
  {
  }

  lemma MagnitudeFacts(s: seq<byte>, q: nat)
    requires q > 0 && s != [] && BE(s) == q && (|s| == 1 || s[0] != 0)
    ensures s[0] > 0 && Pow256(|s| - 1) <= q < Pow256(|s|)
    ensures q / Pow256(|s| - 1) == s[0]
  {
    var w := Pow256(|s| - 1);
    BEFirst(s);
    BEBound(s);
    BEBound(s[1..]);
    if |s| == 1 {
      assert s[1..] == [] && w == 1;
    }
    Positive(s[0], w);
    Division(q, s[0], w, BE(s[1..]));
  }

  /** The mask shuts nothing out: every x the code may use comes out of the draw that writes it. */
  lemma EveryXReachable(p: int, byteCount: nat, qmask: byte, x: int)
    requires p >= 3 && GexParameters(p, byteCount, qmask)
    requires 1 < x < (p - 1) / 2
    ensures GexAccepts(ToBE(x, byteCount), qmask, (p - 1) / 2)
    ensures BE(MaskFirst(ToBE(x, byteCount), qmask)) == x
  {
    var q, w, b := (p - 1) / 2, Pow256(byteCount - 1), ToBE(x, byteCount);
    ToBERoundTrip(x, byteCount);
    BEFirst(b);
    BEBound(b[1..]);
    Division(x, b[0], w, BE(b[1..]));
    DivideMonotone(x, q, w);
    MaskedIsRemainder(b[0], qmask);
    assert MaskFirst(b, qmask) == b;
  }

  lemma DivideMonotone(a: int, b: int, w: int)
    requires a <= b && w > 0
    ensures a / w <= b / w
  {
    var k := a / w - b / w;
    assert a == w * (a / w) + a % w && b == w * (b / w) + b % w;
    assert w * k == w * (a / w) - w * (b / w);
    LessThanOne(k, w);
  }

  lemma LessThanOne(k: int, w: int)
    requires w * k < w && w > 0
    ensures k <= 0
  {
  }
}
