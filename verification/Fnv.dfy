/** The 64-bit FNV-1a digest a status page names its status by. */
module Fnv {
  import opened Bytes

  const RANGE: nat := 0x1_0000_0000_0000_0000
  const PRIME: nat := 0x100_0000_01b3
  const OFFSET: nat := 0xcbf2_9ce4_8422_2325
  /** The prime's inverse in 64-bit arithmetic. */
  const INVERSE: nat := 0xce96_5057_aff6_957b

  type Hash = h: nat | h < RANGE

  /** Exclusive or, bit by bit. */
  function Xor(a: nat, b: nat): nat
    decreases a + b
  {
    if a == 0 && b == 0 then 0 else 2 * Xor(a / 2, b / 2) + (a % 2 + b % 2) % 2
  }

  lemma XorUnfold(x: nat, b: nat, half: nat, bit: nat)
    requires x == 2 * half + bit && bit < 2
    ensures Xor(x, b) == 2 * Xor(half, b / 2) + (bit + b % 2) % 2
  {
    assert x / 2 == half && x % 2 == bit;
    if x == 0 && b == 0 {
      assert Xor(half, b / 2) == 0;
    }
  }

  lemma BitTwice(a: nat, b: nat)
    requires a < 2 && b < 2
    ensures ((a + b) % 2 + b) % 2 == a
  {}

  lemma {:induction false} XorTwice(a: nat, b: nat)
    ensures Xor(Xor(a, b), b) == a
    decreases a + b
  {
    if a != 0 || b != 0 {
      hide Xor;
      var half, bit := Xor(a / 2, b / 2), (a % 2 + b % 2) % 2;
      XorTwice(a / 2, b / 2);
      XorUnfold(a, b, a / 2, a % 2);
      XorUnfold(Xor(a, b), b, half, bit);
      BitTwice(a % 2, b % 2);
    }
  }

  lemma {:induction false} XorSwap(a: nat, b: nat)
    ensures Xor(a, b) == Xor(b, a)
    decreases a + b
  {
    if a != 0 || b != 0 {
      XorSwap(a / 2, b / 2);
    }
  }

  function Pow2(k: nat): nat { if k == 0 then 1 else 2 * Pow2(k - 1) }

  lemma {:induction false} XorBound(a: nat, b: nat, k: nat)
    requires a < Pow2(k) && b < Pow2(k)
    ensures Xor(a, b) < Pow2(k)
    decreases k
  {
    if k > 0 {
      XorBound(a / 2, b / 2, k - 1);
    }
  }

  lemma Range64()
    ensures Pow2(64) == RANGE
  {
    assert Pow2(8) == 0x100;
    assert Pow2(16) == 256 * Pow2(8);
    assert Pow2(24) == 256 * Pow2(16);
    assert Pow2(32) == 256 * Pow2(24);
    assert Pow2(40) == 256 * Pow2(32);
    assert Pow2(48) == 256 * Pow2(40);
    assert Pow2(56) == 256 * Pow2(48);
    assert Pow2(64) == 256 * Pow2(56);
  }

  /** One byte of the digest: `hash ^= byte; hash *= prime`, wrapping at 64 bits. */
  function Step(h: Hash, b: byte): Hash {
    Xor(h, b) * PRIME % RANGE
  }

  /** The state a byte was folded into, from the state it left. */
  function Unstep(h: Hash, b: byte): nat {
    Xor(h * INVERSE % RANGE, b)
  }

  lemma Multiples(d: int, m: int)
    requires m > 0
    ensures d >= 1 ==> d * m >= m
    ensures d <= -1 ==> d * m <= -m
  {}

  lemma ModTimes(x: nat, t: int, m: nat)
    requires x < m
    ensures (x + t * m) % m == x
  {
    var z := x + t * m;
    var k, r := z / m, z % m;
    assert z == k * m + r;
    assert (t - k) * m == r - x;
    Multiples(t - k, m);
  }

  /** Multiplying by one of two inverses and then the other is nothing at all. */
  lemma Inverses(x: nat, p: nat, i: nat, q: nat, m: nat)
    requires x < m && p * i == 1 + q * m
    ensures (x * p % m) * i % m == x
  {
    var k, r := x * p / m, x * p % m;
    assert x * p == k * m + r;
    calc {
      r * i;
      (x * p - k * m) * i;
      (x * p) * i - (k * m) * i;
      x * (p * i) - (k * i) * m;
      x * (1 + q * m) - (k * i) * m;
      x + x * (q * m) - (k * i) * m;
      x + (x * q) * m - (k * i) * m;
      x + (x * q - k * i) * m;
    }
    ModTimes(x, x * q - k * i, m);
  }

  lemma MultiplyBack(x: nat)
    requires x < RANGE
    ensures (x * PRIME % RANGE) * INVERSE % RANGE == x
    ensures (x * INVERSE % RANGE) * PRIME % RANGE == x
  {
    assert PRIME * INVERSE == 1 + 887285111055 * RANGE;
    Inverses(x, PRIME, INVERSE, 887285111055, RANGE);
    Inverses(x, INVERSE, PRIME, 887285111055, RANGE);
  }

  /** For each byte the step is a bijection on 64-bit states, and `Unstep` undoes it both ways. */
  lemma StepBijective(h: Hash, b: byte)
    ensures Unstep(Step(h, b), b) == h
    ensures Unstep(h, b) < RANGE && Step(Unstep(h, b), b) == h
  {
    Range64();
    XorBound(h, b, 64);
    MultiplyBack(Xor(h, b));
    XorTwice(h, b);
    var y := h * INVERSE % RANGE;
    XorBound(y, b, 64);
    XorTwice(y, b);
    MultiplyBack(h);
  }

  /** Different bytes lead one state to different states. */
  lemma StepSeparates(h: Hash, b: byte, c: byte)
    requires Step(h, b) == Step(h, c)
    ensures b == c
  {
    Range64();
    XorBound(h, b, 64);
    XorBound(h, c, 64);
    MultiplyBack(Xor(h, b));
    MultiplyBack(Xor(h, c));
    XorSwap(h, b);
    XorSwap(h, c);
    XorTwice(b, h);
    XorTwice(c, h);
  }

  /** The digest of `t` begun from state `h`. */
  function Fold(h: Hash, t: Bytes): Hash {
    if t == [] then h else Step(Fold(h, t[..|t| - 1]), t[|t| - 1])
  }

  function Digest(t: Bytes): Hash { Fold(OFFSET, t) }

  /** `ncfg_status_page_digest`. */
  method ComputeDigest(t: Bytes) returns (hash: Hash)
    ensures hash == Digest(t)
  {
    hash := OFFSET;
    var at := 0;
    while at < |t|
      invariant 0 <= at <= |t| && hash == Digest(t[..at])
    {
      assert t[..at + 1][..at] == t[..at];
      hash := Step(hash, t[at]);
      at := at + 1;
    }
    assert t[..at] == t;
  }

  lemma {:induction false} FoldConcat(h: Hash, a: Bytes, b: Bytes)
    ensures Fold(h, a + b) == Fold(Fold(h, a), b)
    decreases |b|
  {
    if b == [] {
      assert a + b == a;
    } else {
      assert (a + b)[..|a + b| - 1] == a + b[..|b| - 1];
      FoldConcat(h, a, b[..|b| - 1]);
    }
  }

  /** The same bytes keep different states different. */
  lemma {:induction false} FoldInjective(g: Hash, h: Hash, t: Bytes)
    requires Fold(g, t) == Fold(h, t)
    ensures g == h
    decreases |t|
  {
    if t != [] {
      var b := t[|t| - 1];
      StepBijective(Fold(g, t[..|t| - 1]), b);
      StepBijective(Fold(h, t[..|t| - 1]), b);
      FoldInjective(g, h, t[..|t| - 1]);
    }
  }

  /** Two texts that differ in exactly one byte never share a digest, at any length. */
  lemma OneByteTells(before: Bytes, b: byte, c: byte, after: Bytes)
    requires b != c
    ensures Digest(before + [b] + after) != Digest(before + [c] + after)
  {
    if Digest(before + [b] + after) == Digest(before + [c] + after) {
      FoldConcat(OFFSET, before + [b], after);
      FoldConcat(OFFSET, before + [c], after);
      FoldInjective(Fold(OFFSET, before + [b]), Fold(OFFSET, before + [c]), after);
      assert (before + [b])[..|before|] == before && (before + [c])[..|before|] == before;
      StepSeparates(Fold(OFFSET, before), b, c);
    }
  }

  // ---- the digest as sixteen lower-case hex digits ----

  function Hex(n: nat, k: nat): (r: Bytes)
    ensures |r| == k
    ensures forall i :: 0 <= i < k ==> IsLowerHex(r[i])
  {
    if k == 0 then [] else Hex(n / 16, k - 1) + [HexDigit(n % 16)]
  }

  predicate IsLowerHex(b: byte) { 48 <= b <= 57 || 97 <= b <= 102 }

  function HexSum(t: Bytes): nat
    requires forall i :: 0 <= i < |t| ==> IsLowerHex(t[i])
  {
    if t == [] then 0
    else
      var last := t[|t| - 1];
      assert IsLowerHex(last);
      HexSum(t[..|t| - 1]) * 16 + HexValue(last)
  }

  function Pow16(k: nat): (r: nat)
    ensures r > 0
  {
    if k == 0 then 1 else 16 * Pow16(k - 1)
  }

  lemma {:induction false} HexRoundTrip(n: nat, k: nat)
    requires n < Pow16(k)
    ensures HexSum(Hex(n, k)) == n
    decreases k
  {
    if k > 0 {
      HexRoundTrip(n / 16, k - 1);
      assert Hex(n, k)[..k - 1] == Hex(n / 16, k - 1);
    }
  }

  lemma {:induction false} HexSumBound(t: Bytes)
    requires forall i :: 0 <= i < |t| ==> IsLowerHex(t[i])
    ensures HexSum(t) < Pow16(|t|)
    decreases |t|
  {
    if t != [] {
      HexSumBound(t[..|t| - 1]);
    }
  }

  lemma Sixteen()
    ensures Pow16(16) == RANGE
  {
    assert Pow16(4) == 0x1_0000;
    assert Pow16(8) == 0x1_0000 * Pow16(4);
    assert Pow16(12) == 0x1_0000 * Pow16(8);
    assert Pow16(16) == 0x1_0000 * Pow16(12);
  }

  // ---- published values ----

  function Shifted(h: nat, k: nat): nat { if k == 0 then h else 2 * Shifted(h, k - 1) }

  /** What is folded in below bit `k` leaves all above it as it was. */
  lemma {:induction false} XorBelow(h: nat, l: nat, b: nat, k: nat)
    requires l < Pow2(k) && b < Pow2(k)
    ensures Xor(Shifted(h, k) + l, b) == Shifted(h, k) + Xor(l, b)
    decreases k
  {
    if k == 0 {
      XorZero(h);
    } else {
      hide Xor;
      XorBelow(h, l / 2, b / 2, k - 1);
      XorUnfold(Shifted(h, k) + l, b, Shifted(h, k - 1) + l / 2, l % 2);
      XorUnfold(l, b, l / 2, l % 2);
    }
  }

  lemma {:induction false} XorZero(a: nat)
    ensures Xor(a, 0) == a
    decreases a
  {
    if a != 0 { XorZero(a / 2); }
  }

  /** FNV-1a of no bytes and of the letter a, as published for 64 bits. */
  lemma PublishedDigests()
    ensures Digest([]) == 0xcbf29ce484222325 && Digest([97]) == 0xaf63dc4c8601ec8c
  {
    hide Xor;
    var high: nat := 0xcbf29ce4842223;
    assert Pow2(8) == 256 && Shifted(high, 8) == 0xcbf29ce484222300;
    XorBelow(high, 0x25, 97, 8);
    SmallXor();
    assert Xor(OFFSET, 97) == 0xcbf29ce484222344;
    assert 0xcbf29ce484222344 * 0x100000001b3 % 0x1_0000_0000_0000_0000 == 0xaf63dc4c8601ec8c;
    assert [97][..0] == [];
  }

  lemma SmallXor()
    ensures Xor(0x25, 97) == 0x44
  {
    assert Xor(0, 0) == 0;
    assert Xor(0, 1) == 1;
    assert Xor(1, 3) == 2;
    assert Xor(2, 6) == 4;
    assert Xor(4, 12) == 8;
    assert Xor(9, 24) == 17;
    assert Xor(18, 48) == 34;
  }
}
