/** Bytes, sectors and words of fixed width. */
module Machine {

  datatype Option<T> = None | Some(value: T)

  type byte = x: int | 0 <= x < 0x100

  /** 512 is the only sector size the configuration allows. Arithmetic below writes it out: the verifier
      divides by literals better than by names. */
  const SS: nat := 512

  type Sector = s: seq<byte> | |s| == 512 witness seq(512, _ => 0)

  const WORD_RANGE: nat := 0x1_0000
  const DWORD_RANGE: nat := 0x1_0000_0000

  ghost predicate Distinct(s: seq<nat>) {
    forall i, j :: 0 <= i < j < |s| ==> s[i] != s[j]
  }

  /** What a DWORD keeps of an unbounded sum or product. */
  function Wrap32(x: int): (r: nat)
    ensures r < DWORD_RANGE
    ensures 0 <= x < DWORD_RANGE ==> r == x
  {
    x % DWORD_RANGE
  }

  /** Little-endian loads and stores. */
  function LdWord(s: seq<byte>, i: nat): (r: nat)
    requires i + 1 < |s|
    ensures r < WORD_RANGE
  {
    s[i] as int + 0x100 * (s[i + 1] as int)
  }

  function LdDword(s: seq<byte>, i: nat): (r: nat)
    requires i + 3 < |s|
    ensures r < DWORD_RANGE
  {
    s[i] as int + 0x100 * (s[i + 1] as int) + 0x1_0000 * (s[i + 2] as int) + 0x100_0000 * (s[i + 3] as int)
  }

  function StWord(b: seq<byte>, i: nat, v: nat): (r: seq<byte>)
    requires i + 1 < |b|
    ensures |r| == |b|
  {
    b[i := v % 0x100][i + 1 := v / 0x100 % 0x100]
  }

  function StDword(b: seq<byte>, i: nat, v: nat): (r: seq<byte>)
    requires i + 3 < |b|
    ensures |r| == |b|
  {
    b[i := v % 0x100][i + 1 := v / 0x100 % 0x100][i + 2 := v / 0x1_0000 % 0x100][i + 3 := v / 0x100_0000 % 0x100]
  }

  // ----- bytes and bits as numbers

  /** The number that bytes stand for, the least significant first. */
  function Le(b: seq<byte>): nat {
    if b == [] then 0 else b[0] as int + 0x100 * Le(b[1..])
  }

  function Pow2(n: nat): (r: nat)
    ensures r > 0
  {
    if n == 0 then 1 else 2 * Pow2(n - 1)
  }

  /** The n bits of x from bit `from` on. */
  function Field(x: nat, from: nat, n: nat): nat {
    x / Pow2(from) % Pow2(n)
  }

  lemma Doubled(x: nat, y: nat)
    ensures (2 * x) * y == 2 * (x * y)
  {
  }

  lemma {:induction false} Pow2Sum(a: nat, b: nat)
    ensures Pow2(a + b) == Pow2(a) * Pow2(b)
    decreases a
  {
    if a > 0 {
      Pow2Sum(a - 1, b);
      Doubled(Pow2(a - 1), Pow2(b));
      assert Pow2(a - 1 + 1) == 2 * Pow2(a - 1);
    }
  }

  lemma Pow2Values()
    ensures Pow2(0) == 1 && Pow2(4) == 0x10 && Pow2(8) == 0x100 && Pow2(12) == 0x1000 && Pow2(16) == 0x1_0000
    ensures Pow2(24) == 0x100_0000 && Pow2(28) == 0x1000_0000 && Pow2(32) == 0x1_0000_0000
  {
    assert Pow2(4) == 0x10;
    Pow2Sum(4, 4);
    Pow2Sum(8, 4);
    Pow2Sum(8, 8);
    Pow2Sum(16, 8);
    Pow2Sum(24, 4);
    Pow2Sum(16, 16);
  }

  lemma Pow2Byte(k: nat)
    ensures Pow2(8 * (k + 1)) == 0x100 * Pow2(8 * k)
  {
    Pow2Values();
    Pow2Sum(8, 8 * k);
  }

  lemma Scaled(m: nat, p: nat, x: nat)
    ensures (m * p) * x == m * (p * x)
  {
  }

  /** Bytes from position k on count Pow2(8 * k) times as much. */
  lemma {:induction false} LeSplit(b: seq<byte>, k: nat)
    requires k <= |b|
    ensures Le(b) == Le(b[..k]) + Pow2(8 * k) * Le(b[k..])
    decreases k
  {
    hide Pow2;
    if k == 0 {
      Pow2Values();
      assert b[0..] == b;
    } else {
      LeSplit(b[1..], k - 1);
      assert b[1..][..k - 1] == b[..k][1..] && b[1..][k - 1..] == b[k..];
      Pow2Byte(k - 1);
      Scaled(0x100, Pow2(8 * (k - 1)), Le(b[k..]));
    }
  }

  lemma {:induction false} LeBound(b: seq<byte>)
    ensures Le(b) < Pow2(8 * |b|)
    decreases |b|
  {
    hide Pow2;
    Pow2Values();
    if b != [] {
      LeBound(b[1..]);
      Pow2Byte(|b| - 1);
    }
  }

  lemma {:induction false} Steps(p: nat, a: nat, b: nat)
    requires a < b
    ensures p * a + p <= p * b
    decreases b
  {
    if a + 1 < b { Steps(p, a, b - 1); }
    assert p * b == p * (b - 1) + p;
  }

  lemma Quotient(x: nat, r: nat, q: nat, p: nat)
    requires x == r + p * q && r < p
    ensures x / p == q && x % p == r
  {
    var d := x / p;
    assert x == p * d + x % p;
    if d < q { Steps(p, d, q); }
    if d > q { Steps(p, q, d); }
  }

  lemma Halved(s: nat, p: nat)
    requires p > 0
    ensures s / 2 / p == s / (2 * p)
  {
    var q, r, h := s / 2 / p, s / 2 % p, s % 2;
    assert s == 2 * (p * q + r) + h;
    assert 2 * (p * q) == (2 * p) * q;
    Quotient(s, 2 * r + h, q, 2 * p);
  }

  lemma SmallPow2()
    ensures Pow2(0) == 1 && Pow2(1) == 2 && Pow2(2) == 4 && Pow2(3) == 8 && Pow2(4) == 0x10
    ensures Pow2(5) == 0x20 && Pow2(6) == 0x40 && Pow2(7) == 0x80
  {
    assert Pow2(3) == 8;
    assert Pow2(6) == 0x40;
  }

  /** The number above bit 8 * k is that of the bytes from k on. */
  lemma LeAbove(b: seq<byte>, k: nat)
    requires k <= |b|
    ensures Le(b) / Pow2(8 * k) == Le(b[k..])
  {
    LeSplit(b, k);
    LeBound(b[..k]);
    Quotient(Le(b), Le(b[..k]), Le(b[k..]), Pow2(8 * k));
  }

  lemma NibbleQuotient(x: nat, r: nat, p: nat, y: nat, s: nat, z: nat)
    requires x == r + p * y && r < p && y == s + 0x10 * z && s < 0x10
    ensures 0 < p * 0x10 && x / (p * 0x10) == z
  {
    Distribute(p, s, 0x10, z);
    Steps(p, s, 0x10);
    Quotient(x, r + p * s, z, p * 0x10);
  }

  /** The number above a nibble more. */
  lemma LeAboveNibble(b: seq<byte>, k: nat)
    requires k <= |b|
    ensures Le(b) / Pow2(8 * k + 4) == Le(b[k..]) / 0x10
  {
    hide Pow2, Le;
    var y := Le(b[k..]);
    Pow2Values();
    Pow2Sum(8 * k, 4);
    LeSplit(b, k);
    LeBound(b[..k]);
    NibbleQuotient(Le(b), Le(b[..k]), Pow2(8 * k), y, y % 0x10, y / 0x10);
  }

  lemma Distribute(p: nat, s: nat, q: nat, z: nat)
    ensures p * (s + q * z) == p * s + (p * q) * z
  {
  }

  /** Loads and stores are little-endian. */
  lemma LoadIsLe(s: seq<byte>, i: nat)
    ensures i + 1 < |s| ==> LdWord(s, i) == Le(s[i..i + 2])
    ensures i + 3 < |s| ==> LdDword(s, i) == Le(s[i..i + 4])
  {
    if i + 1 < |s| { LeOf2(s[i], s[i + 1]); assert s[i..i + 2] == [s[i], s[i + 1]]; }
    if i + 3 < |s| {
      LeOf4(s[i], s[i + 1], s[i + 2], s[i + 3]);
      assert s[i..i + 4] == [s[i], s[i + 1], s[i + 2], s[i + 3]];
    }
  }

  lemma LeOf2(a: byte, b: byte)
    ensures Le([a, b]) == a as int + 0x100 * b as int
  {
    assert [a, b][1..] == [b] && [b][1..] == [];
    assert Le([b]) == b as int + 0x100 * Le([]);
  }

  lemma LeOf4(a: byte, b: byte, c: byte, d: byte)
    ensures Le([a, b, c, d]) == a as int + 0x100 * b as int + 0x1_0000 * c as int + 0x100_0000 * d as int
  {
    assert [a, b, c, d][1..] == [b, c, d] && [b, c, d][1..] == [c, d];
    LeOf2(c, d);
  }
}
