/** The packed 12, 16 and 28-bit entries of a FAT, as an array of bytes and as an array of numbers. */
module FatEntries {
  import opened Machine
  import opened FatGeometry

  /** The byte offset of an entry and the number of bytes that hold a part of it. */
  function EntryByte(t: FatType, c: nat): nat {
    match t
    case Fat12 => c + c / 2
    case Fat16 => 2 * c
    case Fat32 => 4 * c
  }

  function EntryWidth(t: FatType): nat {
    if t == Fat32 then 4 else 2
  }

  /** The bytes b have room for entry c. */
  predicate Room(t: FatType, b: seq<byte>, c: nat) {
    EntryByte(t, c) + EntryWidth(t) <= |b|
  }

  /** Every legal entry lies in a FAT of a mounted volume. */
  lemma EntryInFat(g: Geometry, b: seq<byte>, c: nat)
    requires Entries(g) && c < g.nFatent && |b| == g.fsize * 512
    ensures Room(g.fatType, b, c)
  {
  }

  function Entry(t: FatType, b: seq<byte>, c: nat): (r: nat)
    requires Room(t, b, c)
    ensures r <= EntryMask(t)
  {
    match t
    case Fat12 => if c % 2 == 1 then LdWord(b, c + c / 2) / 0x10 else LdWord(b, c + c / 2) % 0x1000
    case Fat16 => LdWord(b, 2 * c)
    case Fat32 => LdDword(b, 4 * c) % 0x1000_0000
  }

  // ----- writing an entry

  function Put12Low(c: nat, old1: byte, val: nat): byte {
    if c % 2 == 1 then old1 % 0x10 + val % 0x10 * 0x10 else val % 0x100
  }

  function Put12High(c: nat, old2: byte, val: nat): byte {
    if c % 2 == 1 then val / 0x10 % 0x100 else old2 / 0x10 * 0x10 + val / 0x100 % 0x10
  }

  /** The dword stored for val over a FAT32 entry: the top four bits stay. */
  function Put32(old4: nat, val: nat): (r: nat)
    requires old4 < DWORD_RANGE
    ensures r < DWORD_RANGE
  {
    val % 0x1000_0000 + old4 / 0x1000_0000 * 0x1000_0000
  }

  /** The bytes after entry c has been rewritten for val. */
  function PutEntry(t: FatType, b: seq<byte>, c: nat, val: nat): (r: seq<byte>)
    requires Room(t, b, c)
    ensures |r| == |b|
  {
    match t
    case Fat12 =>
      var k := c + c / 2;
      b[k := Put12Low(c, b[k], val)][k + 1 := Put12High(c, b[k + 1], val)]
    case Fat16 => StWord(b, 2 * c, val)
    case Fat32 => StDword(b, 4 * c, Put32(LdDword(b, 4 * c), val))
  }

  lemma LoadStoredWord(b: seq<byte>, i: nat, v: nat)
    requires i + 1 < |b|
    ensures LdWord(StWord(b, i, v), i) == v % WORD_RANGE
  {
    var q := v / 0x100;
    CutAbove16(v % 0x100 + 0x100 * (q % 0x100), q / 0x100);
  }

  lemma LoadStoredDword(b: seq<byte>, i: nat, v: nat)
    requires i + 3 < |b|
    ensures LdDword(StDword(b, i, v), i) == v % DWORD_RANGE
  {
    var q := v / 0x100;
    var r := q / 0x100;
    var s := r / 0x100;
    DivTwice(v);
    CutAbove32(v % 0x100 + 0x100 * (q % 0x100) + 0x1_0000 * (r % 0x100) + 0x100_0000 * (s % 0x100), s / 0x100);
  }

  lemma CutAbove16(x: nat, h: nat)
    requires x < 0x1_0000
    ensures (x + 0x1_0000 * h) % 0x1_0000 == x
  {
  }

  lemma CutAbove32(x: nat, h: nat)
    requires x < 0x1_0000_0000
    ensures (x + 0x1_0000_0000 * h) % 0x1_0000_0000 == x
  {
  }

  lemma DivTwice(v: nat)
    ensures v / 0x1_0000 == v / 0x100 / 0x100 && v / 0x100_0000 == v / 0x100 / 0x100 / 0x100
  {
  }

  /** Bytes outside the entry keep their values. */
  lemma PutEntryBytes(t: FatType, b: seq<byte>, c: nat, val: nat, j: nat)
    requires Room(t, b, c) && j < |b|
    requires !(EntryByte(t, c) <= j < EntryByte(t, c) + EntryWidth(t))
    ensures PutEntry(t, b, c, val)[j] == b[j]
  {
  }

  /** A written entry reads back as the value cut to the entry's width. */
  lemma PutEntrySelf(t: FatType, b: seq<byte>, c: nat, val: nat)
    requires Room(t, b, c)
    ensures Entry(t, PutEntry(t, b, c, val), c) == Cut(t, val)
  {
    match t
    case Fat12 => PutEntrySelf12(b, c, val);
    case Fat16 => LoadStoredWord(b, 2 * c, val);
    case Fat32 => PutEntrySelf32(b, c, val);
  }

  lemma PutEntrySelf12(b: seq<byte>, c: nat, val: nat)
    requires Room(Fat12, b, c)
    ensures Entry(Fat12, PutEntry(Fat12, b, c, val), c) == val % 0x1000
  {
    Nibbles(val, b[c + c / 2], b[c + c / 2 + 1]);
  }

  lemma PutEntrySelf32(b: seq<byte>, c: nat, val: nat)
    requires Room(Fat32, b, c)
    ensures LdDword(PutEntry(Fat32, b, c, val), 4 * c) == Put32(LdDword(b, 4 * c), val)
    ensures Entry(Fat32, PutEntry(Fat32, b, c, val), c) == val % 0x1000_0000
  {
    hide LdDword;
    hide StDword;
    LoadStoredDword(b, 4 * c, Put32(LdDword(b, 4 * c), val));
    ModOut32(val, LdDword(b, 4 * c));
  }

  lemma ModOut32(val: nat, old4: nat)
    requires old4 < DWORD_RANGE
    ensures Put32(old4, val) % 0x1000_0000 == val % 0x1000_0000
    ensures Put32(old4, val) / 0x1000_0000 == old4 / 0x1000_0000
  {
  }

  lemma Nibbles(val: nat, low: byte, high: byte)
    ensures (low % 0x10 + val % 0x10 * 0x10 + 0x100 * (val / 0x10 % 0x100)) / 0x10 == val % 0x1000
    ensures (val % 0x100 + 0x100 * (high / 0x10 * 0x10 + val / 0x100 % 0x10)) % 0x1000 == val % 0x1000
  {
    var m := val / 0x10 % 0x100;
    assert val % 0x10 + 0x10 * m == val % 0x1000 by { SplitMod(val, 0x10, 0x100); }
    DivOut(low % 0x10, val % 0x10 + 0x10 * m);
    SplitMod(val, 0x100, 0x10);
    ModOut(val % 0x100 + 0x100 * (val / 0x100 % 0x10), high / 0x10);
  }

  lemma DivOut(r: nat, q: nat)
    requires r < 0x10
    ensures (r + 0x10 * q) / 0x10 == q
  {
  }

  lemma ModOut(r: nat, q: nat)
    requires r < 0x1000
    ensures (r + 0x1000 * q) % 0x1000 == r
  {
  }

  /** Cutting to m * n is cutting to m below and to n above. */
  lemma SplitMod(v: nat, m: nat, n: nat)
    requires (m, n) in {(0x10, 0x100), (0x100, 0x10)}
    ensures v % m + m * (v / m % n) == v % 0x1000
  {
    var q := v / 0x1000;
    var r := v % 0x1000;
    assert v == 0x1000 * q + r;
  }

  /** No other entry changes, though a FAT12 entry shares a byte with its neighbour. */
  lemma PutEntryOther(t: FatType, b: seq<byte>, c: nat, val: nat, d: nat)
    requires Room(t, b, c) && Room(t, b, d) && c != d
    ensures Entry(t, PutEntry(t, b, c, val), d) == Entry(t, b, d)
  {
    if t == Fat12 {
      var k := c + c / 2;
      if d == c + 1 && c % 2 == 0 {
        HighNibble(b[k + 1], val / 0x100 % 0x10, b[k + 2]);
      } else if c == d + 1 && c % 2 == 1 {
        LowNibble(b[k - 1], b[k], val % 0x10);
      }
    }
  }

  lemma HighNibble(shared: byte, v: nat, next: byte)
    requires v < 0x10
    ensures (shared / 0x10 * 0x10 + v + 0x100 * next as int) / 0x10 == (shared as int + 0x100 * next as int) / 0x10
  {
  }

  lemma LowNibble(before: byte, shared: byte, v: nat)
    requires v < 0x10
    ensures (before as int + 0x100 * (shared % 0x10 + v * 0x10)) % 0x1000
            == (before as int + 0x100 * shared as int) % 0x1000
  {
    var low, h := before as int + 0x100 * (shared % 0x10), shared / 0x10;
    assert 0x100 * shared as int == 0x100 * (shared % 0x10) + 0x1000 * h;
    DropMultiple(low, v);
    DropMultiple(low, h);
  }

  lemma DropMultiple(low: nat, h: nat)
    ensures (low + 0x1000 * h) % 0x1000 == low % 0x1000
  {
  }

  /** The reserved top four bits of every FAT32 entry outlive every write. */
  lemma TopBitsStay(b: seq<byte>, c: nat, val: nat, d: nat)
    requires Room(Fat32, b, c) && Room(Fat32, b, d)
    ensures LdDword(PutEntry(Fat32, b, c, val), 4 * d) / 0x1000_0000 == LdDword(b, 4 * d) / 0x1000_0000
  {
    if c == d {
      hide LdDword;
      hide PutEntry;
      PutEntrySelf32(b, c, val);
      ModOut32(val, LdDword(b, 4 * c));
    } else {
      OtherDword(b, c, val, d);
    }
  }

  lemma OtherDword(b: seq<byte>, c: nat, val: nat, d: nat)
    requires Room(Fat32, b, c) && Room(Fat32, b, d) && c != d
    ensures LdDword(PutEntry(Fat32, b, c, val), 4 * d) == LdDword(b, 4 * d)
  {
    hide PutEntry;
    PutEntryBytes(Fat32, b, c, val, 4 * d);
    PutEntryBytes(Fat32, b, c, val, 4 * d + 1);
    PutEntryBytes(Fat32, b, c, val, 4 * d + 2);
    PutEntryBytes(Fat32, b, c, val, 4 * d + 3);
    SameDword(b, PutEntry(Fat32, b, c, val), 4 * d);
  }

  lemma SameDword(b: seq<byte>, b': seq<byte>, i: nat)
    requires i + 3 < |b| == |b'|
    requires forall j :: i <= j < i + 4 ==> b[j] == b'[j]
    ensures LdDword(b, i) == LdDword(b', i)
  {
  }

  /** The FAT as the plain array of numbers it stands for. */
  function FatArray(g: Geometry, b: seq<byte>): (fat: seq<nat>)
    requires Entries(g) && |b| == g.fsize * 512
    ensures |fat| == g.nFatent
  {
    seq(g.nFatent, c requires 0 <= c < g.nFatent => EntryInFat(g, b, c); Entry(g.fatType, b, c))
  }

  /** Through the packing, a write to the FAT is a write to one element of an array. */
  lemma PutEntryArray(g: Geometry, b: seq<byte>, c: nat, val: nat)
    requires Entries(g) && |b| == g.fsize * 512 && c < g.nFatent
    requires Room(g.fatType, b, c)
    ensures FatArray(g, PutEntry(g.fatType, b, c, val)) == FatArray(g, b)[c := Cut(g.fatType, val)]
  {
    var after := FatArray(g, PutEntry(g.fatType, b, c, val));
    PutEntrySelf(g.fatType, b, c, val);
    forall d | 0 <= d < g.nFatent && d != c
      ensures after[d] == FatArray(g, b)[d]
    {
      EntryInFat(g, b, d);
      PutEntryOther(g.fatType, b, c, val, d);
    }
  }

  // ----- where the entries are, by the bits of the FAT as one number

  /** Entry c begins at bit 12c, 16c or 32c. */
  function EntryBit(t: FatType, c: nat): nat {
    match t
    case Fat12 => 12 * c
    case Fat16 => 16 * c
    case Fat32 => 32 * c
  }

  /** It has 12, 16 or 28 bits. */
  function EntryBits(t: FatType): nat {
    match t
    case Fat12 => 12
    case Fat16 => 16
    case Fat32 => 28
  }

  /** The entries of a FAT are fields of the number that its bytes stand for. */
  lemma EntryIsField(t: FatType, b: seq<byte>, c: nat)
    requires Room(t, b, c)
    ensures Entry(t, b, c) == Field(Le(b), EntryBit(t, c), EntryBits(t))
  {
    Pow2Values();
    hide Pow2, Le;
    var k := EntryByte(t, c);
    LeAbove(b, k);
    match t
    case Fat12 =>
      FrontOf2(b, k);
      if c % 2 == 1 {
        assert 12 * c == 8 * k + 4;
        LeAboveNibble(b, k);
        OddField(LdWord(b, k), Le(b[k + 2..]));
      } else {
        assert 12 * c == 8 * k;
        EvenField(LdWord(b, k), Le(b[k + 2..]));
      }
    case Fat16 =>
      FrontOf2(b, k);
      WordField(LdWord(b, k), Le(b[k + 2..]));
    case Fat32 =>
      FrontOf4(b, k);
      DwordField(LdDword(b, k), Le(b[k + 4..]));
  }

  lemma FrontOf2(b: seq<byte>, k: nat)
    requires k + 1 < |b|
    ensures Le(b[k..]) == LdWord(b, k) + 0x1_0000 * Le(b[k + 2..])
  {
    assert b[k..][1..] == b[k + 1..] && b[k + 1..][1..] == b[k + 2..];
  }

  lemma FrontOf4(b: seq<byte>, k: nat)
    requires k + 3 < |b|
    ensures Le(b[k..]) == LdDword(b, k) + 0x1_0000_0000 * Le(b[k + 4..])
  {
    FrontOf2(b, k);
    FrontOf2(b, k + 2);
  }

  lemma OddField(w: nat, high: nat)
    requires w < 0x1_0000
    ensures (w + 0x1_0000 * high) / 0x10 % 0x1000 == w / 0x10
  {
    assert (w + 0x1_0000 * high) / 0x10 == w / 0x10 + 0x1000 * high;
    ModOut(w / 0x10, high);
  }

  lemma EvenField(w: nat, high: nat)
    ensures (w + 0x1_0000 * high) % 0x1000 == w % 0x1000
  {
    DropMultiple(w, 0x10 * high);
  }

  lemma WordField(w: nat, high: nat)
    requires w < 0x1_0000
    ensures (w + 0x1_0000 * high) % 0x1_0000 == w
  {
  }

  lemma DwordField(w: nat, high: nat)
    ensures (w + 0x1_0000_0000 * high) % 0x1000_0000 == w % 0x1000_0000
  {
    assert w + 0x1_0000_0000 * high == w + 0x1000_0000 * (0x10 * high);
    DropMultiple28(w, 0x10 * high);
  }

  lemma DropMultiple28(low: nat, h: nat)
    ensures (low + 0x1000_0000 * h) % 0x1000_0000 == low % 0x1000_0000
  {
  }

  /** The number that is left when a field has been given another value. */
  function WithField(x: nat, from: nat, n: nat, v: nat): int {
    x + (v - Field(x, from, n)) * Pow2(from)
  }

  /** Rewriting an entry replaces its bits and no others. */
  lemma PutEntryIsField(t: FatType, b: seq<byte>, c: nat, val: nat)
    requires Room(t, b, c)
    ensures Le(PutEntry(t, b, c, val)) == WithField(Le(b), EntryBit(t, c), EntryBits(t), val % Pow2(EntryBits(t)))
  {
    hide Pow2, Le, PutEntry, Entry, Field;
    Pow2Values();
    EntryIsField(t, b, c);
    var k, r, d := EntryByte(t, c), PutEntry(t, b, c, val), Cut(t, val) - Entry(t, b, c);
    match t
    case Fat12 =>
      EntryStored12(b, c, val);
      if c % 2 == 1 {
        OneFieldMoved(b, r, k, d);
      } else {
        OneField(b, r, k, d);
      }
    case Fat16 =>
      EntryStored16(b, c, val);
      OneField(b, r, k, d);
    case Fat32 =>
      EntryStored32(b, c, val);
      OneField(b, r, k, d);
  }

  /** Numbers of bytes that differ by d from byte k on. */
  lemma OneField(b: seq<byte>, r: seq<byte>, k: nat, d: int)
    requires k <= |b| == |r| && r[..k] == b[..k] && Le(r[k..]) - Le(b[k..]) == d
    ensures Le(r) == Le(b) + d * Pow2(8 * k)
  {
    hide Pow2, Le;
    LeSplit(b, k);
    LeSplit(r, k);
    Difference(Pow2(8 * k), Le(r[k..]), Le(b[k..]));
  }

  lemma OneFieldMoved(b: seq<byte>, r: seq<byte>, k: nat, d: int)
    requires k <= |b| == |r| && r[..k] == b[..k] && Le(r[k..]) - Le(b[k..]) == 0x10 * d
    ensures Le(r) == Le(b) + d * Pow2(8 * k + 4)
  {
    hide Pow2, Le;
    OneField(b, r, k, 0x10 * d);
    Pow2Values();
    Pow2Sum(8 * k, 4);
    Moved(Pow2(8 * k), 0x10, d);
  }

  lemma EntryStored12(b: seq<byte>, c: nat, val: nat)
    requires Room(Fat12, b, c)
    ensures var k, r, d := c + c / 2, PutEntry(Fat12, b, c, val), val % 0x1000 - Entry(Fat12, b, c);
            && r[..k] == b[..k] && 12 * c == 8 * k + (if c % 2 == 1 then 4 else 0)
            && Le(r[k..]) - Le(b[k..]) == if c % 2 == 1 then 0x10 * d else d
  {
    hide Le;
    var k, r := c + c / 2, PutEntry(Fat12, b, c, val);
    FrontOf2(b, k);
    FrontOf2(r, k);
    assert r[..k] == b[..k] && r[k + 2..] == b[k + 2..];
    if c % 2 == 1 { OddStored(b[k], b[k + 1], val); } else { EvenStored(b[k], b[k + 1], val); }
  }

  lemma EntryStored16(b: seq<byte>, c: nat, val: nat)
    requires Room(Fat16, b, c)
    ensures var k, r := 2 * c, PutEntry(Fat16, b, c, val);
            r[..k] == b[..k] && Le(r[k..]) - Le(b[k..]) == val % 0x1_0000 - Entry(Fat16, b, c)
  {
    hide Le;
    var k, r := 2 * c, PutEntry(Fat16, b, c, val);
    FrontOf2(b, k);
    FrontOf2(r, k);
    assert r[..k] == b[..k] && r[k + 2..] == b[k + 2..];
    LoadStoredWord(b, k, val);
  }

  lemma EntryStored32(b: seq<byte>, c: nat, val: nat)
    requires Room(Fat32, b, c)
    ensures var k, r := 4 * c, PutEntry(Fat32, b, c, val);
            r[..k] == b[..k] && Le(r[k..]) - Le(b[k..]) == val % 0x1000_0000 - Entry(Fat32, b, c)
  {
    hide Le, LdDword;
    var k, r := 4 * c, PutEntry(Fat32, b, c, val);
    FrontOf4(b, k);
    FrontOf4(r, k);
    assert r[..k] == b[..k] && r[k + 4..] == b[k + 4..];
    PutEntrySelf32(b, c, val);
  }

  lemma Difference(p: nat, x: nat, y: nat)
    ensures p * x - p * y == (x - y) * p
  {
  }

  lemma Moved(p: nat, m: nat, d: int)
    ensures (m * d) * p == d * (p * m)
  {
  }

  lemma OddStored(low: byte, high: byte, val: nat)
    ensures Put12Low(1, low, val) as int + 0x100 * Put12High(1, high, val) as int - (low as int + 0x100 * high as int)
            == 0x10 * (val % 0x1000 - (low as int + 0x100 * high as int) / 0x10)
  {
    SplitMod(val, 0x10, 0x100);
  }

  lemma EvenStored(low: byte, high: byte, val: nat)
    ensures Put12Low(0, low, val) as int + 0x100 * Put12High(0, high, val) as int - (low as int + 0x100 * high as int)
            == val % 0x1000 - (low as int + 0x100 * high as int) % 0x1000
  {
    SplitMod(val, 0x100, 0x10);
  }
}
