/** Long file names in a FAT directory: the entries that carry a name, written in reverse order before the
    short entry they belong to, and read back while the directory is scanned. */
module LongNames {
  import opened Machine

  type wchar = x: int | 0 <= x < 0x1_0000

  type Entry = e: seq<byte> | |e| == 32 witness seq(32, _ => 0)

  const MAX_LFN: nat := 255
  const LLEF: byte := 0x40
  const DDEM: byte := 0xE5
  const AM_LFN: byte := 0x0F
  const AM_VOL: byte := 0x08

  // ----- the fields of an entry

  function Ofs(s: nat): (r: nat)
    requires s < 13
    ensures 1 <= r <= 30
  {
    if s < 5 then 1 + 2 * s else if s < 11 then 4 + 2 * s else 6 + 2 * s
  }

  /** The s-th of the thirteen characters of an entry. */
  function UnitAt(e: Entry, s: nat): wchar
    requires s < 13
  {
    LdWord(e, Ofs(s))
  }

  lemma StUnit(e: Entry, s: nat, w: wchar)
    requires s < 13
    ensures UnitAt(StWord(e, Ofs(s), w), s) == w
    ensures forall j :: 0 <= j < 13 && j != s ==> UnitAt(StWord(e, Ofs(s), w), j) == UnitAt(e, j)
    ensures forall i :: i in {0, 11, 12, 13, 26, 27} ==> StWord(e, Ofs(s), w)[i] == e[i]
  {
    assert w == w % 0x100 + 0x100 * (w / 0x100);
    forall j | 0 <= j < 13 && j != s
      ensures UnitAt(StWord(e, Ofs(s), w), j) == UnitAt(e, j)
    {
      assert Ofs(j) + 1 < Ofs(s) || Ofs(s) + 1 < Ofs(j);
    }
  }

  predicate IsLast(e: Entry) { e[0] / 0x40 % 2 == 1 }

  /** The order of an entry without the flag of the last part. */
  function Order(e: Entry): nat {
    if IsLast(e) then e[0] - 0x40 else e[0]
  }

  function Attr(e: Entry): nat { e[11] % 0x40 }

  /** Attribute bits without the archive bit. */
  function Kind(e: Entry): nat {
    if Attr(e) >= 0x20 then Attr(e) - 0x20 else Attr(e)
  }

  predicate IsEnd(e: Entry) { e[0] == 0 }

  /** What a scan for files passes over. */
  predicate IsSkipped(e: Entry) {
    e[0] == DDEM || e[0] == '.' as int || Kind(e) == AM_VOL
  }

  predicate IsLong(e: Entry) { !IsEnd(e) && !IsSkipped(e) && Attr(e) == AM_LFN }

  predicate IsShort(e: Entry) { !IsEnd(e) && !IsSkipped(e) && Attr(e) != AM_LFN }

  /** What the kinds of entries are in bytes: the first byte tells the end, deleted entries and the dot entries,
      the low six bits of byte 11 a part of a name, and without the archive bit a volume label. */
  lemma EntryKinds(e: Entry)
    ensures IsEnd(e) <==> e[0] == 0
    ensures FreeEntry(e) <==> e[0] == 0 || e[0] == 0xE5
    ensures IsLong(e) <==> e[0] !in {0, 0xE5, 0x2E} && e[11] % 0x40 == 0xF
    ensures IsShort(e) <==> e[0] !in {0, 0xE5, 0x2E} && e[11] % 0x20 != 8 && e[11] % 0x40 != 0xF
  {
    assert Kind(e) == e[11] % 0x20;
  }

  // ----- the checksum that ties the entries together

  function RotateAdd(sum: byte, c: byte): byte {
    (sum / 2 + sum * 0x80 + c) % 0x100
  }

  function SumOf(name: seq<byte>): byte {
    if name == [] then 0 else RotateAdd(SumOf(name[..|name| - 1]), name[|name| - 1])
  }

  method SumSfn(e: Entry) returns (sum: byte)
    ensures sum == SumOf(e[..11])
  {
    sum := 0;
    var n := 0;
    while n < 11
      invariant n <= 11 && sum == SumOf(e[..n])
    {
      assert e[..n + 1][..n] == e[..n];
      sum := (sum / 2 + sum * 0x80 + e[n]) % 0x100;
      n := n + 1;
    }
  }

  /** The rotation of a byte by one bit. */
  function Rotate(s: byte): (r: byte) { s / 2 + 0x80 * (s % 2) }

  lemma RotateAddIs(s: byte, c: byte)
    ensures var u := Rotate(s) + c; RotateAdd(s, c) == if u < 0x100 then u else u - 0x100
  {
    var u, h := Rotate(s) + c, s / 2;
    assert s * 0x80 == 0x100 * h + 0x80 * (s % 2);
    assert s / 2 + s * 0x80 + c == u + 0x100 * h;
    ModDrop(u, h);
  }

  lemma ModDrop(u: nat, h: nat)
    requires u < 0x200
    ensures (u + 0x100 * h) % 0x100 == if u < 0x100 then u else u - 0x100
  {
  }

  /** The step of the checksum: the sum turned right by one bit, the lowest becoming the highest, plus c. */
  lemma RotatesRight(s: byte, c: byte)
    ensures RotateAdd(s, c) == (Rotate(s) + c) % 0x100
    ensures Rotate(s) < 0x100 && forall i :: 0 <= i < 8 ==> Field(Rotate(s), i, 1) == Field(s, (i + 1) % 8, 1)
  {
    hide RotateAdd;
    RotateAddIs(s, c);
    forall i | 0 <= i < 8
      ensures Field(Rotate(s), i, 1) == Field(s, (i + 1) % 8, 1)
    {
      TurnedBit(s, i);
    }
  }

  lemma TurnedBit(s: byte, i: nat)
    requires i < 8
    ensures Field(Rotate(s), i, 1) == Field(s, (i + 1) % 8, 1)
  {
    hide Pow2, Rotate;
    SmallPow2();
    RotateIs(s);
    if i == 7 {
      assert (i + 1) % 8 == 0;
      ByOne(s);
      TopOf(s / 2, s % 2);
    } else {
      assert (i + 1) % 8 == i + 1;
      PowerStep(i);
      Halved(s, Pow2(i));
      if s % 2 == 1 { TopBit(s / 2, i); }
    }
  }

  lemma RotateIs(s: byte)
    ensures Rotate(s) == s / 2 + 0x80 * (s % 2) && s / 2 < 0x80
  {
  }

  lemma ByOne(s: nat)
    ensures s / 1 == s
  {
  }

  lemma TopOf(h: nat, b: nat)
    requires h < 0x80 && b < 2
    ensures (h + 0x80 * b) / 0x80 % 2 == b
  {
  }

  lemma PowerStep(i: nat)
    ensures Pow2(i + 1) == 2 * Pow2(i)
  {
  }

  /** A bit 7 put on top changes none of the others. */
  lemma TopBit(x: nat, i: nat)
    requires i < 7
    ensures (x + 0x80) / Pow2(i) % 2 == x / Pow2(i) % 2
  {
    Pow2Sum(i, 6 - i);
    SmallPow2();
    hide Pow2;
    TopQuotient(x, Pow2(i), Pow2(6 - i));
    SameParity(x / Pow2(i), Pow2(6 - i));
  }

  lemma TopQuotient(x: nat, p: nat, r: nat)
    requires 0 < p && p * r == 0x40
    ensures (x + 0x80) / p == x / p + 2 * r
  {
    var q, m := x / p, x % p;
    Distribute(p, q, 1, 2 * r);
    assert p * (2 * r) == 2 * (p * r);
    Quotient(x + 0x80, m, q + 2 * r, p);
  }

  lemma SameParity(q: nat, r: nat)
    ensures (q + 2 * r) % 2 == q % 2
  {
  }

  lemma RotateAddInjects(s: byte, t: byte, c: byte, d: byte)
    ensures s != t ==> RotateAdd(s, c) != RotateAdd(t, c)
    ensures c != d ==> RotateAdd(s, c) != RotateAdd(s, d)
  {
    hide RotateAdd, Rotate;
    RotateAddIs(s, c);
    RotateAddIs(t, c);
    RotateAddIs(s, d);
    RotateInjects(s, t);
  }

  lemma RotateInjects(s: byte, t: byte)
    ensures Rotate(s) < 0x100 && Rotate(t) < 0x100
    ensures s != t ==> Rotate(s) != Rotate(t)
  {
    hide Rotate;
    RotateBack(s);
    RotateBack(t);
  }

  lemma RotateBack(s: byte)
    ensures Rotate(s) < 0x100 && s == 2 * (Rotate(s) % 0x80) + Rotate(s) / 0x80
  {
    Spread(s / 2, s % 2);
  }

  lemma Spread(h: nat, b: nat)
    requires h < 0x80
    ensures (h + 0x80 * b) % 0x80 == h && (h + 0x80 * b) / 0x80 == b
  {
  }

  /** Two short names that differ in exactly one byte never have the same checksum. */
  lemma {:induction false} SumDetects(p: seq<byte>, a: byte, b: byte, s: seq<byte>)
    requires a != b
    ensures SumOf(p + [a] + s) != SumOf(p + [b] + s)
    decreases |s|
  {
    hide RotateAdd;
    var x, y := p + [a] + s, p + [b] + s;
    var n := |x| - 1;
    if s == [] {
      assert x[..n] == p && y[..n] == p;
      RotateAddInjects(SumOf(p), SumOf(p), a, b);
    } else {
      var s' := s[..|s| - 1];
      assert x[..n] == p + [a] + s' && y[..n] == p + [b] + s';
      SumDetects(p, a, b, s');
      RotateAddInjects(SumOf(x[..n]), SumOf(y[..n]), x[n], x[n]);
    }
  }

  // ----- what a directory holds for a name

  ghost predicate IsName(name: seq<wchar>) {
    && 1 <= |name| <= MAX_LFN
    && forall i :: 0 <= i < |name| ==> name[i] != 0 && name[i] != 0xFFFF
  }

  function Parts(len: nat): nat { (len + 12) / 13 }

  /** The name, its terminator, and padding. */
  function Padded(name: seq<wchar>, i: nat): wchar {
    if i < |name| then name[i] else if i == |name| then 0 else 0xFFFF
  }

  ghost predicate IsPart(e: Entry, name: seq<wchar>, ord: nat, sum: byte) {
    && 1 <= ord <= 20
    && e[0] == (if 13 * ord >= |name| then ord + 0x40 else ord)
    && e[11] == AM_LFN && e[12] == 0 && e[13] == sum && e[26] == 0 && e[27] == 0
    && forall s :: 0 <= s < 13 ==> UnitAt(e, s) == Padded(name, 13 * (ord - 1) + s)
  }

  // ----- where the characters are in the bytes

  /** The bytes of an entry that hold characters: five, six and two of them. */
  function NameField(e: Entry): (f: seq<byte>)
    ensures |f| == 26
  {
    e[1..11] + e[14..26] + e[28..32]
  }

  /** Characters as bytes, each with its low byte first. */
  function WideBytes(us: seq<wchar>): (b: seq<byte>)
    ensures |b| == 2 * |us|
  {
    if us == [] then [] else [us[0] % 0x100, us[0] / 0x100] + WideBytes(us[1..])
  }

  lemma {:induction false} WideBytesAt(us: seq<wchar>, s: nat)
    requires s < |us|
    ensures WideBytes(us)[2 * s] == us[s] % 0x100 && WideBytes(us)[2 * s + 1] == us[s] / 0x100
    decreases s
  {
    if s > 0 { WideBytesAt(us[1..], s - 1); }
  }

  /** The thirteen characters of part ord of a name that is terminated and then padded. */
  function PartText(name: seq<wchar>, ord: nat): (us: seq<wchar>)
    requires 1 <= ord && 13 * ord <= |name| + 13
    ensures |us| == 13
  {
    (name + [0] + seq(12, _ => 0xFFFF))[13 * (ord - 1)..13 * ord]
  }

  lemma PartTextAt(name: seq<wchar>, ord: nat, s: nat)
    requires 1 <= ord && 13 * ord <= |name| + 13 && s < 13
    ensures PartText(name, ord)[s] == Padded(name, 13 * (ord - 1) + s)
  {
  }

  lemma UnitInField(e: Entry, s: nat)
    requires s < 13
    ensures UnitAt(e, s) == NameField(e)[2 * s] as int + 0x100 * NameField(e)[2 * s + 1] as int
  {
  }

  /** An entry that holds a part holds its characters in order, and nothing else in their place. */
  lemma PartInBytes(e: Entry, name: seq<wchar>, ord: nat, sum: byte)
    requires IsPart(e, name, ord, sum) && 13 * ord <= |name| + 13
    ensures NameField(e) == WideBytes(PartText(name, ord))
  {
    var f, w := NameField(e), WideBytes(PartText(name, ord));
    forall i | 0 <= i < 26
      ensures f[i] == w[i]
    {
      var s := i / 2;
      UnitInField(e, s);
      PartTextAt(name, ord, s);
      WideBytesAt(PartText(name, ord), s);
      TwoBytes(f[2 * s], f[2 * s + 1], UnitAt(e, s));
    }
  }

  lemma TwoBytes(low: byte, high: byte, u: nat)
    requires u == low as int + 0x100 * high as int
    ensures low == u % 0x100 && high == u / 0x100
  {
  }

  function Wide(low: byte, high: byte): wchar { low as int + 0x100 * high as int }

  /** The characters of an entry, read from those bytes. */
  function Characters(e: Entry): (us: seq<wchar>)
    ensures |us| == 13
  {
    seq(13, s requires 0 <= s < 13 => Wide(NameField(e)[2 * s], NameField(e)[2 * s + 1]))
  }

  lemma CharactersInBytes(e: Entry)
    ensures NameField(e) == WideBytes(Characters(e))
    ensures forall s :: 0 <= s < 13 ==> Characters(e)[s] == UnitAt(e, s)
  {
    hide UnitAt;
    var f, us := NameField(e), Characters(e);
    forall s | 0 <= s < 13
      ensures us[s] == UnitAt(e, s)
    {
      UnitInField(e, s);
    }
    forall i | 0 <= i < 26
      ensures f[i] == WideBytes(us)[i]
    {
      var s := i / 2;
      WideBytesAt(us, s);
      TwoBytes(f[2 * s], f[2 * s + 1], us[s]);
    }
  }

  /** n characters that are not 0, then a terminator and padding if there is room. */
  ghost predicate Text(us: seq<wchar>, n: nat) {
    && n <= |us| && (forall s :: 0 <= s < n ==> us[s] != 0)
    && (n < |us| ==> us[n] == 0) && forall s :: n < s < |us| ==> us[s] == 0xFFFF
  }

  /** The order without the flag of the last part. */
  function PlainOrder(e: Entry): nat {
    e[0] % 0x40 + e[0] / 0x80 * 0x80
  }

  /** A terminator follows the characters, read from the entry or put behind the last part. */
  predicate Ends(e: Entry, n: nat) { n < 13 || e[0] / 0x40 % 2 == 1 }

  /** The n characters of an entry, with a terminator when they end there, fit the name buffer. */
  ghost predicate FitsBuffer(e: Entry, n: nat) {
    1 <= PlainOrder(e) && 13 * (PlainOrder(e) - 1) + n + (if Ends(e, n) then 1 else 0) <= 256
  }

  /** When an entry is picked, by its bytes. */
  ghost predicate Sensible(e: Entry) {
    e[26] == 0 && e[27] == 0 && exists n: nat :: Text(Characters(e), n) && FitsBuffer(e, n)
  }

  /** The characters of the entry stand in the buffer, at the place their order gives, and end there. */
  ghost predicate Spelled(buf: seq<wchar>, e: Entry) {
    && |buf| == 256
    && exists n: nat ::
         && Text(Characters(e), n) && FitsBuffer(e, n)
         && var b := 13 * (PlainOrder(e) - 1);
            buf[b..b + n] == Characters(e)[..n] && (Ends(e, n) ==> buf[b + n] == 0)
  }

  lemma PlainOrderIs(e: Entry)
    ensures Order(e) == PlainOrder(e)
  {
  }

  lemma UsedIsText(e: Entry)
    requires forall s :: Used(e) <= s < 13 ==> UnitAt(e, s) == 0xFFFF
    ensures Text(Characters(e), if Terminated(e) then Used(e) - 1 else 13)
  {
    hide UnitAt, UsedFrom;
    CharactersInBytes(e);
    hide Characters;
  }

  lemma TextIsUsed(e: Entry, n: nat)
    requires Text(Characters(e), n)
    ensures n == if Terminated(e) then Used(e) - 1 else 13
    ensures forall s :: Used(e) <= s < 13 ==> UnitAt(e, s) == 0xFFFF
  {
    hide UnitAt, UsedFrom;
    CharactersInBytes(e);
    hide Characters;
    if Used(e) < 13 {
      assert UnitAt(e, Used(e) - 1) == 0;
    }
    if n < 13 {
      assert UnitAt(e, n) == 0;
    }
  }

  lemma PickableIff(e: Entry)
    ensures Pickable(e) <==> Sensible(e)
  {
    hide UnitAt, UsedFrom, Characters, Text, Order, PlainOrder;
    PlainOrderIs(e);
    if Pickable(e) {
      UsedIsText(e);
      assert FitsBuffer(e, if Terminated(e) then Used(e) - 1 else 13);
    }
    if Sensible(e) {
      var n: nat :| Text(Characters(e), n) && FitsBuffer(e, n);
      TextIsUsed(e, n);
    }
  }

  lemma HoldsIsSpelled(buf: seq<wchar>, e: Entry)
    requires Pickable(e) && |buf| == MAX_LFN + 1 && Holds(buf, e)
    ensures Spelled(buf, e)
  {
    hide UnitAt, UsedFrom, Text, Order, PlainOrder;
    PlainOrderIs(e);
    UsedIsText(e);
    CharactersInBytes(e);
    hide Characters;
    var n, b := if Terminated(e) then Used(e) - 1 else 13, 13 * (PlainOrder(e) - 1);
    assert FitsBuffer(e, n);
    assert buf[b..b + n] == Characters(e)[..n];
    assert Ends(e, n) ==> buf[b + n] == 0;
  }

  /** A name in the directory: its parts, last one first, then the short entry. */
  ghost predicate Registered(table: seq<Entry>, at: nat, name: seq<wchar>, sfn: seq<byte>) {
    var n := Parts(|name|);
    && at + n < |table|
    && (forall j :: at <= j < at + n ==> IsPart(table[j], name, n - (j - at), SumOf(sfn)))
    && table[at + n][..11] == sfn && IsShort(table[at + n])
  }

  // ----- what a scan accepts

  /** The number of characters of a part up to the first terminator. */
  function Used(e: Entry): (r: nat)
    ensures 1 <= r <= 13
    ensures forall s :: 0 <= s < r - 1 ==> UnitAt(e, s) != 0
    ensures r < 13 ==> UnitAt(e, r - 1) == 0
  {
    UsedFrom(e, 0)
  }

  function UsedFrom(e: Entry, s: nat): (r: nat)
    requires s < 13
    ensures s < r <= 13
    ensures forall k :: s <= k < r - 1 ==> UnitAt(e, k) != 0
    ensures r < 13 ==> UnitAt(e, r - 1) == 0
    decreases 13 - s
  {
    if s == 12 || UnitAt(e, s) == 0 then s + 1 else UsedFrom(e, s + 1)
  }

  predicate Terminated(e: Entry) { UnitAt(e, Used(e) - 1) == 0 }

  /** A part whose characters fit the name buffer and are followed by padding only. */
  ghost predicate Pickable(e: Entry) {
    && e[26] == 0 && e[27] == 0 && Order(e) >= 1
    && 13 * (Order(e) - 1) + Used(e) <= MAX_LFN + 1
    && (forall s :: Used(e) <= s < 13 ==> UnitAt(e, s) == 0xFFFF)
    && (IsLast(e) && !Terminated(e) ==> 13 * Order(e) <= MAX_LFN)
  }

  lemma ZeroWord(e: Entry)
    ensures LdWord(e, 26) == 0 <==> e[26] == 0 && e[27] == 0
  {
  }

  /** An order of zero puts the offset outside any buffer. */
  lemma BaseOf(e: Entry)
    ensures Wrap32((Order(e) as int - 1) * 13) == if Order(e) == 0 then DWORD_RANGE - 13 else 13 * (Order(e) - 1)
  {
  }

  /** The buffer holds the characters of the part. */
  ghost predicate Holds(buf: seq<wchar>, e: Entry)
    requires Pickable(e) && |buf| == MAX_LFN + 1
  {
    && (forall s :: 0 <= s < Used(e) ==> buf[13 * (Order(e) - 1) + s] == UnitAt(e, s))
    && (IsLast(e) && !Terminated(e) ==> buf[13 * Order(e)] == 0)
  }

  /** The entries from b up to i start with a flagged part and count down from its order, with one checksum. */
  ghost predicate Run(table: seq<Entry>, b: nat, i: nat) {
    && b < i <= |table|
    && IsLong(table[b]) && IsLast(table[b])
    && forall j :: b <= j < i ==>
         && IsLong(table[j]) && Pickable(table[j]) && (IsLast(table[j]) ==> j == b)
         && table[j][13] == table[b][13] && Order(table[j]) == Order(table[b]) - (j - b)
  }

  /** A short entry and the complete run of parts before it, with its own checksum. */
  ghost predicate Accepted(table: seq<Entry>, b: nat, k: nat) {
    && k < |table| && Run(table, b, k) && Order(table[b]) == k - b && table[b][13] == SumOf(table[k][..11])
  }

  /** When the run from b takes in the entry i. */
  ghost predicate Grows(table: seq<Entry>, b: nat, i: nat)
    requires i < |table|
  {
    && IsLong(table[i]) && Pickable(table[i])
    && if b == i then IsLast(table[i])
       else Run(table, b, i) && !IsLast(table[i]) && table[i][13] == table[b][13]
            && Order(table[i]) == Order(table[b]) - (i - b)
  }

  lemma RunGrows(table: seq<Entry>, b: nat, i: nat)
    requires i < |table|
    ensures Run(table, b, i + 1) <==> Grows(table, b, i)
  {
    hide IsLong, Pickable, IsLast, Order;
  }

  /** The buffer holds the characters of all parts of a run. */
  ghost predicate AllHeld(buf: seq<wchar>, table: seq<Entry>, b: nat, i: nat) {
    && |buf| == MAX_LFN + 1 && i <= |table|
    && forall j :: b <= j < i ==> Pickable(table[j]) && Holds(buf, table[j])
  }

  lemma AllHeldGrows(buf: seq<wchar>, table: seq<Entry>, b: nat, i: nat)
    requires b <= i < |table| && |buf| == MAX_LFN + 1 && Pickable(table[i]) && Holds(buf, table[i])
    requires b < i ==> AllHeld(buf, table, b, i)
    ensures AllHeld(buf, table, b, i + 1)
  {
    hide Pickable, Holds;
  }

  /** The characters of earlier parts lie above those of a later part. */
  lemma HoldsKept(before: seq<wchar>, after: seq<wchar>, table: seq<Entry>, b: nat, i: nat)
    requires |before| == |after| == MAX_LFN + 1 && i < |table|
    requires Run(table, b, i) && Order(table[i]) == Order(table[b]) - (i - b)
    requires AllHeld(before, table, b, i)
    requires forall x :: 13 * Order(table[i]) <= x <= MAX_LFN ==> after[x] == before[x]
    ensures AllHeld(after, table, b, i)
  {
    hide Used, UsedFrom, UnitAt, Order, IsLong, IsLast;
  }

  /** Only end-free, file-free entries. */
  ghost predicate NoFile(table: seq<Entry>, from: nat, to: nat) {
    from <= to <= |table| && forall j :: from <= j < to ==> !IsEnd(table[j]) && !IsShort(table[j])
  }

  predicate FreeEntry(e: Entry) { e[0] == DDEM || e[0] == 0 }

  ghost predicate FreeBlock(table: seq<Entry>, from: nat, n: nat) {
    from + n <= |table| && forall j :: from <= j < from + n ==> FreeEntry(table[j])
  }

  ghost predicate HasBlock(table: seq<Entry>, n: nat) {
    exists b: nat :: FreeBlock(table, b, n)
  }

  lemma OutsideBlock(before: seq<Entry>, after: seq<Entry>, at: nat, n: nat, j: nat)
    requires FreeBlock(before, at, n) && |after| == |before| && j < |before| && !FreeEntry(before[j])
    requires after[..at] == before[..at] && after[at + n..] == before[at + n..]
    ensures after[j] == before[j]
  {
    if j < at {
      assert after[..at][j] == before[..at][j];
    } else {
      assert after[at + n..][j - at - n] == before[at + n..][j - at - n];
    }
  }

  /** The scan finds no file before the end of the directory. */
  ghost predicate NoFileAhead(table: seq<Entry>, from: nat) {
    exists e: nat :: NoFile(table, from, e) && (e < |table| ==> IsEnd(table[e]))
  }

  /** 2^21 bytes of 32 each. */
  const MAX_ENTRIES: nat := 0x1_0000

  /** Entries of a cluster that has been cleared. */
  function Blank(n: nat): (t: seq<Entry>)
    ensures |t| == n && forall j :: 0 <= j < n ==> t[j][0] == 0
  {
    seq(n, _ => seq(32, _ => 0))
  }

  lemma RoomForCluster(n: nat, c: nat)
    requires 0 < c && n < MAX_ENTRIES && n % c == 0 && MAX_ENTRIES % c == 0
    ensures n + c <= MAX_ENTRIES && (n + c) % c == 0
  {
    var a, b := n / c, MAX_ENTRIES / c;
    assert n == a * c && MAX_ENTRIES == b * c;
    if a >= b { Shorter(b, a, c); }
    Shorter(a + 1, b, c);
    OneMore(a, c);
    Multiple(a + 1, c);
  }

  lemma Multiple(k: nat, c: nat)
    requires 0 < c
    ensures k * c % c == 0
  {
    var q, m := k * c / c, k * c % c;
    assert k * c == q * c + m;
    if k > q { Shorter(q + 1, k, c); OneMore(q, c); } else { Shorter(k, q, c); }
  }

  lemma OneMore(k: nat, c: nat)
    ensures (k + 1) * c == k * c + c
  {
  }

  lemma Shorter(m: nat, k: nat, c: nat)
    ensures m <= k || c == 0 ==> m * c <= k * c
  {
  }

  lemma EmptyBlock(t: seq<Entry>)
    ensures FreeBlock(t, 0, 0)
  {
  }

  /** Up to an entry that is free the free entries are one more, up to another there are none. */
  lemma OneMoreEntry(t: seq<Entry>, last: nat, run: nat)
    requires run <= last < |t| && FreeBlock(t, last - run, run)
    ensures FreeEntry(t[last]) <==> t[last][0] == DDEM || t[last][0] == 0
    ensures FreeEntry(t[last]) ==> FreeBlock(t, last - run, run + 1)
    ensures FreeBlock(t, last + 1, 0)
  {
  }

  /** No block ends before entry `last`, and the free entries up to it are fewer than a block. */
  lemma NoBlockYet(t: seq<Entry>, last: nat, run: nat, n: nat)
    requires run <= last + 1 <= |t| && run < n && (run < last + 1 ==> !FreeEntry(t[last - run]))
    requires forall b :: 0 <= b && b + n <= last ==> !FreeBlock(t, b, n)
    ensures forall b :: 0 <= b && b + n <= last + 1 ==> !FreeBlock(t, b, n)
  {
    forall b | 0 <= b && b + n <= last + 1
      ensures !FreeBlock(t, b, n)
    {
      if b + n == last + 1 { assert b <= last - run < b + n; }
    }
  }

  lemma BlockStays(t: seq<Entry>, t': seq<Entry>, b: nat, n: nat)
    requires t <= t' && b + n <= |t|
    ensures FreeBlock(t, b, n) <==> FreeBlock(t', b, n)
  {
    assert forall j :: b <= j < b + n ==> t[j] == t'[j];
  }

  lemma NoBlockKept(t: seq<Entry>, t': seq<Entry>, last: nat, n: nat)
    requires t <= t' && last <= |t|
    requires forall b :: 0 <= b && b + n <= last ==> !FreeBlock(t, b, n)
    ensures forall b :: 0 <= b && b + n <= last ==> !FreeBlock(t', b, n)
  {
    forall b | 0 <= b && b + n <= last
      ensures !FreeBlock(t', b, n)
    {
      BlockStays(t, t', b, n);
    }
  }

  lemma TwoBits(f: nat)
    ensures f / 8 % 2 == f / 8 % 4 % 2 && f / 0x10 % 2 == f / 8 % 4 / 2
  {
    var h := f / 8;
    TwoOfFour(h / 4, h % 4);
    Quotient(f, f % 8 + 8 * (h % 2), h / 2, 0x10);
  }

  lemma TwoOfFour(q: nat, y: nat)
    requires y < 4
    ensures (4 * q + y) % 2 == y % 2 && (4 * q + y) / 2 % 2 == y / 2
  {
    var z, t := y / 2, y % 2;
    Quotient(4 * q + y, t, 2 * q + z, 2);
    Quotient(2 * q + z, z, q, 2);
  }

  lemma BitsOf(y: nat, b: nat)
    requires y < 4 && b < 8
    ensures Field(y * 8, b, 1) == if b == 3 then y % 2 else if b == 4 then y / 2 else 0
  {
    SmallPow2();
    hide Pow2;
    if y == 0 {
      assert 0 / Pow2(b) == 0;
    } else if y == 1 {
      assert b < 3 ==> 8 / Pow2(b) in {8, 4, 2};
    } else if y == 2 {
      assert b < 4 ==> 0x10 / Pow2(b) in {0x10, 8, 4, 2};
    } else {
      assert b < 3 ==> 0x18 / Pow2(b) in {0x18, 0xC, 6};
    }
  }

  /** The flags kept for the case of the body and of the extension. */
  lemma CaseFlags(f: byte)
    ensures forall b :: 0 <= b < 8 ==> Field(f / 8 % 4 * 8, b, 1) == if b in {3, 4} then Field(f, b, 1) else 0
  {
    TwoBits(f);
    SmallPow2();
    forall b | 0 <= b < 8
      ensures Field(f / 8 % 4 * 8, b, 1) == if b in {3, 4} then Field(f, b, 1) else 0
    {
      hide Pow2;
      BitsOf(f / 8 % 4, b);
    }
  }

  datatype Found = Nothing | File(index: nat, long: bool, first: nat)

  // ----- the directory

  class Directory {
    var table: seq<Entry>
    const lfnbuf: array<wchar>
    /** The entries of a cluster, or 0 for the root directory of fixed size. */
    const clusterEntries: nat

    ghost predicate Valid()
      reads this`table
    {
      && lfnbuf.Length == MAX_LFN + 1
      && 0 < |table| <= 0x1_0000
      && (clusterEntries > 0 ==> 0x1_0000 % clusterEntries == 0 && |table| % clusterEntries == 0)
    }

    /** The working buffer holds a terminated name. */
    ghost predicate Loaded(name: seq<wchar>)
      reads lfnbuf
    {
      lfnbuf.Length == MAX_LFN + 1 && IsName(name) && lfnbuf[..|name|] == name && lfnbuf[|name|] == 0
    }

    constructor (size: nat, clusterEntries: nat)
      requires 0 < size <= 0x1_0000
      requires clusterEntries > 0 ==> 0x1_0000 % clusterEntries == 0 && size % clusterEntries == 0
      ensures Valid() && table == Blank(size) && this.clusterEntries == clusterEntries && fresh(lfnbuf)
    {
      table := Blank(size);
      lfnbuf := new wchar[MAX_LFN + 1](_ => 0);
      this.clusterEntries := clusterEntries;
    }

    /** The directory t stretched by k clusters, which keeps it within the greatest size. */
    ghost function Longer(t: seq<Entry>, k: nat): seq<Entry> {
      t + Blank(k * clusterEntries)
    }

    ghost predicate CanStretch(t: seq<Entry>, k: nat) {
      (k > 0 ==> clusterEntries > 0) && |t| + k * clusterEntries <= 0x1_0000
    }

    /** With at most `room` more clusters there is a block of n free entries. */
    ghost predicate HasRoom(t: seq<Entry>, n: nat, room: nat) {
      exists k: nat :: k <= room && CanStretch(t, k) && HasBlock(Longer(t, k), n)
    }

    method PutLfn(k: nat, ord: nat, sum: byte, ghost name: seq<wchar>)
      requires Loaded(name) && k < |table| && 1 <= ord <= Parts(|name|)
      modifies this`table
      ensures |table| == |old(table)| && IsPart(table[k], name, ord, sum)
      ensures 13 * ord <= |name| + 13 && NameField(table[k]) == WideBytes(PartText(name, ord))
      ensures table == old(table)[k := table[k]]
    {
      var e: Entry := table[k][13 := sum][11 := AM_LFN][12 := 0];
      e := StWord(e, 26, 0);
      var i := (ord - 1) * 13;
      var s, wc := 0, 0;
      while s < 13
        invariant s <= 13 && table == old(table)
        invariant e[11] == AM_LFN && e[12] == 0 && e[13] == sum && e[26] == 0 && e[27] == 0
        invariant forall j :: 0 <= j < s ==> UnitAt(e, j) == Padded(name, 13 * (ord - 1) + j)
        invariant if 13 * (ord - 1) + s <= |name| then i == 13 * (ord - 1) + s && wc != 0xFFFF
                  else i == |name| + 1 && wc == 0xFFFF
      {
        if wc != 0xFFFF {
          wc := lfnbuf[i];
          i := i + 1;
        }
        StUnit(e, s, wc);
        e := StWord(e, Ofs(s), wc);
        if wc == 0 { wc := 0xFFFF; }
        s := s + 1;
      }
      var last := wc == 0xFFFF || lfnbuf[i] == 0;
      var marked := e[0 := if last then ord + LLEF else ord];
      assert forall j :: 0 <= j < 13 ==> UnitAt(marked, j) == UnitAt(e, j);
      table := table[k := marked];
      PartInBytes(marked, name, ord, sum);
    }

    /** Picks the characters of a part into the buffer if there is room and the padding is right. */
    method PickLfn(e: Entry) returns (ok: bool)
      requires Valid()
      modifies lfnbuf
      ensures ok <==> Pickable(e)
      ensures ok <==> Sensible(e)
      ensures ok ==> Holds(lfnbuf[..], e) && Spelled(lfnbuf[..], e)
      ensures ok && !IsLast(e) ==> forall x :: 13 * Order(e) <= x <= MAX_LFN ==> lfnbuf[x] == old(lfnbuf[x])
    {
      hide Used, UsedFrom, UnitAt, Order, LdWord, Wrap32, Sensible, Spelled;
      PickableIff(e);
      if LdWord(e, 26) != 0 {
        ZeroWord(e);
        return false;
      }
      var base := Wrap32((Order(e) as int - 1) * 13);
      ZeroWord(e);
      BaseOf(e);
      var i := base;
      var s, wc := 0, 1;
      while s < 13
        invariant s <= 13
        invariant forall k :: 0 <= k < s && k < Used(e) ==>
                    base + k < i <= MAX_LFN + 1 && lfnbuf[base + k] == UnitAt(e, k)
        invariant forall k :: Used(e) <= k < s ==> UnitAt(e, k) == 0xFFFF
        invariant if s < Used(e) || (s == Used(e) && !Terminated(e)) then wc != 0 && i == base + s
                  else wc == 0 && i == base + Used(e)
        invariant s > 0 ==> i <= MAX_LFN + 1
        invariant forall x :: base + 13 <= x <= MAX_LFN ==> lfnbuf[x] == old(lfnbuf[x])
      {
        var uc := UnitAt(e, s);
        if wc != 0 {
          if i >= MAX_LFN + 1 { return false; }
          lfnbuf[i] := uc;
          i := i + 1;
          wc := uc;
        } else {
          if uc != 0xFFFF { return false; }
        }
        s := s + 1;
      }
      if IsLast(e) && wc != 0 {
        if i >= MAX_LFN + 1 { return false; }
        lfnbuf[i] := 0;
      }
      HoldsIsSpelled(lfnbuf[..], e);
      return true;
    }

    /** `dir_next` with stretching: false at the end of a table that cannot grow, which is the root directory of
        fixed size, one of the greatest size, or one for which `create_chain` has no cluster left. */
    method NextEntry(i: nat, left: nat, ghost t: seq<Entry>, ghost k: nat) returns (ok: bool, left': nat)
      requires Valid() && i < |table| && table == Longer(t, k) && CanStretch(t, k)
      modifies this`table
      ensures Valid() && left' <= left
      ensures table == Longer(t, k + left - left') && CanStretch(t, k + left - left') && old(table) <= table
      ensures ok ==> i + 1 < |table|
      ensures !ok ==> left' == left && i + 1 == |table| && (clusterEntries == 0 || left == 0 || |table| == 0x1_0000)
    {
      left' := left;
      if i + 1 >= MAX_ENTRIES { return false, left'; }
      if i + 1 == |table| {
        if clusterEntries == 0 || left == 0 { return false, left'; }
        RoomForCluster(|table|, clusterEntries);
        OneMore(k, clusterEntries);
        table := table + Blank(clusterEntries);
        left' := left - 1;
      }
      ok := true;
    }

    /** `dir_alloc`: the first block of n free entries in the directory as far as it can be stretched, when
        `create_chain` can give it `room` more clusters; k is how many it takes. */
    method Alloc(n: nat, room: nat) returns (found: bool, last: nat, ghost k: nat)
      requires Valid() && n > 0
      modifies this`table
      ensures Valid() && k <= room && table == Longer(old(table), k) && CanStretch(old(table), k)
      ensures found <==> HasRoom(old(table), n, room)
      ensures found ==> n <= last + 1 && FreeBlock(table, last + 1 - n, n)
      ensures found ==> forall b :: 0 <= b < last + 1 - n ==> !FreeBlock(table, b, n)
    {
      hide CanStretch, Longer, Valid, FreeBlock, FreeEntry, HasRoom;
      ghost var t := table;
      var run: nat, left: nat := 0, room;
      last, k := 0, 0;
      Bounds();
      NotLonger(t);
      EmptyBlock(t);
      while true
        invariant Valid() && left <= room && k == room - left && table == Longer(t, k) && CanStretch(t, k)
        invariant run <= last < |table| && run < n
        invariant FreeBlock(table, last - run, run)
        invariant run < last ==> !FreeEntry(table[last - run - 1])
        invariant forall b :: 0 <= b && b + n <= last ==> !FreeBlock(table, b, n)
        decreases MAX_ENTRIES - last
      {
        Bounds();
        ghost var before := table;
        OneMoreEntry(before, last, run);
        if table[last][0] == DDEM || table[last][0] == 0 {
          run := run + 1;
          if run == n {
            Room(t, k, last + 1 - n, n, room);
            return true, last, k;
          }
        } else {
          run := 0;
        }
        NoBlockYet(before, last, run, n);
        var ok;
        ok, left := NextEntry(last, left, t, k);
        if !ok {
          NoRoom(t, k, n, room);
          return false, last, k;
        }
        k := room - left;
        last := last + 1;
        NoBlockKept(before, table, last, n);
        BlockStays(before, table, last - run, run);
      }
    }

    lemma LongerKeeps(t: seq<Entry>, k: nat, j: nat)
      requires j < |t|
      ensures j < |Longer(t, k)| && Longer(t, k)[j] == t[j]
    {
    }

    lemma Bounds()
      requires Valid()
      ensures 0 < |table| <= 0x1_0000
    {
    }

    lemma NotLonger(t: seq<Entry>)
      requires |t| <= 0x1_0000
      ensures Longer(t, 0) == t && CanStretch(t, 0)
    {
    }

    lemma Room(t: seq<Entry>, k: nat, b: nat, n: nat, room: nat)
      requires k <= room && CanStretch(t, k) && FreeBlock(Longer(t, k), b, n)
      ensures HasRoom(t, n, room)
    {
      assert HasBlock(Longer(t, k), n);
    }

    /** A directory stretched as far as it goes has the blocks of all shorter ones. */
    lemma NoRoom(t: seq<Entry>, k: nat, n: nat, room: nat)
      requires k <= room && CanStretch(t, k)
      requires forall b :: 0 <= b && b + n <= |Longer(t, k)| ==> !FreeBlock(Longer(t, k), b, n)
      requires clusterEntries == 0 || k == room || |Longer(t, k)| == 0x1_0000
      ensures !HasRoom(t, n, room)
    {
      forall m: nat | m <= room && CanStretch(t, m)
        ensures !HasBlock(Longer(t, m), n)
      {
        Shorter(m, k, clusterEntries);
        assert Longer(t, m) <= Longer(t, k);
        if HasBlock(Longer(t, m), n) {
          var b: nat :| FreeBlock(Longer(t, m), b, n);
          BlockStays(Longer(t, m), Longer(t, k), b, n);
        }
      }
    }

    method NameLength(ghost name: seq<wchar>) returns (len: nat)
      requires Loaded(name)
      ensures len == |name|
    {
      len := 0;
      while lfnbuf[len] != 0
        invariant len <= |name|
        decreases |name| - len
      {
        assert lfnbuf[len] == name[len];
        len := len + 1;
      }
    }

    /** Writes the parts of the name, the last one first, if the flags ask for them, and the short entry. */
    method Register(at: nat, fn: seq<byte>, ghost name: seq<wchar>) returns (n: nat)
      requires |fn| == 12 && fn[0] !in {0, DDEM, '.' as int}
      requires fn[11] / 2 % 2 == 1 ==> Loaded(name)
      requires at + (if fn[11] / 2 % 2 == 1 then Parts(|name|) else 0) < |table|
      modifies this`table
      ensures |table| == |old(table)| && n == if fn[11] / 2 % 2 == 1 then Parts(|name|) else 0
      ensures n > 0 ==> Registered(table, at, name, fn[..11])
      ensures table[at + n][..11] == fn[..11] && IsShort(table[at + n])
      ensures var e := table[at + n];
              && (forall b :: 0 <= b < 8 ==> Field(e[12], b, 1) == if b in {3, 4} then Field(fn[11], b, 1) else 0)
              && forall i :: 0 <= i < 32 && !(0 <= i < 11 || i == 12) ==> e[i] == 0
      ensures table[..at] == old(table)[..at] && table[at + n + 1..] == old(table)[at + n + 1..]
    {
      n := 0;
      if fn[11] / 2 % 2 == 1 {
        var len := NameLength(name);
        n := (len + 12) / 13;
        var sum := SumOf(fn[..11]);
        var left: int := n;
        while left > 0
          invariant |table| == |old(table)| && 0 <= left <= n == Parts(|name|)
          invariant table[..at] == old(table)[..at] && table[at + n + 1..] == old(table)[at + n + 1..]
          invariant forall j :: at <= j < at + n - left ==> IsPart(table[j], name, n - (j - at), sum)
        {
          PutLfn(at + n - left, left, sum, name);
          left := left - 1;
        }
      }
      table := table[at + n := fn[..11] + [0, fn[11] / 8 % 4 * 8] + seq(19, _ => 0)];
      CaseFlags(fn[11]);
    }

    /** The core of `dir_register`: the parts and the short entry go where the first large enough block of free
        entries is in the directory as far as it can be stretched, and no entry in use is touched. */
    method Create(fn: seq<byte>, room: nat, ghost name: seq<wchar>)
      returns (ok: bool, at: nat, count: nat, ghost k: nat)
      requires Valid() && |fn| == 12 && fn[0] !in {0, DDEM, '.' as int}
      requires fn[11] / 2 % 2 == 1 ==> Loaded(name)
      modifies this`table
      ensures Valid() && k <= room && |table| == |Longer(old(table), k)|
      ensures count == if fn[11] / 2 % 2 == 1 then Parts(|name|) + 1 else 1
      ensures ok <==> HasRoom(old(table), count, room)
      ensures !ok ==> table == Longer(old(table), k)
      ensures ok ==> at + count <= |table| && FreeBlock(Longer(old(table), k), at, count)
      ensures ok ==> table[at + count - 1][..11] == fn[..11] && IsShort(table[at + count - 1])
      ensures ok && fn[11] / 2 % 2 == 1 ==> Registered(table, at, name, fn[..11])
      ensures forall j :: 0 <= j < |old(table)| && !FreeEntry(old(table)[j]) ==> table[j] == old(table)[j]
    {
      hide IsShort, IsPart, IsName, FreeEntry;
      ghost var t := table;
      count, at := 1, 0;
      if fn[11] / 2 % 2 == 1 {
        var len := NameLength(name);
        count := (len + 12) / 13 + 1;
      }
      var last;
      ok, last, k := Alloc(count, room);
      if !ok { return; }
      ghost var before := table;
      at := last + 1 - count;
      var n := Register(at, fn, name);
      forall j | 0 <= j < |t| && !FreeEntry(t[j])
        ensures before[j] == t[j] && table[j] == t[j]
      {
        LongerKeeps(t, k, j);
        OutsideBlock(before, table, at, count, j);
      }
    }

    /** The next file of the directory from `start` on, with its long name in the buffer if it has one. */
    method Read(start: nat) returns (f: Found)
      requires Valid() && start <= |table|
      modifies lfnbuf
      ensures f.Nothing? ==> NoFileAhead(table, start)
      ensures f.File? ==>
                start <= f.index < |table| && NoFile(table, start, f.index) && IsShort(table[f.index])
      ensures f.File? && f.long ==>
                && start <= f.first && Accepted(table, f.first, f.index)
                && AllHeld(lfnbuf[..], table, f.first, f.index)
      ensures f.File? && !f.long ==> forall b :: start <= b < f.index ==> !Accepted(table, b, f.index)
    {
      hide Pickable, Holds, SumOf, Run, Used, UsedFrom, UnitAt, AllHeld, Sensible, Spelled;
      var i, first := start, 0;
      var ord: int, sum: byte := 0xFF, 0xFF;
      ghost var t := table;
      while i < |table|
        invariant start <= i <= |table| && NoFile(t, start, i)
        invariant ord != 0xFF ==> && start <= first < i && Run(t, first, i) && sum == t[first][13]
                                  && ord == Order(t[first]) - (i - first)
                                  && AllHeld(lfnbuf[..], t, first, i)
        invariant forall b :: start <= b < i && Run(t, b, i) ==> ord != 0xFF && b == first
      {
        var e := table[i];
        if e[0] == 0 {
          return Nothing;
        }
        if IsSkipped(e) {
          ord := 0xFF;
        } else if Attr(e) == AM_LFN {
          if IsLast(e) {
            sum, ord, first := e[13], Order(e), i;
          }
          if Order(e) == ord && sum == e[13] {
            ghost var before := lfnbuf[..];
            var ok := PickLfn(e);
            if ok {
              if !IsLast(e) { HoldsKept(before, lfnbuf[..], t, first, i); }
              AllHeldGrows(lfnbuf[..], t, first, i);
              RunGrows(t, first, i);
            }
            ord := if ok then ord - 1 else 0xFF;
          } else {
            ord := 0xFF;
          }
        } else {
          var own := SumSfn(e);
          if ord != 0 || sum != own {
            return File(i, false, 0);
          }
          return File(i, true, first);
        }
        i := i + 1;
        forall b: nat | start <= b < i && Run(t, b, i)
          ensures ord != 0xFF && b == first
        {
          RunGrows(t, b, i - 1);
        }
      }
      return Nothing;
    }
  }

  // ----- names round trip

  /** A part of a name is one that a scan picks up, whatever the length of the name. */
  lemma PartIsPickable(e: Entry, name: seq<wchar>, ord: nat, sum: byte)
    requires IsName(name) && 1 <= ord <= Parts(|name|) && IsPart(e, name, ord, sum)
    ensures IsLong(e) && Order(e) == ord && Pickable(e) && e[13] == sum
    ensures IsLast(e) <==> ord == Parts(|name|)
    ensures if 13 * ord <= |name| then Used(e) == 13 && !Terminated(e)
            else Used(e) == |name| - 13 * (ord - 1) + 1 && Terminated(e)
  {
    OrderOf(e, ord, 13 * ord >= |name|);
    hide UnitAt, Order, IsLast;
    var u := Used(e);
    assert UnitAt(e, u - 1) == Padded(name, 13 * (ord - 1) + u - 1);
    if 13 * ord <= |name| {
      assert u == 13;
    } else {
      var z := |name| - 13 * (ord - 1);
      assert UnitAt(e, z) == 0;
    }
  }

  lemma OrderOf(e: Entry, ord: nat, last: bool)
    requires 1 <= ord <= 20 && e[0] == (if last then ord + 0x40 else ord)
    ensures Order(e) == ord && (IsLast(e) <==> last)
  {
  }

  /** The entries of a registered name are accepted in order, up to its short entry. */
  lemma RegisteredIsAccepted(table: seq<Entry>, at: nat, name: seq<wchar>, sfn: seq<byte>)
    requires IsName(name) && Registered(table, at, name, sfn)
    ensures Accepted(table, at, at + Parts(|name|)) && NoFile(table, at, at + Parts(|name|))
  {
    hide IsPart, Pickable, Order, IsLast, SumOf;
    var n := Parts(|name|);
    forall j | at <= j < at + n
      ensures IsLong(table[j]) && Pickable(table[j]) && Order(table[j]) == n - (j - at)
      ensures table[j][13] == SumOf(sfn) && (IsLast(table[j]) <==> j == at)
    {
      PartIsPickable(table[j], name, n - (j - at), SumOf(sfn));
    }
  }

  /** What the parts of a name leave in the buffer is the name with its terminator. */
  lemma PartsSpellName(buf: seq<wchar>, table: seq<Entry>, at: nat, name: seq<wchar>, sfn: seq<byte>)
    requires IsName(name) && Registered(table, at, name, sfn)
    requires AllHeld(buf, table, at, at + Parts(|name|))
    ensures buf[..|name| + 1] == name + [0]
  {
    var n := Parts(|name|);
    forall i | 0 <= i <= |name|
      ensures buf[i] == Padded(name, i)
    {
      var ord := if i == 13 * n then n else i / 13 + 1;
      UnitSpelled(buf, table[at + n - ord], name, ord, SumOf(sfn), i);
    }
  }

  lemma UnitSpelled(buf: seq<wchar>, e: Entry, name: seq<wchar>, ord: nat, sum: byte, i: nat)
    requires IsName(name) && 1 <= ord <= Parts(|name|) && IsPart(e, name, ord, sum)
    requires |buf| == MAX_LFN + 1 && Pickable(e) && Holds(buf, e)
    requires i <= |name| && 13 * (ord - 1) <= i
    requires i < 13 * ord || i == 13 * ord == |name|
    ensures buf[i] == Padded(name, i)
  {
    PartIsPickable(e, name, ord, sum);
    hide UnitAt, Order, IsLast, Used, Terminated;
    if i < 13 * ord {
      var s := i - 13 * (ord - 1);
      assert buf[13 * (ord - 1) + s] == UnitAt(e, s);
    }
  }

  lemma AcceptedOnce(table: seq<Entry>, a: nat, b: nat, k: nat)
    requires Accepted(table, a, k) && Accepted(table, b, k)
    ensures a == b
  {
    hide IsLong, Pickable, Order, IsLast, SumOf;
  }

  /** A name of 1 to 255 characters, none of them 0 or 0xFFFF, comes back from the entries it was registered
      in, for every length, when a scan that meets no other file on the way reaches them, whatever else has
      been in the buffer since. */
  method RegisterThenRead(d: Directory, start: nat, at: nat, fn: seq<byte>, ghost name: seq<wchar>, other: seq<wchar>)
    returns (f: Found)
    requires |other| == MAX_LFN + 1
    requires d.Loaded(name) && |fn| == 12 && fn[0] !in {0, DDEM, '.' as int} && fn[11] / 2 % 2 == 1
    requires d.Valid() && start <= at && at + Parts(|name|) < |d.table| && NoFile(d.table, start, at)
    modifies d`table, d.lfnbuf
    ensures f == File(at + Parts(|name|), true, at)
    ensures d.lfnbuf[..|name| + 1] == name + [0]
  {
    hide Registered, Accepted, AllHeld, IsShort, IsEnd, SumOf;
    ghost var before := d.table[..at];
    var n := d.Register(at, fn, name);
    ghost var t := d.table;
    RegisteredIsAccepted(t, at, name, fn[..11]);
    assert NoFile(t, start, at + n) by {
      forall j | start <= j < at
        ensures !IsEnd(t[j]) && !IsShort(t[j])
      {
        assert t[j] == before[j];
      }
    }
    forall i | 0 <= i < d.lfnbuf.Length { d.lfnbuf[i] := other[i]; }
    assert d.table == t;
    f := d.Read(start);
    assert d.table == t;
    AcceptedOnce(t, at, f.first, at + n);
    PartsSpellName(d.lfnbuf[..], t, at, name, fn[..11]);
  }
}
