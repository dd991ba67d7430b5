/** Two-level page tables of the processor and the pass that makes every mapping readable, writable and
    executable. Descriptors are 32-bit words; memory is the array of all words, a table of the second level
    being a group of 256 of them. */
module MmuTables {
  import opened Machine

  datatype DescType = TranslationFault | CoarsePageTable | Section | Supersection | Reserved | LargePage | SmallPage

  // ----- the fields of descriptors

  function Tag(d: bv32): bv32 { d & 3 }

  predicate Bit18(d: bv32) { d & 0x4_0000 != 0 }

  /** In sections and supersections. */
  function Ap1(d: bv32): bv32 { (d >> 10) & 3 }
  predicate Apx1(d: bv32) { d & 0x8000 != 0 }
  predicate Xn1(d: bv32) { d & 0x10 != 0 }

  /** In large and small pages. */
  function Ap2(d: bv32): bv32 { (d >> 4) & 3 }
  predicate Apx2(d: bv32) { d & 0x200 != 0 }
  predicate XnLarge(d: bv32) { d & 0x8000 != 0 }
  predicate XnSmall(d: bv32) { d & 1 != 0 }

  /** The address bits from bit k up. */
  function Top24(d: bv32): nat { (d >> 24) as nat }
  function Top20(d: bv32): nat { (d >> 20) as nat }
  function Top16(d: bv32): nat { (d >> 16) as nat }
  function Top12(d: bv32): nat { (d >> 12) as nat }

  function OpenSection(d: bv32): bv32 { (d & 0xFFFF_7FEF) | 0xC00 }
  function OpenSuper(d: bv32): bv32 { (d & 0xFFFF_FFEF) | 0xC00 }
  function OpenLarge(d: bv32): bv32 { (d & 0xFFFF_7DFF) | 0x30 }
  function OpenSmall(d: bv32): bv32 { (d & 0xFFFF_FDFE) | 0x30 }

  lemma SectionBits(d: bv32)
    ensures Tag(OpenSection(d)) == Tag(d) && (Bit18(OpenSection(d)) <==> Bit18(d))
    ensures Ap1(OpenSection(d)) == 3 && !Apx1(OpenSection(d)) && !Xn1(OpenSection(d))
    ensures Top20(OpenSection(d)) == Top20(d)
    ensures OpenSection(OpenSection(d)) == OpenSection(d) && OpenSection(d) & 0xFFFF_73EF == d & 0xFFFF_73EF
  {
  }

  lemma SuperBits(d: bv32)
    ensures Tag(OpenSuper(d)) == Tag(d) && (Bit18(OpenSuper(d)) <==> Bit18(d))
    ensures Ap1(OpenSuper(d)) == 3 && !Xn1(OpenSuper(d)) && (Apx1(OpenSuper(d)) <==> Apx1(d))
    ensures Top24(OpenSuper(d)) == Top24(d)
    ensures OpenSuper(OpenSuper(d)) == OpenSuper(d) && OpenSuper(d) & 0xFFFF_F3EF == d & 0xFFFF_F3EF
  {
  }

  lemma LargeBits(d: bv32)
    ensures Tag(OpenLarge(d)) == Tag(d)
    ensures Ap2(OpenLarge(d)) == 3 && !Apx2(OpenLarge(d)) && !XnLarge(OpenLarge(d))
    ensures Top16(OpenLarge(d)) == Top16(d)
    ensures OpenLarge(OpenLarge(d)) == OpenLarge(d) && OpenLarge(d) & 0xFFFF_7DCF == d & 0xFFFF_7DCF
  {
  }

  /** Clearing xn of a small page changes its tag from 3 to 2. */
  lemma SmallBits(d: bv32)
    ensures Tag(d) == 2 || Tag(d) == 3 ==> Tag(OpenSmall(d)) == 2
    ensures Ap2(OpenSmall(d)) == 3 && !Apx2(OpenSmall(d)) && !XnSmall(OpenSmall(d))
    ensures Top12(OpenSmall(d)) == Top12(d)
    ensures OpenSmall(OpenSmall(d)) == OpenSmall(d) && OpenSmall(d) & 0xFFFF_FDCE == d & 0xFFFF_FDCE
  {
  }

  lemma FullPerm()
    ensures PermOf(3, false, false) == 7 && PermOf(3, true, false) == 5
  {
  }

  // ----- descriptors

  function L1Type(d: bv32): DescType {
    if Tag(d) == 0 then TranslationFault
    else if Tag(d) == 1 then CoarsePageTable
    else if Tag(d) == 2 then (if Bit18(d) then Supersection else Section)
    else Reserved
  }

  function L2Type(d: bv32): DescType {
    if Tag(d) == 1 then LargePage
    else if Tag(d) == 2 || Tag(d) == 3 then SmallPage
    else TranslationFault
  }

  /** The kinds of descriptors by their bits. */
  lemma TypeBits(d: bv32)
    ensures L1Type(d).TranslationFault? <==> d & 3 == 0
    ensures L1Type(d).CoarsePageTable? <==> d & 3 == 1
    ensures L1Type(d).Section? <==> d & 0x4_0003 == 2
    ensures L1Type(d).Supersection? <==> d & 0x4_0003 == 0x4_0002
    ensures L2Type(d).LargePage? <==> d & 3 == 1
    ensures L2Type(d).SmallPage? <==> d & 2 == 2
    ensures L2Type(d).TranslationFault? <==> d & 3 == 0
  {
  }

  /** Clears xn and, for a section, apx, and sets ap to 3. */
  function L1Opened(d: bv32): bv32 {
    match L1Type(d)
    case Section => OpenSection(d)
    case Supersection => OpenSuper(d)
    case _ => d
  }

  /** Clears xn and apx and sets ap to 3. */
  function L2Opened(d: bv32): bv32 {
    match L2Type(d)
    case LargePage => OpenLarge(d)
    case SmallPage => OpenSmall(d)
    case _ => d
  }

  /** The user permission bits: 1 to read, 2 to write, 4 to execute. */
  function PermOf(ap: bv32, apx: bool, xn: bool): bv32 {
    if ap >> 1 == 0 then 0
    else 1 | (if !apx && ap & 1 == 1 then 2 else 0) | (if !xn then 4 else 0)
  }

  function L2Perm(d: bv32): bv32 {
    match L2Type(d)
    case LargePage => PermOf(Ap2(d), Apx2(d), XnLarge(d))
    case SmallPage => PermOf(Ap2(d), Apx2(d), XnSmall(d))
    case _ => 0
  }

  /** The permission a first-level descriptor gives by itself; a supersection's apx is not looked at. */
  function L1Perm(d: bv32): bv32 {
    match L1Type(d)
    case Section => PermOf(Ap1(d), Apx1(d), Xn1(d))
    case Supersection => PermOf(Ap1(d), false, Xn1(d))
    case _ => 0
  }

  /** The permission by the architecture, which has apx in bit 15 of a supersection as well. */
  function L1CpuPerm(d: bv32): bv32 {
    match L1Type(d)
    case Section => PermOf(Ap1(d), Apx1(d), Xn1(d))
    case Supersection => PermOf(Ap1(d), Apx1(d), Xn1(d))
    case _ => 0
  }

  /** The permissions by the bits of descriptors: nothing without the upper bit of ap, otherwise to read, to write
      with the lower bit of ap and without apx, to execute without xn. */
  lemma PermBits(d: bv32)
    ensures d & 0x4_0003 == 2 ==>
              && L1CpuPerm(d) == L1Perm(d)
              && L1Perm(d) == if d & 0x800 == 0 then 0
                              else 1 + (if d & 0x8400 == 0x400 then 2 else 0) + (if d & 0x10 == 0 then 4 else 0)
    ensures d & 0x4_0003 == 0x4_0002 ==>
              L1Perm(d) == if d & 0x800 == 0 then 0
                           else 1 + (if d & 0x400 != 0 then 2 else 0) + (if d & 0x10 == 0 then 4 else 0)
    ensures d & 0x4_0003 == 0x4_0002 ==>
              L1CpuPerm(d) == if d & 0x800 == 0 then 0
                              else 1 + (if d & 0x8400 == 0x400 then 2 else 0) + (if d & 0x10 == 0 then 4 else 0)
    ensures d & 3 == 1 ==>
              L2Perm(d) == if d & 0x20 == 0 then 0
                           else 1 + (if d & 0x210 == 0x10 then 2 else 0) + (if d & 0x8000 == 0 then 4 else 0)
    ensures d & 2 == 2 ==>
              L2Perm(d) == if d & 0x20 == 0 then 0
                           else 1 + (if d & 0x210 == 0x10 then 2 else 0) + (if d & 1 == 0 then 4 else 0)
    ensures d & 3 != 2 ==> L1Perm(d) == L1CpuPerm(d) == 0
    ensures d & 3 == 0 ==> L2Perm(d) == 0
  {
  }

  lemma L1OpenedKeeps(d: bv32)
    ensures L1Type(L1Opened(d)) == L1Type(d)
    ensures L1Opened(L1Opened(d)) == L1Opened(d)
    ensures L1Type(d).Section? ==> Top20(L1Opened(d)) == Top20(d)
    ensures L1Type(d).Supersection? ==> Top24(L1Opened(d)) == Top24(d)
    ensures L1Type(d).Section? || L1Type(d).Supersection? ==> L1Perm(L1Opened(d)) == 7
    ensures L1Type(d).Section? || L1Type(d).Supersection? ==>
              L1CpuPerm(L1Opened(d)) == if L1Type(d).Supersection? && Apx1(d) then 5 else 7
    ensures !(L1Type(d).Section? || L1Type(d).Supersection?) ==> L1Opened(d) == d
  {
    hide Tag, Bit18, Ap1, Apx1, Xn1, Top20, Top24, OpenSection, OpenSuper, PermOf;
    SectionBits(d);
    SuperBits(d);
    FullPerm();
  }

  lemma L2OpenedKeeps(d: bv32)
    ensures L2Type(L2Opened(d)) == L2Type(d)
    ensures L2Opened(L2Opened(d)) == L2Opened(d)
    ensures L2Type(d).SmallPage? ==> Top12(L2Opened(d)) == Top12(d)
    ensures L2Type(d).LargePage? ==> Top16(L2Opened(d)) == Top16(d)
    ensures !L2Type(d).TranslationFault? ==> L2Perm(L2Opened(d)) == 7
    ensures L2Type(d).TranslationFault? ==> L2Opened(d) == d && L2Perm(d) == 0
  {
    hide Tag, Ap2, Apx2, XnLarge, XnSmall, Top12, Top16, OpenLarge, OpenSmall, PermOf;
    LargeBits(d);
    SmallBits(d);
    FullPerm();
  }

  // ----- tables in memory

  // A 32-bit address space has 2^30 words.

  /** The first word of the second-level table a descriptor points to: its address field, which leaves out bit
      31, less 0x40000000, modulo 2^32, in words. */
  function L2Base(d: bv32): (r: nat)
    ensures r % 0x100 == 0 && r + 0x100 <= 0x4000_0000
  {
    var block := d as nat / 0x400 % 0x20_0000;
    (block + 0x30_0000) % 0x40_0000 * 0x100
  }

  /** The table that a coarse descriptor points to begins at this byte address: the address field of the
      descriptor, bits 10 to 30, less 0x40000000, modulo 2^32. */
  predicate TableAt(d: bv32, address: nat) {
    && address < 0x1_0000_0000
    && (address + 0x4000_0000) % 0x1_0000_0000 == 0x400 * Field(d as nat, 10, 21)
  }

  lemma TableAddress(d: bv32, address: nat)
    ensures TableAt(d, address) <==> address == 4 * L2Base(d)
  {
    SmallPow2();
    Pow2Sum(7, 3);
    Pow2Sum(7, 7);
    Pow2Sum(14, 7);
    hide Pow2;
    Shifted(d as nat / 0x400 % 0x20_0000, address);
  }

  lemma Shifted(block: nat, address: nat)
    requires block < 0x20_0000
    ensures address < 0x1_0000_0000 && (address + 0x4000_0000) % 0x1_0000_0000 == 0x400 * block
       <==> address == 4 * ((block + 0x30_0000) % 0x40_0000 * 0x100)
  {
    if block < 0x10_0000 {
      assert (block + 0x30_0000) % 0x40_0000 == block + 0x30_0000;
    } else {
      assert (block + 0x30_0000) % 0x40_0000 == block - 0x10_0000;
    }
  }

  /** The word w lies in a second-level table of one of the first n entries. */
  ghost predicate InL2(m: seq<bv32>, table: nat, n: nat, w: nat)
    requires table + n <= |m|
  {
    exists a: nat :: table <= a < table + n && L1Type(m[a]).CoarsePageTable?
                     && L2Base(m[a]) <= w < L2Base(m[a]) + 0x100
  }

  /** No second-level table overlaps the first-level one. */
  ghost predicate Separate(m: seq<bv32>, table: nat) {
    && |m| == 0x4000_0000 && table + 1024 <= 0x4000_0000
    && forall a :: table <= a < table + 1024 && L1Type(m[a]).CoarsePageTable? ==>
         L2Base(m[a]) + 0x100 <= table || table + 1024 <= L2Base(m[a])
  }

  /** The same by the addresses of the tables. */
  lemma SeparateByAddress(m: seq<bv32>, table: nat)
    requires |m| == 0x4000_0000 && table + 1024 <= 0x4000_0000
    ensures Separate(m, table) <==>
            forall a, address: nat :: table <= a < table + 1024 && m[a] & 3 == 1 && TableAt(m[a], address) ==>
              address + 0x400 <= 4 * table || 4 * (table + 1024) <= address
  {
    hide L1Type, L2Base, TableAt;
    forall a, address: nat | table <= a < table + 1024
      ensures L1Type(m[a]).CoarsePageTable? <==> m[a] & 3 == 1
      ensures TableAt(m[a], address) <==> address == 4 * L2Base(m[a])
    {
      TypeBits(m[a]);
      TableAddress(m[a], address);
    }
    if !Separate(m, table) {
      var a :| table <= a < table + 1024 && L1Type(m[a]).CoarsePageTable?
               && !(L2Base(m[a]) + 0x100 <= table || table + 1024 <= L2Base(m[a]));
      assert TableAt(m[a], 4 * L2Base(m[a]));
    }
  }

  /** What the pass over the first n entries makes of word w. */
  ghost function OpenedWord(m: seq<bv32>, table: nat, n: nat, w: nat): bv32
    requires table + n <= |m| && w < |m|
  {
    if table <= w < table + n then L1Opened(m[w])
    else if InL2(m, table, n, w) then L2Opened(m[w])
    else m[w]
  }

  ghost predicate IsOpened(m: seq<bv32>, table: nat, n: nat, after: seq<bv32>) {
    && |after| == |m| && table + n <= |m|
    && forall w :: 0 <= w < |m| ==> after[w] == OpenedWord(m, table, n, w)
  }

  method L2RWXForAll(mem: array<bv32>, table: nat)
    requires table + 0x100 <= mem.Length
    modifies mem
    ensures forall w :: 0 <= w < mem.Length ==>
              mem[w] == if table <= w < table + 0x100 then L2Opened(old(mem[w])) else old(mem[w])
  {
    hide L2Opened;
    var i := 0;
    while i < 0x100
      invariant i <= 0x100
      invariant forall w :: 0 <= w < mem.Length ==>
                  mem[w] == if table <= w < table + i then L2Opened(old(mem[w])) else old(mem[w])
    {
      mem[table + i] := L2Opened(mem[table + i]);
      i := i + 1;
    }
  }

  method L1RWXForAll(mem: array<bv32>, table: nat)
    requires Separate(mem[..], table)
    modifies mem
    ensures IsOpened(old(mem[..]), table, 1024, mem[..])
  {
    hide L1Opened, L2Opened, L1Type, L2Base, InL2;
    ghost var m := mem[..];
    var i := 0;
    NothingOpened(m, table);
    while i < 1024
      invariant i <= 1024 && IsOpened(m, table, i, mem[..])
    {
      ghost var before := mem[..];
      var d := mem[table + i];
      EntryUntouched(m, table, i);
      L1OpenedKeeps(d);
      if L1Type(d) == CoarsePageTable {
        L2RWXForAll(mem, L2Base(d));
        OpenTable(m, table, i, before, mem[..]);
      } else {
        mem[table + i] := L1Opened(d);
        OpenEntry(m, table, i);
        assert mem[..] == before[table + i := L1Opened(d)];
      }
      i := i + 1;
    }
  }

  lemma NothingOpened(m: seq<bv32>, table: nat)
    requires table + 1024 <= |m|
    ensures IsOpened(m, table, 0, m)
  {
  }

  /** An entry not yet reached is as it was. */
  lemma EntryUntouched(m: seq<bv32>, table: nat, i: nat)
    requires Separate(m, table) && i < 1024
    ensures OpenedWord(m, table, i, table + i) == m[table + i]
  {
    hide L1Opened, L2Opened, L2Base, L1Type;
  }

  /** One more entry that is not a page table. */
  lemma OpenEntry(m: seq<bv32>, table: nat, i: nat)
    requires Separate(m, table) && i < 1024 && !L1Type(m[table + i]).CoarsePageTable?
    ensures forall w :: 0 <= w < |m| ==>
              OpenedWord(m, table, i + 1, w) == (if w == table + i then L1Opened(m[w]) else OpenedWord(m, table, i, w))
  {
    hide L1Opened, L2Opened, L2Base, L1Type;
  }

  /** One more page table, which an earlier entry may have led to already. */
  lemma OpenTable(m: seq<bv32>, table: nat, i: nat, before: seq<bv32>, after: seq<bv32>)
    requires Separate(m, table) && i < 1024 && L1Type(m[table + i]).CoarsePageTable?
    requires IsOpened(m, table, i, before) && |after| == |m|
    requires var base := L2Base(m[table + i]);
             forall w :: 0 <= w < |m| ==>
               after[w] == if base <= w < base + 0x100 then L2Opened(before[w]) else before[w]
    ensures IsOpened(m, table, i + 1, after)
  {
    hide L1Opened, L2Opened, L2Base, L1Type, InL2, Separate;
    TableFits(m, table);
    forall w | 0 <= w < |m|
      ensures after[w] == OpenedWord(m, table, i + 1, w)
    {
      L2OpenedKeeps(m[w]);
      L1OpenedKeeps(m[w]);
      InL2Next(m, table, i, w);
    }
  }

  lemma InL2Next(m: seq<bv32>, table: nat, i: nat, w: nat)
    requires Separate(m, table) && i < 1024 && L1Type(m[table + i]).CoarsePageTable?
    ensures InL2(m, table, i + 1, w) <==>
            InL2(m, table, i, w) || L2Base(m[table + i]) <= w < L2Base(m[table + i]) + 0x100
    ensures table <= w < table + 1024 ==> !InL2(m, table, i + 1, w)
  {
    hide L2Base, L1Type;
  }

  lemma TableFits(m: seq<bv32>, table: nat)
    requires Separate(m, table)
    ensures table + 1024 <= |m|
  {
  }

  /** The pass opens every word of every table that a coarse descriptor points to, and every section, and changes
      nothing else. */
  lemma PassReaches(m: seq<bv32>, table: nat, after: seq<bv32>, a: nat, address: nat, i: nat)
    requires Separate(m, table) && IsOpened(m, table, 1024, after) && table <= a < table + 1024
    requires m[a] & 3 == 1 && TableAt(m[a], address) && i < 0x100
    ensures var w := address / 4 + i;
            w < |m| && after[w] == L2Opened(m[w])
  {
    hide L2Opened, L1Opened, L2Base, L1Type, TableAt;
    TypeBits(m[a]);
    TableAddress(m[a], address);
    var w := L2Base(m[a]) + i;
    assert InL2(m, table, 1024, w);
  }

  lemma PassLeaves(m: seq<bv32>, table: nat, after: seq<bv32>, w: nat)
    requires Separate(m, table) && IsOpened(m, table, 1024, after) && w < |m|
    requires forall a, address: nat :: table <= a < table + 1024 && m[a] & 3 == 1 && TableAt(m[a], address) ==>
               !(address / 4 <= w < address / 4 + 0x100)
    ensures after[w] == if table <= w < table + 1024 then L1Opened(m[w]) else m[w]
  {
    hide L2Opened, L1Opened, L2Base, L1Type, TableAt;
    forall a | table <= a < table + 1024 && L1Type(m[a]).CoarsePageTable?
      ensures !(L2Base(m[a]) <= w < L2Base(m[a]) + 0x100)
    {
      TypeBits(m[a]);
      TableAddress(m[a], 4 * L2Base(m[a]));
    }
  }

  // ----- lookups

  // The 1024 entries of a first-level table cover one megabyte of virtual addresses each, 2^30 in all.

  /** The first-level descriptor of an address, and the second-level one below a page table. */
  function L1Entry(m: seq<bv32>, table: nat, va: nat): bv32
    requires va < 0x4000_0000 && table + 1024 <= |m|
  {
    m[table + va / 0x10_0000]
  }

  function L2Entry(m: seq<bv32>, base: nat, va: nat): bv32
    requires base + 0x100 <= |m|
  {
    m[base + va / 0x1000 % 0x100]
  }

  /** The physical address of a virtual one, 0 if it has none. */
  function PAFromVA(m: seq<bv32>, table: nat, va: nat): nat
    requires va < 0x4000_0000 && |m| == 0x4000_0000 && table + 1024 <= |m|
  {
    var d := L1Entry(m, table, va);
    match L1Type(d)
    case CoarsePageTable => L2PAFromVA(m, L2Base(d), va)
    case Section => Top20(d) * 0x10_0000 + va % 0x10_0000
    case Supersection => Top24(d) * 0x100_0000 + va % 0x100_0000
    case _ => 0
  }

  function L2PAFromVA(m: seq<bv32>, base: nat, va: nat): nat
    requires base + 0x100 <= |m|
  {
    PageAddress(L2Entry(m, base, va), va)
  }

  function PageAddress(d: bv32, va: nat): nat {
    match L2Type(d)
    case LargePage => Top16(d) * 0x1_0000 + va % 0x1_0000
    case SmallPage => Top12(d) * 0x1000 + va % 0x1000
    case _ => 0
  }

  function UserPerm(m: seq<bv32>, table: nat, va: nat): bv32
    requires va < 0x4000_0000 && |m| == 0x4000_0000 && table + 1024 <= |m|
  {
    var d := L1Entry(m, table, va);
    if L1Type(d).CoarsePageTable? then L2Perm(L2Entry(m, L2Base(d), va)) else L1Perm(d)
  }

  /** The same by the architecture. */
  function CpuPerm(m: seq<bv32>, table: nat, va: nat): bv32
    requires va < 0x4000_0000 && |m| == 0x4000_0000 && table + 1024 <= |m|
  {
    var d := L1Entry(m, table, va);
    if L1Type(d).CoarsePageTable? then L2Perm(L2Entry(m, L2Base(d), va)) else L1CpuPerm(d)
  }

  predicate Mapped(m: seq<bv32>, table: nat, va: nat)
    requires va < 0x4000_0000 && |m| == 0x4000_0000 && table + 1024 <= |m|
  {
    var d := L1Entry(m, table, va);
    match L1Type(d)
    case CoarsePageTable => !L2Type(L2Entry(m, L2Base(d), va)).TranslationFault?
    case Section => true
    case Supersection => true
    case _ => false
  }

  /** The bits of an address that pick the entries. */
  lemma IndexBits(va: nat)
    requires va < 0x4000_0000
    ensures Field(va, 20, 12) == va / 0x10_0000 && Field(va, 12, 8) == va / 0x1000 % 0x100
  {
    Pow2Values();
    Pow2Sum(16, 4);
  }

  // The address bits of descriptors as numbers.

  lemma AddressBits24(d: bv32)
    ensures (d & 0xFF00_0000) as nat == 0x100_0000 * Top24(d)
  {
  }

  lemma AddressBits20(d: bv32)
    ensures (d & 0xFFF0_0000) as nat == 0x10_0000 * Top20(d)
  {
  }

  lemma AddressBits16(d: bv32)
    ensures (d & 0xFFFF_0000) as nat == 0x1_0000 * Top16(d)
  {
  }

  lemma AddressBits12(d: bv32)
    ensures (d & 0xFFFF_F000) as nat == 0x1000 * Top12(d)
  {
  }

  /** Where an address leads by the bits of its first descriptor. */
  lemma DirectWalk(m: seq<bv32>, table: nat, va: nat)
    requires va < 0x4000_0000 && |m| == 0x4000_0000 && table + 1024 <= |m|
    ensures Field(va, 20, 12) < 1024
    ensures var d := m[table + Field(va, 20, 12)];
            && (d & 0x4_0003 == 2 ==> PAFromVA(m, table, va) == (d & 0xFFF0_0000) as nat + va % 0x10_0000)
            && (d & 0x4_0003 == 0x4_0002 ==> PAFromVA(m, table, va) == (d & 0xFF00_0000) as nat + va % 0x100_0000)
            && (d & 3 == 0 || d & 3 == 3 ==> PAFromVA(m, table, va) == 0)
            && (d & 3 != 1 ==> UserPerm(m, table, va) == L1Perm(d) && (Mapped(m, table, va) <==> d & 3 == 2))
  {
    hide L2PAFromVA, L2Base, L1Type, TableAt, Field, Top24, Top20, L1Perm;
    IndexBits(va);
    var d := m[table + Field(va, 20, 12)];
    TypeBits(d);
    AddressBits20(d);
    AddressBits24(d);
  }

  lemma PageAddressBits(e: bv32, va: nat)
    ensures PageAddress(e, va) == if e & 3 == 1 then (e & 0xFFFF_0000) as nat + va % 0x1_0000
                                  else if e & 2 == 2 then (e & 0xFFFF_F000) as nat + va % 0x1000
                                  else 0
  {
    hide L2Type, Top16, Top12;
    TypeBits(e);
    AddressBits16(e);
    AddressBits12(e);
  }

  /** And by those of its second descriptor, in the table that the first one points to. */
  lemma TableWalk(m: seq<bv32>, table: nat, va: nat, address: nat)
    requires va < 0x4000_0000 && |m| == 0x4000_0000 && table + 1024 <= |m| && Field(va, 20, 12) < 1024
    requires L1Type(m[table + Field(va, 20, 12)]).CoarsePageTable?
    requires TableAt(m[table + Field(va, 20, 12)], address)
    ensures address / 4 + Field(va, 12, 8) < |m|
    ensures var e := m[address / 4 + Field(va, 12, 8)];
            && PAFromVA(m, table, va) == PageAddress(e, va) && UserPerm(m, table, va) == L2Perm(e)
            && (Mapped(m, table, va) <==> !L2Type(e).TranslationFault?)
  {
    hide L2Base, L1Type, L2Type, L2Perm, PageAddress, TableAt, Field, Top20, Top24;
    IndexBits(va);
    var d := m[table + Field(va, 20, 12)];
    TableAddress(d, address);
    ByFour(L2Base(d));
  }

  lemma ByFour(x: nat)
    ensures 4 * x / 4 == x
  {
  }

  /** The descriptors that an address goes through, after the pass. */
  lemma EntriesOpened(m: seq<bv32>, table: nat, after: seq<bv32>, va: nat)
    requires Separate(m, table) && IsOpened(m, table, 1024, after) && va < 0x4000_0000
    ensures L1Entry(after, table, va) == L1Opened(L1Entry(m, table, va))
    ensures var d := L1Entry(m, table, va);
            L1Type(d).CoarsePageTable? ==>
              && L1Entry(after, table, va) == d
              && L2Entry(after, L2Base(d), va) == L2Opened(L2Entry(m, L2Base(d), va))
  {
    hide L1Opened, L2Opened, L2Base, L1Type;
    var a := table + va / 0x10_0000;
    assert table <= a < table + 1024;
    L1OpenedKeeps(m[a]);
    if L1Type(m[a]).CoarsePageTable? {
      var w := L2Base(m[a]) + va / 0x1000 % 0x100;
      assert InL2(m, table, 1024, w);
    }
  }

  /** For every address below 2^30 the pass keeps the physical address and opens the page to the user if it is
      mapped; an address that is not mapped keeps permission 0 and address 0. */
  lemma PassOpensAll(m: seq<bv32>, table: nat, after: seq<bv32>, va: nat)
    requires Separate(m, table) && IsOpened(m, table, 1024, after) && va < 0x4000_0000
    ensures PAFromVA(after, table, va) == PAFromVA(m, table, va)
    ensures Mapped(after, table, va) <==> Mapped(m, table, va)
    ensures UserPerm(after, table, va) == if Mapped(m, table, va) then 7 else 0
    ensures !Mapped(m, table, va) ==> UserPerm(m, table, va) == 0 && PAFromVA(m, table, va) == 0
  {
    hide L1Entry, L2Entry, L1Opened, L2Opened, L2Base, Top12, Top16, Top20, Top24;
    hide L1Type, L2Type, L1Perm, L2Perm;
    EntriesOpened(m, table, after, va);
    var d := L1Entry(m, table, va);
    L1OpenedKeeps(d);
    L1PermOfUnmapped(d);
    if L1Type(d).CoarsePageTable? {
      L2OpenedKeeps(L2Entry(m, L2Base(d), va));
    }
  }

  /** By the architecture the pass opens a mapped address to the user if and only if it is not in a supersection
      whose bit 15 is set; such an address stays write-protected. */
  lemma PassOpensForCpu(m: seq<bv32>, table: nat, after: seq<bv32>, va: nat)
    requires Separate(m, table) && IsOpened(m, table, 1024, after) && va < 0x4000_0000 && Mapped(m, table, va)
    ensures CpuPerm(after, table, va) == 7 <==>
            var d := L1Entry(m, table, va); !(L1Type(d).Supersection? && Apx1(d))
    ensures CpuPerm(after, table, va) == 7 || CpuPerm(after, table, va) == 5
  {
    hide L1Entry, L2Entry, L1Opened, L2Opened, L2Base, L1Type, L2Type, L1CpuPerm, L2Perm, Apx1;
    EntriesOpened(m, table, after, va);
    var d := L1Entry(m, table, va);
    L1OpenedKeeps(d);
    if L1Type(d).CoarsePageTable? { L2OpenedKeeps(L2Entry(m, L2Base(d), va)); }
  }

  lemma L1PermOfUnmapped(d: bv32)
    ensures !(L1Type(d).Section? || L1Type(d).Supersection?) ==> L1Perm(d) == 0
  {
  }

  /** A second pass changes nothing, also when entries share a page table. */
  lemma PassIsIdempotent(m: seq<bv32>, table: nat, once: seq<bv32>, twice: seq<bv32>)
    requires Separate(m, table) && IsOpened(m, table, 1024, once) && IsOpened(once, table, 1024, twice)
    ensures Separate(once, table) && twice == once
  {
    hide L1Opened, L2Opened, L2Base, L1Type;
    forall a | table <= a < table + 1024
      ensures L1Type(once[a]) == L1Type(m[a]) && (L1Type(m[a]).CoarsePageTable? ==> once[a] == m[a])
    {
      L1OpenedKeeps(m[a]);
    }
    forall w | 0 <= w < |m|
      ensures twice[w] == once[w]
    {
      L1OpenedKeeps(m[w]);
      L2OpenedKeeps(m[w]);
      assert InL2(once, table, 1024, w) <==> InL2(m, table, 1024, w);
    }
  }
}
