/** The part of `mount_volume` that reads the boot sector, and the volume layout it promises. */
module FatGeometry {
  import opened Machine

  datatype FatType = Fat12 | Fat16 | Fat32

  /** The fields of FATFS that a mount fixes; they never change afterwards. */
  datatype Geometry = Geometry(
    fatType: FatType,
    nFats: nat,
    csize: nat,
    nRootdir: nat,
    nFatent: nat,
    fsize: nat,
    volbase: nat,
    fatbase: nat,
    dirbase: nat,
    database: nat)

  datatype MountResult = Mounted(g: Geometry) | NoFilesystem

  const MAX_FAT12: nat := 0xFF5
  const MAX_FAT16: nat := 0xFFF5
  const MAX_FAT32: nat := 0x0FFF_FFF5

  // ----- the boot sector fields

  function FatSize(win: Sector): nat {
    if LdWord(win, 22) == 0 then LdDword(win, 36) else LdWord(win, 22)
  }

  function TotalSectors(win: Sector): nat {
    if LdWord(win, 19) == 0 then LdDword(win, 32) else LdWord(win, 19)
  }

  function ReservedSectors(win: Sector): nat { LdWord(win, 14) }

  function RootSectors(win: Sector): nat { LdWord(win, 17) / 16 }

  predicate PowerOfTwo(c: byte) { c in {1, 2, 4, 8, 16, 32, 64, 128} }

  /** The source's test on a byte, `c == 0 || (c & (c - 1))`, rejects all but the powers of two. */
  lemma PowerOfTwoTest(c: bv8)
    ensures !(c == 0 || c & (c - 1) != 0) <==> c in {1, 2, 4, 8, 16, 32, 64, 128}
  {
  }

  function SubType(nclst: nat): (t: FatType)
    requires nclst <= MAX_FAT32
  {
    if nclst <= MAX_FAT12 then Fat12 else if nclst <= MAX_FAT16 then Fat16 else Fat32
  }

  /** Bytes that the entries of a FAT of n entries take. */
  function NeededBytes(t: FatType, n: nat): nat {
    match t
    case Fat12 => n * 3 / 2 + n % 2
    case Fat16 => n * 2
    case Fat32 => n * 4
  }

  /** The signatures of a FAT32 boot sector. */
  predicate SignedFat32(win: Sector) {
    LdWord(win, 510) == 0xAA55 && win[82..90] == [0x46, 0x41, 0x54, 0x33, 0x32, 0x20, 0x20, 0x20]
  }

  /** The fields by which a boot sector without signatures is recognized. */
  predicate ProperFields(win: Sector) {
    && LdWord(win, 11) == SS && PowerOfTwo(win[13]) && ReservedSectors(win) != 0 && win[16] in {1, 2}
    && LdWord(win, 17) != 0 && (LdWord(win, 19) >= 128 || LdDword(win, 32) >= 0x1_0000) && LdWord(win, 22) != 0
  }

  /** `check_fs`: the sector can be the boot sector of a FAT volume. */
  predicate LooksFat(win: Sector) {
    win[0] in {0xEB, 0xE9, 0xE8} && (SignedFat32(win) || ProperFields(win))
  }

  /** From the sector in the window to the filesystem object; every sum and product is a DWORD. */
  function Mount(win: Sector, bsect: nat): MountResult
  {
    if !LooksFat(win) then NoFilesystem else
    if LdWord(win, 11) != SS then NoFilesystem else
    var fsize := FatSize(win);
    var nFats := win[16];
    if nFats != 1 && nFats != 2 then NoFilesystem else
    var fasize := Wrap32(fsize * nFats);
    var csize := win[13];
    if !PowerOfTwo(csize) then NoFilesystem else
    var nRootdir := LdWord(win, 17);
    if nRootdir % 16 != 0 then NoFilesystem else
    var tsect := TotalSectors(win);
    var nrsv := ReservedSectors(win);
    if nrsv == 0 then NoFilesystem else
    var sysect := Wrap32(nrsv + fasize + nRootdir / 16);
    if tsect < sysect then NoFilesystem else
    var nclst := (tsect - sysect) / csize;
    if nclst == 0 || nclst > MAX_FAT32 then NoFilesystem else
    var fatType := SubType(nclst);
    var nFatent := nclst + 2;
    var fatbase := Wrap32(bsect + nrsv);
    if fatType == Fat32 && (LdWord(win, 42) != 0 || nRootdir != 0) then NoFilesystem else
    if fatType != Fat32 && nRootdir == 0 then NoFilesystem else
    var dirbase := if fatType == Fat32 then LdDword(win, 44) else Wrap32(fatbase + fasize);
    if fsize < (NeededBytes(fatType, nFatent) + (SS - 1)) / 512 then NoFilesystem else
    Mounted(Geometry(fatType, nFats, csize, nRootdir, nFatent, fsize, bsect, fatbase, dirbase,
                     Wrap32(bsect + sysect)))
  }

  /** The fields of a boot sector are little-endian numbers of its bytes. */
  lemma BootFields(win: Sector)
    ensures ReservedSectors(win) == Le(win[14..16]) && RootSectors(win) == Le(win[17..19]) / 16
    ensures TotalSectors(win) == if Le(win[19..21]) != 0 then Le(win[19..21]) else Le(win[32..36])
    ensures FatSize(win) == if Le(win[22..24]) != 0 then Le(win[22..24]) else Le(win[36..40])
    ensures LdWord(win, 17) == Le(win[17..19]) && LdWord(win, 42) == Le(win[42..44])
    ensures LdDword(win, 44) == Le(win[44..48])
  {
    hide LdWord, LdDword, Le;
    LoadIsLe(win, 14);
    LoadIsLe(win, 17);
    LoadIsLe(win, 19);
    LoadIsLe(win, 22);
    LoadIsLe(win, 32);
    LoadIsLe(win, 36);
    LoadIsLe(win, 42);
    LoadIsLe(win, 44);
  }

  /** A boot sector by its bytes: the jump, sectors of 512 bytes, a cluster size, one or two FATs, reserved
      sectors, whole sectors of root directory; and the two signatures of FAT32, or a root directory, a 16-bit
      FAT size and enough sectors. */
  predicate Bootable(win: Sector) {
    && win[0] in {0xEB, 0xE9, 0xE8} && win[11..13] == [0, 2]
    && win[13] in {1, 2, 4, 8, 16, 32, 64, 128} && win[16] in {1, 2}
    && Le(win[14..16]) != 0 && Le(win[17..19]) % 16 == 0
    && (|| (win[510..512] == [0x55, 0xAA] && win[82..90] == [0x46, 0x41, 0x54, 0x33, 0x32, 0x20, 0x20, 0x20])
        || (&& Le(win[17..19]) != 0 && Le(win[22..24]) != 0
            && (Le(win[19..21]) >= 128 || Le(win[32..36]) >= 0x1_0000)))
  }

  lemma BootableIs(win: Sector)
    ensures Bootable(win) || PowerOfTwo(win[13]) ==> win[13] != 0
    ensures Bootable(win) <==>
            && LooksFat(win) && LdWord(win, 11) == SS && win[16] in {1, 2} && PowerOfTwo(win[13])
            && LdWord(win, 17) % 16 == 0 && ReservedSectors(win) != 0
  {
    hide Le;
    LoadIsLe(win, 14);
    LoadIsLe(win, 17);
    LoadIsLe(win, 19);
    LoadIsLe(win, 22);
    LoadIsLe(win, 32);
    assert win[11..13] == [win[11], win[12]] && win[510..512] == [win[510], win[511]];
  }

  /** The width of an entry on a volume of n clusters. */
  function Width(n: int): nat {
    if n <= 4085 then 12 else if n <= 65525 then 16 else 32
  }

  lemma NeededIs(n: nat, fsize: nat)
    requires n <= MAX_FAT32
    ensures fsize >= (NeededBytes(SubType(n), n + 2) + (SS - 1)) / 512 <==> Width(n) * (n + 2) <= 4096 * fsize
  {
    hide NeededBytes;
    NeededBits(n);
    var bytes := NeededBytes(SubType(n), n + 2);
    assert fsize >= (bytes + 511) / 512 <==> bytes <= 512 * fsize;
  }

  lemma NeededBits(n: nat)
    requires n <= MAX_FAT32
    ensures var bytes := NeededBytes(SubType(n), n + 2);
            Width(n) * (n + 2) <= 8 * bytes < Width(n) * (n + 2) + 8
  {
    var m := n + 2;
    if n <= 4085 { HalfAgain(m / 2, m % 2); }
  }

  lemma HalfAgain(h: nat, b: nat)
    requires b < 2
    ensures var m := 2 * h + b;
            m * 3 / 2 + m % 2 == 3 * h + 2 * b
  {
    Quotient(2 * h + b, b, h, 2);
    Quotient((2 * h + b) * 3, b, 3 * h + b, 2);
  }

  // ----- the layout

  /** The sectors of all FAT copies: n_fats * fsize, there being one or two. */
  function FatSectors(g: Geometry): nat {
    if g.nFats == 2 then g.fsize + g.fsize else g.fsize
  }

  function FatEnd(g: Geometry): nat {
    g.fatbase + FatSectors(g)
  }

  function DataSectors(g: Geometry): nat
    requires 2 <= g.nFatent
  {
    (g.nFatent - 2) * g.csize
  }

  function ClusterBase(g: Geometry, c: nat): (s: nat)
    requires 2 <= c
    ensures s >= g.database
  {
    assert (c - 2) * g.csize >= 0;
    g.database + (c - 2) * g.csize
  }

  predicate InCluster(g: Geometry, c: nat, s: nat)
    requires 2 <= c
  {
    ClusterBase(g, c) <= s < ClusterBase(g, c) + g.csize
  }

  /** One past the last data sector. */
  function DataEnd(g: Geometry): nat
    requires 2 <= g.nFatent
  {
    g.database + DataSectors(g)
  }

  /** Entry counts and sub-type agree, and one FAT has room for every entry. */
  ghost predicate Entries(g: Geometry) {
    && 3 <= g.nFatent <= MAX_FAT32 + 2
    && g.fatType == SubType(g.nFatent - 2)
    && NeededBytes(g.fatType, g.nFatent) <= g.fsize * 512
  }

  /** The system area, the FATs, the root directory of FAT12/16 and the data area follow each other. */
  ghost predicate Ordered(g: Geometry) {
    && g.volbase < g.fatbase
    && FatEnd(g) <= g.database
    && (g.fatType != Fat32 ==> FatEnd(g) == g.dirbase && g.dirbase + g.nRootdir / 16 <= g.database)
  }

  /** What the rest of the engine needs of a geometry. */
  ghost predicate Sound(g: Geometry) {
    && Entries(g)
    && g.nFats in {1, 2}
    && g.csize in {1, 2, 4, 8, 16, 32, 64, 128}
    && Ordered(g)
    && DataEnd(g) <= DWORD_RANGE
  }

  /** A sound layout that also stays inside a volume of tsect sectors. */
  ghost predicate Fits(g: Geometry, tsect: nat) {
    Sound(g) && DataEnd(g) <= g.volbase + tsect
  }

  /** The sectors of the boot sector, the FATs and the root directory, without any wrap. */
  function SystemSectors(win: Sector): nat {
    ReservedSectors(win) + (if win[16] == 2 then FatSize(win) + FatSize(win) else FatSize(win)) + RootSectors(win)
  }

  /** Where a mount puts things, as sums that may have wrapped: nrsv reserved sectors, root sectors of
      root directory, tsect sectors in all. */
  ghost predicate Bases(g: Geometry, bsect: nat, nrsv: nat, root: nat, tsect: nat) {
    var fasize := Wrap32(FatSectors(g));
    var sysect := Wrap32(nrsv + fasize + root);
    && Entries(g) && g.nFats in {1, 2} && g.csize in {1, 2, 4, 8, 16, 32, 64, 128}
    && 0 < nrsv < WORD_RANGE && root < WORD_RANGE && tsect < DWORD_RANGE
    && g.volbase == bsect < DWORD_RANGE
    && g.fatbase == Wrap32(bsect + nrsv)
    && g.database == Wrap32(bsect + sysect)
    && g.nRootdir / 16 == root
    && (g.fatType == Fat32 ==> root == 0)
    && (g.fatType != Fat32 ==> g.dirbase == Wrap32(g.fatbase + fasize))
    && sysect + DataSectors(g) <= tsect
  }

  lemma MountedBases(win: Sector, bsect: nat)
    requires bsect < DWORD_RANGE
    requires Mount(win, bsect).Mounted?
    ensures var g := Mount(win, bsect).g;
            && Bases(g, bsect, ReservedSectors(win), RootSectors(win), TotalSectors(win))
            && g.fsize == FatSize(win) && g.nFats == win[16]
  {
    hide LdWord, LdDword, NeededBytes, FatSize, SubType, Wrap32, LooksFat;
    var g := Mount(win, bsect).g;
    var sysect := Wrap32(ReservedSectors(win) + Wrap32(FatSectors(g)) + RootSectors(win));
    DivTimes(TotalSectors(win) - sysect, g.csize);
  }

  lemma DivTimes(a: nat, b: nat)
    requires b > 0
    ensures a / b * b <= a
  {
  }

  /** The clusters behind the system area. */
  function Clusters(win: Sector): int
    requires win[13] != 0
  {
    (TotalSectors(win) - SystemSectors(win)) / win[13] as int
  }

  /** Which boot sectors mount, as long as the system area does not wrap: those with a volume of at least one
      and not too many clusters, whose FAT has room for them, with a root directory area unless they are too
      many for 16 bits. */
  lemma MountIff(win: Sector, bsect: nat)
    requires SystemSectors(win) < DWORD_RANGE
    ensures Mount(win, bsect).Mounted? <==>
            && Bootable(win) && SystemSectors(win) <= TotalSectors(win) && 1 <= Clusters(win) <= 0x0FFF_FFF5
            && Width(Clusters(win)) * (Clusters(win) + 2) <= 4096 * FatSize(win)
            && (if Clusters(win) <= 65525 then Le(win[17..19]) != 0 else Le(win[17..19]) == 0 && Le(win[42..44]) == 0)
  {
    hide Bootable, LooksFat, PowerOfTwo, NeededBytes, LdWord, LdDword, Le, ReservedSectors, TotalSectors, FatSize;
    hide Width;
    BootableIs(win);
    BootFields(win);
    if Bootable(win) && SystemSectors(win) <= TotalSectors(win) && 1 <= Clusters(win) <= 0x0FFF_FFF5 {
      NeededIs(Clusters(win), FatSize(win));
    }
  }

  /** And what they mount as. */
  lemma MountedAs(win: Sector, bsect: nat)
    requires SystemSectors(win) < DWORD_RANGE && Mount(win, bsect).Mounted?
    ensures win[13] != 0
    ensures var g := Mount(win, bsect).g;
            && g.fatType == (if Clusters(win) <= 4085 then Fat12 else if Clusters(win) <= 65525 then Fat16 else Fat32)
            && g.nFatent == Clusters(win) + 2 && g.csize == win[13] && g.nFats == win[16]
            && g.nRootdir == Le(win[17..19]) && g.fsize == FatSize(win) && g.volbase == bsect
            && g.fatbase == (bsect + Le(win[14..16])) % 0x1_0000_0000
            && g.database == (bsect + SystemSectors(win)) % 0x1_0000_0000
            && (g.fatType.Fat32? ==> g.dirbase == Le(win[44..48]))
  {
    hide LooksFat, PowerOfTwo, Bootable, NeededBytes, LdWord, LdDword, Le, TotalSectors, FatSize;
    BootableIs(win);
    BootFields(win);
  }

  /** The end of the data area if nothing wraps, from the boot sector: as many whole clusters as fit behind the
      system area. */
  function UnwrappedEnd(win: Sector, bsect: nat): int
    requires win[13] != 0
  {
    bsect + SystemSectors(win)
    + (TotalSectors(win) - SystemSectors(win)) / win[13] as int * win[13] as int
  }

  /** For every boot sector that mounts, the layout is sound exactly when its unwrapped system area lies in the
      volume and the last whole cluster ends by sector 2^32. The code checks neither. */
  lemma LayoutIff(win: Sector, bsect: nat)
    requires bsect < DWORD_RANGE
    requires Mount(win, bsect).Mounted?
    ensures win[13] != 0
    ensures Fits(Mount(win, bsect).g, TotalSectors(win)) <==>
            SystemSectors(win) <= TotalSectors(win) && UnwrappedEnd(win, bsect) <= DWORD_RANGE
  {
    hide Mount, TotalSectors, ReservedSectors, RootSectors, FatSize, LooksFat;
    MountedBases(win, bsect);
    MountedSize(win, bsect);
    LayoutOfBases(Mount(win, bsect).g, bsect, ReservedSectors(win), RootSectors(win), TotalSectors(win));
  }

  /** The data area of a mount, when the system area does not wrap. */
  lemma MountedSize(win: Sector, bsect: nat)
    requires bsect < DWORD_RANGE && Mount(win, bsect).Mounted?
    ensures var g, tot, sys := Mount(win, bsect).g, TotalSectors(win), SystemSectors(win);
            && win[13] != 0 && FatSectors(g) == (if win[16] == 2 then FatSize(win) + FatSize(win) else FatSize(win))
            && (sys <= tot ==> DataSectors(g) == (tot - sys) / win[13] as int * win[13] as int)
  {
    hide LdWord, LdDword, NeededBytes, FatSize, SubType, LooksFat;
  }

  lemma LayoutOfBases(g: Geometry, bsect: nat, nrsv: nat, root: nat, tsect: nat)
    requires Bases(g, bsect, nrsv, root, tsect)
    ensures var sys := nrsv + FatSectors(g) + root;
            Fits(g, tsect) <==> sys <= tsect && bsect + sys + DataSectors(g) <= DWORD_RANGE
  {
    assert DataSectors(g) > 0 by { TimesGap(0, g.nFatent - 2, g.csize); }
    LayoutNumbers(bsect, g.fatbase, g.database, g.dirbase, g.fatType == Fat32, nrsv,
                  FatSectors(g), root, tsect, DataSectors(g));
  }

  /** LayoutIff on the numbers alone: fats is the true size of the FAT area, data that of the data area. */
  lemma LayoutNumbers(volbase: nat, fatbase: nat, database: nat, dirbase: nat, fat32: bool,
                      nrsv: nat, fats: nat, root: nat, tsect: nat, data: nat)
    requires volbase < DWORD_RANGE && 0 < nrsv < WORD_RANGE && root < WORD_RANGE && tsect < DWORD_RANGE
    requires fat32 ==> root == 0
    requires fatbase == Wrap32(volbase + nrsv)
    requires database == Wrap32(volbase + Wrap32(nrsv + Wrap32(fats) + root))
    requires !fat32 ==> dirbase == Wrap32(fatbase + Wrap32(fats))
    requires 0 < data && Wrap32(nrsv + Wrap32(fats) + root) + data <= tsect
    ensures (&& volbase < fatbase
             && fatbase + fats <= database
             && (!fat32 ==> fatbase + fats == dirbase && dirbase + root <= database)
             && database + data <= DWORD_RANGE
             && database + data <= volbase + tsect)
            <==>
            nrsv + fats + root <= tsect && volbase + nrsv + fats + root + data <= DWORD_RANGE
  {
    if volbase + nrsv < DWORD_RANGE {
      assert fatbase == volbase + nrsv;
    } else {
      assert fatbase < volbase;
    }
  }

  /** A boot sector of 0xFFFF_FFF0 sectors per FAT. */
  lemma HugeFat() returns (win: Sector)
    ensures SignedFat32(win) && win[0] == 0xEB && win[13] == 1 && win[16] == 1
    ensures LdWord(win, 11) == SS && LdWord(win, 17) == 0 && LdWord(win, 14) == 32 && LdWord(win, 42) == 0
    ensures FatSize(win) == 0xFFFF_FFF0 && TotalSectors(win) == 0xF4010
  {
    var zero: Sector := seq(512, _ => 0);
    win := zero[0 := 0xEB][12 := 2][13 := 1][14 := 32][16 := 1]
               [32 := 0x10][33 := 0x40][34 := 0x0F][36 := 0xF0][37 := 0xFF][38 := 0xFF][39 := 0xFF]
               [82 := 0x46][83 := 0x41][84 := 0x54][85 := 0x33][86 := 0x32][87 := 0x20][88 := 0x20]
               [89 := 0x20][510 := 0x55][511 := 0xAA];
  }

  /** A boot sector that mounts although its FAT overlaps its data area: 0xFFFF_FFF0 sectors per FAT make
      the number of system sectors wrap to 16, so data start 16 sectors before the FAT does. */
  lemma OverlappingMount()
    ensures exists win: Sector ::
              && LooksFat(win) && Mount(win, 0).Mounted?
              && FatSize(win) * win[16] < DWORD_RANGE && 0 + TotalSectors(win) < DWORD_RANGE
              && Mount(win, 0).g.database < Mount(win, 0).g.fatbase
  {
    hide LdWord, LdDword, FatSize, TotalSectors, SignedFat32, ProperFields;
    var win := HugeFat();
    var g := Mount(win, 0);
    assert g.Mounted? && g.g.database == 16 && g.g.fatbase == 32;
  }

  /** The sectors of two clusters never meet, and lie between the FATs and the end of the data area. */
  lemma ClustersApart(g: Geometry, c: nat, d: nat)
    requires Sound(g) && 2 <= c < g.nFatent && 2 <= d < g.nFatent
    ensures FatEnd(g) <= ClusterBase(g, c) && ClusterBase(g, c) + g.csize <= DataEnd(g)
    ensures c < d ==> ClusterBase(g, c) + g.csize <= ClusterBase(g, d)
    ensures c != d ==>
              forall s :: InCluster(g, c, s) ==> !InCluster(g, d, s)
  {
    ClusterGap(g, c, g.nFatent);
    if c < d { ClusterGap(g, c, d); }
    if d < c { ClusterGap(g, d, c); }
  }

  lemma ClusterGap(g: Geometry, c: nat, d: nat)
    requires 2 <= c < d
    ensures ClusterBase(g, c) + g.csize <= ClusterBase(g, d)
  {
    TimesGap(c - 2, d - 2, g.csize);
  }

  lemma TimesGap(a: nat, b: nat, k: nat)
    requires a < b
    ensures a * k + k <= b * k
  {
    if b == a + 1 {
      assert b * k == a * k + k;
    } else {
      TimesGap(a, b - 1, k);
      assert b * k == (b - 1) * k + k;
    }
  }

  /** The source's cluster-to-sector conversion, where 0 stands for an invalid cluster. */
  function ClstToSect(g: Geometry, clst: nat): (r: nat)
    requires clst < DWORD_RANGE && 2 <= g.nFatent
    ensures Sound(g) ==> (r == 0 <==> !(2 <= clst < g.nFatent))
    ensures Sound(g) && 2 <= clst < g.nFatent ==> r == ClusterBase(g, clst)
  {
    var k := Wrap32(clst - 2);
    if k >= g.nFatent - 2 then 0 else
    ClusterFits(g, k);
    Wrap32(g.database + g.csize * k)
  }

  lemma ClusterFits(g: Geometry, k: nat)
    requires k + 2 < g.nFatent
    ensures Sound(g) ==> g.database + g.csize * k == ClusterBase(g, k + 2) < DWORD_RANGE
  {
    if Sound(g) { ClustersApart(g, k + 2, k + 2); }
  }

  /** What an all-ones value reads back as: 12, 16 or 28 bits. */
  function EntryMask(t: FatType): nat {
    match t
    case Fat12 => 0xFFF
    case Fat16 => 0xFFFF
    case Fat32 => 0x0FFF_FFFF
  }

  /** The bits of a value that an entry keeps. */
  function Cut(t: FatType, v: nat): (r: nat)
    ensures r <= EntryMask(t)
    ensures v <= EntryMask(t) ==> r == v
  {
    match t
    case Fat12 => v % 0x1000
    case Fat16 => v % 0x1_0000
    case Fat32 => v % 0x1000_0000
  }

  /** The end-of-chain mark reads back in each sub-type as a value past every cluster number. */
  lemma EndMarkValue(g: Geometry)
    requires Entries(g)
    ensures Cut(g.fatType, 0xFFFF_FFFF) == EntryMask(g.fatType) > g.nFatent
  {
  }
}
