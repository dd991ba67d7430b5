/** An open file: the cursor, the current cluster and the private sector buffer of FIL, and the calls that
    move bytes between a caller's buffer and the clusters of the file. */
module FatFile {
  import opened Machine
  import opened FatGeometry
  import opened FatImage
  import opened FatChains
  import opened FatContent
  import opened FatVolume

  /** The whole sectors of a caller's buffer. */
  function Cells(d: seq<byte>, n: nat): (r: seq<Sector>)
    requires |d| == 512 * n
    ensures |r| == n
    ensures forall t :: 0 <= t < n ==> r[t] == d[512 * t..512 * t + 512]
  {
    seq(n, t requires 0 <= t < n => d[512 * t..512 * t + 512])
  }

  ghost predicate InData(g: Geometry, secs: seq<nat>)
    requires 2 <= g.nFatent
  {
    Distinct(secs) && forall j :: 0 <= j < |secs| ==> FatEnd(g) <= secs[j] < DataEnd(g)
  }

  /** Sectors j.. of the file are cc consecutive sectors of the disk. */
  ghost predicate Consecutive(secs: seq<nat>, j: nat, cc: nat) {
    j + cc <= |secs| && forall k :: j <= k < j + cc ==> secs[k] == secs[j] + (k - j)
  }

  lemma SecsInData(g: Geometry, fat: seq<nat>, chains: set<seq<nat>>, chain: seq<nat>)
    requires Sound(g) && LegalClusters(g, chain) && Partition(fat, chains) && (chain == [] || chain in chains)
    ensures InData(g, Secs(g, chain))
  {
    assert Distinct(chain);
    hide Secs;
    SecsDistinct(g, chain);
  }

  lemma InDataWithin(g: Geometry, secs: seq<nat>, img: seq<Sector>)
    requires 2 <= g.nFatent && InData(g, secs) && DataEnd(g) <= |img|
    ensures Within(img, secs)
  {
  }

  /** Byte p-1 for p at the start of sector r of cluster i, clusters having c sectors. */
  lemma ByteBefore(i: nat, r: nat, c: nat)
    requires r < c && 0 < i * c + r
    ensures var p := 512 * (i * c + r);
            (p - 1) / 512 / c == (if r > 0 then i else i - 1) && (r == 0 ==> 0 < i)
  {
    var p := 512 * (i * c + r);
    assert (p - 1) / 512 == i * c + r - 1;
    if r > 0 {
      DivModOf(i, r - 1, c);
    } else {
      assert i > 0;
      assert i * c - 1 == (i - 1) * c + (c - 1);
      DivModOf(i - 1, c - 1, c);
    }
  }

  lemma ZeroProduct(i: nat, c: nat)
    requires 0 < c && i * c == 0
    ensures i == 0
  {
    if i > 0 { TimesGap(0, i, c); }
  }

  /** Numbers in a stretch of consecutive sectors are sectors of the file. */
  lemma ConsecutiveInside(secs: seq<nat>, j: nat, cc: nat)
    requires 0 < cc && Consecutive(secs, j, cc)
    ensures forall s: nat :: secs[j] <= s < secs[j] + cc ==> s in secs
    ensures secs[j + cc - 1] == secs[j] + cc - 1
  {
    forall s: nat | secs[j] <= s < secs[j] + cc
      ensures s in secs
    {
      assert secs[j + (s - secs[j])] == s;
    }
  }

  lemma FlushedImage(disk: seq<Sector>, sect: nat, buf: Sector)
    requires 0 < sect < |disk|
    ensures var disk' := PutRun(disk, sect, [buf]);
            disk'[sect] == buf && Overlay(disk', sect, buf) == Overlay(disk, sect, buf)
  {
  }

  // ----- which cluster a data sector belongs to

  lemma SectorInArea(g: Geometry, chain: seq<nat>, j: nat)
    requires Sound(g) && LegalClusters(g, chain) && j < |Secs(g, chain)|
    ensures FatEnd(g) <= Secs(g, chain)[j] < DataEnd(g)
  {
    hide Secs;
    SecInCluster(g, chain, j);
    var c := chain[j / g.csize];
    ApartFrom(g, c, c, Secs(g, chain)[j], Secs(g, chain)[j]);
  }

  function ClusterOf(g: Geometry, s: nat): nat
    requires g.database <= s && 0 < g.csize
  {
    (s - g.database) / g.csize + 2
  }

  /** Every sector of a file's chain belongs to one of its clusters. */
  lemma ClusterOfSector(g: Geometry, chain: seq<nat>, j: nat)
    requires 0 < g.csize && LegalClusters(g, chain) && j < |Secs(g, chain)|
    ensures g.database <= Secs(g, chain)[j] && ClusterOf(g, Secs(g, chain)[j]) in chain
  {
    SecOf(g, chain, j);
    var c := chain[j / g.csize];
    DivModOf(c - 2, j % g.csize, g.csize);
    assert c in chain;
  }

  /** A disk with the sector of a buffer replaced by it; sector 0 stands for no sector. */
  function Overlay(disk: seq<Sector>, sect: nat, buf: seq<byte>): (img: seq<Sector>)
    requires sect < |disk| && |buf| == 512
    ensures |img| == |disk|
  {
    if sect != 0 then disk[sect := buf] else disk
  }

  lemma RunCells(was: seq<Sector>, sec: nat, cells: seq<Sector>)
    requires sec + |cells| <= |was|
    ensures PutRun(was, sec, cells)[sec..sec + |cells|] == cells
    ensures forall s: nat :: s < |was| && !(sec <= s < sec + |cells|) ==> PutRun(was, sec, cells)[s] == was[s]
  {
  }

  /** A buffer for sector sect after the given sectors have been written from sec on. */
  function Refreshed(buf: seq<byte>, sect: nat, sec: nat, cells: seq<Sector>): (r: seq<byte>)
    requires |buf| == 512
    ensures |r| == 512
  {
    if sec <= sect < sec + |cells| then cells[sect - sec] else buf
  }

  lemma DirectSector(was: seq<Sector>, secs: seq<nat>, j: nat, cells: seq<Sector>, sect: nat, buf: seq<byte>, q: nat)
    requires Distinct(secs) && Within(was, secs) && sect < |was| && |buf| == 512
    requires 0 < |cells| && Consecutive(secs, j, |cells|) && secs[j] > 0 && secs[j] + |cells| <= |was| && q < |secs|
    ensures var img' := Overlay(PutRun(was, secs[j], cells), sect, Refreshed(buf, sect, secs[j], cells));
            img'[secs[q]] == if j <= q < j + |cells| then cells[q - j] else Overlay(was, sect, buf)[secs[q]]
  {
    hide PutRun;
    OutsideStretch(secs, j, |cells|, q);
    RunAt(was, secs[j], cells, secs[q]);
  }

  lemma RunAt(was: seq<Sector>, sec: nat, cells: seq<Sector>, s: nat)
    requires sec + |cells| <= |was| && s < |was|
    ensures PutRun(was, sec, cells)[s] == if sec <= s < sec + |cells| then cells[s - sec] else was[s]
  {
  }

  lemma DirectLaid(was: seq<Sector>, disk: seq<Sector>, secs: seq<nat>, j: nat, data: seq<byte>, cc: nat,
                   sect: nat, buf0: seq<byte>, buf1: seq<byte>, n: nat, p: nat)
    requires p == 512 * j
    requires Distinct(secs) && Within(was, secs) && |disk| == |was| && sect < |was| && |buf0| == |buf1| == 512
    requires 0 < cc && |data| == 512 * cc && Consecutive(secs, j, cc) && secs[j] > 0
    requires secs[j] + cc <= |was| && disk == PutRun(was, secs[j], Cells(data, cc))
    requires buf1 == Refreshed(buf0, sect, secs[j], Cells(data, cc))
    ensures Within(Overlay(was, sect, buf0), secs)
    ensures Laid(Overlay(was, sect, buf0), Overlay(disk, sect, buf1), secs, n, p, data)
  {
    var img, img' := Overlay(was, sect, buf0), Overlay(disk, sect, buf1);
    hide PutRun;
    hide Overlay;
    hide Refreshed;
    hide Distinct;
    forall q | 0 <= q < |secs|
      ensures img'[secs[q]] == if j <= q < j + cc then Cells(data, cc)[q - j] else img[secs[q]]
    {
      DirectSector(was, secs, j, Cells(data, cc), sect, buf0, q);
    }
    CellsLaid(img, img', secs, n, j, data, cc);
  }

  lemma CellsLaid(img: seq<Sector>, img': seq<Sector>, secs: seq<nat>, n: nat, j: nat, data: seq<byte>, cc: nat)
    requires Within(img, secs) && |img'| == |img| && |data| == 512 * cc
    requires forall q :: 0 <= q < |secs| ==>
               img'[secs[q]] == if j <= q < j + cc then Cells(data, cc)[q - j] else img[secs[q]]
    ensures Laid(img, img', secs, n, 512 * j, data)
  {
    forall q, o | 0 <= q < |secs| && 0 <= o < 512
      ensures if 512 * j <= 512 * q + o < 512 * j + |data| then img'[secs[q]][o] == data[512 * q + o - 512 * j]
              else img'[secs[q]][o] == img[secs[q]][o]
    {
      assert 512 * j <= 512 * q + o < 512 * j + 512 * cc <==> j <= q < j + cc;
      if j <= q < j + cc { CellByte(data, cc, q - j, o); }
    }
  }

  lemma CellByte(data: seq<byte>, cc: nat, t: nat, o: nat)
    requires |data| == 512 * cc && t < cc && o < 512
    ensures Cells(data, cc)[t][o] == data[512 * t + o]
  {
  }

  lemma OutsideStretch(secs: seq<nat>, j: nat, cc: nat, q: nat)
    requires Distinct(secs) && Consecutive(secs, j, cc) && q < |secs| && 0 < cc
    ensures !(j <= q < j + cc) ==> !(secs[j] <= secs[q] < secs[j] + cc)
    ensures j <= q < j + cc ==> secs[q] == secs[j] + (q - j)
  {
    if secs[j] <= secs[q] < secs[j] + cc {
      var k := j + (secs[q] - secs[j]);
      assert secs[k] == secs[q];
    }
  }

  lemma LoadKeeps(disk: seq<Sector>, secs: seq<nat>, j: nat, sect: nat, buf0: seq<byte>, buf1: seq<byte>, n: nat)
    requires Distinct(secs) && Within(disk, secs) && sect < |disk| && |buf0| == |buf1| == 512
    requires j < |secs| && secs[j] > 0 && (sect != 0 ==> buf0 == disk[sect])
    requires (sect == secs[j] && buf1 == buf0) || buf1 == disk[secs[j]] || n <= 512 * j
    ensures forall q :: 0 <= q < |secs| && 512 * q < n ==>
              Overlay(disk, secs[j], buf1)[secs[q]] == Overlay(disk, sect, buf0)[secs[q]]
  {
  }

  /** A sector with d laid over it from offset o0 on. */
  function Patch(buf: seq<byte>, o0: nat, d: seq<byte>): (r: seq<byte>)
    requires |buf| == 512 && o0 + |d| <= 512
    ensures |r| == 512
    ensures forall o :: 0 <= o < 512 ==> r[o] == if o0 <= o < o0 + |d| then d[o - o0] else buf[o]
  {
    buf[..o0] + d + buf[o0 + |d|..]
  }

  /** `memcpy` into a sector buffer. */
  method CopyIn(buf: array<byte>, o0: nat, d: seq<byte>)
    requires buf.Length == 512 && o0 + |d| <= 512
    modifies buf
    ensures buf[..] == Patch(old(buf[..]), o0, d)
  {
    forall o | o0 <= o < o0 + |d| { buf[o] := d[o - o0]; }
  }

  method CopyAll(buf: array<byte>, x: Sector)
    requires buf.Length == 512
    modifies buf
    ensures buf[..] == x
  {
    forall o | 0 <= o < 512 { buf[o] := x[o]; }
  }

  lemma PartialLaid(disk: seq<Sector>, secs: seq<nat>, j: nat, o0: nat, d: seq<byte>, buf: seq<byte>, n: nat, p: nat)
    requires p == 512 * j + o0
    requires Distinct(secs) && Within(disk, secs) && |buf| == 512
    requires j < |secs| && secs[j] > 0 && o0 + |d| <= 512
    ensures Within(Overlay(disk, secs[j], buf), secs)
    ensures Laid(Overlay(disk, secs[j], buf), Overlay(disk, secs[j], Patch(buf, o0, d)), secs, n, p, d)
  {
    var img, img' := Overlay(disk, secs[j], buf), Overlay(disk, secs[j], Patch(buf, o0, d));
    forall q, o | 0 <= q < |secs| && 0 <= o < 512
      ensures if p <= 512 * q + o < p + |d| then img'[secs[q]][o] == d[512 * q + o - p]
              else img'[secs[q]][o] == img[secs[q]][o]
    {
    }
  }

  /** The two images hold the same in a sector, in all of the given sectors. */
  ghost predicate SameIn(a: seq<Sector>, b: seq<Sector>, s: nat) {
    s < |a| && s < |b| && a[s] == b[s]
  }

  ghost predicate SameAt(a: seq<Sector>, b: seq<Sector>, secs: seq<nat>) {
    |a| == |b| && forall j :: 0 <= j < |secs| ==> SameIn(a, b, secs[j])
  }

  lemma OverlaySame(disk: seq<Sector>, disk': seq<Sector>, sect: nat, buf: seq<byte>, secs: seq<nat>)
    requires SameAt(disk', disk, secs) && sect < |disk| && |buf| == 512
    ensures SameAt(Overlay(disk', sect, buf), Overlay(disk, sect, buf), secs)
  {
    assert forall j :: 0 <= j < |secs| ==> SameIn(disk', disk, secs[j]);
  }

  lemma SameWithin(img: seq<Sector>, img': seq<Sector>, secs: seq<nat>)
    requires SameAt(img', img, secs)
    ensures Within(img, secs) && Within(img', secs)
  {
    assert forall j :: 0 <= j < |secs| ==> SameIn(img', img, secs[j]);
  }

  /** Bytes that lie where they lay, in sectors to which others may have been added. */
  lemma BytesMoved(img: seq<Sector>, img': seq<Sector>, secs: seq<nat>, secs': seq<nat>, n: nat)
    requires secs <= secs' && SameAt(img', img, secs) && Within(img, secs) && Within(img', secs') && n <= 512 * |secs|
    ensures Bytes(img', secs', n) == Bytes(img, secs, n)
  {
    hide Bytes;
    assert forall j :: 0 <= j < |secs| ==> SameIn(img', img, secs[j]);
    BytesPrefix(img', secs, secs', n);
    BytesSame(img, img', secs, n);
  }

  lemma ChainLegal(fat: seq<nat>, chains: set<seq<nat>>, ch: seq<nat>)
    requires Partition(fat, chains) && (ch == [] || ch in chains)
    ensures forall i :: 0 <= i < |ch| ==> 2 <= ch[i] < |fat|
  {
  }

  lemma OthersApart(fat: seq<nat>, chains: set<seq<nat>>, ch: seq<nat>)
    requires Partition(fat, chains) && (ch == [] || ch in chains)
    ensures forall a, c :: a in chains - {ch} && c in a ==> c !in ch
  {
    hide IsChain;
    forall a, c | a in chains - {ch} && c in a
      ensures c !in ch
    {
      assert ch != [] ==> Disjoint(a, ch);
    }
  }

  /** The bytes of sectors in a row. */
  function Flat(cells: seq<Sector>): (d: seq<byte>)
    ensures |d| == 512 * |cells|
  {
    seq(512 * |cells|, k requires 0 <= k < 512 * |cells| => cells[k / 512][k % 512])
  }

  /** Sectors read from the disk, with the buffer's data in place of its stale sector. */
  function Patched(disk: seq<Sector>, sec: nat, cc: nat, sect: nat, buf: Sector): (cells: seq<Sector>)
    requires sec + cc <= |disk|
    ensures |cells| == cc
  {
    if sec <= sect < sec + cc then disk[sec..sec + cc][sect - sec := buf] else disk[sec..sec + cc]
  }

  /** They are the bytes of the file there. */
  lemma DirectRead(disk: seq<Sector>, secs: seq<nat>, j: nat, cc: nat, sect: nat, buf: Sector, n: nat)
    requires Within(disk, secs) && Consecutive(secs, j, cc) && 0 < cc && secs[j] > 0 && secs[j] + cc <= |disk|
    requires sect < |disk| && 512 * (j + cc) <= n <= 512 * |secs|
    requires Within(Overlay(disk, sect, buf), secs)
    ensures Flat(Patched(disk, secs[j], cc, sect, buf)) ==
            Bytes(Overlay(disk, sect, buf), secs, n)[512 * j..512 * j + 512 * cc]
  {
    hide Overlay, Patched, Bytes, Flat, Within;
    var img, cells := Overlay(disk, sect, buf), Patched(disk, secs[j], cc, sect, buf);
    var d, c := Flat(cells), Bytes(img, secs, n);
    forall k | 0 <= k < 512 * cc
      ensures d[k] == c[512 * j + k]
    {
      var t, o := k / 512, k % 512;
      PatchedAt(disk, secs, j, cc, sect, buf, t);
      FlatAt(cells, t, o);
      ByteOf(img, secs, n, j + t, o);
      assert 512 * (j + t) + o == 512 * j + k && 512 * t + o == k;
    }
  }

  lemma PatchedAt(disk: seq<Sector>, secs: seq<nat>, j: nat, cc: nat, sect: nat, buf: Sector, t: nat)
    requires t < cc && Consecutive(secs, j, cc) && secs[j] > 0 && secs[j] + cc <= |disk| && sect < |disk|
    ensures secs[j + t] < |disk| && Patched(disk, secs[j], cc, sect, buf)[t] == Overlay(disk, sect, buf)[secs[j + t]]
  {
    assert secs[j + t] == secs[j] + t;
  }

  lemma FlatAt(cells: seq<Sector>, t: nat, o: nat)
    requires t < |cells| && o < 512
    ensures Flat(cells)[512 * t + o] == cells[t][o]
  {
    assert (512 * t + o) / 512 == t && (512 * t + o) % 512 == o;
  }

  lemma ByteOf(img: seq<Sector>, secs: seq<nat>, n: nat, j: nat, o: nat)
    requires Within(img, secs) && j < |secs| && o < 512 && 512 * j + o < n <= 512 * |secs|
    ensures Bytes(img, secs, n)[512 * j + o] == img[secs[j]][o]
  {
    assert (512 * j + o) / 512 == j && (512 * j + o) % 512 == o;
  }

  lemma PartRead(img: seq<Sector>, secs: seq<nat>, j: nat, o0: nat, m: nat, n: nat)
    requires Within(img, secs) && j < |secs| && o0 + m <= 512 && 512 * j + o0 + m <= n <= 512 * |secs|
    ensures Bytes(img, secs, n)[512 * j + o0..512 * j + o0 + m] == img[secs[j]][o0..o0 + m]
  {
    var all := Bytes(img, secs, n);
    var a, b := all[512 * j + o0..512 * j + o0 + m], img[secs[j]][o0..o0 + m];
    forall k | 0 <= k < m
      ensures a[k] == b[k]
    {
      ByteOf(img, secs, n, j, o0 + k);
    }
  }

  /** How many of btw bytes `f_write` tries to write: a file ends before offset 2^32. */
  function ClipWrite(fptr: nat, btw: nat): (r: nat)
    requires fptr < DWORD_RANGE && btw < DWORD_RANGE
    ensures r <= btw && fptr + r < DWORD_RANGE
    ensures r < btw ==> fptr + btw >= DWORD_RANGE && fptr + r == DWORD_RANGE - 1
  {
    if Wrap32(fptr + btw) < fptr then 0xFFFF_FFFF - fptr else btw
  }

  lemma FloorIs(p: nat, c: nat, b: nat)
    requires 0 < c && b == c * 512
    ensures ClusterFloor(p, b) == 512 * (p / 512 / c * c)
    ensures 512 * (p / 512 / c * c) <= p < 512 * (p / 512 / c * c) + 512 * c
  {
    var q := p / 512;
    var i := q / c;
    assert q == i * c + q % c;
    assert p == 512 * q + p % 512;
    var r := 512 * (q % c) + p % 512;
    assert r < b;
    assert p == i * b + r;
    DivModOf(i, r, b);
  }

  /** The start of the cluster that holds byte p, for clusters of bcs bytes: `p & ~(bcs - 1)`, where bcs is a
      power of two. */
  function ClusterFloor(p: nat, bcs: nat): nat
    requires 0 < bcs
  {
    p / bcs * bcs
  }

  /** The test of `f_lseek` for a seek to the same cluster or to one behind it. */
  predicate NotBefore(a: nat, p: nat, bcs: nat)
    requires 0 < bcs
  {
    a / bcs >= p / bcs
  }

  lemma NotBeforeIff(a: nat, p: nat, bcs: nat)
    requires 0 < bcs
    ensures NotBefore(a, p, bcs) <==> ClusterFloor(p, bcs) <= a
  {
    DivGe(a, bcs, p / bcs);
  }

  lemma NextStart(i: nat, c: nat)
    ensures 512 * (i * c) + c * 512 == 512 * ((i + 1) * c)
  {
  }

  lemma Multiple(k: nat)
    ensures 512 * k % 512 == 0
  {
  }

  lemma LandNumbers(i: nat, c: nat, rest: nat)
    requires 0 < rest <= 512 * c
    ensures var p := 512 * (i * c) + rest;
            && (p - 1) / 512 / c == i
            && p % 512 == rest % 512
            && p / 512 == i * c + rest / 512
            && (rest % 512 != 0 ==> rest / 512 < c)
  {
    var k := i * c;
    assert (512 * k + rest - 1) / 512 == k + (rest - 1) / 512;
    DivModOf(i, (rest - 1) / 512, c);
  }

  lemma DivGe(a: nat, b: nat, q: nat)
    requires 0 < b
    ensures a / b >= q <==> q * b <= a
  {
    assert a == a / b * b + a % b;
    if a / b >= q {
      TimesLe(q, a / b, b);
    } else {
      TimesGap(a / b, q, b);
    }
  }

  /** What an open file remembers of its volume: the chains of the other files, all sectors, the sector in the
      window, and whether a known free count was exact. */
  datatype View = View(others: set<seq<nat>>, image: seq<Sector>, winsect: nat, exact: bool)

  class Fil {
    const fs: Fatfs
    const buf: array<byte>
    const canRead: bool
    const canWrite: bool
    var dirty: bool
    var modified: bool
    var fptr: nat
    var clust: nat
    var sect: nat
    var objsize: nat
    var sclust: nat
    ghost var chain: seq<nat>
    /** The volume when the file was opened, or when another file had last been worked on. */
    ghost var view: View
    /** The clusters the file has had since then. */
    ghost var owned: set<nat>
    /** Whether the buffer may stand for a sector that a truncation took from the file. */
    ghost var cut: bool

    /** The sectors of the file's clusters, in file order. */
    ghost function Sectors(): (s: seq<nat>)
      reads this`chain
    {
      if 0 < fs.g.csize && LegalClusters(fs.g, chain) then Secs(fs.g, chain) else []
    }

    ghost predicate Headed()
      reads this`sclust, this`chain
    {
      if sclust == 0 then chain == [] else |chain| > 0 && chain[0] == sclust
    }

    ghost predicate Owned(s: nat)
      reads this`owned
    {
      0 < fs.g.csize && fs.g.database <= s && ClusterOf(fs.g, s) in owned
    }

    /** Outside the FATs and the file's clusters the volume is as in the view. */
    ghost predicate Untouched(img: seq<Sector>)
      reads this`owned, this`view
    {
      && |img| == |view.image|
      && forall s: nat :: s < |img| && !InFats(fs.g, s) && !Owned(s) ==> img[s] == view.image[s]
    }

    /** The file's clusters are one chain of the volume; the window stands for none of its sectors. */
    ghost predicate Placed()
      reads this`chain, this`sclust, fs, fs.win
    {
      && fs.Consistent()
      && Headed() && LegalClusters(fs.g, chain)
      && (chain == [] || chain in fs.chains)
      && InData(fs.g, Sectors())
      && fs.winsect !in Sectors()
    }

    /** The file is the only thing that has changed since the view was taken: the other files have their chains and
        never had one of its clusters. */
    ghost predicate ViewKept()
      reads this`chain, this`owned, this`view, fs, fs.win
      requires fs.Valid()
    {
      && fs.chains - {chain} == view.others
      && (fs.winsect == view.winsect || InFirstFat(fs.g, fs.winsect))
      && (forall c :: c in chain ==> c in owned)
      && (forall a, c :: a in view.others && c in a ==> c !in owned)
      && Untouched(fs.Image())
      && MirrorKept(fs.Image())
      && (view.exact ==> FreeExact(fs.State()))
    }

    ghost predicate OnVolume()
      reads this`chain, this`sclust, this`owned, this`view, fs, fs.win
    {
      Placed() && ViewKept()
    }

    /** FATs that are equal in the view are equal. */
    ghost predicate MirrorKept(img: seq<Sector>)
      reads this`view
    {
      && OnDisk(fs.g, view.image) && OnDisk(fs.g, img)
      && (Mirrored(fs.g, view.image) ==> Mirrored(fs.g, img))
    }

    /** The buffer stands for no sector or for one of the file. */
    ghost predicate Anchored()
      reads this`sect, this`chain
    {
      sect != 0 ==> sect in Sectors()
    }

    /** The buffer stands for a sector of the data area, or for none when sect is 0; a dirty one for a
        sector of the file. */
    ghost predicate Buffered()
      reads this`sect, this`dirty, this`chain, this`cut, fs`disk, fs`winsect
    {
      && buf.Length == 512 && buf != fs.win
      && sect < |fs.disk|
      && (sect != 0 ==> FatEnd(fs.g) <= sect && sect != fs.winsect)
      && (dirty ==> sect != 0 && sect in Sectors())
      && (!cut ==> Anchored())
    }

    ghost predicate Sized()
      reads this`fptr, this`objsize, this`chain
    {
      fptr <= objsize < DWORD_RANGE && objsize <= 512 * |Sectors()|
    }

    ghost predicate Core()
      reads this`chain, this`sclust, this`owned, this`view, this`cut, this`sect, this`dirty, this`fptr, this`objsize
      reads fs, fs.win
    {
      OnVolume() && Buffered() && Sized()
    }

    /** A clean buffer equals the sector it stands for. */
    ghost predicate Coherent()
      reads this`sect, this`dirty, buf, fs`disk
    {
      sect != 0 && !dirty ==> sect < |fs.disk| && buf[..] == fs.disk[sect]
    }

    /** clust is the cluster that holds byte p. */
    ghost predicate InCurrentCluster(p: nat)
      reads this`clust, this`chain
    {
      0 < fs.g.csize && p / 512 / fs.g.csize < |chain| && clust == chain[p / 512 / fs.g.csize]
    }

    /** The buffer stands for the sector that holds byte p. */
    ghost predicate InBuffer(p: nat)
      reads this`sect, this`chain
    {
      p / 512 < |Sectors()| && sect == Sectors()[p / 512]
    }

    /** For a cursor p > 0, clust holds byte p-1; for a cursor inside a sector, the buffer holds byte p. */
    ghost predicate PositionedAt(p: nat)
      reads this`clust, this`sect, this`chain
    {
      && (p > 0 ==> InCurrentCluster(p - 1))
      && (p % 512 != 0 ==> InBuffer(p))
    }

    ghost predicate Valid()
      reads this, buf, fs, fs.win
    {
      Core() && Coherent() && PositionedAt(fptr)
    }

    /** The disk with the buffer laid over the sector it stands for. */
    ghost function Image(): (img: seq<Sector>)
      reads this`sect, buf, fs`disk
    {
      if sect < |fs.disk| && buf.Length == 512 then Overlay(fs.disk, sect, buf[..]) else fs.disk
    }

    /** What the file holds. */
    ghost function Content(): (c: seq<byte>)
      reads this`chain, this`sclust, this`owned, this`view, this`cut, this`sect, this`dirty, this`fptr, this`objsize
      reads buf, fs, fs.win
      requires Core()
      ensures |c| == objsize && fptr <= |c| < DWORD_RANGE
    {
      InDataWithin(fs.g, Sectors(), Image());
      Bytes(Image(), Sectors(), objsize)
    }

    /** A file that is not marked as modified has the start cluster and the bytes that it had. */
    twostate predicate ChangeMarked()
      reads this, buf, fs, fs.win
      requires old(Core()) && Core()
    {
      (old(modified) ==> modified) && (!modified ==> sclust == old(sclust) && Content() == old(Content()))
    }

    /** A file just opened: its directory entry gives the start cluster and the size. */
    constructor (fs: Fatfs, sclust: nat, objsize: nat, canRead: bool, canWrite: bool, ghost chain: seq<nat>)
      requires fs.Consistent()
      requires if sclust == 0 then chain == [] else |chain| > 0 && chain in fs.chains && chain[0] == sclust
      requires LegalClusters(fs.g, chain) && objsize < DWORD_RANGE && objsize <= 512 * |Secs(fs.g, chain)|
      requires fs.winsect !in Secs(fs.g, chain)
      ensures Valid() && fresh(buf) && this.fs == fs && this.chain == chain
      ensures this.canRead == canRead && this.canWrite == canWrite && fptr == 0
      ensures this.objsize == objsize && this.sclust == sclust && sect == 0 && !modified
      ensures view == View(fs.chains - {chain}, fs.Image(), fs.winsect, FreeExact(fs.State())) && !cut
    {
      hide Partition, FreeExact, Mirrored, Fatfs.Fat, Fatfs.FatB, Fatfs.Image, Secs;
      SecsInData(fs.g, fs.Fat(), fs.chains, chain);
      this.fs, this.sclust, this.objsize, this.canRead, this.canWrite := fs, sclust, objsize, canRead, canWrite;
      this.fptr, this.sect, this.clust, this.dirty, this.modified := 0, 0, 0, false, false;
      this.chain, this.owned := chain, set c | c in chain;
      this.view := View(fs.chains - {chain}, fs.Image(), fs.winsect, FreeExact(fs.State()));
      this.cut := false;
      this.buf := new byte[512](i => 0);
      new;
      OthersApart(fs.Fat(), fs.chains, chain);
    }

    /** What the parts of Core say without their definitions. */
    lemma CoreFacts()
      requires OnVolume()
      ensures Sound(fs.g) && LegalClusters(fs.g, chain) && fs.Consistent() && |fs.disk| <= DWORD_RANGE
      ensures Distinct(Sectors()) && Within(fs.disk, Sectors()) && Within(Image(), Sectors())
      ensures Sectors() == Secs(fs.g, chain)
      ensures forall j :: 0 <= j < |Sectors()| ==>
                0 < FatEnd(fs.g) <= Sectors()[j] < |fs.disk| && Sectors()[j] != fs.winsect
    {
      hide Secs, ViewKept, Partition, Fatfs.Image, Fatfs.Fat, Fatfs.FatB;
      InDataWithin(fs.g, Sectors(), fs.disk);
      assert forall j :: 0 <= j < |Sectors()| ==> Sectors()[j] in Sectors();
    }

    /** Since the file was opened, or its view renewed, no other file has lost a cluster or had a sector changed. */
    lemma OtherFilesIntact(a: seq<nat>, j: nat)
      requires Valid() && a in view.others && LegalClusters(fs.g, a) && 0 < fs.g.csize && j < |Secs(fs.g, a)|
      ensures a in fs.chains
      ensures Secs(fs.g, a)[j] < |view.image| == |fs.Image()|
      ensures fs.Image()[Secs(fs.g, a)[j]] == view.image[Secs(fs.g, a)[j]]
    {
      hide Partition;
      hide FreeExact;
      hide Fatfs.Fat;
      hide Fatfs.FatB;
      hide Fatfs.Image;
      hide Fatfs.WindowOk;
      hide Secs;
      hide ClusterOf;
      hide ClusterBase;
      hide InData;
      CoreFacts();
      ClusterOfSector(fs.g, a, j);
      SectorInArea(fs.g, a, j);
    }

    // ----- the chain

    /** The volume has been worked on, and at most more clusters were linked to the file. */
    twostate predicate Moved()
      reads this`chain, this`sclust, this`owned, this`view, fs, fs.win
      requires old(OnVolume())
    {
      && fs.Consistent() && fs.OnlyFatsChanged() && fs.DataKept() && fs.CountKept()
      && Headed() && (chain == [] || chain in fs.chains)
      && old(chain) <= chain && owned == old(owned) + (set c | c in chain)
      && (chain != old(chain) ==> InFirstFat(fs.g, fs.winsect))
      && view == old(view) && fs.chains - {chain} == view.others
    }

    /** What changes only in the FATs, while the file loses no cluster it has had, is as in the view elsewhere. */
    twostate lemma StillUntouched()
      requires old(fs.WindowOk()) && fs.WindowOk() && fs.OnlyFatsChanged()
      requires old(Untouched(fs.Image())) && old(MirrorKept(fs.Image()))
      requires view == old(view) && old(owned) <= owned
      ensures Untouched(fs.Image()) && MirrorKept(fs.Image())
    {
      hide Fatfs.WindowOk, Fatfs.Image, ClusterOf, InFats, Mirrored;
      fs.ImageOnDisk();
    }

    /** The window stays off the file's sectors. */
    twostate lemma WindowStaysOff()
      requires old(fs.winsect !in Sectors()) && old(fs.winsect == view.winsect || InFirstFat(fs.g, fs.winsect))
      requires fs.winsect == old(fs.winsect) || InFirstFat(fs.g, fs.winsect)
      requires forall x :: x in Sectors() && x !in old(Sectors()) ==> InFirstFat(fs.g, fs.winsect)
      requires view == old(view) && forall j :: 0 <= j < |Sectors()| ==> FatEnd(fs.g) <= Sectors()[j]
      ensures fs.winsect !in Sectors()
      ensures fs.winsect == view.winsect || InFirstFat(fs.g, fs.winsect)
    {
    }

    twostate lemma VolumeMoved()
      requires old(OnVolume()) && Moved()
      ensures OnVolume() && old(Sectors()) <= Sectors()
    {
      hide Fatfs.WindowOk, Fatfs.Fat, Fatfs.FatB, Fatfs.Image, FreeExact, Partition, Secs, Untouched, MirrorKept;
      hide InFirstFat, Fatfs.OnlyFatsChanged;
      ChainLegal(fs.Fat(), fs.chains, chain);
      SecsInData(fs.g, fs.Fat(), fs.chains, chain);
      SecsPrefix(fs.g, old(chain), chain);
      OthersApart(fs.Fat(), fs.chains, chain);
      StillUntouched();
      WindowStaysOff();
    }

    /** The same bytes lie where they lay. */
    twostate lemma ContentKept()
      requires old(Core()) && Core()
      requires sect == old(sect) && objsize == old(objsize) && buf[..] == old(buf[..])
      requires old(Sectors()) <= Sectors() && SameAt(fs.disk, old(fs.disk), old(Sectors()))
      ensures Content() == old(Content())
    {
      hide Secs, OnVolume, Bytes, Overlay, SameAt, Within;
      CoreFacts();
      OverlaySame(old(fs.disk), fs.disk, sect, buf[..], old(Sectors()));
      SameWithin(old(Image()), Image(), old(Sectors()));
      BytesMoved(old(Image()), Image(), old(Sectors()), Sectors(), objsize);
    }

    /** After work on the volume the file is as it was, with room for more at most. */
    twostate lemma FileMoved()
      requires old(Core()) && old(Coherent()) && Moved()
      requires unchanged(this`sect) && unchanged(this`dirty) && unchanged(this`cut)
      requires unchanged(this`fptr) && unchanged(this`objsize) && buf[..] == old(buf[..])
      ensures Core() && Coherent() && old(Sectors()) <= Sectors() && Content() == old(Content())
    {
      hide Secs, Bytes, OnVolume, Buffered, Coherent, Moved, Fatfs.WindowOk, Fatfs.Image, Fatfs.DataKept, SameAt;
      hide Content, Fatfs.Consistent, Sound, LegalClusters;
      DataMoved();
      VolumeMoved();
      CoreFacts();
      BufferMoved();
      ContentKept();
    }

    twostate lemma DataMoved()
      requires old(OnVolume()) && Moved()
      ensures |fs.disk| == |old(fs.disk)| && fs.DataKept() && SameAt(fs.disk, old(fs.disk), old(Sectors()))
      ensures fs.winsect == old(fs.winsect) || InFirstFat(fs.g, fs.winsect)
    {
      hide Secs, ViewKept, Partition, Fatfs.WindowOk, Fatfs.Fat, Fatfs.FatB, Fatfs.Image, FreeExact;
      var before := old(Sectors());
      assert forall j :: 0 <= j < |before| ==> before[j] in before;
    }

    twostate lemma BufferMoved()
      requires old(Buffered()) && old(Coherent()) && fs.DataKept() && old(Sectors()) <= Sectors()
      requires unchanged(this`sect) && unchanged(this`dirty) && unchanged(this`cut) && buf[..] == old(buf[..])
      ensures Buffered() && Coherent()
    {
      hide Secs;
      var before := old(Sectors());
      assert forall j :: 0 <= j < |before| ==> Sectors()[j] == before[j];
      assert forall x :: x in before ==> x in Sectors();
    }

    /** `create_chain` for a file that has no cluster yet; 0 when the disk is full. */
    method FirstCluster() returns (clst: nat)
      requires Core() && Coherent() && sclust == 0
      modifies this`sclust, this`chain, this`owned
      modifies fs`disk, fs`wflag, fs`winsect, fs`freeClst, fs`lastClst, fs`fsiFlag, fs`chains, fs.win
      ensures Core() && Coherent() && Content() == old(Content())
      ensures clst == sclust && chain == (if clst == 0 then [] else [clst])
      ensures clst == 0 ==> Full(fs.State())
    {
      hide Secs, Partition, FreeExact, Fatfs.WindowOk, Fatfs.Fat, Fatfs.FatB, Fatfs.Image, Bytes, InData, Untouched;
      hide NoFreeCluster, MirrorKept, Swapped, Buffered, Sized, Coherent, Full, Content;
      BufferApart();
      clst := fs.Grow([], 0, 0);
      if clst != 0 {
        sclust := clst;
        chain := [] + [clst];
        owned := owned + set c | c in chain;
        GrownOthers(old(fs.chains), [], chain);
      }
      FileMoved();
    }

    /** `create_chain` on cluster i of the file: the next cluster, a new one, or 0 when the disk is full. */
    method FollowOrStretch(ghost i: nat, clst: nat) returns (r: nat)
      requires Core() && Coherent() && i < |chain| && clst == chain[i]
      modifies this`chain, this`owned
      modifies fs`disk, fs`wflag, fs`winsect, fs`freeClst, fs`lastClst, fs`fsiFlag, fs`chains, fs.win
      ensures Core() && Coherent() && Content() == old(Content())
      ensures old(chain) <= chain && old(Sectors()) <= Sectors()
      ensures r != 0 ==> i + 1 < |chain| && chain[i + 1] == r
      ensures r == 0 ==> i + 1 == |chain| && chain == old(chain) && Full(fs.State())
    {
      hide Secs, Partition, FreeExact, Fatfs.WindowOk, Fatfs.Fat, Fatfs.FatB, Fatfs.Image, Bytes, InData, Untouched;
      hide NoFreeCluster, MirrorKept, Swapped, Buffered, Sized, Coherent, Full, Content;
      BufferApart();
      r := fs.Grow(chain, i, clst);
      if i + 1 >= |chain| && r != 0 {
        chain := chain + [r];
        owned := owned + set c | c in chain;
        GrownOthers(old(fs.chains), old(chain), chain);
      }
      FileMoved();
    }

    /** `get_fat` on cluster i of the file: the next cluster, or a value past every cluster. */
    method FollowOn(ghost i: nat, clst: nat) returns (r: nat)
      requires Core() && Coherent() && i < |chain| && clst == chain[i]
      modifies fs`disk, fs`wflag, fs`winsect, fs.win
      ensures Core() && Coherent() && Content() == old(Content()) && fs.Fat() == old(fs.Fat())
      ensures r >= 2 && if i + 1 < |chain| then r == chain[i + 1] else r >= fs.g.nFatent
    {
      hide Secs, Partition, FreeExact, Fatfs.WindowOk, Fatfs.Fat, Fatfs.FatB, Fatfs.Image, Bytes, InData, Untouched;
      hide MirrorKept, Buffered, Coherent;
      BufferApart();
      CoreFacts();
      r := fs.Follow(chain, i, clst);
      FileMoved();
    }

    // ----- the cursor

    /** The cursor stands at the start of sector r of cluster i. */
    ghost predicate AtSector(i: nat, r: nat)
      reads this`fptr
    {
      fptr == 512 * (i * fs.g.csize + r) && r < fs.g.csize
    }

    /** The offset of the cursor's sector in its cluster. */
    method CursorSector() returns (csect: nat, ghost i: nat)
      requires Sound(fs.g) && fptr % 512 == 0
      ensures AtSector(i, csect)
    {
      csect := fptr / 512 % fs.g.csize;
      i := fptr / 512 / fs.g.csize;
      assert fptr / 512 == i * fs.g.csize + csect;
    }

    /** On a cluster boundary clust is the cluster behind the cursor, elsewhere the one under it. */
    lemma ClusterHere(i: nat, r: nat)
      requires PositionedAt(fptr) && AtSector(i, r)
      requires fptr > 0 || r > 0
      ensures r > 0 ==> i < |chain| && clust == chain[i]
      ensures r == 0 ==> 0 < i <= |chain| && clust == chain[i - 1]
    {
      ByteBefore(i, r, fs.g.csize);
    }

    /** Sector r of cluster i, and those after it in the cluster, are consecutive on the disk. */
    lemma SectorsHere(i: nat, r: nat, cc: nat)
      requires LegalClusters(fs.g, chain) && i < |chain| && r + cc <= fs.g.csize && 0 < cc
      ensures var j := i * fs.g.csize + r;
              && j < |Sectors()| && Sectors()[j] == ClusterBase(fs.g, chain[i]) + r
              && Consecutive(Sectors(), j, cc)
    {
      hide Secs;
      hide ClusterBase;
      hide Sound;
      var j := i * fs.g.csize + r;
      SecAt(fs.g, chain, i, r);
      SecAt(fs.g, chain, i, r + cc - 1);
      forall k | j <= k < j + cc
        ensures Sectors()[k] == Sectors()[j] + (k - j)
      {
        SecAt(fs.g, chain, i, r + (k - j));
      }
    }

    /** Where the cursor stands after n bytes that stay in sector j. */
    lemma AfterPart(j: nat, p: nat)
      requires InCurrentCluster(512 * j)
      requires j < |Sectors()| && sect == Sectors()[j] && 512 * j < p <= 512 * j + 512
      ensures PositionedAt(p)
    {
      assert (p - 1) / 512 == j && 512 * j / 512 == j;
      if p % 512 != 0 { assert p / 512 == j; }
    }

    /** The sectors a direct transfer of cc sectors touches, and where the cursor stands after it. */
    lemma RunFacts(i: nat, csect: nat, cc: nat) returns (j: nat)
      requires Sound(fs.g) && LegalClusters(fs.g, chain) && AtSector(i, csect) && i < |chain| && clust == chain[i]
      requires 0 < cc && csect + cc <= fs.g.csize
      ensures fptr == 512 * j && Consecutive(Sectors(), j, cc)
      ensures j < |Sectors()| && Sectors()[j] == ClusterBase(fs.g, clust) + csect
      ensures PositionedAt(fptr + 512 * cc) && fptr + 512 * cc <= 512 * |Sectors()|
      ensures InCurrentCluster(512 * j)
    {
      j := i * fs.g.csize + csect;
      SectorsHere(i, csect, cc);
      var p := fptr + 512 * cc;
      DivModOf(i, csect + cc - 1, fs.g.csize);
      DivModOf(i, csect, fs.g.csize);
      assert (p - 1) / 512 == i * fs.g.csize + (csect + cc - 1);
      assert p % 512 == 0 && 512 * j / 512 == j;
    }

    // ----- whole sectors

    /** A transfer to consecutive sectors of the file. */
    method PutSectors(ghost j: nat, sec: nat, cells: seq<Sector>)
      requires Core() && 0 < |cells| && Consecutive(Sectors(), j, |cells|) && sec == Sectors()[j]
      modifies fs`disk
      ensures Core() && fs.Fat() == old(fs.Fat())
      ensures sec > 0 && sec + |cells| <= |fs.disk| == |old(fs.disk)|
      ensures fs.disk == PutRun(old(fs.disk), sec, cells)
    {
      hide Secs;
      hide Partition;
      hide FreeExact;
      hide Fatfs.WindowOk;
      hide Fatfs.Fat;
      hide Fatfs.FatB;
      hide Fatfs.Image;
      hide InData;
      hide Owned;
      hide Untouched;
      hide Consecutive;
      hide PutRun;
      CoreFacts();
      RunOwned(j, |cells|);
      ghost var img := fs.Image();
      fs.DiskWrite(sec, cells);
      UntouchedRun(img, fs.Image(), sec, |cells|);
    }

    lemma UntouchedRun(img: seq<Sector>, img': seq<Sector>, sec: nat, n: nat)
      requires Untouched(img) && |img'| == |img|
      requires forall s: nat :: s < |img| && !(sec <= s < sec + n) ==> img'[s] == img[s]
      requires forall s: nat :: sec <= s < sec + n ==> Owned(s)
      ensures Untouched(img')
    {
      hide Owned;
    }

    lemma RunOwned(j: nat, n: nat)
      requires OnVolume() && 0 < n && Consecutive(Sectors(), j, n)
      ensures var sec := Sectors()[j];
              && (forall s: nat :: sec <= s < sec + n ==> Owned(s))
              && !(sec <= fs.winsect < sec + n)
              && 0 < FatEnd(fs.g) <= sec && sec + n <= |fs.disk|
    {
      CoreFacts();
      ConsecutiveInside(Sectors(), j, n);
      SectorsOwned();
      hide OnVolume;
      hide Owned;
      var secs := Sectors();
      assert Sectors()[j + n - 1] < |fs.disk|;
      forall s: nat | secs[j] <= s < secs[j] + n
        ensures Owned(s) && s != fs.winsect
      {
        assert s in secs;
        assert exists k :: 0 <= k < |secs| && secs[k] == s;
      }
    }

    lemma SectorsOwned()
      requires OnVolume()
      ensures forall s :: s in Sectors() ==> Owned(s)
    {
      forall s | s in Sectors()
        ensures Owned(s)
      {
        var j :| 0 <= j < |Sectors()| && Sectors()[j] == s;
        ClusterOfSector(fs.g, chain, j);
      }
    }

    /** Writes a dirty buffer back. */
    method Flush()
      requires Core() && Coherent()
      modifies fs`disk, this`dirty
      ensures Core() && Coherent() && !dirty
      ensures Content() == old(Content()) && fs.Fat() == old(fs.Fat())
    {
      hide OnVolume;
      hide Overlay;
      hide PutRun;
      hide Bytes;
      hide Secs;
      if dirty {
        ghost var j :| 0 <= j < |Sectors()| && Sectors()[j] == sect;
        PutSectors(j, sect, [buf[..]]);
        FlushedImage(old(fs.disk), sect, buf[..]);
        dirty := false;
      }
    }

    // ----- f_write

    /** On a cluster boundary, `f_write` follows the chain or stretches it; false when the disk is full. */
    method NextForWrite(ghost i: nat) returns (ok: bool)
      requires Core() && Coherent() && PositionedAt(fptr) && AtSector(i, 0)
      modifies this`clust, this`sclust, this`chain, this`owned
      modifies fs`disk, fs`wflag, fs`winsect, fs`freeClst, fs`lastClst, fs`fsiFlag, fs`chains, fs.win
      ensures Core() && Coherent() && Content() == old(Content())
      ensures old(chain) <= chain
      ensures ok ==> i < |chain| && clust == chain[i]
      ensures !ok ==> chain == old(chain) && clust == old(clust) && Full(fs.State())
    {
      hide Secs;
      hide OnVolume;
      hide Buffered;
      hide Sized;
      hide Bytes;
      hide PositionedAt;
      hide NoFreeCluster;
      hide Coherent;
      var clst;
      if fptr == 0 {
        CoreFacts();
        HeadFacts();
        ZeroProduct(i, fs.g.csize);
        clst := sclust;
        if clst == 0 {
          clst := FirstCluster();
        }
      } else {
        ClusterHere(i, 0);
        clst := FollowOrStretch(i - 1, clust);
      }
      if clst == 0 { return false; }
      clust := clst;
      ok := true;
    }

    lemma BufferApart()
      requires Buffered()
      ensures buf.Length == 512 && buf != fs.win
    {
    }

    lemma HeadFacts()
      requires OnVolume()
      ensures if sclust == 0 then chain == [] else |chain| > 0 && chain[0] == sclust
    {
    }

    /** The start of a round of `f_write` on a sector boundary: find the cluster, write a dirty buffer back,
        compute the sector. False when the disk is full. */
    method BeginSector() returns (ok: bool, sec: nat, csect: nat, ghost i: nat)
      requires Valid() && fptr % 512 == 0
      modifies this`clust, this`sclust, this`chain, this`owned, this`dirty
      modifies fs`disk, fs`wflag, fs`winsect, fs`freeClst, fs`lastClst, fs`fsiFlag, fs`chains, fs.win
      ensures Core() && Coherent() && Content() == old(Content())
      ensures old(chain) <= chain
      ensures ok ==>
                && !dirty && AtSector(i, csect) && i < |chain| && clust == chain[i]
                && sec == ClusterBase(fs.g, clust) + csect
      ensures !ok ==> PositionedAt(fptr) && Full(fs.State())
    {
      hide Core, Bytes, Full, Coherent, AtSector, PositionedAt, ClusterBase, Sound, Fatfs.Valid, Content;
      SoundVolume();
      csect, i := CursorSector();
      ok, sec := true, 0;
      if csect == 0 {
        ok := NextForWrite(i);
        if !ok { return; }
      } else {
        ClusterHere(i, csect);
      }
      Flush();
      sec := SectorOfCluster(i, csect);
    }

    lemma SoundVolume()
      requires Core()
      ensures Sound(fs.g)
    {
      hide Secs, OnVolume;
      CoreFacts();
    }

    /** The sector number of sector csect of cluster i. */
    method SectorOfCluster(ghost i: nat, csect: nat) returns (sec: nat)
      requires Core() && i < |chain| && clust == chain[i]
      ensures sec == ClusterBase(fs.g, clust) + csect
    {
      hide Secs, OnVolume;
      CoreFacts();
      sec := ClstToSect(fs.g, clust);
      assert sec != 0; // the abort for an invalid cluster is never taken
      sec := sec + csect;
    }

    /** After a direct write, a buffer that stands for one of the sectors gets the new data. */
    method Refresh(sec: nat, cells: seq<Sector>)
      requires Core() && !dirty && 0 < |cells| && sec + |cells| <= |fs.disk|
      requires fs.disk[sec..sec + |cells|] == cells
      requires sect != 0 && !(sec <= sect < sec + |cells|) ==> buf[..] == fs.disk[sect]
      modifies this`dirty, buf
      ensures Core() && Coherent() && !dirty
      ensures buf[..] == Refreshed(old(buf[..]), sect, sec, cells)
    {
      hide Secs;
      hide OnVolume;
      hide Sized;
      CoreFacts();
      Sub32Range(sect, sec, |cells|);
      if Sub32(sect, sec) < |cells| {
        assert fs.disk[sec..sec + |cells|][sect - sec] == fs.disk[sect];
        CopyAll(buf, cells[sect - sec]);
        dirty := false;
      }
    }

    /** Whole sectors go straight to the disk; the buffer is refreshed when it stands for one of them. */
    method WriteDirect(ghost j: nat, sec: nat, cc: nat, data: seq<byte>)
      requires Core() && Coherent() && !dirty && fptr == 512 * j
      requires 0 < cc && |data| == 512 * cc && Consecutive(Sectors(), j, cc) && sec == Sectors()[j]
      modifies fs`disk, this`dirty, buf
      ensures Core() && Coherent() && !dirty && fs.Fat() == old(fs.Fat())
      ensures Within(old(Image()), Sectors()) && |Image()| == |old(Image())|
      ensures Laid(old(Image()), Image(), Sectors(), objsize, fptr, data)
    {
      hide Secs;
      hide OnVolume;
      hide Sized;
      hide Laid;
      hide Cells;
      hide Refreshed;
      hide Overlay;
      hide Distinct;
      hide Within;
      CoreFacts();
      var cells := Cells(data, cc);
      ghost var was := fs.disk;
      PutSectors(j, sec, cells);
      RunCells(was, sec, cells);
      Refresh(sec, cells);
      hide PutRun;
      DirectLaid(was, fs.disk, Sectors(), j, data, cc, sect, old(buf[..]), buf[..], objsize, fptr);
    }

    /** The clean buffer has been given to sector j of the file: it keeps its data if it stood for it before, or has
        the sector's data, or the file does not reach the sector yet. */
    twostate lemma BufferLoaded(j: nat)
      requires old(Core()) && old(Coherent()) && !dirty
      requires unchanged(this`chain, this`sclust, this`owned, this`view, this`cut, this`dirty, this`fptr, this`objsize)
      requires unchanged(fs, fs.win) && j < |Sectors()| && sect == Sectors()[j]
      requires (sect == old(sect) && buf[..] == old(buf[..])) || buf[..] == fs.disk[sect] || objsize <= 512 * j
      ensures Core() && Content() == old(Content())
    {
      hide Secs, OnVolume, Bytes, Overlay;
      CoreFacts();
      LoadKeeps(fs.disk, Sectors(), j, old(sect), old(buf[..]), buf[..], objsize);
      BytesSame(old(Image()), Image(), Sectors(), objsize);
    }

    /** At a sector boundary with less than a sector to write: the buffer gets the sector's data, except on
        the growing edge of the file, where it holds nothing of the file yet. */
    method LoadForWrite(ghost j: nat, sec: nat)
      requires Core() && Coherent() && !dirty && fptr == 512 * j && j < |Sectors()| && sec == Sectors()[j]
      modifies this`sect, buf
      ensures Core() && sect == sec && Content() == old(Content())
    {
      hide Secs, OnVolume, Bytes, Overlay, Core;
      SectorPresent(j);
      if sect != sec && fptr < objsize {
        CopyAll(buf, fs.disk[sec]);
      }
      sect := sec;
      BufferLoaded(j);
    }

    lemma SectorPresent(j: nat)
      requires Core() && j < |Sectors()|
      ensures 0 < Sectors()[j] < |fs.disk| && buf.Length == 512 && buf != fs.win
    {
      hide Secs, OnVolume;
      CoreFacts();
    }

    /** Part of a sector, from offset o0 of it, goes to the buffer. */
    method PutPartial(ghost j: nat, o0: nat, d: seq<byte>)
      requires Core() && fptr == 512 * j + o0 && o0 + |d| <= 512
      requires j < |Sectors()| && sect == Sectors()[j]
      modifies this`dirty, buf
      ensures Core() && Coherent() && dirty
      ensures Within(old(Image()), Sectors()) && |Image()| == |old(Image())|
      ensures Laid(old(Image()), Image(), Sectors(), objsize, fptr, d)
    {
      hide Secs;
      hide OnVolume;
      hide Sized;
      hide Laid;
      hide Distinct;
      hide Overlay;
      hide Patch;
      CoreFacts();
      PartialLaid(fs.disk, Sectors(), j, o0, d, buf[..], objsize, fptr);
      CopyIn(buf, o0, d);
      dirty := true;
      CoreFacts();
    }

    /** The loop increment of `f_write`: cursor and size move past the n bytes d just stored. */
    method Advance(n: nat, ghost d: seq<byte>, ghost img: seq<Sector>)
      requires Core() && Coherent() && |d| == n > 0
      requires fptr + n < DWORD_RANGE && fptr + n <= 512 * |Sectors()|
      requires |img| == |Image()| && Within(img, Sectors()) && Laid(img, Image(), Sectors(), objsize, fptr, d)
      requires PositionedAt(fptr + n)
      modifies this`fptr, this`objsize
      ensures Valid() && fptr == old(fptr) + n
      ensures Content() == Splice(Bytes(img, Sectors(), old(objsize)), old(fptr), d)
    {
      hide Secs;
      hide OnVolume;
      hide Buffered;
      hide Coherent;
      hide Laid;
      hide Splice;
      hide Bytes;
      hide PositionedAt;
      hide Within;
      CoreFacts();
      LaidIsSplice(img, Image(), Sectors(), objsize, fptr, d);
      fptr := fptr + n;
      objsize := if fptr > objsize then fptr else objsize;
    }

    method StoreExactly(ghost j: nat, o0: nat, d: seq<byte>)
      requires Core() && fptr == 512 * j + o0 && 0 < |d| <= 512 - o0 && fptr + |d| < DWORD_RANGE
      requires j < |Sectors()| && sect == Sectors()[j] && InCurrentCluster(512 * j)
      modifies this`fptr, this`objsize, this`dirty, buf
      ensures Valid() && fptr == old(fptr) + |d|
      ensures Content() == Splice(old(Content()), old(fptr), d) && fs.Fat() == old(fs.Fat())
    {
      hide Secs;
      hide OnVolume;
      hide Buffered;
      hide Coherent;
      hide Laid;
      hide Splice;
      hide Bytes;
      hide InCurrentCluster;
      hide PositionedAt;
      hide Within;
      ghost var img := Image();
      AfterPart(j, fptr + |d|);
      BufferApart();
      PutPartial(j, o0, d);
      Advance(|d|, d, img);
    }

    /** The rest of a round once the buffer stands for the cursor's sector j. */
    method StorePart(ghost j: nat, o0: nat, d: seq<byte>) returns (n: nat)
      requires Core() && fptr == 512 * j + o0 && o0 < 512 && 0 < |d| && fptr + |d| < DWORD_RANGE
      requires j < |Sectors()| && sect == Sectors()[j] && InCurrentCluster(512 * j)
      modifies this`fptr, this`objsize, this`dirty, buf
      ensures Valid() && 0 < n <= |d| && fptr == old(fptr) + n
      ensures Content() == Splice(old(Content()), old(fptr), d[..n]) && fs.Fat() == old(fs.Fat())
    {
      n := 512 - o0;
      if n > |d| { n := |d|; }
      StoreExactly(j, o0, d[..n]);
    }

    method StoreRun(ghost j: nat, sec: nat, cc: nat, d: seq<byte>)
      requires Core() && Coherent() && !dirty && fptr == 512 * j && 0 < cc && |d| == 512 * cc
      requires Consecutive(Sectors(), j, cc) && sec == Sectors()[j] && fptr + |d| < DWORD_RANGE
      requires PositionedAt(fptr + |d|) && fptr + |d| <= 512 * |Sectors()|
      modifies this`fptr, this`objsize, this`dirty, buf, fs`disk
      ensures Valid() && fptr == old(fptr) + |d|
      ensures Content() == Splice(old(Content()), old(fptr), d) && fs.Fat() == old(fs.Fat())
    {
      hide Secs;
      hide OnVolume;
      hide Buffered;
      hide Coherent;
      hide Laid;
      hide Splice;
      hide Bytes;
      hide PositionedAt;
      hide Within;
      hide Consecutive;
      ghost var img := Image();
      WriteDirect(j, sec, cc, d);
      Advance(|d|, d, img);
    }

    /** A round that starts on a sector boundary with a sector or more to write: as many whole sectors as
        the cluster still has room for. */
    method StoreWhole(ghost i: nat, csect: nat, sec: nat, d: seq<byte>) returns (n: nat)
      requires Core() && Coherent() && !dirty && AtSector(i, csect) && i < |chain| && clust == chain[i]
      requires sec == ClusterBase(fs.g, clust) + csect && 512 <= |d| && fptr + |d| < DWORD_RANGE
      modifies this`fptr, this`objsize, this`dirty, buf, fs`disk
      ensures Valid() && 0 < n <= |d| && fptr == old(fptr) + n
      ensures Content() == Splice(old(Content()), old(fptr), d[..n]) && fs.Fat() == old(fs.Fat())
    {
      hide Secs;
      hide OnVolume;
      hide Buffered;
      hide Sized;
      hide Coherent;
      hide Splice;
      hide PositionedAt;
      hide InCurrentCluster;
      hide Consecutive;
      hide ClusterBase;
      CoreFacts();
      AtSectorInside(i, csect);
      var cc := |d| / 512;
      if csect + cc > fs.g.csize { cc := fs.g.csize - csect; }
      n := 512 * cc;
      ghost var j := RunFacts(i, csect, cc);
      hide AtSector;
      StoreRun(j, sec, cc, d[..n]);
    }

    lemma AtSectorInside(i: nat, r: nat)
      requires AtSector(i, r)
      ensures r < fs.g.csize
    {
    }

    /** A round that starts on a sector boundary with less than a sector to write. */
    method StoreFirst(ghost i: nat, csect: nat, sec: nat, d: seq<byte>) returns (n: nat)
      requires Core() && Coherent() && !dirty && AtSector(i, csect) && i < |chain| && clust == chain[i]
      requires sec == ClusterBase(fs.g, clust) + csect && 0 < |d| < 512 && fptr + |d| < DWORD_RANGE
      modifies this`fptr, this`objsize, this`dirty, this`sect, buf
      ensures Valid() && 0 < n <= |d| && fptr == old(fptr) + n
      ensures Content() == Splice(old(Content()), old(fptr), d[..n]) && fs.Fat() == old(fs.Fat())
    {
      hide Secs;
      hide OnVolume;
      hide Sized;
      hide Coherent;
      hide Splice;
      hide PositionedAt;
      hide InCurrentCluster;
      hide Consecutive;
      hide ClusterBase;
      hide AtSector;
      CoreFacts();
      AtSectorInside(i, csect);
      ghost var j := RunFacts(i, csect, 1);
      LoadForWrite(j, sec);
      n := StorePart(j, 0, d);
    }

    /** A round that starts inside a sector. */
    method StoreInside(d: seq<byte>) returns (n: nat)
      requires Valid() && fptr % 512 != 0 && 0 < |d| && fptr + |d| < DWORD_RANGE
      modifies this`fptr, this`objsize, this`dirty, buf
      ensures Valid() && 0 < n <= |d| && fptr == old(fptr) + n
      ensures Content() == Splice(old(Content()), old(fptr), d[..n]) && fs.Fat() == old(fs.Fat())
    {
      hide Secs;
      hide OnVolume;
      hide Buffered;
      hide Sized;
      hide Coherent;
      hide Splice;
      var o0;
      ghost var j;
      j, o0 := BytePlace(fptr);
      InsideFacts(j, o0);
      hide PositionedAt;
      hide InCurrentCluster;
      n := StorePart(j, o0, d);
    }

    lemma InsideFacts(j: nat, o0: nat)
      requires PositionedAt(fptr) && fptr == 512 * j + o0 && o0 < 512 && fptr % 512 != 0
      ensures j < |Sectors()| && sect == Sectors()[j] && InCurrentCluster(512 * j)
    {
      assert fptr / 512 == j && (fptr - 1) / 512 == j && 512 * j / 512 == j;
    }

    /** One round of the loop of `f_write` for the remaining bytes d; n is 0 when the disk is full. */
    method WriteRound(d: seq<byte>) returns (n: nat)
      requires Valid() && 0 < |d| && fptr + |d| < DWORD_RANGE
      modifies this`fptr, this`objsize, this`clust, this`sclust, this`chain, this`owned, this`dirty, this`sect, buf
      modifies fs`disk, fs`wflag, fs`winsect, fs`freeClst, fs`lastClst, fs`fsiFlag, fs`chains, fs.win
      ensures Valid() && n <= |d| && fptr == old(fptr) + n && old(chain) <= chain
      ensures Content() == Splice(old(Content()), old(fptr), d[..n])
      ensures n == 0 ==> Full(fs.State()) && Content() == old(Content())
    {
      hide Core;
      hide Coherent;
      hide PositionedAt;
      hide NoFreeCluster;
      hide AtSector;
      hide ClusterBase;
      if fptr % 512 == 0 {
        var ok, sec, csect, i := BeginSector();
        if !ok {
          SpliceNothing(Content(), fptr, d[..0]);
          return 0;
        }
        if |d| / 512 > 0 {
          n := StoreWhole(i, csect, sec, d);
        } else {
          n := StoreFirst(i, csect, sec, d);
        }
      } else {
        n := StoreInside(d);
      }
    }

    /** The loop of `f_write`. */
    method WriteLoop(d: seq<byte>) returns (bw: nat)
      requires Valid() && fptr + |d| < DWORD_RANGE
      modifies this`fptr, this`objsize, this`clust, this`sclust, this`chain, this`owned, this`dirty, this`sect, buf
      modifies fs`disk, fs`wflag, fs`winsect, fs`freeClst, fs`lastClst, fs`fsiFlag, fs`chains, fs.win
      ensures Valid() && old(chain) <= chain
      ensures bw <= |d| && fptr == old(fptr) + bw
      ensures Content() == Splice(old(Content()), old(fptr), d[..bw])
      ensures bw < |d| ==> Full(fs.State())
    {
      hide Core;
      hide Coherent;
      hide PositionedAt;
      hide NoFreeCluster;
      hide Splice;
      bw := 0;
      SpliceNothing(Content(), fptr, d[..0]);
      while bw < |d|
        invariant Valid() && old(chain) <= chain
        invariant bw <= |d| && fptr == old(fptr) + bw
        invariant Content() == Splice(old(Content()), old(fptr), d[..bw])
      {
        var wcnt := WriteRound(d[bw..]);
        if wcnt == 0 { return; }
        SpliceTwice(old(Content()), old(fptr), d[..bw], d[bw..][..wcnt]);
        assert d[..bw] + d[bw..][..wcnt] == d[..bw + wcnt];
        bw := bw + wcnt;
      }
    }

    /** `f_write`: the first bw bytes of buff replace what lies at the cursor, and fewer than asked only at
        the 4 GiB limit or when no cluster is free. */
    method Write(buff: seq<byte>) returns (res: FResult, bw: nat)
      requires Valid() && |buff| < DWORD_RANGE
      modifies this`fptr, this`objsize, this`clust, this`sclust, this`chain, this`owned, this`dirty, this`sect, buf
      modifies this`modified
      modifies fs`disk, fs`wflag, fs`winsect, fs`freeClst, fs`lastClst, fs`fsiFlag, fs`chains, fs.win
      ensures Valid() && old(chain) <= chain
      ensures res == if canWrite then FR_OK else FR_DENIED
      ensures bw <= |buff| && fptr == old(fptr) + bw
      ensures Content() == Splice(old(Content()), old(fptr), buff[..bw])
      ensures canWrite && bw < |buff| ==>
                Full(fs.State()) || (old(fptr) + |buff| >= DWORD_RANGE && fptr == DWORD_RANGE - 1)
      ensures !canWrite ==> bw == 0
      ensures ChangeMarked() && modified == (old(modified) || canWrite)
    {
      hide Core;
      hide Coherent;
      hide PositionedAt;
      hide NoFreeCluster;
      hide Splice;
      hide ClipWrite;
      SpliceNothing(Content(), fptr, buff[..0]);
      if !canWrite { return FR_DENIED, 0; }
      var btw := ClipWrite(fptr, |buff|);
      bw := WriteLoop(buff[..btw]);
      assert buff[..btw][..bw] == buff[..bw];
      modified := true;
      res := FR_OK;
    }

    // ----- f_read

    /** Before its end, the file has a cluster under the cursor. */
    lemma ClusterUnder(i: nat, r: nat)
      requires OnVolume() && AtSector(i, r) && fptr < 512 * |Sectors()|
      ensures i < |chain| && chain != [] && 2 <= chain[i] < fs.g.nFatent
    {
      var c := fs.g.csize;
      assert |Sectors()| == |chain| * c;
      if i >= |chain| { TimesLe(|chain|, i, c); }
    }

    lemma UnderCursor(i: nat)
      requires Core() && AtSector(i, 0) && fptr < objsize
      ensures i < |chain| && 2 <= chain[i] && (fptr == 0 ==> i == 0 && sclust == chain[0])
    {
      hide OnVolume, Secs;
      CoreFacts();
      HeadFacts();
      ClusterUnder(i, 0);
      if fptr == 0 { ZeroProduct(i, fs.g.csize); }
    }

    /** On a cluster boundary, `f_read` follows the chain; it never leaves it. */
    method NextForRead(ghost i: nat)
      requires Core() && Coherent() && PositionedAt(fptr) && AtSector(i, 0) && fptr < objsize
      modifies this`clust
      modifies fs`disk, fs`wflag, fs`winsect, fs.win
      ensures Core() && Coherent() && Content() == old(Content()) && fs.Fat() == old(fs.Fat())
      ensures i < |chain| && clust == chain[i]
    {
      hide Core, Bytes, PositionedAt, Coherent, AtSector, Fatfs.Fat;
      UnderCursor(i);
      var clst;
      if fptr == 0 {
        clst := sclust;
      } else {
        ClusterHere(i, 0);
        clst := FollowOn(i - 1, clust);
      }
      assert clst >= 2; // neither abort is ever taken
      clust := clst;
    }

    method BeginRead() returns (sec: nat, csect: nat, ghost i: nat)
      requires Valid() && fptr % 512 == 0 && fptr < objsize
      modifies this`clust
      modifies fs`disk, fs`wflag, fs`winsect, fs.win
      ensures Core() && Coherent() && Content() == old(Content()) && fs.Fat() == old(fs.Fat())
      ensures AtSector(i, csect) && i < |chain| && clust == chain[i]
      ensures sec == ClusterBase(fs.g, clust) + csect
    {
      hide Core, Bytes, Coherent, AtSector, PositionedAt, ClusterBase, Sound, Fatfs.Fat, Content;
      SoundVolume();
      csect, i := CursorSector();
      if csect == 0 {
        NextForRead(i);
      } else {
        ClusterHere(i, csect);
      }
      sec := SectorOfCluster(i, csect);
    }

    /** Whole sectors straight from the disk, except one that the dirty buffer holds. */
    method FetchCells(sec: nat, cc: nat) returns (cells: seq<Sector>)
      requires buf.Length == 512 && sect < |fs.disk| <= DWORD_RANGE && sec + cc <= |fs.disk| && Coherent()
      requires 0 < cc && 0 < sec
      ensures cells == Patched(fs.disk, sec, cc, sect, buf[..])
    {
      cells := fs.disk[sec..sec + cc];
      Sub32Range(sect, sec, cc);
      if dirty && Sub32(sect, sec) < cc {
        cells := cells[sect - sec := buf[..]];
      } else if sec <= sect < sec + cc {
        assert cells[sect - sec] == buf[..];
      }
    }

    method ReadDirect(ghost j: nat, sec: nat, cc: nat) returns (d: seq<byte>)
      requires Core() && Coherent() && fptr == 512 * j && 0 < cc && 512 * (j + cc) <= objsize
      requires Consecutive(Sectors(), j, cc) && sec == Sectors()[j]
      ensures d == Content()[fptr..fptr + 512 * cc] && |d| == 512 * cc
    {
      hide Secs, OnVolume, Bytes, Flat, Consecutive, Patched, Coherent;
      CoreFacts();
      RunOwned(j, cc);
      var cells := FetchCells(sec, cc);
      DirectRead(fs.disk, Sectors(), j, cc, sect, buf[..], objsize);
      d := Flat(cells);
    }

    /** The buffer gets the cursor's sector, after a dirty one has been written back. */
    method LoadForRead(ghost j: nat, sec: nat)
      requires Core() && Coherent() && j < |Sectors()| && sec == Sectors()[j]
      modifies this`sect, this`dirty, fs`disk, buf
      ensures Core() && Coherent() && sect == sec && Content() == old(Content()) && fs.Fat() == old(fs.Fat())
    {
      hide Secs;
      hide OnVolume;
      hide Bytes;
      hide Overlay;
      CoreFacts();
      if sect != sec {
        Flush();
        CoreFacts();
        LoadClean(j, sec);
      }
    }

    method LoadClean(ghost j: nat, sec: nat)
      requires Core() && Coherent() && !dirty && j < |Sectors()| && sec == Sectors()[j]
      modifies this`sect, buf
      ensures Core() && Coherent() && sect == sec && Content() == old(Content()) && fs.Fat() == old(fs.Fat())
    {
      hide Secs, OnVolume, Bytes, Overlay, Core, Fatfs.Fat;
      SectorPresent(j);
      CopyAll(buf, fs.disk[sec]);
      sect := sec;
      BufferLoaded(j);
    }

    method StepCursor(n: nat)
      requires Core() && Coherent() && fptr + n <= objsize && PositionedAt(fptr + n)
      modifies this`fptr
      ensures Valid() && fptr == old(fptr) + n && Content() == old(Content())
    {
      hide Secs, OnVolume, Buffered, Coherent, Bytes, PositionedAt;
      fptr := fptr + n;
    }

    /** Up to m bytes from the buffer, which stands for the cursor's sector j. */
    method TakePart(ghost j: nat, o0: nat, m: nat) returns (d: seq<byte>)
      requires Core() && Coherent() && fptr == 512 * j + o0 && o0 < 512 && 0 < m <= objsize - fptr
      requires j < |Sectors()| && sect == Sectors()[j] && InCurrentCluster(512 * j)
      modifies this`fptr
      ensures Valid() && 0 < |d| <= m && fptr == old(fptr) + |d|
      ensures Content() == old(Content()) && d == Content()[old(fptr)..fptr]
    {
      hide Secs, OnVolume, Coherent, PositionedAt, InCurrentCluster;
      var rcnt := 512 - o0;
      if rcnt > m { rcnt := m; }
      d := PartOfBuffer(j, o0, rcnt);
      AfterPart(j, fptr + rcnt);
      hide Core, Bytes;
      StepCursor(rcnt);
    }

    /** d is what the file holds from byte p on. */
    ghost predicate HoldsAt(p: nat, d: seq<byte>)
      reads this`chain, this`sclust, this`owned, this`view, this`cut, this`sect, this`dirty, this`fptr, this`objsize
      reads buf, fs, fs.win
      requires Core()
    {
      p + |d| <= objsize && d == Content()[p..p + |d|]
    }

    method PartOfBuffer(ghost j: nat, o0: nat, n: nat) returns (d: seq<byte>)
      requires j < |Sectors()| && sect == Sectors()[j] && 512 * j + o0 + n <= objsize && o0 + n <= 512
      requires Core()
      ensures |d| == n && HoldsAt(512 * j + o0, d)
    {
      hide Core, Sectors, Bytes, Image, Within;
      BufferIsSector(j);
      d := buf[..][o0..o0 + n];
      PartRead(Image(), Sectors(), j, o0, n, objsize);
    }

    lemma BufferIsSector(j: nat)
      requires Core() && j < |Sectors()| && sect == Sectors()[j]
      ensures Within(Image(), Sectors()) && objsize <= 512 * |Sectors()|
      ensures buf.Length == 512 && sect < |Image()| && Image()[sect] == buf[..]
    {
      hide Secs, OnVolume;
      CoreFacts();
    }

    /** A round of `f_read` that starts on a sector boundary with a sector or more to read. */
    method TakeWhole(ghost i: nat, csect: nat, sec: nat, m: nat) returns (d: seq<byte>)
      requires Core() && Coherent() && AtSector(i, csect) && i < |chain| && clust == chain[i]
      requires sec == ClusterBase(fs.g, clust) + csect && 512 <= m <= objsize - fptr
      modifies this`fptr
      ensures Valid() && 0 < |d| <= m && fptr == old(fptr) + |d|
      ensures Content() == old(Content()) && d == Content()[old(fptr)..fptr]
    {
      hide Secs, OnVolume, Buffered, Sized, Coherent, Bytes, PositionedAt, InCurrentCluster, Consecutive, ClusterBase;
      hide AtSector, Content;
      CoreFacts();
      AtSectorInside(i, csect);
      var cc := m / 512;
      if csect + cc > fs.g.csize { cc := fs.g.csize - csect; }
      ghost var j := RunFacts(i, csect, cc);
      d := ReadDirect(j, sec, cc);
      StepCursor(512 * cc);
    }

    /** A round that starts on a sector boundary with less than a sector to read. */
    method TakeFirst(ghost i: nat, csect: nat, sec: nat, m: nat) returns (d: seq<byte>)
      requires Core() && Coherent() && AtSector(i, csect) && i < |chain| && clust == chain[i]
      requires sec == ClusterBase(fs.g, clust) + csect && 0 < m <= objsize - fptr
      modifies this`fptr, this`sect, this`dirty, fs`disk, buf
      ensures Valid() && 0 < |d| <= m && fptr == old(fptr) + |d|
      ensures Content() == old(Content()) && d == Content()[old(fptr)..fptr]
    {
      hide Secs;
      hide OnVolume;
      hide Buffered;
      hide Coherent;
      hide Bytes;
      hide PositionedAt;
      hide InCurrentCluster;
      hide Consecutive;
      hide ClusterBase;
      hide AtSector;
      CoreFacts();
      AtSectorInside(i, csect);
      ghost var j := RunFacts(i, csect, 1);
      LoadForRead(j, sec);
      d := TakePart(j, 0, m);
    }

    method TakeInside(m: nat) returns (d: seq<byte>)
      requires Valid() && fptr % 512 != 0 && 0 < m <= objsize - fptr
      modifies this`fptr
      ensures Valid() && 0 < |d| <= m && fptr == old(fptr) + |d|
      ensures Content() == old(Content()) && d == Content()[old(fptr)..fptr]
    {
      hide Core;
      hide Coherent;
      var o0;
      ghost var j;
      j, o0 := BytePlace(fptr);
      InsideFacts(j, o0);
      hide PositionedAt;
      d := TakePart(j, o0, m);
    }

    /** One round of the loop of `f_read` with m bytes to go. */
    method ReadRound(m: nat) returns (d: seq<byte>)
      requires Valid() && 0 < m <= objsize - fptr
      modifies this`fptr, this`clust, this`sect, this`dirty, buf, fs`disk, fs`wflag, fs`winsect, fs.win
      ensures Valid() && 0 < |d| <= m && fptr == old(fptr) + |d|
      ensures Content() == old(Content()) && d == Content()[old(fptr)..fptr]
    {
      hide Core;
      hide Coherent;
      hide PositionedAt;
      hide AtSector;
      hide ClusterBase;
      if fptr % 512 == 0 {
        var sec, csect, i := BeginRead();
        if m / 512 > 0 {
          d := TakeWhole(i, csect, sec, m);
        } else {
          d := TakeFirst(i, csect, sec, m);
        }
      } else {
        d := TakeInside(m);
      }
    }

    /** `f_read`: the bytes from the cursor on, as many as asked or as there are; data is what ends up in the
        caller's buffer. */
    method Read(asked: nat) returns (res: FResult, data: seq<byte>)
      requires Valid()
      modifies this`fptr, this`clust, this`sect, this`dirty, buf, fs`disk, fs`wflag, fs`winsect, fs.win
      ensures Valid() && Content() == old(Content())
      ensures res == if canRead then FR_OK else FR_DENIED
      ensures canRead ==> |data| == if asked < objsize - old(fptr) then asked else objsize - old(fptr)
      ensures !canRead ==> data == []
      ensures fptr == old(fptr) + |data| && data == Content()[old(fptr)..fptr]
    {
      hide Core;
      hide Coherent;
      hide PositionedAt;
      data := [];
      assert fptr <= |Content()|;
      if !canRead { return FR_DENIED, []; }
      var remain := objsize - fptr;
      var btr: nat := if asked > remain then remain else asked;
      while btr > 0
        invariant Valid() && Content() == old(Content())
        invariant fptr == old(fptr) + |data| && fptr + btr <= objsize
        invariant btr + |data| == if asked > remain then remain else asked
        invariant data == Content()[old(fptr)..fptr]
      {
        var d := ReadRound(btr);
        assert data + d == Content()[old(fptr)..fptr];
        data := data + d;
        btr := btr - |d|;
      }
      res := FR_OK;
    }

    // ----- f_truncate

    /** The volume has been worked on, and the end of the file's chain was cut off. */
    twostate predicate Shortened()
      reads this`chain, this`sclust, this`owned, this`view, fs, fs.win
      requires old(OnVolume())
    {
      && fs.Consistent() && fs.OnlyFatsChanged() && fs.DataKept() && fs.CountKept()
      && Headed() && (chain == [] || chain in fs.chains)
      && chain <= old(chain) && owned == old(owned)
      && view == old(view) && fs.chains - {chain} == view.others
    }

    twostate lemma VolumeShortened()
      requires old(OnVolume()) && Shortened()
      ensures OnVolume() && Sectors() <= old(Sectors())
    {
      hide Fatfs.WindowOk, Fatfs.Fat, Fatfs.FatB, Fatfs.Image, FreeExact, Partition, Secs, Untouched, MirrorKept;
      hide InFirstFat, Fatfs.OnlyFatsChanged;
      ChainLegal(fs.Fat(), fs.chains, chain);
      SecsInData(fs.g, fs.Fat(), fs.chains, chain);
      SecsPrefix(fs.g, chain, old(chain));
      OthersApart(fs.Fat(), fs.chains, chain);
      StillUntouched();
      assert forall x :: x in Sectors() ==> x in old(Sectors());
      WindowStaysOff();
      assert forall c :: c in chain ==> c in old(chain);
    }

    /** Removes the clusters of the file from position i on. */
    method DropClusters(ghost i: nat, clst: nat, pclst: nat) returns (res: FResult)
      requires OnVolume() && i < |chain| && clst == chain[i] && pclst == if i == 0 then 0 else chain[i - 1]
      modifies this`sclust, this`chain
      modifies fs`disk, fs`wflag, fs`winsect, fs`freeClst, fs`fsiFlag, fs`chains, fs.win
      ensures OnVolume() && fs.DataKept() && res == FR_OK
      ensures chain == old(chain)[..i] && Sectors() <= old(Sectors())
    {
      hide Secs;
      hide Partition;
      hide FreeExact;
      hide Fatfs.WindowOk;
      hide Fatfs.Fat;
      hide Fatfs.FatB;
      hide Fatfs.Image;
      hide InData;
      hide Untouched;
      res := fs.Chop(chain, i, clst, pclst);
      if pclst == 0 { sclust := 0; }
      chain := chain[..i];
      VolumeShortened();
    }

    /** The clusters that `f_truncate` keeps hold every byte before the cursor. */
    lemma KeptRoom(i: nat, secs: nat)
      requires 0 < fs.g.csize && fptr > 0 && (fptr - 1) / 512 / fs.g.csize == i && secs == (i + 1) * fs.g.csize
      ensures fptr <= 512 * secs && (fptr % 512 != 0 ==> fptr / 512 < secs)
    {
      var c, b := fs.g.csize, (fptr - 1) / 512;
      assert b == i * c + b % c;
      assert (i + 1) * c == i * c + c;
    }

    lemma ClusterBehind() returns (i: nat)
      requires PositionedAt(fptr) && fptr > 0
      ensures BehindIn(i) && i < |chain| && clust == chain[i]
    {
      i := (fptr - 1) / 512 / fs.g.csize;
    }

    /** The cluster of the last byte before the cursor. */
    ghost predicate BehindIn(i: nat)
      reads this`fptr
    {
      0 < fs.g.csize && fptr > 0 && i == (fptr - 1) / 512 / fs.g.csize
    }

    ghost predicate FullLength()
      reads this`chain
    {
      |Sectors()| == |chain| * fs.g.csize
    }

    twostate lemma StillPositioned(i: nat)
      requires BehindIn(i)
      requires unchanged(this`fptr) && unchanged(this`sect) && unchanged(this`clust)
      requires old(PositionedAt(fptr)) && i < |chain| && clust == chain[i]
      requires Sectors() <= old(Sectors()) && FullLength()
      ensures PositionedAt(fptr) && fptr <= 512 * |Sectors()|
    {
      hide Secs;
      TimesLe(i + 1, |chain|, fs.g.csize);
      KeptRoom(i, (i + 1) * fs.g.csize);
    }

    /** Frees the clusters behind the cursor. */
    method CutTail() returns (res: FResult)
      requires OnVolume() && Sized() && PositionedAt(fptr) && fptr < objsize
      modifies this`sclust, this`chain
      modifies fs`disk, fs`wflag, fs`winsect, fs`freeClst, fs`fsiFlag, fs`chains, fs.win
      ensures OnVolume() && fs.DataKept() && res == FR_OK
      ensures Sectors() <= old(Sectors()) && fptr <= 512 * |Sectors()| && PositionedAt(fptr)
    {
      hide OnVolume;
      hide Secs;
      hide InFats;
      if fptr == 0 {
        FirstOfChain();
        res := DropClusters(0, sclust, 0);
      } else {
        res := CutBehind();
      }
    }

    lemma FirstOfChain()
      requires OnVolume() && 0 < |Sectors()|
      ensures 0 < |chain| && sclust == chain[0]
    {
    }

    method CutBehind() returns (res: FResult)
      requires OnVolume() && PositionedAt(fptr) && fptr > 0
      modifies this`sclust, this`chain
      modifies fs`disk, fs`wflag, fs`winsect, fs`freeClst, fs`fsiFlag, fs`chains, fs.win
      ensures OnVolume() && fs.DataKept() && res == FR_OK
      ensures Sectors() <= old(Sectors()) && fptr <= 512 * |Sectors()| && PositionedAt(fptr)
    {
      hide OnVolume;
      hide Secs;
      hide PositionedAt;
      hide InFats;
      hide Partition;
      hide BehindIn;
      hide FullLength;
      ghost var i := ClusterBehind();
      CoreFacts();
      var ncl := FollowHere(i);
      CoreFacts();
      res := FR_OK;
      if ncl < fs.g.nFatent {
        res := DropClusters(i + 1, ncl, clust);
      }
      CoreFacts();
      SectorsLength();
      StillPositioned(i);
    }

    lemma SectorsLength()
      requires OnVolume()
      ensures FullLength()
    {
    }

    method FollowHere(ghost i: nat) returns (ncl: nat)
      requires OnVolume() && i < |chain| && clust == chain[i]
      modifies fs`disk, fs`wflag, fs`winsect, fs.win
      ensures OnVolume() && fs.DataKept() && Sectors() == old(Sectors())
      ensures if i + 1 < |chain| then ncl == chain[i + 1] < fs.g.nFatent else ncl >= fs.g.nFatent
    {
      hide Secs;
      hide Partition;
      hide FreeExact;
      hide Fatfs.WindowOk;
      hide Fatfs.Fat;
      hide Fatfs.FatB;
      hide Fatfs.Image;
      hide InData;
      hide Untouched;
      hide InFats;
      ncl := fs.Follow(chain, i, clust);
      VolumeShortened();
    }

    /** The buffer may stand for a sector the file has just lost. */
    ghost predicate BufferedLoosely()
      reads this`sect, this`dirty, this`owned, fs`disk, fs`winsect
    {
      && buf.Length == 512 && buf != fs.win
      && sect < |fs.disk|
      && (sect != 0 ==> FatEnd(fs.g) <= sect && sect != fs.winsect)
      && (dirty ==> sect != 0 && Owned(sect))
    }

    /** The last step of `f_truncate`: a dirty buffer is written back wherever it belongs. */
    method FlushLoosely()
      requires OnVolume() && BufferedLoosely() && Coherent() && (!cut ==> Anchored())
      modifies fs`disk, this`dirty
      ensures OnVolume() && Buffered() && Coherent() && !dirty && Image() == old(Image())
    {
      hide Secs;
      hide Partition;
      hide FreeExact;
      hide Fatfs.WindowOk;
      hide Fatfs.Fat;
      hide Fatfs.FatB;
      hide Fatfs.Image;
      hide InData;
      hide Owned;
      hide Untouched;
      hide PutRun;
      hide Overlay;
      if dirty {
        ghost var img := fs.Image();
        fs.DiskWrite(sect, [buf[..]]);
        UntouchedRun(img, fs.Image(), sect, 1);
        FlushedImage(old(fs.disk), sect, buf[..]);
        dirty := false;
      }
    }

    twostate lemma DirtyOwned()
      requires old(Core()) && unchanged(this`owned)
      ensures old(dirty) ==> Owned(old(sect))
    {
      if old(dirty) {
        var j :| 0 <= j < |old(Sectors())| && old(Sectors())[j] == old(sect);
        ClusterOfSector(fs.g, old(chain), j);
      }
    }

    twostate lemma LooselyAfterCut()
      requires old(Core()) && old(Coherent()) && fs.DataKept()
      requires unchanged(this`sect, this`dirty, this`owned, buf)
      ensures BufferedLoosely() && Coherent()
      ensures SameAt(Image(), old(Image()), old(Sectors()))
    {
      hide Secs, Partition, FreeExact, Fatfs.WindowOk, Fatfs.Fat, Fatfs.FatB, Fatfs.Image, Untouched, Owned;
      DirtyOwned();
      assert forall j :: 0 <= j < |old(Sectors())| ==> old(Sectors())[j] in old(Sectors());
    }

    twostate lemma ShorterContent()
      requires old(Core()) && Core() && Sectors() <= old(Sectors()) && objsize <= old(objsize)
      requires SameAt(Image(), old(Image()), old(Sectors()))
      ensures Content() == old(Content())[..objsize]
    {
      hide Secs, Overlay, OnVolume;
      CoreFacts();
      assert forall j :: 0 <= j < |Sectors()| ==> Sectors()[j] == old(Sectors())[j];
      BytesSame(old(Image()), Image(), Sectors(), objsize);
      BytesPrefix(old(Image()), Sectors(), old(Sectors()), objsize);
      BytesTake(old(Image()), old(Sectors()), old(objsize), objsize);
    }

    /** The work of `f_truncate` on a cursor before the end of the file. */
    method CutHere() returns (res: FResult)
      requires Valid() && fptr < objsize
      modifies this`sclust, this`chain, this`objsize, this`modified, this`dirty, this`cut
      modifies fs`disk, fs`wflag, fs`winsect, fs`freeClst, fs`fsiFlag, fs`chains, fs.win
      ensures Valid() && res == FR_OK && Content() == old(Content())[..fptr] && modified
    {
      hide OnVolume, Secs, Bytes, PositionedAt, Coherent, Owned, Overlay, SameAt, BufferedLoosely, Fatfs.DataKept;
      BufferApart();
      res := CutTail();
      LooselyAfterCut();
      objsize := fptr;
      modified := true;
      cut := !Anchored();
      FlushLoosely();
      ShorterContent();
    }

    /** `f_truncate`: the file ends at the cursor. */
    method Truncate() returns (res: FResult)
      requires Valid()
      modifies this`sclust, this`chain, this`objsize, this`modified, this`dirty, this`cut
      modifies fs`disk, fs`wflag, fs`winsect, fs`freeClst, fs`fsiFlag, fs`chains, fs.win
      ensures Valid() && res == if canWrite then FR_OK else FR_DENIED
      ensures Content() == if canWrite then old(Content())[..fptr] else old(Content())
      ensures ChangeMarked() && modified == (old(modified) || (canWrite && fptr < old(objsize)))
    {
      hide Core, Coherent, PositionedAt, Bytes;
      if !canWrite { return FR_DENIED; }
      res := FR_OK;
      assert fptr <= |Content()| == objsize;
      if fptr < objsize {
        res := CutHere();
      } else {
        assert Content()[..fptr] == Content();
      }
    }

    // ----- f_lseek

    /** The offset in the file of its cluster i. */
    ghost function ClusterStart(i: nat): nat {
      512 * (i * fs.g.csize)
    }

    lemma NextClusterStart(i: nat)
      ensures ClusterStart(i + 1) == ClusterStart(i) + fs.g.csize * 512
    {
    }

    /** A seek that does not go back before the current cluster starts there. */
    lemma StartHere(ofs: nat) returns (i: nat)
      requires PositionedAt(fptr) && fptr > 0 && 0 < ofs && 0 < fs.g.csize
      requires NotBefore(ofs - 1, fptr - 1, fs.g.csize * 512)
      ensures i < |chain| && clust == chain[i]
      ensures ClusterFloor(fptr - 1, fs.g.csize * 512) == ClusterStart(i) < ofs
    {
      hide ClusterFloor, NotBefore, PositionedAt;
      i := ClusterBehind();
      NotBeforeIff(ofs - 1, fptr - 1, fs.g.csize * 512);
      FloorIs(fptr - 1, fs.g.csize, fs.g.csize * 512);
    }

    /** Where a seek to byte offset ofs starts: at the current cluster, or at the first one. */
    method SeekStart(ofs: nat) returns (clst: nat, pos: nat, ghost i: nat)
      requires Valid() && 0 < ofs < DWORD_RANGE
      modifies this`clust, this`sclust, this`chain, this`owned
      modifies fs`disk, fs`wflag, fs`winsect, fs`freeClst, fs`lastClst, fs`fsiFlag, fs`chains, fs.win
      ensures Core() && Coherent() && Content() == old(Content()) && old(chain) <= chain
      ensures clst == 0 ==> Full(fs.State()) && chain == []
      ensures clst != 0 ==>
                && i < |chain| && clst == clust == chain[i]
                && pos == ClusterStart(i) < ofs
    {
      hide OnVolume, Buffered, Sized, Secs, Bytes, PositionedAt, Coherent, Full, ClusterFloor, NotBefore, Content;
      hide ClusterStart;
      CoreFacts();
      HeadFacts();
      pos, i := 0, 0;
      var bcs := fs.g.csize * 512;
      if fptr > 0 && NotBefore(ofs - 1, fptr - 1, bcs) {
        i := StartHere(ofs);
        return clust, ClusterFloor(fptr - 1, bcs), i;
      }
      StartOfFile();
      clst := sclust;
      if clst == 0 {
        clst := FirstCluster();
      }
      clust := clst;
    }

    lemma StartOfFile()
      ensures ClusterStart(0) == 0
    {
    }

    /** One step along the chain: stretching it when the file may be written. */
    method SeekStep(ghost i: nat, clst: nat) returns (r: nat)
      requires Core() && Coherent() && i < |chain| && clst == chain[i]
      requires canWrite || i + 1 < |chain|
      modifies this`chain, this`owned
      modifies fs`disk, fs`wflag, fs`winsect, fs`freeClst, fs`lastClst, fs`fsiFlag, fs`chains, fs.win
      ensures Core() && Coherent() && Content() == old(Content())
      ensures old(chain) <= chain
      ensures r != 0 ==> i + 1 < |chain| && chain[i + 1] == r
      ensures r == 0 ==> i + 1 == |chain| && chain == old(chain) && Full(fs.State())
    {
      hide Core, Coherent, Bytes, Full;
      if canWrite {
        r := FollowOrStretch(i, clst);
      } else {
        r := FollowOn(i, clst);
      }
    }

    /** The cluster following loop of `f_lseek` from cluster i, whose first byte is byte pos of the file, to
        offset ofs. It ends in the cluster that holds byte ofs-1, or at the end of the last cluster when the
        disk is full; rest is what remains to be added to pos. */
    method SeekWalk(start: nat, from: nat, ofs: nat, ghost i0: nat)
      returns (clst: nat, pos: nat, rest: nat, ghost i: nat)
      requires Core() && Coherent() && i0 < |chain| && start == clust == chain[i0]
      requires from == ClusterStart(i0) < ofs < DWORD_RANGE && (canWrite || ofs <= objsize)
      modifies this`clust, this`chain, this`owned
      modifies fs`disk, fs`wflag, fs`winsect, fs`freeClst, fs`lastClst, fs`fsiFlag, fs`chains, fs.win
      ensures Core() && Coherent() && Content() == old(Content()) && old(chain) <= chain
      ensures i < |chain| && clust == chain[i]
      ensures pos + rest == ofs ==> clst == clust && pos == ClusterStart(i) && 0 < rest <= 512 * fs.g.csize
      ensures pos + rest != ofs ==>
                && pos == ClusterStart(i + 1) < ofs && rest == 0 && i + 1 == |chain|
                && Full(fs.State())
    {
      hide Core;
      hide Coherent;
      hide NoFreeCluster;
      hide ClusterStart;
      hide Secs;
      hide Bytes;
      hide Partition;
      clst, pos, rest, i := start, from, ofs - from, i0;
      var bcs := fs.g.csize * 512;
      while rest > bcs
        invariant Core() && Coherent() && Content() == old(Content()) && old(chain) <= chain
        invariant i < |chain| && clst == clust == chain[i]
        invariant pos + rest == ofs && pos == ClusterStart(i) && 0 < rest
        decreases rest
      {
        WalkRoom(i, ofs);
        rest, pos := rest - bcs, pos + bcs;
        var next := SeekStep(i, clst);
        NextClusterStart(i);
        if next == 0 {
          rest := 0;
          return;
        }
        clst := next;
        clust := next;
        i := i + 1;
      }
    }

    /** Before the end of the file, a step along the chain stays in it. */
    lemma WalkRoom(i: nat, ofs: nat)
      requires Core() && i < |chain| && ClusterStart(i) + 512 * fs.g.csize < ofs
      ensures 0 < fs.g.csize
      ensures ofs <= objsize ==> i + 1 < |chain|
    {
      hide OnVolume, Secs;
      CoreFacts();
      SectorsLength();
      NextStart(i, fs.g.csize);
      if i + 1 == |chain| {
        assert 512 * |Sectors()| < ofs;
      }
    }

    /** Where the cursor lands in cluster i, rest bytes behind its start. */
    lemma LandFacts(i: nat, pos: nat, rest: nat)
      requires OnVolume() && i < |chain| && clust == chain[i]
      requires pos == ClusterStart(i) && 0 < rest <= 512 * fs.g.csize
      ensures pos + rest <= 512 * |Sectors()|
      ensures InCurrentCluster(pos + rest - 1)
      ensures rest % 512 == (pos + rest) % 512
      ensures rest % 512 != 0 ==>
                && (pos + rest) / 512 < |Sectors()|
                && Sectors()[(pos + rest) / 512] == ClusterBase(fs.g, clust) + rest / 512
    {
      hide Secs;
      hide Partition;
      hide InData;
      hide Untouched;
      var c := fs.g.csize;
      TimesLe(i + 1, |chain|, c);
      NextStart(i, c);
      LandNumbers(i, c, rest);
      if rest % 512 != 0 { SecAt(fs.g, chain, i, rest / 512); }
    }

    /** The cursor is inside sector p / 512, which the buffer has to hold. */
    method FillAt(p: nat, nsect: nat)
      requires Core() && Coherent() && p / 512 < |Sectors()| && nsect == Sectors()[p / 512]
      modifies this`sect, this`dirty, fs`disk, buf
      ensures Core() && Coherent() && Content() == old(Content()) && fs.Fat() == old(fs.Fat())
      ensures InBuffer(p)
    {
      hide Core;
      hide Coherent;
      if nsect != sect {
        LoadForRead(p / 512, nsect);
      }
    }

    /** Sets the cursor and extends the size to it. */
    method SetCursor(p: nat)
      requires Core() && Coherent() && p < DWORD_RANGE && p <= 512 * |Sectors()|
      modifies this`fptr, this`objsize, this`modified
      ensures Core() && Coherent() && fptr == p
      ensures objsize == (if p > old(objsize) then p else old(objsize))
      ensures modified == (old(modified) || p > old(objsize))
      ensures Content()[..old(objsize)] == old(Content()) && fs.Fat() == old(fs.Fat())
    {
      hide OnVolume;
      hide Buffered;
      hide Secs;
      hide Bytes;
      hide Coherent;
      fptr := p;
      if p > objsize {
        objsize := p;
        modified := true;
      }
      CoreFacts();
      BytesTake(Image(), Sectors(), objsize, old(objsize));
    }

    /** The end of `f_lseek`: set the cursor, extend the size, fill the buffer inside a sector. */
    method SeekLand(p: nat, nsect: nat)
      requires Core() && Coherent() && p < DWORD_RANGE && p <= 512 * |Sectors()|
      requires p > 0 ==> InCurrentCluster(p - 1)
      requires p % 512 != 0 ==> p / 512 < |Sectors()| && nsect == Sectors()[p / 512]
      modifies this`fptr, this`objsize, this`modified, this`sect, this`dirty, fs`disk, buf
      ensures Valid() && fptr == p && objsize == (if p > old(objsize) then p else old(objsize))
      ensures modified == (old(modified) || p > old(objsize))
      ensures Content()[..old(objsize)] == old(Content()) && fs.Fat() == old(fs.Fat())
    {
      hide Core;
      hide Secs;
      hide Coherent;
      hide InCurrentCluster;
      hide InBuffer;
      SetCursor(p);
      if p % 512 != 0 {
        FillAt(p, nsect);
      }
    }

    /** `f_lseek`: the cursor moves to ofs, cut to the size of a file opened for reading only and to the room
        there is on a full disk; the file grows to the cursor and keeps its bytes. */
    method Seek(ofs0: nat) returns (res: FResult)
      requires Valid() && ofs0 < DWORD_RANGE
      modifies this`fptr, this`objsize, this`clust, this`sclust, this`chain, this`owned, this`modified
      modifies this`dirty, this`sect, buf
      modifies fs`disk, fs`wflag, fs`winsect, fs`freeClst, fs`lastClst, fs`fsiFlag, fs`chains, fs.win
      ensures Valid() && res == FR_OK
      ensures objsize == if fptr > old(objsize) then fptr else old(objsize)
      ensures Content()[..old(objsize)] == old(Content())
      ensures !canWrite ==> fptr == if ofs0 > old(objsize) then old(objsize) else ofs0
      ensures ChangeMarked() && modified == (old(modified) || fptr > old(objsize))
      ensures canWrite ==>
                fptr == ofs0 || (old(objsize) <= fptr < ofs0 && Full(fs.State()))
    {
      hide Core;
      hide Coherent;
      hide PositionedAt;
      hide NoFreeCluster;
      var ofs := ofs0;
      if ofs > objsize && !canWrite { ofs := objsize; }
      res := FR_OK;
      if ofs == 0 {
        ZeroFacts();
        SeekLand(0, 0);
      } else {
        SeekOnward(ofs);
      }
    }

    lemma ZeroFacts()
      requires Core()
      ensures buf.Length == 512
    {
    }

    /** Moves to the cluster of byte ofs-1 and says where the cursor goes and which sector it lands in. */
    method SeekTarget(ofs: nat) returns (p: nat, nsect: nat)
      requires Valid() && 0 < ofs < DWORD_RANGE && (canWrite || ofs <= objsize)
      modifies this`clust, this`sclust, this`chain, this`owned
      modifies fs`disk, fs`wflag, fs`winsect, fs`freeClst, fs`lastClst, fs`fsiFlag, fs`chains, fs.win
      ensures Core() && Coherent() && Content() == old(Content())
      ensures p <= ofs && p <= 512 * |Sectors()|
      ensures p > 0 ==> InCurrentCluster(p - 1)
      ensures p % 512 != 0 ==> p / 512 < |Sectors()| && nsect == Sectors()[p / 512]
      ensures p < ofs ==> p == 512 * |Sectors()| && Full(fs.State())
      ensures sclust != old(sclust) ==> old(objsize) == 0 < p
    {
      hide Core;
      hide Secs;
      hide Bytes;
      hide Coherent;
      hide PositionedAt;
      hide NoFreeCluster;
      hide InCurrentCluster;
      hide ClusterBase;
      var clst, pos, i := SeekStart(ofs);
      if clst == 0 {
        EmptyRoom();
        HeadKept();
        return 0, 0;
      }
      var rest;
      clst, pos, rest, i := SeekWalk(clst, pos, ofs, i);
      p, nsect := pos + rest, 0;
      if p == ofs {
        nsect := SectorIn(i, pos, rest);
      } else {
        LandFull(i, pos);
      }
      HeadKept();
    }

    /** A file that had a start cluster keeps it; one that had none was empty. */
    twostate lemma HeadKept()
      requires old(Core()) && Core() && old(chain) <= chain
      ensures sclust != old(sclust) ==> old(objsize) == 0 && chain != []
    {
      hide Secs, ViewKept, Partition;
      if sclust != old(sclust) {
        assert old(chain) == [];
        assert |old(Sectors())| == 0;
      }
    }

    method SectorIn(ghost i: nat, ghost pos: nat, rest: nat) returns (nsect: nat)
      requires Core() && i < |chain| && clust == chain[i]
      requires pos == ClusterStart(i) && 0 < rest <= 512 * fs.g.csize
      ensures pos + rest <= 512 * |Sectors()| && InCurrentCluster(pos + rest - 1)
      ensures (pos + rest) % 512 != 0 ==>
                (pos + rest) / 512 < |Sectors()| && nsect == Sectors()[(pos + rest) / 512]
    {
      hide OnVolume;
      hide Secs;
      hide ClusterBase;
      hide InCurrentCluster;
      CoreFacts();
      LandFacts(i, pos, rest);
      nsect := 0;
      if rest % 512 != 0 {
        nsect := ClstToSect(fs.g, clust);
        assert nsect != 0; // the abort for an invalid cluster is never taken
        nsect := nsect + rest / 512;
      }
    }

    method SeekOnward(ofs: nat)
      requires Valid() && 0 < ofs < DWORD_RANGE && (canWrite || ofs <= objsize)
      modifies this`fptr, this`objsize, this`clust, this`sclust, this`chain, this`owned, this`modified
      modifies this`dirty, this`sect, buf
      modifies fs`disk, fs`wflag, fs`winsect, fs`freeClst, fs`lastClst, fs`fsiFlag, fs`chains, fs.win
      ensures Valid()
      ensures objsize == if fptr > old(objsize) then fptr else old(objsize)
      ensures Content()[..old(objsize)] == old(Content())
      ensures fptr == ofs || (canWrite && old(objsize) <= fptr < ofs && Full(fs.State()))
      ensures modified == (old(modified) || fptr > old(objsize)) && (!modified ==> sclust == old(sclust))
    {
      hide OnVolume;
      hide Buffered;
      hide Secs;
      hide Bytes;
      hide Coherent;
      hide PositionedAt;
      hide NoFreeCluster;
      hide InCurrentCluster;
      var p, nsect := SeekTarget(ofs);
      SeekLand(p, nsect);
    }

    lemma EmptyRoom()
      requires Core() && chain == []
      ensures |Sectors()| == 0
    {
    }

    lemma LandFull(i: nat, pos: nat)
      requires Core() && i + 1 == |chain| && clust == chain[i] && pos == ClusterStart(i + 1)
      ensures pos == 512 * |Sectors()| && pos % 512 == 0 && 0 < pos && InCurrentCluster(pos - 1)
    {
      hide Secs;
      hide Partition;
      hide InData;
      hide Untouched;
      var c := fs.g.csize;
      NextStart(i, c);
      LandNumbers(i, c, 512 * c);
      Multiple((i + 1) * c);
    }

    // ----- beside other open files

    /** What a file has to be for its view of the volume to be renewed. */
    ghost predicate Resumable()
      reads this, buf, fs, fs.win
    {
      Placed() && Buffered() && Sized() && Coherent() && PositionedAt(fptr)
    }

    /** What the file holds, also while its view is out of date. */
    ghost function Held(): (c: seq<byte>)
      reads this, buf, fs, fs.win
      requires Resumable()
    {
      InDataWithin(fs.g, Sectors(), Image());
      Bytes(Image(), Sectors(), objsize)
    }

    ghost function CurrentView(): View
      reads this`chain, this`sclust, fs, fs.win
      requires Placed()
    {
      View(fs.chains - {chain}, fs.Image(), fs.winsect, FreeExact(fs.State()))
    }

    lemma RenewedIsValid()
      requires Resumable() && view == CurrentView() && owned == (set c | c in chain) && cut == !Anchored()
      ensures Valid()
    {
      hide Partition, FreeExact, Mirrored, Fatfs.Fat, Fatfs.FatB, Fatfs.Image, Secs;
      OthersApart(fs.Fat(), fs.chains, chain);
      fs.ImageOnDisk();
    }

    /** The file takes the present state for its view. */
    ghost method Renew()
      requires Resumable()
      modifies this`view, this`owned, this`cut
      ensures Valid() && view == CurrentView() && cut == !Anchored()
    {
      hide Valid, CurrentView, Placed, Sized, Coherent, PositionedAt;
      view := CurrentView();
      owned := set c | c in chain;
      cut := !Anchored();
      RenewedIsValid();
    }

    /** The view is that of the state before. */
    twostate predicate WasCurrent()
      reads this, fs, fs.win
      requires old(Placed())
    {
      view == old(CurrentView())
    }

    twostate lemma VolumeRests()
      requires old(Valid()) && Valid() && WasCurrent()
      ensures old(fs.Consistent()) && fs.Consistent()
      ensures |fs.Image()| == |fs.disk| == |old(fs.disk)| == |old(fs.Image())|
      ensures fs.winsect == old(fs.winsect) || InFirstFat(fs.g, fs.winsect)
      ensures fs.CountKept() && (Mirrored(fs.g, old(fs.Image())) ==> Mirrored(fs.g, fs.Image()))
      ensures view.image == old(fs.Image()) && old(fs.chains) - {old(chain)} == view.others == fs.chains - {chain}
    {
      hide Secs, Fatfs.Image, Buffered, Sized, Coherent, PositionedAt, Partition, Owned, Mirrored, FreeExact;
    }

    /** While this file is worked on, a chain that is no part of it keeps its clusters and its sectors. */
    twostate lemma ChainRests(new ch: seq<nat>)
      requires old(Valid()) && Valid() && WasCurrent()
      requires ch in old(fs.chains) && ch != old(chain) && LegalClusters(fs.g, ch) && 0 < fs.g.csize
      ensures ch in fs.chains && ch != chain
      ensures SameAt(fs.Image(), old(fs.Image()), Secs(fs.g, ch))
    {
      hide Secs, Fatfs.Image, OnVolume, Buffered, Sized, Coherent, PositionedAt, WasCurrent;
      VolumeRests();
      assert ch in view.others;
      forall j | 0 <= j < |Secs(fs.g, ch)|
        ensures SameIn(fs.Image(), old(fs.Image()), Secs(fs.g, ch)[j])
      {
        OtherFilesIntact(ch, j);
      }
    }

    /** A data sector that the window does not hold. */
    twostate lemma SectorRests(new s: nat)
      requires old(fs.Valid()) && fs.Valid()
      requires FatEnd(fs.g) <= s < |fs.disk| && s != old(fs.winsect) && s != fs.winsect
      requires SameIn(fs.Image(), old(fs.Image()), s)
      ensures SameIn(fs.disk, old(fs.disk), s)
    {
      assert fs.Image()[s] == fs.disk[s];
      assert old(fs.Image())[s] == old(fs.disk)[s];
    }

    /** While this file is worked on, another open file h rests on its sectors. */
    twostate lemma PlaceRests(h: Fil)
      requires old(Valid()) && Valid() && WasCurrent() && fs == h.fs
      requires old(h.Placed()) && h.chain == old(h.chain) && h.sclust == old(h.sclust)
      requires h.chain == [] || h.chain != old(chain)
      ensures h.Placed() && (h.chain == [] || h.chain != chain)
      ensures |fs.disk| == |old(fs.disk)| && (fs.winsect == old(fs.winsect) || InFirstFat(fs.g, fs.winsect))
      ensures SameAt(fs.disk, old(fs.disk), h.Sectors())
    {
      hide Valid, Secs, Partition, Fatfs.Image, Fatfs.Fat, Fatfs.FatB, Fatfs.WindowOk, SameIn, WasCurrent;
      VolumeRests();
      if h.chain != [] { ChainRests(h.chain); }
      forall j | 0 <= j < |h.Sectors()|
        ensures SameIn(fs.disk, old(fs.disk), h.Sectors()[j])
      {
        SectorRests(h.Sectors()[j]);
      }
    }

    /** It can go on where it was, with the same bytes. */
    twostate lemma Rests(h: Fil)
      requires old(Valid()) && Valid() && WasCurrent()
      requires old(h.Resumable()) && old(h.Anchored()) && unchanged(h) && unchanged(h.buf) && fs == h.fs
      requires h.chain == [] || h.chain != old(chain)
      ensures h.Resumable() && h.Anchored()
      ensures h.chain == [] || h.chain != chain
      ensures h.Held() == old(h.Held())
    {
      hide Valid, Sized, PositionedAt, Secs, Placed, OnVolume, WasCurrent, SameIn, Held;
      PlaceRests(h);
      BufferRests(h);
      h.BytesRest();
    }

    twostate lemma BytesRest()
      requires old(Resumable()) && Resumable() && unchanged(this)
      requires SameAt(Image(), old(Image()), Sectors())
      ensures Held() == old(Held())
    {
      hide Secs;
      BytesSame(old(Image()), Image(), Sectors(), objsize);
    }

    twostate lemma BufferRests(h: Fil)
      requires old(h.Buffered()) && old(h.Coherent()) && old(h.Anchored()) && unchanged(h) && unchanged(h.buf)
      requires fs == h.fs && |fs.disk| == |old(fs.disk)| && SameAt(fs.disk, old(fs.disk), h.Sectors())
      requires fs.winsect == old(fs.winsect) || InFirstFat(fs.g, fs.winsect)
      ensures h.Buffered() && h.Coherent() && SameAt(h.Image(), old(h.Image()), h.Sectors())
    {
      hide Secs;
      assert h.sect != 0 ==> SameIn(fs.disk, old(fs.disk), h.sect);
      forall j | 0 <= j < |h.Sectors()|
        ensures SameIn(h.Image(), old(h.Image()), h.Sectors()[j])
      {
        assert SameIn(fs.disk, old(fs.disk), h.Sectors()[j]);
      }
    }

    lemma ValidIsResumable()
      requires Valid()
      ensures Resumable() && Held() == Content() && fs.Consistent() && (!cut ==> Anchored())
    {
    }
  }
}
