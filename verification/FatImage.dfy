/** The disk as a sequence of sectors: which of them hold the FATs, and the FAT bytes in them. */
module FatImage {
  import opened Machine
  import opened FatGeometry

  /** The disk holds every sector of the volume and has 32-bit sector numbers. */
  ghost predicate OnDisk(g: Geometry, img: seq<Sector>) {
    Sound(g) && DataEnd(g) <= |img| <= DWORD_RANGE
  }

  predicate InFirstFat(g: Geometry, s: nat) { g.fatbase <= s < g.fatbase + g.fsize }

  predicate InSecondFat(g: Geometry, s: nat) {
    g.nFats == 2 && g.fatbase + g.fsize <= s < g.fatbase + g.fsize + g.fsize
  }

  predicate InFats(g: Geometry, s: nat) { InFirstFat(g, s) || InSecondFat(g, s) }

  /** The FATs are as many sectors from fatbase on as there are FATs; a sector of the second is one of the first,
      its size further up. */
  lemma FatAreas(g: Geometry, s: nat)
    requires g.nFats in {1, 2}
    ensures InFats(g, s) <==> g.fatbase <= s < g.fatbase + g.nFats * g.fsize
    ensures InFats(g, s) && !InFirstFat(g, s) <==> g.nFats == 2 && s >= g.fsize && InFirstFat(g, s - g.fsize)
  {
    assert g.nFats * g.fsize == if g.nFats == 2 then g.fsize + g.fsize else g.fsize;
  }

  /** Every sector of the second FAT, when there is one, equals its sector of the first. */
  ghost predicate Mirrored(g: Geometry, img: seq<Sector>)
    requires OnDisk(g, img)
  {
    g.nFats == 2 ==> forall s: nat :: InFirstFat(g, s) ==> img[s + g.fsize] == img[s]
  }

  /** The disk after sector s has been written back from the window: the first FAT is reflected to the
      second. */
  function PutSector(g: Geometry, img: seq<Sector>, s: nat, x: Sector): (r: seq<Sector>)
    requires OnDisk(g, img) && s < |img|
    ensures |r| == |img| && r[s] == x
    ensures forall t: nat :: t < |img| && t != s && !InSecondFat(g, t) ==> r[t] == img[t]
  {
    if g.nFats == 2 && InFirstFat(g, s) then img[s := x][s + g.fsize := x] else img[s := x]
  }

  lemma PutSectorMirrored(g: Geometry, img: seq<Sector>, s: nat, x: Sector)
    requires OnDisk(g, img) && s < |img| && !InSecondFat(g, s) && Mirrored(g, img)
    ensures Mirrored(g, PutSector(g, img, s, x))
  {
  }

  lemma PutSectorTwice(g: Geometry, img: seq<Sector>, s: nat, x: Sector, y: Sector)
    requires OnDisk(g, img) && s < |img|
    ensures PutSector(g, PutSector(g, img, s, x), s, y) == PutSector(g, img, s, y)
  {
  }

  /** The bytes of the first FAT. */
  function FatBytesOf(g: Geometry, img: seq<Sector>): (b: seq<byte>)
    requires OnDisk(g, img)
    ensures |b| == g.fsize * 512
  {
    seq(g.fsize * 512, k requires 0 <= k < g.fsize * 512 => img[g.fatbase + k / 512][k % 512])
  }

  lemma FatByteAt(g: Geometry, img: seq<Sector>, q: nat, r: nat)
    requires OnDisk(g, img) && q < g.fsize && r < 512
    ensures FatBytesOf(g, img)[512 * q + r] == img[g.fatbase + q][r]
  {
    assert (512 * q + r) / 512 == q && (512 * q + r) % 512 == r;
  }

  /** Writing byte r of sector q of the first FAT writes one byte of the FAT. */
  lemma PutFatByte(g: Geometry, img: seq<Sector>, q: nat, r: nat, v: byte)
    requires OnDisk(g, img) && q < g.fsize && r < 512
    ensures var s := g.fatbase + q;
            FatBytesOf(g, PutSector(g, img, s, img[s][r := v])) == FatBytesOf(g, img)[512 * q + r := v]
  {
    var s := g.fatbase + q;
    var img' := PutSector(g, img, s, img[s][r := v]);
    forall j | 0 <= j < g.fsize * 512
      ensures FatBytesOf(g, img')[j] == FatBytesOf(g, img)[512 * q + r := v][j]
    {
      assert j == j / 512 * 512 + j % 512;
    }
  }

  /** Only the sectors of the first FAT decide its bytes. */
  lemma SameFatBytes(g: Geometry, img: seq<Sector>, img': seq<Sector>)
    requires OnDisk(g, img) && OnDisk(g, img')
    requires forall s: nat :: InFirstFat(g, s) ==> img'[s] == img[s]
    ensures FatBytesOf(g, img') == FatBytesOf(g, img)
  {
  }

  /** The disk after a transfer of several sectors. */
  function PutRun(disk: seq<Sector>, sect: nat, data: seq<Sector>): (r: seq<Sector>)
    requires sect + |data| <= |disk|
    ensures |r| == |disk|
    ensures forall s: nat :: s < |disk| ==> r[s] == if sect <= s < sect + |data| then data[s - sect] else disk[s]
  {
    disk[..sect] + data + disk[sect + |data|..]
  }
}
