/** The filesystem object of a mounted FAT volume: the one-sector write-back window over the disk, the
    FAT read and written through it, and the allocator on top. Disk transfers succeed. */
module FatVolume {
  import opened Machine
  import opened FatGeometry
  import opened FatEntries
  import opened FatImage
  import opened FatChains

  datatype FResult = FR_OK | FR_INT_ERR | FR_DENIED

  /** The DWORD difference of two sector numbers. */
  function Sub32(a: nat, b: nat): (r: nat)
    requires a < DWORD_RANGE && b < DWORD_RANGE
    ensures r < DWORD_RANGE
  {
    if a >= b then a - b else a - b + DWORD_RANGE
  }

  /** One unsigned comparison tests a range. */
  lemma Sub32Range(a: nat, b: nat, n: nat)
    requires a < DWORD_RANGE && b + n <= DWORD_RANGE && b < DWORD_RANGE
    ensures Sub32(a, b) < n <==> b <= a < b + n
  {
  }

  /** Sector and offset of the bytes of a FAT12, FAT16 or FAT32 entry. */
  method BytePlace(k: nat) returns (q: nat, r: nat)
    ensures 512 * q + r == k && r < 512
  {
    q, r := k / 512, k % 512;
  }

  method WordPlace(c: nat) returns (q: nat, r: nat)
    ensures 512 * q + r == 2 * c && r <= 510
  {
    q, r := c / 256, c * 2 % 512;
    assert c == 256 * q + c % 256;
    Remainder(q, 2 * (c % 256));
  }

  method DwordPlace(c: nat) returns (q: nat, r: nat)
    ensures 512 * q + r == 4 * c && r <= 508
  {
    q, r := c / 128, c * 4 % 512;
    assert c == 128 * q + c % 128;
    Remainder(q, 4 * (c % 128));
  }

  lemma Remainder(q: nat, r: nat)
    requires r < 512
    ensures (512 * q + r) % 512 == r
  {
  }

  class Fatfs {
    const g: Geometry
    var disk: seq<Sector>
    const win: array<byte>
    var winsect: nat
    var wflag: bool
    var freeClst: nat
    var lastClst: nat
    var fsiFlag: bool
    ghost var chains: set<seq<nat>>

    /** A clean window equals its sector, and a dirty one never covers the second FAT. */
    ghost predicate WindowOk()
      reads this`disk, this`winsect, this`wflag, win
    {
      && OnDisk(g, disk)
      && win.Length == SS
      && winsect < |disk|
      && (!wflag ==> win[..] == disk[winsect])
      && (wflag ==> !InSecondFat(g, winsect))
    }

    ghost predicate Valid()
      reads this`disk, this`winsect, this`wflag, this`freeClst, this`lastClst, win
    {
      && WindowOk()
      && freeClst < DWORD_RANGE
      && lastClst < DWORD_RANGE
    }

    /** The disk as it stands once the window has been written back. */
    ghost function Image(): (img: seq<Sector>)
      reads this`disk, this`winsect, this`wflag, win
      requires WindowOk()
      ensures OnDisk(g, img) && |img| == |disk| && img[winsect] == win[..]
      ensures forall s: nat :: s < |disk| && s != winsect && !InSecondFat(g, s) ==> img[s] == disk[s]
    {
      if wflag then PutSector(g, disk, winsect, win[..]) else disk
    }

    ghost function FatB(): (b: seq<byte>)
      reads this`disk, this`winsect, this`wflag, win
      requires WindowOk()
      ensures |b| == g.fsize * 512
    {
      FatBytesOf(g, Image())
    }

    ghost function Fat(): (fat: seq<nat>)
      reads this`disk, this`winsect, this`wflag, win
      requires WindowOk()
      ensures |fat| == g.nFatent
    {
      FatArray(g, FatB())
    }

    /** A mounted volume: the boot code has checked the layout and left some clean sector in the window. */
    constructor (g: Geometry, disk: seq<Sector>, winsect: nat, freeClst: nat, lastClst: nat)
      requires OnDisk(g, disk) && winsect < |disk|
      requires freeClst < DWORD_RANGE && lastClst < DWORD_RANGE
      ensures Valid() && fresh(win)
      ensures this.g == g && this.disk == disk && Image() == disk && this.winsect == winsect
      ensures this.freeClst == freeClst && this.lastClst == lastClst
    {
      this.g, this.disk, this.winsect, this.wflag := g, disk, winsect, false;
      this.freeClst, this.lastClst, this.fsiFlag := freeClst, lastClst, false;
      var w := new byte[SS](i requires 0 <= i < 512 => disk[winsect][i]);
      this.win := w;
      new;
      assert win[..] == disk[winsect];
    }

    // ----- the window

    method SyncWindow()
      requires Valid()
      modifies this`disk, this`wflag
      ensures Valid() && !wflag
      ensures disk == old(Image()) && Image() == old(Image())
    {
      if wflag {
        var x: Sector := win[..];
        disk := disk[winsect := x];
        wflag := false;
        if Sub32(winsect, g.fatbase) < g.fsize {
          if g.nFats == 2 { disk := disk[winsect + g.fsize := x]; }
        }
      }
    }

    method MoveWindow(sect: nat)
      requires Valid() && sect < |disk|
      modifies this`disk, this`wflag, this`winsect, win
      ensures Valid() && winsect == sect
      ensures Image() == old(Image()) && FatB() == old(FatB()) && Fat() == old(Fat())
    {
      if sect != winsect {
        SyncWindow();
        forall i | 0 <= i < 512 { win[i] := disk[sect][i]; }
        assert win[..] == disk[sect];
        winsect := sect;
      }
    }

    /** One byte stored in the window makes the window dirty. */
    method StoreByte(i: nat, v: byte)
      requires Valid() && i < 512 && !InSecondFat(g, winsect)
      modifies this`wflag, win
      ensures Valid() && Image() == PutSector(g, old(Image()), winsect, old(win[..])[i := v])
    {
      ghost var before: Sector := win[..];
      win[i] := v;
      wflag := true;
      ghost var after: Sector := win[..];
      assert after == before[i := v];
      PutSectorTwice(g, disk, winsect, before, after);
    }

    // ----- the FAT

    lemma ImageOnDisk()
      requires WindowOk()
      ensures OnDisk(g, Image())
    {
    }

    /** The sectors outside the FATs are those of the old image, and equal FATs stay equal. */
    twostate predicate OnlyFatsChanged()
      reads this`disk, this`winsect, this`wflag, win
      requires old(WindowOk()) && WindowOk()
    {
      && |Image()| == |old(Image())|
      && (Mirrored(g, old(Image())) ==> Mirrored(g, Image()))
      && forall s: nat :: s < |Image()| && !InFats(g, s) ==> Image()[s] == old(Image())[s]
    }

    /** Byte r of sector q of the first FAT. */
    method StoreFatByte(q: nat, r: nat, v: byte)
      requires Valid() && q < g.fsize && r < 512 && winsect == g.fatbase + q
      modifies this`wflag, win
      ensures Valid() && FatB() == old(FatB())[512 * q + r := v]
      ensures OnlyFatsChanged()
    {
      PutFatByte(g, Image(), q, r, v);
      if Mirrored(g, Image()) { PutSectorMirrored(g, Image(), winsect, win[..][r := v]); }
      StoreByte(r, v);
    }

    /** On the disk itself, equal FATs differ at most in the sector that is dirty in the window. */
    lemma MirroredBehindWindow(s: nat)
      requires Valid() && Mirrored(g, Image()) && g.nFats == 2 && InFirstFat(g, s)
      ensures !(wflag && s == winsect) ==> disk[s + g.fsize] == disk[s]
    {
      assert Image()[s + g.fsize] == Image()[s];
    }

    lemma WindowByte(q: nat, r: nat)
      requires Valid() && q < g.fsize && r < 512 && winsect == g.fatbase + q
      ensures win[r] == FatB()[512 * q + r]
    {
      FatByteAt(g, Image(), q, r);
      assert win[..][r] == win[r];
    }

    method LoadFatByte(k: nat) returns (v: byte, q: nat, r: nat)
      requires Valid() && k < g.fsize * 512
      modifies this`disk, this`wflag, this`winsect, win
      ensures Valid() && Image() == old(Image()) && FatB() == old(FatB())
      ensures 512 * q + r == k && r < 512 && q < g.fsize
      ensures v == FatB()[k] && winsect == g.fatbase + q
    {
      q, r := BytePlace(k);
      MoveWindow(g.fatbase + q);
      WindowByte(q, r);
      v := win[r];
    }

    method GetFat12(clst: nat) returns (val: nat)
      requires Valid() && 2 <= clst < g.nFatent && g.fatType == Fat12
      modifies this`disk, this`wflag, this`winsect, win
      ensures Valid() && Image() == old(Image())
      ensures val == Fat()[clst] < DWORD_RANGE && InFirstFat(g, winsect)
    {
      hide FatB;
      hide Image;
      ghost var b := FatB();
      EntryInFat(g, b, clst);
      var bc := clst + clst / 2;
      var first, q, r := LoadFatByte(bc);
      var second, q', r' := LoadFatByte(bc + 1);
      var wc := first as int + second as int * 0x100;
      assert wc == LdWord(b, bc);
      val := if clst % 2 == 1 then wc / 0x10 else wc % 0x1000;
    }

    method GetFat16(clst: nat) returns (val: nat)
      requires Valid() && 2 <= clst < g.nFatent && g.fatType == Fat16
      modifies this`disk, this`wflag, this`winsect, win
      ensures Valid() && Image() == old(Image())
      ensures val == Fat()[clst] < DWORD_RANGE && InFirstFat(g, winsect)
    {
      hide FatB;
      hide Image;
      hide LdWord;
      EntryInFat(g, FatB(), clst);
      var q, r := WordPlace(clst);
      MoveWindow(g.fatbase + q);
      WindowWord(q, r);
      val := LdWord(win[..], r);
    }

    method GetFat32(clst: nat) returns (val: nat)
      requires Valid() && 2 <= clst < g.nFatent && g.fatType == Fat32
      modifies this`disk, this`wflag, this`winsect, win
      ensures Valid() && Image() == old(Image())
      ensures val == Fat()[clst] < DWORD_RANGE && InFirstFat(g, winsect)
    {
      hide FatB;
      hide Image;
      hide LdDword;
      EntryInFat(g, FatB(), clst);
      var q, r := DwordPlace(clst);
      MoveWindow(g.fatbase + q);
      WindowDword(q, r);
      val := LdDword(win[..], r) % 0x1000_0000;
    }

    lemma WindowWord(q: nat, r: nat)
      requires Valid() && q < g.fsize && r <= 510 && winsect == g.fatbase + q
      ensures LdWord(win[..], r) == LdWord(FatB(), 512 * q + r)
    {
      WindowByte(q, r);
      WindowByte(q, r + 1);
    }

    lemma WindowDword(q: nat, r: nat)
      requires Valid() && q < g.fsize && r <= 508 && winsect == g.fatbase + q
      ensures LdDword(win[..], r) == LdDword(FatB(), 512 * q + r)
    {
      WindowByte(q, r);
      WindowByte(q, r + 1);
      WindowByte(q, r + 2);
      WindowByte(q, r + 3);
    }

    /** An element of the array, in the bits of the FAT. */
    lemma EntryOfBytes(clst: nat)
      requires Valid() && clst < g.nFatent
      ensures Fat()[clst] == Field(Le(FatB()), EntryBit(g.fatType, clst), EntryBits(g.fatType))
    {
      hide Le, Field, Entry, Image;
      EntryInFat(g, FatB(), clst);
      EntryIsField(g.fatType, FatB(), clst);
    }

    method GetFat(clst: nat) returns (val: nat)
      requires Valid() && clst < DWORD_RANGE
      modifies this`disk, this`wflag, this`winsect, win
      ensures Valid() && Image() == old(Image())
      ensures val == EntryOrOne(Fat(), clst) < DWORD_RANGE && Fat() == old(Fat()) && FatB() == old(FatB())
      ensures 2 <= clst < g.nFatent ==>
                val == Field(Le(FatB()), EntryBit(g.fatType, clst), EntryBits(g.fatType))
      ensures if 2 <= clst < g.nFatent then InFirstFat(g, winsect) else winsect == old(winsect)
    {
      if clst < 2 || clst >= g.nFatent { return 1; }
      EntryOfBytes(clst);
      match g.fatType
      case Fat12 => val := GetFat12(clst);
      case Fat16 => val := GetFat16(clst);
      case Fat32 => val := GetFat32(clst);
    }

    method PutFat12(clst: nat, val: nat)
      requires Valid() && 2 <= clst < g.nFatent && g.fatType == Fat12 && val < DWORD_RANGE
      modifies this`disk, this`wflag, this`winsect, win
      ensures Valid() && InFirstFat(g, winsect) && OnlyFatsChanged()
      ensures Room(Fat12, old(FatB()), clst) && FatB() == PutEntry(Fat12, old(FatB()), clst, val)
    {
      hide FatB;
      hide Image;
      hide InFats;
      hide Mirrored;
      hide Put12Low;
      hide Put12High;
      EntryInFat(g, FatB(), clst);
      var bc := clst + clst / 2;
      var p, q, r := LoadFatByte(bc);
      StoreFatByte(q, r, Put12Low(clst, p, val));
      p, q, r := LoadFatByte(bc + 1);
      StoreFatByte(q, r, Put12High(clst, p, val));
    }

    method PutFat16(clst: nat, val: nat)
      requires Valid() && 2 <= clst < g.nFatent && g.fatType == Fat16 && val < DWORD_RANGE
      modifies this`disk, this`wflag, this`winsect, win
      ensures Valid() && InFirstFat(g, winsect) && OnlyFatsChanged()
      ensures Room(Fat16, old(FatB()), clst) && FatB() == PutEntry(Fat16, old(FatB()), clst, val)
    {
      EntryInFat(g, FatB(), clst);
      var q, r := WordPlace(clst);
      MoveWindow(g.fatbase + q);
      StoreFatByte(q, r, val % 0x100);
      StoreFatByte(q, r + 1, val / 0x100 % 0x100);
    }

    method PutFat32(clst: nat, val: nat)
      requires Valid() && 2 <= clst < g.nFatent && g.fatType == Fat32 && val < DWORD_RANGE
      modifies this`disk, this`wflag, this`winsect, win
      ensures Valid() && InFirstFat(g, winsect) && OnlyFatsChanged()
      ensures Room(Fat32, old(FatB()), clst) && FatB() == PutEntry(Fat32, old(FatB()), clst, val)
    {
      hide LdDword;
      hide Put32;
      EntryInFat(g, FatB(), clst);
      var q, r := DwordPlace(clst);
      MoveWindow(g.fatbase + q);
      WindowDword(q, r);
      var v := Put32(LdDword(win[..], r), val);
      StoreFatDword(q, r, v);
    }

    method StoreFatDword(q: nat, r: nat, v: nat)
      requires Valid() && q < g.fsize && r <= 508 && winsect == g.fatbase + q
      modifies this`wflag, win
      ensures Valid() && FatB() == StDword(old(FatB()), 512 * q + r, v)
      ensures OnlyFatsChanged()
    {
      hide Valid;
      hide FatB;
      hide Image;
      hide InFats;
      hide Mirrored;
      StoreFatByte(q, r, v % 0x100);
      StoreFatByte(q, r + 1, v / 0x100 % 0x100);
      StoreFatByte(q, r + 2, v / 0x1_0000 % 0x100);
      StoreFatByte(q, r + 3, v / 0x100_0000 % 0x100);
    }

    method PutFat(clst: nat, val: nat) returns (res: FResult)
      requires Valid() && clst < DWORD_RANGE && val < DWORD_RANGE
      modifies this`disk, this`wflag, this`winsect, win
      ensures Valid()
      ensures !(2 <= clst < g.nFatent) ==> res == FR_INT_ERR && Fat() == old(Fat()) && unchanged(this) && unchanged(win)
      ensures 2 <= clst < g.nFatent ==>
                && res == FR_OK
                && Room(g.fatType, old(FatB()), clst)
                && FatB() == PutEntry(g.fatType, old(FatB()), clst, val)
                && Le(FatB()) == WithField(old(Le(FatB())), EntryBit(g.fatType, clst), EntryBits(g.fatType),
                                           val % Pow2(EntryBits(g.fatType)))
                && Fat() == old(Fat())[clst := Cut(g.fatType, val)]
                && OnlyFatsChanged()
                && InFirstFat(g, winsect)
    {
      if clst < 2 || clst >= g.nFatent { return FR_INT_ERR; }
      ghost var b := FatB();
      match g.fatType {
        case Fat12 => PutFat12(clst, val);
        case Fat16 => PutFat16(clst, val);
        case Fat32 => PutFat32(clst, val);
      }
      PutEntryArray(g, b, clst, val);
      PutEntryIsField(g.fatType, b, clst, val);
      res := FR_OK;
    }

    // ----- the allocator

    ghost function State(): FatState
      reads this`disk, this`winsect, this`wflag, this`freeClst, this`lastClst, win
      requires Valid()
    {
      FatState(Fat(), freeClst, lastClst)
    }

    /** What an all-ones value reads back as. */
    ghost function EndMark(): (e: nat)
      requires Entries(g)
      ensures g.nFatent < e
    {
      EntryMask(g.fatType)
    }

    /** The search of `create_chain` from cluster scl upwards and around: 0 when nothing is free, 1 when an
        entry equal to 1 comes first. */
    method FindFree(scl: nat) returns (ncl: nat)
      requires Valid() && 1 <= scl < g.nFatent
      modifies this`disk, this`wflag, this`winsect, win
      ensures Valid() && Image() == old(Image()) && Fat() == old(Fat())
      ensures ncl < g.nFatent && (ncl >= 2 ==> IsFree(Fat(), ncl))
      ensures ncl == 0 ==> NoFreeCluster(Fat())
      ensures ncl == 1 ==> exists c :: 2 <= c < g.nFatent && Fat()[c] == 1
      ensures ncl >= 2 ==> NearestFree(Fat(), scl, ncl)
      ensures InFirstFat(g, winsect)
    {
      hide Fat;
      hide FatB;
      hide Image;
      ghost var fat := Fat();
      ncl := scl;
      ghost var steps := 0;
      while true
        invariant Valid() && Image() == old(Image()) && Fat() == fat
        invariant 0 <= steps <= g.nFatent - 2 && ncl < g.nFatent
        invariant if steps == 0 then ncl == scl else 2 <= ncl && Ahead(g.nFatent, scl, ncl) == steps
        invariant steps > 0 ==> (ncl == scl ==> scl == 1) && InFirstFat(g, winsect)
        invariant forall c :: IsFree(fat, c) ==> steps < Ahead(g.nFatent, scl, c)
        decreases g.nFatent - steps
      {
        ncl := ncl + 1;
        if ncl >= g.nFatent {
          ncl := 2;
          if ncl > scl {
            return 0;
          }
        }
        steps := steps + 1;
        var cs := GetFat(ncl);
        if cs == 0 { return; }
        if cs == 1 {
          assert fat[ncl] == 1;
          return 1;
        }
        if ncl == scl {
          return 0;
        }
      }
    }

    /** Marks cluster ncl as the end of a chain and links it from clst. */
    method LinkCluster(clst: nat, ncl: nat)
      requires Valid() && 2 <= ncl < g.nFatent && (clst == 0 || 2 <= clst < g.nFatent)
      modifies this`disk, this`wflag, this`winsect, win
      ensures Valid() && OnlyFatsChanged() && InFirstFat(g, winsect)
      ensures Fat() == Link(old(Fat()), clst, ncl, EndMark())
    {
      hide Fat;
      hide FatB;
      hide Image;
      hide InFats;
      hide Mirrored;
      EndMarkValue(g);
      var res := PutFat(ncl, 0xFFFF_FFFF);
      if clst != 0 {
        res := PutFat(clst, ncl);
      }
    }

    /** The cluster to allocate: the next one when a chain is stretched and it is free, else the result of
        the search. */
    method FindCluster(clst: nat, start: nat) returns (ncl: nat)
      requires Valid() && clst < g.nFatent && clst != 1 && 1 <= start < g.nFatent
      requires start == if clst == 0 then Hint(State(), 0) else clst
      modifies this`disk, this`wflag, this`winsect, win
      ensures Valid() && Image() == old(Image()) && Fat() == old(Fat())
      ensures ncl < g.nFatent && InFirstFat(g, winsect)
      ensures clst != 0 && EntryOrOne(Fat(), NextCluster(Fat(), clst)) == 1 ==> ncl == 1
      ensures ncl == 0 ==> NoFreeCluster(Fat())
      ensures ncl == 1 ==> exists c :: 2 <= c < g.nFatent && Fat()[c] == 1
      ensures ncl >= 2 ==>
                && IsFree(Fat(), ncl)
                && if clst != 0 && IsFree(Fat(), NextCluster(Fat(), clst)) then ncl == NextCluster(Fat(), clst)
                   else NearestFree(Fat(), Hint(State(), clst), ncl)
    {
      hide Fat;
      hide FatB;
      hide Image;
      hide NearestFree;
      hide NoFreeCluster;
      var scl := start;
      ncl := 0;
      if scl == clst {
        ncl := scl + 1;
        if ncl >= g.nFatent { ncl := 2; }
        var cs := GetFat(ncl);
        if cs == 1 {
          assert Fat()[ncl] == 1;
          return cs;
        }
        if cs != 0 {
          cs := lastClst;
          if 2 <= cs < g.nFatent { scl := cs; }
          ncl := 0;
        }
      }
      if ncl == 0 {
        ncl := FindFree(scl);
      }
    }

    /** A free count and a last cluster that are not marked for FSInfo are those there were. */
    twostate predicate CountMarked()
      reads this`freeClst, this`lastClst, this`fsiFlag
    {
      (old(fsiFlag) ==> fsiFlag) && (!fsiFlag ==> freeClst == old(freeClst) && lastClst == old(lastClst))
    }

    method Allocate(clst: nat, start: nat) returns (ncl: nat)
      requires Valid() && clst < g.nFatent && clst != 1 && 1 <= start < g.nFatent && freeClst > 0
      requires start == if clst == 0 then Hint(State(), 0) else clst
      modifies this`disk, this`wflag, this`winsect, this`freeClst, this`lastClst, this`fsiFlag, win
      ensures Valid() && OnlyFatsChanged() && InFirstFat(g, winsect)
      ensures Allocated(old(State()), clst, ncl, State(), EndMark())
      ensures CountMarked()
    {
      hide Fat;
      hide FatB;
      hide Image;
      hide InFats;
      hide Mirrored;
      hide NearestFree;
      hide NoFreeCluster;
      hide NextCluster;
      hide Hint;
      hide Link;
      ncl := FindCluster(clst, start);
      if ncl < 2 { return; }
      LinkCluster(clst, ncl);
      lastClst := ncl;
      if freeClst <= g.nFatent - 2 { freeClst := freeClst - 1; }
      fsiFlag := true;
    }

    method CreateChain(clst: nat) returns (ncl: nat)
      requires Valid() && clst < DWORD_RANGE
      modifies this`disk, this`wflag, this`winsect, this`freeClst, this`lastClst, this`fsiFlag, win
      ensures Valid() && OnlyFatsChanged()
      ensures Created(old(State()), clst, ncl, State(), EndMark())
      ensures InFirstFat(g, winsect) || (winsect == old(winsect) && ncl < 2)
      ensures CountMarked()
    {
      hide Fat;
      hide FatB;
      hide Image;
      hide InFats;
      hide Mirrored;
      hide Allocated;
      var scl: nat;
      if clst == 0 {
        scl := lastClst;
        if scl == 0 || scl >= g.nFatent { scl := 1; }
      } else {
        var cs := GetFat(clst);
        if cs < 2 { return 1; }
        if cs < g.nFatent { return cs; }
        scl := clst;
      }
      if freeClst == 0 { return 0; }
      ncl := Allocate(clst, scl);
    }

    method RemoveChain(clst: nat, pclst: nat) returns (res: FResult)
      requires Valid() && clst < DWORD_RANGE && pclst < DWORD_RANGE
      modifies this`disk, this`wflag, this`winsect, this`freeClst, this`fsiFlag, win
      ensures Valid() && OnlyFatsChanged()
      ensures var r := FatChains.RemoveChain(old(State()), clst, pclst, EndMark());
              State() == r.0 && res == if r.1 then FR_OK else FR_INT_ERR
      ensures InFirstFat(g, winsect) || winsect == old(winsect)
      ensures CountMarked()
    {
      hide Fat;
      hide FatB;
      hide Image;
      EndMarkValue(g);
      if clst < 2 || clst >= g.nFatent { return FR_INT_ERR; }
      if pclst != 0 {
        res := PutFat(pclst, 0xFFFF_FFFF);
        if res != FR_OK { return; }
      }
      res := RemoveLoop(clst);
    }

    method RemoveLoop(first: nat) returns (res: FResult)
      requires Valid() && 2 <= first < g.nFatent
      modifies this`disk, this`wflag, this`winsect, this`freeClst, this`fsiFlag, win
      ensures Valid() && OnlyFatsChanged()
      ensures var r := RemoveFrom(old(State()), first);
              State() == r.0 && res == if r.1 then FR_OK else FR_INT_ERR
      ensures InFirstFat(g, winsect) && CountMarked()
    {
      hide Fat;
      hide FatB;
      hide Image;
      hide InFats;
      hide Mirrored;
      var clst := first;
      while true
        invariant Valid() && OnlyFatsChanged() && 2 <= clst < g.nFatent && CountMarked()
        invariant RemoveFrom(State(), clst) == RemoveFrom(old(State()), first)
        decreases g.nFatent - FreeClusters(Fat())
      {
        ghost var s := State();
        hide FreeClusters;
        RemoveRound(s, clst);
        hide RemoveFrom;
        var nxt := GetFat(clst);
        if nxt == 0 { break; }
        if nxt == 1 { return FR_INT_ERR; }
        FreeCluster(clst);
        if nxt >= g.nFatent { break; }
        clst := nxt;
      }
      res := FR_OK;
    }

    /** One round of the removal: zero an entry and count it. */
    method FreeCluster(clst: nat)
      requires Valid() && 2 <= clst < g.nFatent
      modifies this`disk, this`wflag, this`winsect, this`freeClst, this`fsiFlag, win
      ensures Valid() && OnlyFatsChanged() && InFirstFat(g, winsect)
      ensures State() == FreeOne(old(State()), clst) && CountMarked()
    {
      hide Fat;
      hide FatB;
      hide Image;
      hide InFats;
      hide Mirrored;
      var r := PutFat(clst, 0);
      if freeClst < g.nFatent - 2 {
        freeClst := freeClst + 1;
        fsiFlag := true;
      }
    }

    // ----- chains

    /** The clusters in use are cut into the ghost chains. */
    ghost predicate Consistent()
      reads this, win
    {
      Valid() && Partition(Fat(), chains)
    }

    /** An exact free count stays exact. */
    twostate predicate CountKept()
      reads this`disk, this`winsect, this`wflag, this`freeClst, this`lastClst, win
      requires old(Valid()) && Valid()
    {
      FreeExact(old(State())) ==> FreeExact(State())
    }

    /** Data sectors other than the one the window held keep their raw contents, and the window moves only
        to the FAT. */
    twostate predicate DataKept()
      reads this`disk, this`winsect
    {
      && |disk| == |old(disk)|
      && (winsect == old(winsect) || InFirstFat(g, winsect))
      && forall s: nat :: FatEnd(g) <= s < |disk| && s != old(winsect) ==> disk[s] == old(disk)[s]
    }

    twostate lemma DataIsKept()
      requires old(Valid()) && Valid() && OnlyFatsChanged()
      requires winsect == old(winsect) || InFirstFat(g, winsect)
      ensures DataKept()
    {
      forall s: nat | FatEnd(g) <= s < |disk| && s != old(winsect)
        ensures disk[s] == old(disk)[s]
      {
        assert Image()[s] == disk[s];
        assert old(Image())[s] == old(disk)[s];
      }
    }

    /** `get_fat` along chain ch: the next cluster, or a value past every cluster at the end. */
    method Follow(ghost ch: seq<nat>, ghost i: nat, clst: nat) returns (r: nat)
      requires Consistent() && ch in chains && i < |ch| && clst == ch[i]
      modifies this`disk, this`wflag, this`winsect, win
      ensures Consistent() && Image() == old(Image()) && Fat() == old(Fat()) && DataKept() && CountKept()
      ensures if i + 1 < |ch| then r == ch[i + 1] else r >= g.nFatent
      ensures r < DWORD_RANGE
    {
      hide Fat;
      hide FatB;
      hide Image;
      hide Partition;
      hide InFats;
      hide Mirrored;
      hide FreeExact;
      FollowLink(Fat(), chains, ch, i);
      r := GetFat(clst);
      DataIsKept();
    }

    /** `create_chain` on cluster i of chain ch, or with clst 0 on no chain at all. */
    method Grow(ghost ch: seq<nat>, ghost i: nat, clst: nat) returns (r: nat)
      requires Consistent()
      requires if clst == 0 then ch == [] && i == 0 else ch in chains && i < |ch| && clst == ch[i]
      modifies this`disk, this`wflag, this`winsect, this`freeClst, this`lastClst, this`fsiFlag, this`chains, win
      ensures Consistent() && OnlyFatsChanged() && DataKept() && CountKept()
      ensures r < g.nFatent
      ensures i + 1 < |ch| ==> r == ch[i + 1] && chains == old(chains)
      ensures i + 1 >= |ch| ==>
                && r != 1 && (r == 0 <==> Full(old(State())))
                && if r == 0 then State() == old(State()) && chains == old(chains)
                   else chains == Swapped(old(chains), ch, ch + [r]) && ch + [r] !in old(chains)
      ensures (r != 0 ==> InFirstFat(g, winsect)) && CountMarked()
    {
      hide Fat;
      hide FatB;
      hide Image;
      hide Partition;
      hide InFats;
      hide Mirrored;
      hide FreeExact;
      hide Created;
      hide Swapped;
      hide Full;
      ghost var s := State();
      EndMarkValue(g);
      GrowLink(s.fat, chains, ch, i, clst);
      r := CreateChain(clst);
      DataIsKept();
      GrowOutcome(s, chains, ch, i, clst, r, State(), EndMark());
      if i + 1 >= |ch| && r != 0 {
        chains := Swapped(chains, ch, ch + [r]);
      }
    }

    /** `remove_chain` before position i of chain ch. */
    method Chop(ghost ch: seq<nat>, ghost i: nat, clst: nat, pclst: nat) returns (res: FResult)
      requires Consistent() && ch in chains && i < |ch| && clst == ch[i]
      requires pclst == if i == 0 then 0 else ch[i - 1]
      modifies this`disk, this`wflag, this`winsect, this`freeClst, this`fsiFlag, this`chains, win
      ensures Consistent() && OnlyFatsChanged() && DataKept() && CountKept() && res == FR_OK
      ensures chains == Swapped(old(chains), ch, ch[..i]) && chains - {ch[..i]} == old(chains) - {ch}
      ensures (InFirstFat(g, winsect) || winsect == old(winsect)) && CountMarked()
    {
      hide Fat;
      hide FatB;
      hide Image;
      hide InFats;
      hide Mirrored;
      hide Partition;
      hide FreeExact;
      hide CutAt;
      hide FatChains.RemoveChain;
      hide Swapped;
      ghost var after := Swapped(chains, ch, ch[..i]);
      ghost var end := ChopFacts(ch, i, pclst);
      res := RemoveChain(clst, pclst);
      DataIsKept();
      chains := after;
    }

    lemma ChopFacts(ch: seq<nat>, i: nat, pclst: nat) returns (end: nat)
      requires Consistent() && ch in chains && i < |ch|
      requires pclst == if i == 0 then 0 else ch[i - 1]
      ensures ch[i] < g.nFatent < DWORD_RANGE && pclst < g.nFatent
      ensures end == EndMark()
      ensures var r := FatChains.RemoveChain(State(), ch[i], pclst, end);
              && r.1 && Partition(r.0.fat, Swapped(chains, ch, ch[..i]))
              && (FreeExact(State()) ==> FreeExact(r.0))
      ensures Swapped(chains, ch, ch[..i]) - {ch[..i]} == chains - {ch}
    {
      EndMarkValue(g);
      end := EndMark();
      CutRange(Fat(), chains, ch, i);
      CutChain(State(), chains, ch, i, pclst, end);
      CutOthers(Fat(), chains, ch, i);
    }

    // ----- direct transfers of file data

    /** `disk_write` of whole sectors of the data area that the window does not hold. */
    method DiskWrite(sect: nat, data: seq<Sector>)
      requires Consistent() && FatEnd(g) <= sect && sect + |data| <= |disk|
      requires !(sect <= winsect < sect + |data|)
      modifies this`disk
      ensures Consistent() && Fat() == old(Fat()) && CountKept()
      ensures disk == PutRun(old(disk), sect, data)
      ensures forall s: nat :: s < |disk| && !(sect <= s < sect + |data|) ==> Image()[s] == old(Image())[s]
      ensures Mirrored(g, old(Image())) ==> Mirrored(g, Image())
    {
      ghost var img := Image();
      disk := PutRun(disk, sect, data);
      SameFatBytes(g, img, Image());
    }
  }
}
