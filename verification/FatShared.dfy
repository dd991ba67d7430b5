/** Several open files on one volume: any interleaving of calls keeps each of them a plain file of its own. */
module FatShared {
  import opened Machine
  import opened FatGeometry
  import opened FatChains
  import opened FatImage
  import opened FatContent
  import opened FatVolume
  import opened FatFile
  import opened FatRuns

  ghost predicate Apart(f: Fil, h: Fil)
    reads f`chain, h`chain
  {
    f != h && f.buf != h.buf && (f.chain == [] || f.chain != h.chain)
  }

  /** Distinct files of volume v, each with a chain and a buffer of its own. */
  ghost predicate AllApart(v: Fatfs, files: seq<Fil>)
    reads files
  {
    && (forall i :: 0 <= i < |files| ==> files[i].fs == v && files[i].buf != v.win)
    && (forall i, j :: 0 <= i < j < |files| ==> Apart(files[i], files[j]))
  }

  /** Their buffers. */
  ghost function Buffers(files: seq<Fil>): set<array<byte>> {
    set f | f in files :: f.buf
  }

  ghost predicate AllValid(v: Fatfs, files: seq<Fil>)
    reads v, v.win, files, Buffers(files)
  {
    AllApart(v, files) && forall i :: 0 <= i < |files| ==> files[i].Valid() && Current(files[i])
  }

  /** The view of a file is that of the present state. */
  ghost predicate Current(f: Fil)
    reads f, f.buf, f.fs, f.fs.win
    requires f.Valid()
  {
    f.view == f.CurrentView() && f.cut == !f.Anchored()
  }

  /** A file and its cursor, also while its view is out of date. */
  ghost function Kept(f: Fil): PlainFile
    reads f, f.buf, f.fs, f.fs.win
    requires f.Resumable()
  {
    PlainFile(f.Held(), f.fptr)
  }

  /** Every file takes the present state for its view. */
  ghost method RenewAll(v: Fatfs, files: seq<Fil>)
    requires AllApart(v, files) && forall i :: 0 <= i < |files| ==> files[i].Resumable()
    modifies files
    ensures AllValid(v, files)
    ensures forall i :: 0 <= i < |files| ==> Plain(files[i]) == old(Kept(files[i]))
    ensures forall i :: 0 <= i < |files| ==> files[i].chain == old(files[i].chain)
    ensures forall i :: 0 <= i < |files| ==> (files[i].Anchored() <==> old(files[i].Anchored()))
  {
    hide Fil.Valid, Fil.Resumable, Fil.Anchored, Kept, Plain, Current;
    for k := 0 to |files|
      invariant forall i :: 0 <= i < |files| ==> files[i].chain == old(files[i].chain)
      invariant forall i :: 0 <= i < |files| ==> (files[i].Anchored() <==> old(files[i].Anchored()))
      invariant forall i :: k <= i < |files| ==> files[i].Resumable() && Kept(files[i]) == old(Kept(files[i]))
      invariant forall i :: 0 <= i < k ==> files[i].Valid() && Current(files[i])
      invariant forall i :: 0 <= i < k ==> Plain(files[i]) == old(Kept(files[i]))
    {
      RenewOne(files[k]);
    }
  }

  ghost method RenewOne(f: Fil)
    requires f.Resumable()
    modifies f`view, f`owned, f`cut
    ensures f.Valid() && Current(f) && Plain(f) == old(Kept(f))
  {
    hide Fil.Core, Fil.Coherent, Fil.PositionedAt;
    f.Renew();
    f.ValidIsResumable();
  }

  /** A chain of the volume that belongs to none of the open files. */
  ghost predicate Closed(v: Fatfs, files: seq<Fil>, ch: seq<nat>)
    reads v`chains, files`chain
  {
    ch in v.chains && LegalClusters(v.g, ch) && 0 < v.g.csize && forall i :: 0 <= i < |files| ==> files[i].chain != ch
  }

  /** The volume beside the open files: the chains of the closed ones, all sectors, and whether a known free count is
      exact. */
  datatype Rest = Rest(closed: iset<seq<nat>>, image: seq<Sector>, exact: bool)

  ghost function RestOf(v: Fatfs, files: seq<Fil>): Rest
    reads v, v.win, files`chain
    requires v.Valid()
  {
    Rest((iset ch: seq<nat> | Closed(v, files, ch)), v.Image(), FreeExact(v.State()))
  }

  /** Files that are not open keep their chains and sectors; equal FATs stay equal, and an exact free count exact. */
  ghost predicate RestKept(g: Geometry, a: Rest, b: Rest) {
    && (forall ch :: ch in a.closed ==>
          ch in b.closed && 0 < g.csize && LegalClusters(g, ch) && SameAt(b.image, a.image, Secs(g, ch)))
    && OnDisk(g, a.image) && OnDisk(g, b.image)
    && (Mirrored(g, a.image) ==> Mirrored(g, b.image))
    && (a.exact ==> b.exact)
  }

  lemma RestKeptTwice(g: Geometry, a: Rest, b: Rest, c: Rest)
    requires RestKept(g, a, b) && RestKept(g, b, c)
    ensures RestKept(g, a, c)
  {
    hide Secs, Mirrored;
    forall ch | ch in a.closed
      ensures SameAt(c.image, a.image, Secs(g, ch))
    {
      SameTwice(a.image, b.image, c.image, Secs(g, ch));
    }
  }

  lemma SameTwice(a: seq<Sector>, b: seq<Sector>, c: seq<Sector>, secs: seq<nat>)
    requires SameAt(b, a, secs) && SameAt(c, b, secs)
    ensures SameAt(c, a, secs)
  {
    assert forall j :: 0 <= j < |secs| ==> SameIn(b, a, secs[j]) && SameIn(c, b, secs[j]);
  }

  /** The other files than file a have their buffers on sectors of their own. */
  ghost predicate OthersAnchored(files: seq<Fil>, a: nat)
    reads files
  {
    forall i :: 0 <= i < |files| && i != a ==> files[i].Anchored()
  }

  /** A call on file a, before the other files have renewed their views. */
  method CallOne(v: Fatfs, files: seq<Fil>, a: nat, call: Call) returns (out: Outcome)
    requires AllValid(v, files) && a < |files| && Fits32(call) && OthersAnchored(files, a)
    modifies v, v.win, files, Buffers(files)
    ensures AllApart(v, files) && OthersAnchored(files, a)
    ensures forall i :: 0 <= i < |files| ==> files[i].Resumable()
    ensures forall i :: 0 <= i < |files| && i != a ==> Kept(files[i]) == old(Plain(files[i]))
    ensures v.Valid() && Does(old(Plain(files[a])), call, out, Kept(files[a]), v.State(),
                              files[a].canRead, files[a].canWrite)
    ensures old(files[a].Anchored()) && !call.CallTruncate? ==> files[a].Anchored()
    ensures old(v.Valid()) && v.Valid() && RestKept(v.g, old(RestOf(v, files)), RestOf(v, files))
  {
    hide Does, Fil.Valid, Fil.Resumable, Fil.Anchored, Fil.Held, Fil.Content, SameAt, Secs, Mirrored;
    hide LegalClusters, Fatfs.Image, FreeExact, Fatfs.WindowOk, RestKept;
    var f := files[a];
    forall i | 0 <= i < |files| { files[i].ValidIsResumable(); }
    v.ImageOnDisk();
    ghost var rest := RestOf(v, files);
    out := Perform(f, call);
    f.ValidIsResumable();
    forall i | 0 <= i < |files| && i != a
      ensures files[i].Resumable()
      ensures Kept(files[i]) == old(Kept(files[i])) && files[i].Anchored() && Apart(f, files[i])
    {
      f.Rests(files[i]);
    }
    f.VolumeRests();
    forall ch | ch in rest.closed
      ensures Closed(v, files, ch) && SameAt(v.Image(), rest.image, Secs(v.g, ch))
    {
      f.ChainRests(ch);
    }
    RestIsKept(v, files, rest);
  }

  lemma RestIsKept(v: Fatfs, files: seq<Fil>, rest: Rest)
    requires v.Valid() && OnDisk(v.g, rest.image)
    requires forall ch :: ch in rest.closed ==> Closed(v, files, ch) && SameAt(v.Image(), rest.image, Secs(v.g, ch))
    requires Mirrored(v.g, rest.image) ==> Mirrored(v.g, v.Image())
    requires rest.exact ==> FreeExact(v.State())
    ensures RestKept(v.g, rest, RestOf(v, files))
  {
    hide SameAt, Secs, LegalClusters, Mirrored, FreeExact, Fatfs.Image, Fatfs.WindowOk, Fatfs.Fat;
    v.ImageOnDisk();
  }

  lemma RestKeptOnce(v: Fatfs, files: seq<Fil>)
    requires v.Valid()
    ensures RestKept(v.g, RestOf(v, files), RestOf(v, files))
  {
    hide Secs, LegalClusters, Mirrored, FreeExact, Fatfs.Image, Fatfs.WindowOk, Fatfs.Fat;
    v.ImageOnDisk();
    forall ch | Closed(v, files, ch)
      ensures SameAt(v.Image(), v.Image(), Secs(v.g, ch))
    {
      SectorsInside(v.g, ch, v.Image());
    }
    RestIsKept(v, files, RestOf(v, files));
  }

  lemma SectorsInside(g: Geometry, ch: seq<nat>, img: seq<Sector>)
    requires OnDisk(g, img) && LegalClusters(g, ch)
    ensures SameAt(img, img, Secs(g, ch))
  {
    hide Secs;
    forall j | 0 <= j < |Secs(g, ch)|
      ensures SameIn(img, img, Secs(g, ch)[j])
    {
      SectorInArea(g, ch, j);
    }
  }

  /** What one call does to all open files: the file it is made on takes the step of a plain file, all others stay
      what they are; a file keeps its buffer on its own sectors unless it is truncated. */
  method PerformTurn(v: Fatfs, files: seq<Fil>, a: nat, call: Call) returns (out: Outcome)
    requires AllValid(v, files) && a < |files| && Fits32(call) && OthersAnchored(files, a)
    modifies v, v.win, files, Buffers(files)
    ensures AllValid(v, files) && OthersAnchored(files, a)
    ensures forall i :: 0 <= i < |files| && i != a ==> Plain(files[i]) == old(Plain(files[i]))
    ensures v.Valid() && Does(old(Plain(files[a])), call, out, Plain(files[a]), v.State(),
                              files[a].canRead, files[a].canWrite)
    ensures old(files[a].Anchored()) && !call.CallTruncate? ==> files[a].Anchored()
    ensures old(v.Valid()) && v.Valid() && RestKept(v.g, old(RestOf(v, files)), RestOf(v, files))
  {
    hide Does, Fil.Valid, Fil.Resumable, Fil.Anchored, Fil.Held, Fil.Content, RestKept, Plain, Kept;
    out := CallOne(v, files, a, call);
    RenewAll(v, files);
  }

  // ----- whole runs

  /** A call on one of the files. */
  datatype Turn = Turn(who: nat, call: Call)

  /** The file whose turn it is takes the step of a plain file; the others stay as they are. */
  ghost predicate Takes(files: seq<Fil>, s: seq<PlainFile>, t: Turn, out: Outcome, s': seq<PlainFile>, vol: FatState) {
    && |s| == |s'| == |files| && t.who < |files|
    && Does(s[t.who], t.call, out, s'[t.who], vol, files[t.who].canRead, files[t.who].canWrite)
    && forall i :: 0 <= i < |files| && i != t.who ==> s'[i] == s[i]
  }

  ghost predicate IsSharedRun(files: seq<Fil>, states: seq<seq<PlainFile>>, turns: seq<Turn>, outs: seq<Outcome>,
                              vols: seq<FatState>) {
    && |states| == |turns| + 1 && |outs| == |vols| == |turns|
    && (forall k :: 0 <= k <= |turns| ==> |states[k]| == |files|)
    && forall k :: 0 <= k < |turns| ==> Takes(files, states[k], turns[k], outs[k], states[k + 1], vols[k])
  }

  predicate Possible(files: seq<Fil>, t: Turn) {
    t.who < |files| && Fits32(t.call) && !t.call.CallTruncate?
  }

  ghost predicate AllAnchored(files: seq<Fil>)
    reads files
  {
    forall i :: 0 <= i < |files| ==> files[i].Anchored()
  }

  lemma RunGrows(files: seq<Fil>, states: seq<seq<PlainFile>>, turns: seq<Turn>, outs: seq<Outcome>,
                 vols: seq<FatState>, t: Turn, out: Outcome, s': seq<PlainFile>, vol: FatState)
    requires IsSharedRun(files, states, turns, outs, vols) && Takes(files, states[|turns|], t, out, s', vol)
    ensures IsSharedRun(files, states + [s'], turns + [t], outs + [out], vols + [vol])
  {
    hide Does;
  }

  lemma RunSizes(files: seq<Fil>, states: seq<seq<PlainFile>>, turns: seq<Turn>, outs: seq<Outcome>,
                 vols: seq<FatState>)
    requires IsSharedRun(files, states, turns, outs, vols)
    ensures |states| == |turns| + 1 && |outs| == |vols| == |turns|
    ensures forall k :: 0 <= k < |states| ==> |states[k]| == |files|
  {
  }

  lemma RunShrinks(files: seq<Fil>, states: seq<seq<PlainFile>>, turns: seq<Turn>, outs: seq<Outcome>,
                   vols: seq<FatState>)
    requires IsSharedRun(files, states, turns, outs, vols) && turns != []
    ensures var n := |turns| - 1;
            && IsSharedRun(files, states[..n + 1], turns[..n], outs[..n], vols[..n])
            && Takes(files, states[n], turns[n], outs[n], states[n + 1], vols[n])
  {
    hide Takes;
  }

  lemma EmptyRun(files: seq<Fil>, s: seq<PlainFile>)
    requires |s| == |files|
    ensures IsSharedRun(files, [s], [], [], [])
  {
  }

  /** The files as plain files. */
  ghost predicate ArePlain(v: Fatfs, files: seq<Fil>, s: seq<PlainFile>)
    reads v, v.win, files, Buffers(files)
    requires AllValid(v, files)
  {
    |s| == |files| && forall i :: 0 <= i < |files| ==> s[i] == Plain(files[i])
  }

  /** The first step: every file renews its view. */
  ghost method StartTurns(v: Fatfs, files: seq<Fil>) returns (s: seq<PlainFile>)
    requires AllApart(v, files) && AllAnchored(files) && v.Valid()
    requires forall i :: 0 <= i < |files| ==> files[i].Valid()
    modifies files
    ensures AllValid(v, files) && AllAnchored(files) && ArePlain(v, files, s) && |s| == |files|
    ensures forall i :: 0 <= i < |files| ==> s[i] == old(Plain(files[i]))
    ensures RestOf(v, files) == old(RestOf(v, files))
  {
    hide Fil.Valid, Fil.Anchored, Fil.Held, Fil.Content, FreeExact, Fatfs.Image, Fatfs.Fat, LegalClusters;
    ghost var rest := RestOf(v, files);
    forall i | 0 <= i < |files| { files[i].ValidIsResumable(); }
    RenewAll(v, files);
    s := Snapshot(v, files);
    assert forall ch :: Closed(v, files, ch) <==> ch in rest.closed;
  }

  ghost method Snapshot(v: Fatfs, files: seq<Fil>) returns (s: seq<PlainFile>)
    requires AllValid(v, files)
    ensures ArePlain(v, files, s)
  {
    hide Fil.Valid, Plain;
    s := [];
    for k := 0 to |files|
      invariant |s| == k && forall i :: 0 <= i < k ==> s[i] == Plain(files[i])
    {
      s := s + [Plain(files[k])];
    }
  }

  method TakeTurn(v: Fatfs, files: seq<Fil>, t: Turn, ghost s: seq<PlainFile>)
    returns (out: Outcome, ghost s': seq<PlainFile>)
    requires AllValid(v, files) && AllAnchored(files) && v.Valid() && Possible(files, t) && ArePlain(v, files, s)
    modifies v, v.win, files, Buffers(files)
    ensures AllValid(v, files) && AllAnchored(files) && v.Valid() && ArePlain(v, files, s')
    ensures Takes(files, s, t, out, s', v.State())
    ensures RestKept(v.g, old(RestOf(v, files)), RestOf(v, files))
  {
    hide Fil.Valid, Fil.Anchored, Plain, Does, RestKept, RestOf, AllApart, Current, Fatfs.Valid;
    out := PerformTurn(v, files, t.who, t.call);
    s' := Snapshot(v, files);
  }

  /** Any interleaving of writes, reads and seeks on any number of open files is a run in which each of them is a
      plain file of its own. The files that are not open stay as they were. */
  method PerformShared(v: Fatfs, files: seq<Fil>, turns: seq<Turn>)
    returns (outs: seq<Outcome>, ghost states: seq<seq<PlainFile>>, ghost vols: seq<FatState>)
    requires AllApart(v, files) && AllAnchored(files) && v.Valid()
    requires forall i :: 0 <= i < |files| ==> files[i].Valid()
    requires forall k :: 0 <= k < |turns| ==> Possible(files, turns[k])
    modifies v, v.win, files, Buffers(files)
    ensures AllValid(v, files) && AllAnchored(files) && v.Valid()
    ensures IsSharedRun(files, states, turns, outs, vols)
    ensures |states[0]| == |files| && forall i :: 0 <= i < |files| ==> states[0][i] == old(Plain(files[i]))
    ensures ArePlain(v, files, states[|turns|])
    ensures RestKept(v.g, old(RestOf(v, files)), RestOf(v, files))
    ensures old(FreeExact(v.State())) ==>
              forall k :: 0 <= k < |turns| ==> (Full(vols[k]) <==> NoFreeCluster(vols[k].fat))
  {
    hide AllValid, AllAnchored, ArePlain, Takes, IsSharedRun, Full, NoFreeCluster, FreeExact, RestKept, Possible;
    hide RestOf, AllApart, Fil.Valid, Plain, Fatfs.Valid, Fatfs.State;
    RestExact(v, files);
    ghost var s := StartTurns(v, files);
    RestKeptOnce(v, files);
    EmptyRun(files, s);
    ghost var rest := RestOf(v, files);
    outs, states, vols := [], [s], [];
    for k := 0 to |turns|
      invariant AllValid(v, files) && AllAnchored(files) && v.Valid()
      invariant |states| == k + 1 && |outs| == |vols| == k
      invariant IsSharedRun(files, states, turns[..k], outs, vols)
      invariant states[0] == s && ArePlain(v, files, states[k])
      invariant RestKept(v.g, rest, RestOf(v, files))
      invariant rest.exact ==> forall i :: 0 <= i < k ==> (Full(vols[i]) <==> NoFreeCluster(vols[i].fat))
    {
      ghost var before := RestOf(v, files);
      ghost var s';
      var out;
      out, s' := TakeTurn(v, files, turns[k], states[k]);
      RestKeptTwice(v.g, rest, before, RestOf(v, files));
      if rest.exact { CountFollows(v, files, rest); }
      RunGrows(files, states, turns[..k], outs, vols, turns[k], out, s', v.State());
      assert turns[..k + 1] == turns[..k] + [turns[k]];
      outs := outs + [out];
      states := states + [s'];
      vols := vols + [v.State()];
    }
    assert turns[..|turns|] == turns;
  }

  lemma RestExact(v: Fatfs, files: seq<Fil>)
    requires v.Valid()
    ensures RestOf(v, files).exact == FreeExact(v.State())
  {
  }

  lemma CountFollows(v: Fatfs, files: seq<Fil>, rest: Rest)
    requires v.Valid() && RestKept(v.g, rest, RestOf(v, files)) && rest.exact
    ensures Full(v.State()) <==> NoFreeCluster(v.State().fat)
  {
    FullIffNoneFree(v.State());
  }

  // ----- each file alone

  /** The entries of the turns of one file. */
  function Own<T>(turns: seq<Turn>, xs: seq<T>, who: nat): seq<T>
    requires |xs| == |turns|
  {
    if turns == [] then []
    else
      var n := |turns| - 1;
      Own(turns[..n], xs[..n], who) + if turns[n].who == who then [xs[n]] else []
  }

  function CallsOf(turns: seq<Turn>, who: nat): seq<Call> {
    if turns == [] then []
    else
      var n := |turns| - 1;
      CallsOf(turns[..n], who) + if turns[n].who == who then [turns[n].call] else []
  }

  /** What it is at the start and after each of its turns. */
  ghost function StatesOf(turns: seq<Turn>, states: seq<seq<PlainFile>>, who: nat): (r: seq<PlainFile>)
    requires |states| == |turns| + 1 && forall k :: 0 <= k < |states| ==> who < |states[k]|
    ensures |r| > 0
  {
    if turns == [] then [states[0][who]]
    else
      var n := |turns| - 1;
      StatesOf(turns[..n], states[..n + 1], who) + if turns[n].who == who then [states[n + 1][who]] else []
  }

  /** Seen from one file, a shared run is a run of a plain file through its own calls: the calls on other files have
      no effect on it. */
  lemma {:induction false} EachRunsAlone(files: seq<Fil>, states: seq<seq<PlainFile>>, turns: seq<Turn>,
                                         outs: seq<Outcome>, vols: seq<FatState>, who: nat)
    requires IsSharedRun(files, states, turns, outs, vols) && who < |files|
    ensures IsRun(StatesOf(turns, states, who), CallsOf(turns, who), Own(turns, outs, who), Own(turns, vols, who),
                  files[who].canRead, files[who].canWrite)
    ensures |StatesOf(turns, states, who)| == |CallsOf(turns, who)| + 1
    ensures StatesOf(turns, states, who)[0] == states[0][who]
    ensures StatesOf(turns, states, who)[|CallsOf(turns, who)|] == states[|turns|][who]
    decreases |turns|
  {
    hide Does, IsSharedRun, IsRun;
    RunSizes(files, states, turns, outs, vols);
    if turns == [] {
      EmptyRunAlone(states[0][who], files[who].canRead, files[who].canWrite);
    } else {
      var n := |turns| - 1;
      RunShrinks(files, states, turns, outs, vols);
      EachRunsAlone(files, states[..n + 1], turns[..n], outs[..n], vols[..n], who);
      var a, c := StatesOf(turns[..n], states[..n + 1], who), CallsOf(turns[..n], who);
      var o, w := Own(turns[..n], outs[..n], who), Own(turns[..n], vols[..n], who);
      RunAloneSizes(a, c, o, w, files[who].canRead, files[who].canWrite);
      if turns[n].who == who {
        PlainRunGrows(a, c, o, w, turns[n].call, outs[n], states[n + 1][who], vols[n],
                      files[who].canRead, files[who].canWrite);
      } else {
        assert a + [] == a && c + [] == c && o + [] == o && w + [] == w;
      }
    }
  }

  lemma EmptyRunAlone(a: PlainFile, canRead: bool, canWrite: bool)
    ensures IsRun([a], [], [], [], canRead, canWrite)
  {
  }

  lemma RunAloneSizes(states: seq<PlainFile>, calls: seq<Call>, outs: seq<Outcome>, vols: seq<FatState>,
                      canRead: bool, canWrite: bool)
    requires IsRun(states, calls, outs, vols, canRead, canWrite)
    ensures |states| == |calls| + 1 && |outs| == |vols| == |calls|
  {
  }

  lemma PlainRunGrows(states: seq<PlainFile>, calls: seq<Call>, outs: seq<Outcome>, vols: seq<FatState>, call: Call,
                      out: Outcome, b: PlainFile, vol: FatState, canRead: bool, canWrite: bool)
    requires IsRun(states, calls, outs, vols, canRead, canWrite)
    requires Does(states[|calls|], call, out, b, vol, canRead, canWrite)
    ensures IsRun(states + [b], calls + [call], outs + [out], vols + [vol], canRead, canWrite)
  {
    hide Does;
  }
}
