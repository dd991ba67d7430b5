/** Whole runs of calls on an open file, against a file that is one sequence of bytes and a cursor. */
module FatRuns {
  import opened Machine
  import opened FatChains
  import opened FatImage
  import opened FatContent
  import opened FatVolume
  import opened FatFile

  datatype PlainFile = PlainFile(content: seq<byte>, pos: nat)

  datatype Call = CallWrite(d: seq<byte>) | CallRead(n: nat) | CallSeek(ofs: nat) | CallTruncate

  /** What a call gives back: its code, the bytes read and the number of bytes moved. */
  datatype Outcome = Outcome(res: FResult, data: seq<byte>, count: nat)

  predicate Permitted(call: Call, canRead: bool, canWrite: bool) {
    match call
    case CallWrite(_) => canWrite
    case CallRead(_) => canRead
    case CallSeek(_) => true
    case CallTruncate => canWrite
  }

  /** The meaning of a call on a plain file, where vol is the allocator's state after the call. Only the gap
      behind the old end that a seek opens is left open, and how far a write or a seek gets that ends on a full
      volume; a write also ends at offset 2^32-1. */
  ghost predicate Does(a: PlainFile, call: Call, out: Outcome, b: PlainFile, vol: FatState,
                       canRead: bool, canWrite: bool) {
    && a.pos <= |a.content|
    && b.pos <= |b.content|
    && out.res == (if Permitted(call, canRead, canWrite) then FR_OK else FR_DENIED)
    && (out.res == FR_DENIED ==> b == a && out.data == [] && out.count == 0)
    && (out.res == FR_OK ==>
          match call
          case CallWrite(d) =>
            && out.count <= |d| && b == PlainFile(Splice(a.content, a.pos, d[..out.count]), a.pos + out.count)
            && (out.count < |d| ==> Full(vol) || b.pos == DWORD_RANGE - 1)
          case CallRead(n) =>
            var m := if n < |a.content| - a.pos then n else |a.content| - a.pos;
            out.data == a.content[a.pos..a.pos + m] && out.count == m && b == PlainFile(a.content, a.pos + m)
          case CallSeek(ofs) =>
            && a.content <= b.content
            && |b.content| == (if b.pos > |a.content| then b.pos else |a.content|)
            && (b.pos == ofs || |a.content| <= b.pos < ofs)
            && (canWrite && b.pos < ofs ==> Full(vol))
            && (!canWrite ==> b == PlainFile(a.content, if ofs > |a.content| then |a.content| else ofs))
          case CallTruncate => b == PlainFile(a.content[..a.pos], a.pos))
  }

  predicate Fits32(call: Call) {
    match call
    case CallWrite(d) => |d| < DWORD_RANGE
    case CallSeek(ofs) => ofs < DWORD_RANGE
    case _ => true
  }

  ghost function Plain(f: Fil): PlainFile
    reads f, f.buf, f.fs, f.fs.win
    requires f.Valid()
  {
    PlainFile(f.Content(), f.fptr)
  }

  /** The allocator's state of the volume a valid file is on. */
  ghost function VolOf(f: Fil): (s: FatState)
    reads f, f.buf, f.fs, f.fs.win
    requires f.Valid()
  {
    f.fs.State()
  }

  lemma CountStays(f: Fil)
    requires f.Valid()
    ensures f.view.exact ==> FreeExact(VolOf(f)) && (Full(VolOf(f)) <==> NoFreeCluster(VolOf(f).fat))
  {
    if f.view.exact { FullIffNoneFree(f.fs.State()); }
  }

  lemma MirrorStays(f: Fil)
    requires f.Valid()
    ensures f.fs.WindowOk() && f.MirrorKept(f.fs.Image())
  {
  }

  /** One call on the real file is one step of the plain file. */
  method Perform(f: Fil, call: Call) returns (out: Outcome)
    requires f.Valid() && Fits32(call)
    modifies f, f.buf, f.fs, f.fs.win
    ensures f.Valid() && Does(old(Plain(f)), call, out, Plain(f), VolOf(f), f.canRead, f.canWrite)
    ensures f.view == old(f.view) && (f.cut ==> old(f.cut) || call.CallTruncate?)
    ensures (old(f.modified) ==> f.modified)
         && (!f.modified ==> f.sclust == old(f.sclust) && Plain(f).content == old(Plain(f)).content)
  {
    hide Fil.Valid, Does, Plain, VolOf;
    match call
    case CallWrite(d) => out := PerformWrite(f, d);
    case CallRead(n) => out := PerformRead(f, n);
    case CallSeek(ofs) => out := PerformSeek(f, ofs);
    case CallTruncate => out := PerformTruncate(f);
  }

  method PerformWrite(f: Fil, d: seq<byte>) returns (out: Outcome)
    requires f.Valid() && |d| < DWORD_RANGE
    modifies f, f.buf, f.fs, f.fs.win
    ensures f.Valid() && Does(old(Plain(f)), CallWrite(d), out, Plain(f), VolOf(f), f.canRead, f.canWrite)
    ensures f.view == old(f.view) && f.cut == old(f.cut)
    ensures (old(f.modified) ==> f.modified)
         && (!f.modified ==> f.sclust == old(f.sclust) && Plain(f).content == old(Plain(f)).content)
  {
    hide Fil.Core, Fil.Coherent, Fil.PositionedAt, Full, FreeExact, Splice;
    var res, n := f.Write(d);
    if !f.canWrite { SpliceNothing(old(f.Content()), old(f.fptr), d[..0]); }
    out := Outcome(res, [], n);
  }

  method PerformRead(f: Fil, n: nat) returns (out: Outcome)
    requires f.Valid()
    modifies f, f.buf, f.fs, f.fs.win
    ensures f.Valid() && Does(old(Plain(f)), CallRead(n), out, Plain(f), VolOf(f), f.canRead, f.canWrite)
    ensures f.view == old(f.view) && f.cut == old(f.cut)
    ensures (old(f.modified) ==> f.modified)
         && (!f.modified ==> f.sclust == old(f.sclust) && Plain(f).content == old(Plain(f)).content)
  {
    hide Fil.Core, Fil.Coherent, Fil.PositionedAt, Full, FreeExact, Does;
    ghost var a := Plain(f);
    var res, data := f.Read(n);
    ReadDoes(a, n, res, data, Plain(f), VolOf(f), f.canRead, f.canWrite);
    out := Outcome(res, data, |data|);
  }

  lemma ReadDoes(a: PlainFile, n: nat, res: FResult, data: seq<byte>, b: PlainFile, vol: FatState,
                 canRead: bool, canWrite: bool)
    requires a.pos <= |a.content| == |b.content| && b.content == a.content
    requires res == if canRead then FR_OK else FR_DENIED
    requires |data| == if !canRead then 0 else if n < |a.content| - a.pos then n else |a.content| - a.pos
    requires b.pos == a.pos + |data| && data == b.content[a.pos..b.pos]
    ensures Does(a, CallRead(n), Outcome(res, data, |data|), b, vol, canRead, canWrite)
  {
  }

  method PerformSeek(f: Fil, ofs: nat) returns (out: Outcome)
    requires f.Valid() && ofs < DWORD_RANGE
    modifies f, f.buf, f.fs, f.fs.win
    ensures f.Valid() && Does(old(Plain(f)), CallSeek(ofs), out, Plain(f), VolOf(f), f.canRead, f.canWrite)
    ensures f.view == old(f.view) && f.cut == old(f.cut)
    ensures (old(f.modified) ==> f.modified)
         && (!f.modified ==> f.sclust == old(f.sclust) && Plain(f).content == old(Plain(f)).content)
  {
    hide Fil.Core, Fil.Coherent, Fil.PositionedAt, Full, FreeExact;
    var res := f.Seek(ofs);
    SeekPrefix(old(f.Content()), f.Content(), old(f.objsize));
    out := Outcome(res, [], 0);
  }

  method PerformTruncate(f: Fil) returns (out: Outcome)
    requires f.Valid()
    modifies f, f.buf, f.fs, f.fs.win
    ensures f.Valid() && Does(old(Plain(f)), CallTruncate, out, Plain(f), VolOf(f), f.canRead, f.canWrite)
    ensures f.view == old(f.view)
    ensures (old(f.modified) ==> f.modified)
         && (!f.modified ==> f.sclust == old(f.sclust) && Plain(f).content == old(Plain(f)).content)
  {
    hide Fil.Core, Fil.Coherent, Fil.PositionedAt, Full, FreeExact;
    var res := f.Truncate();
    out := Outcome(res, [], 0);
  }

  lemma SeekPrefix(c: seq<byte>, d: seq<byte>, n: nat)
    requires n <= |d| && n == |c| && d[..n] == c
    ensures c <= d
    ensures |d| == n ==> d == c
  {
    if |d| == n { assert d[..n] == d; }
  }

  /** A run on a plain file: one state more than calls, and the allocator's state after each call. */
  ghost predicate IsRun(states: seq<PlainFile>, calls: seq<Call>, outs: seq<Outcome>, vols: seq<FatState>,
                        canRead: bool, canWrite: bool) {
    && |states| == |calls| + 1 && |outs| == |vols| == |calls|
    && forall i :: 0 <= i < |calls| ==> Does(states[i], calls[i], outs[i], states[i + 1], vols[i], canRead, canWrite)
  }

  /** Any sequence of calls on the real file is a run of the plain file, and keeps the file valid: in
      particular the chains and sectors of other files stay as they were when it was opened, equal FATs stay
      equal, and if the free count was exact then, a full volume is one without a free cluster. */
  method PerformAll(f: Fil, calls: seq<Call>)
    returns (outs: seq<Outcome>, ghost states: seq<PlainFile>, ghost vols: seq<FatState>)
    requires f.Valid() && forall i :: 0 <= i < |calls| ==> Fits32(calls[i])
    modifies f, f.buf, f.fs, f.fs.win
    ensures f.Valid() && IsRun(states, calls, outs, vols, f.canRead, f.canWrite)
    ensures states[0] == old(Plain(f)) && states[|calls|] == Plain(f)
    ensures calls != [] ==> vols[|calls| - 1] == VolOf(f)
    ensures f.view.exact ==> forall i :: 0 <= i < |calls| ==> (Full(vols[i]) <==> NoFreeCluster(vols[i].fat))
    ensures f.fs.WindowOk() && f.MirrorKept(f.fs.Image())
    ensures !f.modified ==> f.sclust == old(f.sclust) && states[|calls|].content == states[0].content
  {
    hide Fil.Valid, Fil.MirrorKept, Does, Plain, VolOf, Full, NoFreeCluster, FreeExact;
    outs, states, vols := [], [Plain(f)], [];
    for k := 0 to |calls|
      invariant f.Valid() && |outs| == |vols| == k && |states| == k + 1 && f.view == old(f.view)
      invariant IsRun(states, calls[..k], outs, vols, f.canRead, f.canWrite)
      invariant states[0] == old(Plain(f)) && states[k] == Plain(f)
      invariant !f.modified ==> f.sclust == old(f.sclust) && Plain(f).content == old(Plain(f)).content
      invariant k > 0 ==> vols[k - 1] == VolOf(f)
      invariant f.view.exact ==> forall i :: 0 <= i < k ==> (Full(vols[i]) <==> NoFreeCluster(vols[i].fat))
    {
      var out := Perform(f, calls[k]);
      CountStays(f);
      outs := outs + [out];
      states := states + [Plain(f)];
      vols := vols + [VolOf(f)];
      assert calls[..k + 1] == calls[..k] + [calls[k]];
    }
    assert calls[..|calls|] == calls;
    MirrorStays(f);
  }

  // ----- what that means for the bytes

  /** A complete write, a seek back and a read of as many bytes give the written bytes. */
  lemma WriteSeekRead(a: PlainFile, d: seq<byte>, b: PlainFile, c: PlainFile, e: PlainFile, outs: seq<Outcome>,
                      vols: seq<FatState>)
    requires |outs| == |vols| == 3
    requires Does(a, CallWrite(d), outs[0], b, vols[0], true, true) && outs[0].count == |d|
    requires Does(b, CallSeek(a.pos), outs[1], c, vols[1], true, true)
    requires Does(c, CallRead(|d|), outs[2], e, vols[2], true, true)
    ensures outs[2].data == d && e == b
  {
    assert d[..|d|] == d;
    assert b.content[a.pos..a.pos + |d|] == d;
    assert c.content == b.content;
  }

  /** Call i of a run touches byte k: it writes over it or cuts the file before it. */
  ghost predicate Touches(a: PlainFile, call: Call, out: Outcome, k: nat) {
    out.res == FR_OK &&
    match call
    case CallWrite(_) => a.pos <= k < a.pos + out.count
    case CallTruncate => a.pos <= k
    case _ => false
  }

  /** Over any run, a byte that no write covers and no truncation cuts off stays what it was. */
  lemma {:induction false} UntouchedByteStays(states: seq<PlainFile>, calls: seq<Call>, outs: seq<Outcome>,
                                              vols: seq<FatState>, canRead: bool, canWrite: bool, k: nat)
    requires IsRun(states, calls, outs, vols, canRead, canWrite) && k < |states[0].content|
    requires forall i :: 0 <= i < |calls| ==> !Touches(states[i], calls[i], outs[i], k)
    ensures k < |states[|calls|].content| && states[|calls|].content[k] == states[0].content[k]
    decreases |calls|
  {
    if |calls| > 0 {
      var n := |calls| - 1;
      assert IsRun(states[..n + 1], calls[..n], outs[..n], vols[..n], canRead, canWrite);
      UntouchedByteStays(states[..n + 1], calls[..n], outs[..n], vols[..n], canRead, canWrite, k);
      UntouchedByteStep(states[n], calls[n], outs[n], states[n + 1], vols[n], canRead, canWrite, k);
    }
  }

  lemma UntouchedByteStep(a: PlainFile, call: Call, out: Outcome, b: PlainFile, vol: FatState,
                          canRead: bool, canWrite: bool, k: nat)
    requires Does(a, call, out, b, vol, canRead, canWrite) && k < |a.content| && !Touches(a, call, out, k)
    ensures k < |b.content| && b.content[k] == a.content[k]
  {
    if out.res == FR_OK && call.CallWrite? {
      SpliceAt(a.content, a.pos, call.d[..out.count], k);
    }
  }
}
