/** Cluster chains in a FAT seen as an array of numbers: what allocation and removal do to them. */
module FatChains {
  import opened Machine

  /** The allocator's view of a volume: the FAT and the two FSINFO values. */
  datatype FatState = FatState(fat: seq<nat>, free: nat, last: nat)

  /** What `get_fat` answers: 1 stands for an illegal cluster number. */
  function EntryOrOne(fat: seq<nat>, c: nat): nat {
    if 2 <= c < |fat| then fat[c] else 1
  }

  predicate IsFree(fat: seq<nat>, c: nat) {
    2 <= c < |fat| && fat[c] == 0
  }

  ghost predicate NoFreeCluster(fat: seq<nat>) {
    forall c :: !IsFree(fat, c)
  }

  /** The number of zero entries among clusters 2..k. */
  function CountFree(fat: seq<nat>, k: nat): (r: nat)
    requires k <= |fat|
    ensures r <= if k <= 2 then 0 else k - 2
  {
    if k <= 2 then 0 else CountFree(fat, k - 1) + if fat[k - 1] == 0 then 1 else 0
  }

  function FreeClusters(fat: seq<nat>): nat {
    CountFree(fat, |fat|)
  }

  /** free_clst is a number in 0..n_fatent-2 when known. */
  predicate Known(s: FatState) {
    s.free + 2 <= |s.fat|
  }

  /** A known free_clst is the number of zero entries. */
  predicate FreeExact(s: FatState) {
    Known(s) ==> s.free == FreeClusters(s.fat)
  }

  lemma {:induction false} CountUpdate(fat: seq<nat>, c: nat, v: nat, k: nat)
    requires k <= |fat| && c < |fat|
    ensures CountFree(fat[c := v], k) ==
            CountFree(fat, k) + (if 2 <= c < k then (if v == 0 then 1 else 0) - (if fat[c] == 0 then 1 else 0) else 0)
  {
    if k > 2 { CountUpdate(fat, c, v, k - 1); }
  }

  lemma {:induction false} CountZeroIff(fat: seq<nat>, k: nat)
    requires k <= |fat|
    ensures CountFree(fat, k) == 0 <==> forall c :: 2 <= c < k ==> fat[c] != 0
  {
    if k > 2 { CountZeroIff(fat, k - 1); }
  }

  // ----- create_chain

  /** How many steps the search takes from cluster `from` to c: upwards, then from 2 again. */
  function Ahead(n: nat, from: nat, c: nat): int {
    if c > from then c - from else c - from + n - 2
  }

  ghost predicate NearestFree(fat: seq<nat>, from: nat, r: nat) {
    IsFree(fat, r) && forall c :: IsFree(fat, c) ==> Ahead(|fat|, from, r) <= Ahead(|fat|, from, c)
  }

  function NextCluster(fat: seq<nat>, clst: nat): nat {
    if clst + 1 >= |fat| then 2 else clst + 1
  }

  /** Where the search for a fragment starts. */
  function Hint(s: FatState, clst: nat): nat {
    if clst == 0 then if s.last == 0 || s.last >= |s.fat| then 1 else s.last
    else if 2 <= s.last < |s.fat| then s.last else clst
  }

  /** Cluster r, marked with the end value and linked from clst when that is not 0. */
  function Link(fat: seq<nat>, clst: nat, r: nat, end: nat): (f: seq<nat>)
    requires clst < |fat| && r < |fat|
    ensures |f| == |fat|
  {
    if clst == 0 then fat[r := end] else fat[r := end][clst := r]
  }

  /** The outcome r of `create_chain` for clst, whatever the FAT holds; end is the end-of-chain value. */
  ghost predicate Created(s: FatState, clst: nat, r: nat, s': FatState, end: nat) {
    var v := EntryOrOne(s.fat, clst);
    if clst != 0 && v < 2 then r == 1 && s' == s
    else if clst != 0 && v < |s.fat| then r == v && s' == s
    else if s.free == 0 then r == 0 && s' == s
    else clst < |s.fat| && Allocated(s, clst, r, s', end)
  }

  /** Its outcome once a cluster has to be found. */
  ghost predicate Allocated(s: FatState, clst: nat, r: nat, s': FatState, end: nat)
    requires clst < |s.fat|
  {
    if clst != 0 && EntryOrOne(s.fat, NextCluster(s.fat, clst)) == 1 then r == 1 && s' == s
    else if r == 0 then NoFreeCluster(s.fat) && s' == s
    else if r == 1 then (exists c :: 2 <= c < |s.fat| && s.fat[c] == 1) && s' == s
    else
      && IsFree(s.fat, r)
      && (if clst != 0 && IsFree(s.fat, NextCluster(s.fat, clst)) then r == NextCluster(s.fat, clst)
          else NearestFree(s.fat, Hint(s, clst), r))
      && s' == FatState(Link(s.fat, clst, r, end),
                        if s.free + 2 <= |s.fat| && s.free > 0 then s.free - 1 else s.free, r)
  }

  // ----- remove_chain

  /** The removal loop from cluster c on any FAT; false when it meets an entry equal to 1. It stops even
      on a cyclic FAT: every round but the last turns a non-zero entry into zero. */
  function RemoveFrom(s: FatState, c: nat): (r: (FatState, bool))
    requires 2 <= c < |s.fat|
    ensures |r.0.fat| == |s.fat| && r.0.last == s.last
    decreases |s.fat| - FreeClusters(s.fat)
  {
    var v := s.fat[c];
    if v == 0 then (s, true)
    else if v == 1 then (s, false)
    else
      CountUpdate(s.fat, c, 0, |s.fat|);
      var s1 := FreeOne(s, c);
      if v < |s.fat| then RemoveFrom(s1, v) else (s1, true)
  }

  function FreeOne(s: FatState, c: nat): FatState
    requires c < |s.fat|
  {
    FatState(s.fat[c := 0], if s.free + 2 < |s.fat| then s.free + 1 else s.free, s.last)
  }

  /** One round of the removal loop. */
  lemma RemoveRound(s: FatState, c: nat)
    requires 2 <= c < |s.fat|
    ensures var v, s1 := s.fat[c], FreeOne(s, c);
            if v == 0 then RemoveFrom(s, c) == (s, true)
            else if v == 1 then RemoveFrom(s, c) == (s, false)
            else
              && FreeClusters(s1.fat) == FreeClusters(s.fat) + 1
              && RemoveFrom(s, c) == if v < |s.fat| then RemoveFrom(s1, v) else (s1, true)
  {
    CountUpdate(s.fat, c, 0, |s.fat|);
  }

  /** On any FAT at all, removal only ever zeroes entries, and counts exactly those it zeroes. */
  lemma {:induction false} RemoveFromAny(s: FatState, c: nat)
    requires 2 <= c < |s.fat|
    ensures var s' := RemoveFrom(s, c).0;
            && (forall d :: 0 <= d < |s.fat| ==> s'.fat[d] == s.fat[d] || s'.fat[d] == 0)
            && (RemoveFrom(s, c).1 ==> s'.fat[c] == 0)
            && (FreeExact(s) ==> FreeExact(s'))
            && (Known(s') <==> Known(s))
    decreases |s.fat| - FreeClusters(s.fat)
  {
    var v := s.fat[c];
    if v >= 2 {
      CountUpdate(s.fat, c, 0, |s.fat|);
      if v < |s.fat| { RemoveFromAny(FreeOne(s, c), v); }
    }
  }

  // ----- chains

  /** A chain: legal clusters, each linked to the next, the last holding a value past every cluster. */
  ghost predicate IsChain(fat: seq<nat>, ch: seq<nat>) {
    && 0 < |ch|
    && Distinct(ch)
    && (forall i :: 0 <= i < |ch| ==> 2 <= ch[i] < |fat|)
    && (forall i :: 0 <= i < |ch| - 1 ==> fat[ch[i]] == ch[i + 1])
    && fat[ch[|ch| - 1]] >= |fat|
  }

  ghost predicate Disjoint(a: seq<nat>, b: seq<nat>) {
    forall c :: c in a ==> c !in b
  }

  ghost predicate Covered(chains: set<seq<nat>>, c: nat) {
    exists ch :: ch in chains && c in ch
  }

  /** The clusters in use are cut into disjoint chains. */
  ghost predicate Partition(fat: seq<nat>, chains: set<seq<nat>>) {
    && (forall ch :: ch in chains ==> IsChain(fat, ch))
    && (forall a, b :: a in chains && b in chains && a != b ==> Disjoint(a, b))
    && (forall c :: 2 <= c < |fat| && fat[c] != 0 ==> Covered(chains, c))
  }

  lemma ChainEntries(fat: seq<nat>, ch: seq<nat>, c: nat)
    requires IsChain(fat, ch) && c in ch
    ensures 2 <= c < |fat| && fat[c] >= 2
  {
    var i :| 0 <= i < |ch| && ch[i] == c;
    if i < |ch| - 1 { assert fat[ch[i]] == ch[i + 1]; }
  }

  /** In a partitioned FAT no entry is 1, so neither loop meets an internal error. */
  lemma NoOnes(fat: seq<nat>, chains: set<seq<nat>>, c: nat)
    requires Partition(fat, chains) && 2 <= c < |fat|
    ensures fat[c] != 1
    ensures fat[c] != 0 <==> Covered(chains, c)
  {
    if Covered(chains, c) {
      var ch :| ch in chains && c in ch;
      ChainEntries(fat, ch, c);
    }
  }

  lemma LinkedTo(fat: seq<nat>, ch: seq<nat>, i: nat)
    requires IsChain(fat, ch) && i + 1 < |ch|
    ensures 2 <= ch[i] < |fat| && 2 <= ch[i + 1] < |fat| && fat[ch[i]] == ch[i + 1]
  {
  }

  lemma FollowLink(fat: seq<nat>, chains: set<seq<nat>>, ch: seq<nat>, i: nat)
    requires Partition(fat, chains) && ch in chains && i < |ch|
    ensures 2 <= ch[i] < |fat|
    ensures if i + 1 < |ch| then fat[ch[i]] == ch[i + 1] && 2 <= ch[i + 1] < |fat| else fat[ch[i]] >= |fat|
  {
    if i + 1 < |ch| { LinkedTo(fat, ch, i); }
  }

  lemma SameOnChain(fat: seq<nat>, fat': seq<nat>, ch: seq<nat>)
    requires IsChain(fat, ch) && |fat'| == |fat|
    requires forall c :: c in ch ==> c < |fat| && fat'[c] == fat[c]
    ensures IsChain(fat', ch)
  {
    assert forall i :: 0 <= i < |ch| ==> ch[i] in ch;
  }

  // ----- what allocation does to the chains

  ghost predicate NoOneEntries(fat: seq<nat>) {
    forall c :: 2 <= c < |fat| ==> fat[c] != 1
  }

  /** The allocator sees no free cluster, or believes so. */
  ghost predicate Full(s: FatState) {
    NoFreeCluster(s.fat) || s.free == 0
  }

  /** An exact count of 0 is the same as no free cluster. */
  lemma FullIffNoneFree(s: FatState)
    requires FreeExact(s) && 2 <= |s.fat|
    ensures Full(s) <==> NoFreeCluster(s.fat)
  {
    CountZeroIff(s.fat, |s.fat|);
    if s.free == 0 {
      assert forall c :: 2 <= c < |s.fat| ==> s.fat[c] != 0;
    }
  }

  /** For a new chain or a cluster in use and any free count, allocation follows a link that is there without
      touching the FAT; otherwise it fails exactly when nothing is free or the count is 0, or else hands out a
      cluster that was free. An exact count stays exact. */
  lemma CreateOutcome(s: FatState, clst: nat, r: nat, s': FatState, end: nat)
    requires Created(s, clst, r, s', end)
    requires NoOneEntries(s.fat) && 3 <= |s.fat|
    requires clst == 0 || EntryOrOne(s.fat, clst) >= 2
    requires end >= |s.fat|
    ensures clst != 0 && s.fat[clst] < |s.fat| ==> r == s.fat[clst] && s' == s
    ensures clst == 0 || s.fat[clst] >= |s.fat| ==>
              && (r == 0 <==> Full(s))
              && (FreeExact(s) ==> (r == 0 <==> NoFreeCluster(s.fat)))
              && (r == 0 ==> s' == s)
              && (r != 0 ==> IsFree(s.fat, r) && s'.fat == Link(s.fat, clst, r, end) && s'.last == r)
    ensures FreeExact(s) ==> FreeExact(s')
    ensures Known(s) <==> Known(s')
  {
    if FreeExact(s) { FullIffNoneFree(s); }
    if r >= 2 && IsFree(s.fat, r) && s' != s {
      CountUpdate(s.fat, r, end, |s.fat|);
      if clst != 0 { CountUpdate(s.fat[r := end], clst, r, |s.fat|); }
    }
  }

  /** fat' comes from fat by giving the clusters of chain `was` to chain `now`, which may also take free
      clusters; [] stands for no chain. */
  ghost predicate Exchanged(fat: seq<nat>, fat': seq<nat>, was: seq<nat>, now: seq<nat>) {
    && |fat'| == |fat|
    && (now == [] || IsChain(fat', now))
    && (forall c :: c in now ==> c in was || IsFree(fat, c))
    && (forall c :: 2 <= c < |fat| && c !in was && c !in now ==> fat'[c] == fat[c])
    && (forall c :: 2 <= c < |fat| && c in was && c !in now ==> fat'[c] == 0)
  }

  function Swapped(chains: set<seq<nat>>, was: seq<nat>, now: seq<nat>): set<seq<nat>> {
    chains - {was} + if now == [] then {} else {now}
  }

  /** The chains beside one that has grown. */
  lemma GrownOthers(chains: set<seq<nat>>, was: seq<nat>, now: seq<nat>)
    requires now != [] && now !in chains
    ensures now in Swapped(chains, was, now) && Swapped(chains, was, now) - {now} == chains - {was}
  {
  }

  lemma ExchangeApart(fat: seq<nat>, chains: set<seq<nat>>, fat': seq<nat>, was: seq<nat>, now: seq<nat>, a: seq<nat>)
    requires Partition(fat, chains) && (was == [] || was in chains) && Exchanged(fat, fat', was, now)
    requires a in chains && a != was
    ensures IsChain(fat', a) && Disjoint(a, now) && Disjoint(now, a)
  {
    assert was != [] ==> Disjoint(a, was);
    forall c | c in a
      ensures 2 <= c < |fat| && c !in now && fat'[c] == fat[c]
    {
      ChainEntries(fat, a, c);
    }
    SameOnChain(fat, fat', a);
  }

  /** Such an exchange keeps the partition. */
  lemma ExchangeKeepsPartition(fat: seq<nat>, chains: set<seq<nat>>, fat': seq<nat>, was: seq<nat>, now: seq<nat>)
    requires Partition(fat, chains) && (was == [] || was in chains) && Exchanged(fat, fat', was, now)
    ensures Partition(fat', Swapped(chains, was, now))
  {
    assert [] !in chains;
    hide IsChain;
    var chains' := Swapped(chains, was, now);
    forall a | a in chains'
      ensures IsChain(fat', a)
      ensures a != now ==> Disjoint(a, now) && Disjoint(now, a)
    {
      if a != now { ExchangeApart(fat, chains, fat', was, now, a); }
    }
    forall a, b | a in chains' && b in chains' && a != b
      ensures Disjoint(a, b)
    {
      assert a != now && b != now ==> a in chains && b in chains;
    }
    forall c | 2 <= c < |fat'| && fat'[c] != 0
      ensures Covered(chains', c)
    {
      if c in now {
        assert now in chains';
      } else {
        assert Covered(chains, c);
        var a :| a in chains && c in a;
        assert a in chains';
      }
    }
  }

  /** A fresh one-cluster chain joins the partition. */
  lemma NewChain(fat: seq<nat>, chains: set<seq<nat>>, r: nat, end: nat)
    requires Partition(fat, chains) && IsFree(fat, r) && end >= |fat|
    ensures Partition(fat[r := end], Swapped(chains, [], [] + [r]))
  {
    assert [] + [r] == [r];
    assert IsChain(fat[r := end], [r]);
    ExchangeKeepsPartition(fat, chains, fat[r := end], [], [r]);
  }

  lemma Longer(fat: seq<nat>, ch: seq<nat>, r: nat, end: nat)
    requires IsChain(fat, ch) && IsFree(fat, r) && end >= |fat|
    ensures r !in ch && IsChain(Link(fat, ch[|ch| - 1], r, end), ch + [r])
  {
    if r in ch { ChainEntries(fat, ch, r); }
    var tail := ch[|ch| - 1];
    var fat' := Link(fat, tail, r, end);
    var more := ch + [r];
    assert Distinct(more) by {
      forall i, j | 0 <= i < j < |more|
        ensures more[i] != more[j]
      {
        if j == |ch| { assert ch[i] in ch; }
      }
    }
    forall i | 0 <= i < |more| - 1
      ensures fat'[more[i]] == more[i + 1]
    {
      assert more[i] == ch[i] && ch[i] in ch;
      if i < |ch| - 1 { assert ch[i] != tail; }
    }
  }

  /** Stretching replaces one chain by itself with the new cluster at its end. */
  lemma StretchChain(fat: seq<nat>, chains: set<seq<nat>>, ch: seq<nat>, r: nat, end: nat)
    requires Partition(fat, chains) && ch in chains && IsFree(fat, r) && end >= |fat|
    ensures Partition(Link(fat, ch[|ch| - 1], r, end), Swapped(chains, ch, ch + [r]))
  {
    Longer(fat, ch, r, end);
    var tail := ch[|ch| - 1];
    assert tail in ch && forall c :: c in ch ==> c in ch + [r];
    ExchangeKeepsPartition(fat, chains, Link(fat, tail, r, end), ch, ch + [r]);
  }

  lemma GrowLink(fat: seq<nat>, chains: set<seq<nat>>, ch: seq<nat>, i: nat, clst: nat)
    requires Partition(fat, chains)
    requires if clst == 0 then ch == [] && i == 0 else ch in chains && i < |ch| && clst == ch[i]
    ensures clst < |fat| || clst == 0
  {
  }

  /** `create_chain` on cluster i of chain ch follows the chain, or stretches it, or finds nothing free. */
  lemma GrowOutcome(s: FatState, chains: set<seq<nat>>, ch: seq<nat>, i: nat, clst: nat, r: nat, s': FatState, end: nat)
    requires Partition(s.fat, chains) && 3 <= |s.fat| && end >= |s.fat|
    requires if clst == 0 then ch == [] && i == 0 else ch in chains && i < |ch| && clst == ch[i]
    requires Created(s, clst, r, s', end)
    ensures (FreeExact(s) ==> FreeExact(s')) && r < |s.fat| && r != 1 && |s'.fat| == |s.fat|
    ensures i + 1 < |ch| ==> r == ch[i + 1] && s' == s
    ensures i + 1 >= |ch| ==>
              && (r == 0 <==> Full(s))
              && if r == 0 then s' == s
                 else ch + [r] !in chains && Partition(s'.fat, Swapped(chains, ch, ch + [r]))
  {
    hide Partition;
    hide IsChain;
    hide FreeClusters;
    hide Link;
    hide Full;
    hide NoFreeCluster;
    hide NearestFree;
    PartitionNoOnes(s.fat, chains);
    if clst != 0 { FollowLink(s.fat, chains, ch, i); }
    CreateOutcome(s, clst, r, s', end);
    if i + 1 >= |ch| && r != 0 { GrowPartition(s.fat, chains, ch, clst, r, end); }
  }

  lemma PartitionNoOnes(fat: seq<nat>, chains: set<seq<nat>>)
    requires Partition(fat, chains)
    ensures NoOneEntries(fat)
  {
    forall c | 2 <= c < |fat| ensures fat[c] != 1 { NoOnes(fat, chains, c); }
  }

  lemma GrowPartition(fat: seq<nat>, chains: set<seq<nat>>, ch: seq<nat>, clst: nat, r: nat, end: nat)
    requires Partition(fat, chains) && end >= |fat| && IsFree(fat, r)
    requires if clst == 0 then ch == [] else ch in chains && clst < |fat| && clst == ch[|ch| - 1]
    ensures ch + [r] !in chains && Partition(Link(fat, clst, r, end), Swapped(chains, ch, ch + [r]))
  {
    if ch + [r] in chains {
      assert r in ch + [r];
      NoOnes(fat, chains, r);
    }
    if clst == 0 {
      NewChain(fat, chains, r, end);
    } else {
      Longer(fat, ch, r, end);
      StretchChain(fat, chains, ch, r, end);
    }
  }

  lemma CutRange(fat: seq<nat>, chains: set<seq<nat>>, ch: seq<nat>, i: nat)
    requires Partition(fat, chains) && ch in chains && i < |ch|
    ensures 2 <= ch[i] < |fat| && (i > 0 ==> 2 <= ch[i - 1] < |fat|)
  {
  }

  // ----- what removal does to the chains

  function Zeroed(fat: seq<nat>, cs: seq<nat>): (r: seq<nat>)
    ensures |r| == |fat|
  {
    seq(|fat|, c requires 0 <= c < |fat| => if c in cs then 0 else fat[c])
  }

  lemma TailIsChain(fat: seq<nat>, ch: seq<nat>, i: nat)
    requires IsChain(fat, ch) && i < |ch|
    ensures IsChain(fat, ch[i..])
  {
  }

  /** On a well-formed chain the loop zeroes exactly the chain's clusters. */
  lemma {:induction false} RemoveWhole(s: FatState, ch: seq<nat>)
    requires IsChain(s.fat, ch)
    ensures RemoveFrom(s, ch[0]).1
    ensures RemoveFrom(s, ch[0]).0.fat == Zeroed(s.fat, ch)
    decreases |ch|
  {
    var c := ch[0];
    var s1 := FreeOne(s, c);
    CountUpdate(s.fat, c, 0, |s.fat|);
    ChainEntries(s.fat, ch, c);
    if |ch| == 1 {
      assert RemoveFrom(s, c) == (s1, true);
      assert s1.fat == Zeroed(s.fat, ch);
    } else {
      var rest := ch[1..];
      TailIsChain(s.fat, ch, 1);
      assert c !in rest;
      SameOnChain(s.fat, s1.fat, rest);
      RemoveWhole(s1, rest);
      assert s.fat[c] == ch[0 + 1] == rest[0];
      assert RemoveFrom(s, c) == RemoveFrom(s1, rest[0]);
      assert ch == [c] + rest;
      assert Zeroed(s1.fat, rest) == Zeroed(s.fat, ch);
    }
  }

  /** `remove_chain`: mark the predecessor as an end when there is one, then run the loop. */
  function RemoveChain(s: FatState, clst: nat, pclst: nat, end: nat): (r: (FatState, bool))
    ensures |r.0.fat| == |s.fat|
  {
    if !(2 <= clst < |s.fat|) then (s, false)
    else if pclst == 0 then RemoveFrom(s, clst)
    else if !(2 <= pclst < |s.fat|) then (s, false)
    else RemoveFrom(s.(fat := s.fat[pclst := end]), clst)
  }

  /** The FAT after chain ch has been cut before position i. */
  ghost predicate CutAt(fat: seq<nat>, fat': seq<nat>, ch: seq<nat>, i: nat, end: nat)
    requires i < |ch|
  {
    && |fat'| == |fat|
    && forall c :: 0 <= c < |fat| ==>
         fat'[c] == if c in ch[i..] then 0 else if i > 0 && c == ch[i - 1] then end else fat[c]
  }

  /** Cutting chain ch before position i leaves its first i clusters as a chain and frees the others;
      nothing else in the FAT changes. */
  lemma CutChain(s: FatState, chains: set<seq<nat>>, ch: seq<nat>, i: nat, pclst: nat, end: nat)
    requires Partition(s.fat, chains) && ch in chains && i < |ch| && end >= |s.fat|
    requires pclst == if i == 0 then 0 else ch[i - 1]
    ensures var r := RemoveChain(s, ch[i], pclst, end);
            && r.1
            && CutAt(s.fat, r.0.fat, ch, i, end)
            && Partition(r.0.fat, Swapped(chains, ch, ch[..i]))
            && (FreeExact(s) ==> FreeExact(r.0))
  {
    CutWhole(s, ch, i, pclst, end);
    var s' := RemoveChain(s, ch[i], pclst, end).0;
    CutExchanged(s.fat, s'.fat, ch, i, end);
    ExchangeKeepsPartition(s.fat, chains, s'.fat, ch, ch[..i]);
  }

  /** What is left of a cut chain is no other chain. */
  lemma CutOthers(fat: seq<nat>, chains: set<seq<nat>>, ch: seq<nat>, i: nat)
    requires Partition(fat, chains) && ch in chains && i < |ch|
    ensures Swapped(chains, ch, ch[..i]) - {ch[..i]} == chains - {ch}
  {
    hide Partition;
    if i > 0 { CutIsNew(fat, chains, ch, i); }
    EmptyIsNoChain(fat, chains);
    assert ch[..i] !in chains - {ch};
  }

  lemma EmptyIsNoChain(fat: seq<nat>, chains: set<seq<nat>>)
    requires Partition(fat, chains)
    ensures [] !in chains
  {
  }

  lemma CutIsNew(fat: seq<nat>, chains: set<seq<nat>>, ch: seq<nat>, i: nat)
    requires Partition(fat, chains) && ch in chains && 0 < i < |ch|
    ensures ch[..i] !in chains
  {
    hide IsChain;
    var keep := ch[..i];
    assert |keep| != |ch| && keep[0] in keep && keep[0] in ch;
  }

  lemma CutExchanged(fat: seq<nat>, fat': seq<nat>, ch: seq<nat>, i: nat, end: nat)
    requires IsChain(fat, ch) && i < |ch| && end >= |fat| && CutAt(fat, fat', ch, i, end)
    ensures Exchanged(fat, fat', ch, ch[..i])
  {
    assert forall c :: c in ch <==> c in ch[..i] || c in ch[i..] by {
      assert ch == ch[..i] + ch[i..];
    }
    assert i > 0 ==> ch[i - 1] in ch[..i];
    if i > 0 { KeptIsChain(fat, ch, i, fat', end); }
  }

  lemma CutWhole(s: FatState, ch: seq<nat>, i: nat, pclst: nat, end: nat)
    requires IsChain(s.fat, ch) && i < |ch| && end >= |s.fat|
    requires pclst == if i == 0 then 0 else ch[i - 1]
    ensures var r := RemoveChain(s, ch[i], pclst, end);
            && r.1
            && CutAt(s.fat, r.0.fat, ch, i, end)
            && (FreeExact(s) ==> FreeExact(r.0))
  {
    var rest := ch[i..];
    var s1 := if i == 0 then s else s.(fat := s.fat[pclst := end]);
    TailIsChain(s.fat, ch, i);
    assert i > 0 ==> pclst !in rest;
    SameOnChain(s.fat, s1.fat, rest);
    RemoveWhole(s1, rest);
    RemoveFromAny(s1, ch[i]);
    if i > 0 {
      ChainEntries(s.fat, ch, pclst);
      CountUpdate(s.fat, pclst, end, |s.fat|);
    }
  }

  lemma KeptIsChain(fat: seq<nat>, ch: seq<nat>, i: nat, fat': seq<nat>, end: nat)
    requires IsChain(fat, ch) && 0 < i < |ch| && end >= |fat| && CutAt(fat, fat', ch, i, end)
    ensures IsChain(fat', ch[..i])
  {
    forall j | 0 <= j < i
      ensures ch[j] !in ch[i..]
    {
    }
  }

  // ----- runs

  datatype ChainOp = Create(clst: nat) | Remove(clst: nat, pclst: nat)

  /** What callers keep to: stretch clusters in use, remove a whole chain or what follows a cluster. */
  ghost predicate Legal(fat: seq<nat>, op: ChainOp) {
    match op
    case Create(clst) => clst == 0 || EntryOrOne(fat, clst) >= 2
    case Remove(clst, pclst) =>
      && 2 <= clst < |fat|
      && if pclst == 0
         then fat[clst] != 0 && forall d :: 2 <= d < |fat| ==> fat[d] != clst
         else 2 <= pclst < |fat| && fat[pclst] == clst
  }

  ghost predicate Step(s: FatState, op: ChainOp, s': FatState, end: nat) {
    match op
    case Create(clst) => exists r :: Created(s, clst, r, s', end)
    case Remove(clst, pclst) => s' == RemoveChain(s, clst, pclst, end).0
  }

  /** Used clusters are cut into disjoint chains and a known free count is exact. */
  ghost predicate Healthy(s: FatState) {
    3 <= |s.fat| && FreeExact(s) && exists chains :: Partition(s.fat, chains)
  }

  lemma CreateKeepsHealthy(s: FatState, chains: set<seq<nat>>, clst: nat, r: nat, s': FatState, end: nat)
    requires Partition(s.fat, chains) && 3 <= |s.fat| && FreeExact(s) && Legal(s.fat, Create(clst))
    requires Created(s, clst, r, s', end) && end >= |s.fat|
    ensures Healthy(s') && |s'.fat| == |s.fat|
  {
    PartitionNoOnes(s.fat, chains);
    CreateOutcome(s, clst, r, s', end);
    if s' != s {
      if clst == 0 {
        NewChain(s.fat, chains, r, end);
      } else {
        assert Covered(chains, clst);
        var ch :| ch in chains && clst in ch;
        LastOfChain(s.fat, ch, clst);
        StretchChain(s.fat, chains, ch, r, end);
      }
    }
  }

  lemma StepKeepsHealthy(s: FatState, op: ChainOp, s': FatState, end: nat)
    requires Healthy(s) && Legal(s.fat, op) && Step(s, op, s', end) && end >= |s.fat|
    ensures Healthy(s') && |s'.fat| == |s.fat|
  {
    var chains :| Partition(s.fat, chains);
    match op
    case Create(clst) =>
      var r :| Created(s, clst, r, s', end);
      CreateKeepsHealthy(s, chains, clst, r, s', end);
    case Remove(clst, pclst) =>
      var ch, i := FindCut(s.fat, chains, clst, pclst);
      CutChain(s, chains, ch, i, pclst, end);
  }

  lemma LastOfChain(fat: seq<nat>, ch: seq<nat>, c: nat)
    requires IsChain(fat, ch) && c in ch && fat[c] >= |fat|
    ensures c == ch[|ch| - 1]
  {
    var i :| 0 <= i < |ch| && ch[i] == c;
    if i < |ch| - 1 { LinkedTo(fat, ch, i); }
  }

  lemma FindCut(fat: seq<nat>, chains: set<seq<nat>>, clst: nat, pclst: nat) returns (ch: seq<nat>, i: nat)
    requires Partition(fat, chains) && Legal(fat, Remove(clst, pclst))
    ensures ch in chains && i < |ch| && ch[i] == clst && pclst == if i == 0 then 0 else ch[i - 1]
  {
    var from := if pclst == 0 then clst else pclst;
    assert Covered(chains, from);
    ch :| ch in chains && from in ch;
    var j :| 0 <= j < |ch| && ch[j] == from;
    i := FindCutIn(fat, ch, j, clst, pclst);
  }

  lemma FindCutIn(fat: seq<nat>, ch: seq<nat>, j: nat, clst: nat, pclst: nat) returns (i: nat)
    requires IsChain(fat, ch) && Legal(fat, Remove(clst, pclst))
    requires j < |ch| && ch[j] == if pclst == 0 then clst else pclst
    ensures i < |ch| && ch[i] == clst && pclst == if i == 0 then 0 else ch[i - 1]
  {
    if pclst == 0 {
      if j > 0 { LinkedTo(fat, ch, j - 1); }
      i := j;
    } else {
      i := j + 1;
    }
  }

  /** Over every run of creation, stretching and removal the volume stays healthy. */
  lemma {:induction false} RunKeepsHealthy(states: seq<FatState>, ops: seq<ChainOp>, end: nat)
    requires |states| == |ops| + 1 && Healthy(states[0]) && end >= |states[0].fat|
    requires forall i :: 0 <= i < |ops| ==>
               Legal(states[i].fat, ops[i]) && Step(states[i], ops[i], states[i + 1], end)
    ensures forall i :: 0 <= i < |states| ==> Healthy(states[i])
    decreases |ops|
  {
    if |ops| > 0 {
      StepKeepsHealthy(states[0], ops[0], states[0 + 1], end);
      var states', ops' := states[1..], ops[1..];
      assert forall i :: 0 <= i < |ops'| ==>
               Legal(states'[i].fat, ops'[i]) && Step(states'[i], ops'[i], states'[i + 1], end) by {
        forall i | 0 <= i < |ops'|
          ensures Legal(states'[i].fat, ops'[i]) && Step(states'[i], ops'[i], states'[i + 1], end)
        {
          assert states'[i] == states[i + 1] && states'[i + 1] == states[i + 1 + 1] && ops'[i] == ops[i + 1];
        }
      }
      RunKeepsHealthy(states', ops', end);
      assert forall i :: 0 < i < |states| ==> states[i] == states'[i - 1];
    }
  }
}
