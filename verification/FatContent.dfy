/** A file's clusters as a list of sectors, and its bytes in them. */
module FatContent {
  import opened Machine
  import opened FatGeometry
  import opened FatChains

  // ----- sectors of a chain

  ghost predicate LegalClusters(g: Geometry, chain: seq<nat>) {
    forall i :: 0 <= i < |chain| ==> 2 <= chain[i] < g.nFatent
  }

  lemma DivLess(j: nat, n: nat, c: nat)
    requires 0 < c && j < n * c
    ensures j / c < n
  {
    if j / c >= n {
      TimesLe(n, j / c, c);
      DivTimes(j, c);
    }
  }

  lemma TimesLe(a: nat, b: nat, k: nat)
    requires a <= b
    ensures a * k <= b * k
  {
  }

  lemma DivModOf(i: nat, r: nat, c: nat)
    requires r < c
    ensures (i * c + r) / c == i && (i * c + r) % c == r
  {
    var j := i * c + r;
    var q := j / c;
    assert j == q * c + j % c;
    if q < i { TimesGap(q, i, c); }
    if q > i { TimesGap(i, q, c); }
  }

  /** The sectors of a chain in file order. */
  function Secs(g: Geometry, chain: seq<nat>): (s: seq<nat>)
    requires 0 < g.csize && LegalClusters(g, chain)
    ensures |s| == |chain| * g.csize
  {
    seq(|chain| * g.csize, j requires 0 <= j < |chain| * g.csize =>
      DivLess(j, |chain|, g.csize);
      ClusterBase(g, chain[j / g.csize]) + j % g.csize)
  }

  lemma SecAt(g: Geometry, chain: seq<nat>, i: nat, r: nat)
    requires 0 < g.csize && LegalClusters(g, chain) && i < |chain| && r < g.csize
    ensures i * g.csize + r < |Secs(g, chain)|
    ensures Secs(g, chain)[i * g.csize + r] == ClusterBase(g, chain[i]) + r
  {
    TimesGap(i, |chain|, g.csize);
    DivModOf(i, r, g.csize);
  }

  /** Sector j of the file is sector j % csize of cluster j / csize of the chain. */
  lemma SecOf(g: Geometry, chain: seq<nat>, j: nat)
    requires 0 < g.csize && LegalClusters(g, chain) && j < |Secs(g, chain)|
    ensures j / g.csize < |chain|
    ensures Secs(g, chain)[j] == ClusterBase(g, chain[j / g.csize]) + j % g.csize
  {
    DivLess(j, |chain|, g.csize);
  }

  lemma SecsPrefix(g: Geometry, a: seq<nat>, b: seq<nat>)
    requires 0 < g.csize && LegalClusters(g, b) && a <= b
    ensures LegalClusters(g, a) && Secs(g, a) <= Secs(g, b)
  {
    assert forall i :: 0 <= i < |a| ==> a[i] == b[i];
    TimesLe(|a|, |b|, g.csize);
    forall j | 0 <= j < |Secs(g, a)|
      ensures Secs(g, a)[j] == Secs(g, b)[j]
    {
      SecOf(g, a, j);
      SecOf(g, b, j);
    }
  }

  lemma SecInCluster(g: Geometry, chain: seq<nat>, j: nat)
    requires 0 < g.csize && LegalClusters(g, chain) && j < |Secs(g, chain)|
    ensures j / g.csize < |chain| && InCluster(g, chain[j / g.csize], Secs(g, chain)[j])
  {
    SecOf(g, chain, j);
  }

  lemma SameClusterApart(g: Geometry, chain: seq<nat>, j: nat, k: nat)
    requires 0 < g.csize && LegalClusters(g, chain) && j < |Secs(g, chain)| && k < |Secs(g, chain)|
    requires j / g.csize == k / g.csize && j != k
    ensures Secs(g, chain)[j] != Secs(g, chain)[k]
  {
    SecOf(g, chain, j);
    SecOf(g, chain, k);
    SameQuotient(j, k, g.csize);
  }

  /** Distinct positions lie in distinct sectors of the data area. */
  lemma SecsApart(g: Geometry, chain: seq<nat>, j: nat, k: nat)
    requires 0 < g.csize && Sound(g) && LegalClusters(g, chain) && Distinct(chain)
    requires j < |Secs(g, chain)| && k < |Secs(g, chain)|
    ensures FatEnd(g) <= Secs(g, chain)[j] < DataEnd(g)
    ensures j != k ==> Secs(g, chain)[j] != Secs(g, chain)[k]
  {
    hide ClusterBase;
    hide InCluster;
    hide Secs;
    hide Sound;
    hide FatEnd;
    hide DataEnd;
    SecInCluster(g, chain, j);
    SecInCluster(g, chain, k);
    var q, r := j / g.csize, k / g.csize;
    ApartFrom(g, chain[q], chain[r], Secs(g, chain)[j], Secs(g, chain)[k]);
    if q == r && j != k { SameClusterApart(g, chain, j, k); }
  }

  lemma ApartFrom(g: Geometry, c: nat, d: nat, s: nat, t: nat)
    requires Sound(g) && 2 <= c < g.nFatent && 2 <= d < g.nFatent && InCluster(g, c, s) && InCluster(g, d, t)
    ensures FatEnd(g) <= s < DataEnd(g)
    ensures c != d ==> s != t
  {
    ClustersApart(g, c, d);
  }

  lemma SameQuotient(j: nat, k: nat, c: nat)
    requires 0 < c && j / c == k / c && j != k
    ensures j % c != k % c
  {
    assert j == j / c * c + j % c;
    assert k == k / c * c + k % c;
  }

  /** What the file operations need to know of a chain's sectors. */
  lemma SecsDistinct(g: Geometry, chain: seq<nat>)
    requires Sound(g) && LegalClusters(g, chain) && Distinct(chain)
    ensures Distinct(Secs(g, chain))
    ensures forall i :: 0 <= i < |Secs(g, chain)| ==> FatEnd(g) <= Secs(g, chain)[i] < DataEnd(g)
  {
    forall i, j | 0 <= i < j < |Secs(g, chain)|
      ensures Secs(g, chain)[i] != Secs(g, chain)[j]
    {
      SecsApart(g, chain, i, j);
    }
    forall i | 0 <= i < |Secs(g, chain)|
      ensures FatEnd(g) <= Secs(g, chain)[i] < DataEnd(g)
    {
      SecsApart(g, chain, i, i);
    }
  }

  // ----- bytes in sectors

  ghost predicate Within(img: seq<Sector>, secs: seq<nat>) {
    forall j :: 0 <= j < |secs| ==> secs[j] < |img|
  }

  /** The first n bytes found in the given sectors. */
  function Bytes(img: seq<Sector>, secs: seq<nat>, n: nat): (b: seq<byte>)
    requires Within(img, secs) && n <= 512 * |secs|
    ensures |b| == n
  {
    seq(n, k requires 0 <= k < n => img[secs[k / 512]][k % 512])
  }

  /** Bytes d written over c at position p, which may lengthen c. */
  function Splice(c: seq<byte>, p: nat, d: seq<byte>): (r: seq<byte>)
    requires p <= |c|
    ensures |r| == if p + |d| > |c| then p + |d| else |c|
  {
    c[..p] + d + if p + |d| < |c| then c[p + |d|..] else []
  }

  lemma SpliceAt(c: seq<byte>, p: nat, d: seq<byte>, k: nat)
    requires p <= |c| && k < |Splice(c, p, d)|
    ensures p <= k < p + |d| ==> Splice(c, p, d)[k] == d[k - p]
    ensures !(p <= k < p + |d|) ==> k < |c| && Splice(c, p, d)[k] == c[k]
  {
  }

  lemma SpliceNothing(c: seq<byte>, p: nat, d: seq<byte>)
    requires p <= |c| && d == []
    ensures Splice(c, p, d) == c
  {
  }

  /** Two writes in a row are one. */
  lemma SpliceTwice(c: seq<byte>, p: nat, a: seq<byte>, b: seq<byte>)
    requires p <= |c|
    ensures Splice(Splice(c, p, a), p + |a|, b) == Splice(c, p, a + b)
  {
    var one, two := Splice(Splice(c, p, a), p + |a|, b), Splice(c, p, a + b);
    forall k | 0 <= k < |two|
      ensures one[k] == two[k]
    {
      SpliceAt(Splice(c, p, a), p + |a|, b, k);
      SpliceAt(c, p, a + b, k);
      if !(p + |a| <= k < p + |a| + |b|) { SpliceAt(c, p, a, k); }
    }
  }

  lemma BytesSame(img: seq<Sector>, img': seq<Sector>, secs: seq<nat>, n: nat)
    requires Within(img, secs) && |img'| == |img| && n <= 512 * |secs|
    requires forall j :: 0 <= j < |secs| && 512 * j < n ==> img'[secs[j]] == img[secs[j]]
    ensures Bytes(img', secs, n) == Bytes(img, secs, n)
  {
  }

  lemma BytesPrefix(img: seq<Sector>, secs: seq<nat>, secs': seq<nat>, n: nat)
    requires secs <= secs' && Within(img, secs') && n <= 512 * |secs|
    ensures Within(img, secs) && Bytes(img, secs, n) == Bytes(img, secs', n)
  {
    assert forall j :: 0 <= j < |secs| ==> secs[j] == secs'[j];
  }

  lemma BytesTake(img: seq<Sector>, secs: seq<nat>, n: nat, m: nat)
    requires Within(img, secs) && m <= n <= 512 * |secs|
    ensures Bytes(img, secs, m) == Bytes(img, secs, n)[..m]
  {
  }

  /** Data d laid over offset o of sector j of the file: bytes before n outside it stay. */
  ghost predicate Laid(img: seq<Sector>, img': seq<Sector>, secs: seq<nat>, n: nat, p: nat, d: seq<byte>)
    requires Within(img, secs) && |img'| == |img|
  {
    forall j, o :: 0 <= j < |secs| && 0 <= o < 512 ==>
      if p <= 512 * j + o < p + |d| then img'[secs[j]][o] == d[512 * j + o - p]
      else 512 * j + o < n ==> img'[secs[j]][o] == img[secs[j]][o]
  }

  lemma LaidIsSplice(img: seq<Sector>, img': seq<Sector>, secs: seq<nat>, n: nat, p: nat, d: seq<byte>)
    requires Within(img, secs) && |img'| == |img| && p <= n <= 512 * |secs| && p + |d| <= 512 * |secs|
    requires Laid(img, img', secs, n, p, d)
    ensures Bytes(img', secs, if p + |d| > n then p + |d| else n) == Splice(Bytes(img, secs, n), p, d)
  {
    var n' := if p + |d| > n then p + |d| else n;
    var c := Bytes(img, secs, n);
    forall k | 0 <= k < n'
      ensures Bytes(img', secs, n')[k] == Splice(c, p, d)[k]
    {
      SpliceAt(c, p, d, k);
      assert k == 512 * (k / 512) + k % 512;
    }
  }
}
