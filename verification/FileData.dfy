/** The bytes of a file as they lie in the sectors of its chain. */
module FileData {
  import opened Bytes
  import opened Layout
  import opened Chains
  import opened Clusters
  import opened Volume
  import opened WriteOrder

  /** A chain of clusters on the device that holds file data. */
  ghost predicate IsFile(g: Geometry, img: Image, chain: seq<nat>) {
    g.Wf(|img|) && IsChain(Table(g, img), chain) && Backed(g, |img|, chain)
  }

  /** How many bytes a chain of `n` clusters has room for. */
  ghost function Capacity(g: Geometry, n: nat): nat {
    SECTOR_SIZE * Span(g, n)
  }

  /** The sector is none of the chain's. */
  ghost predicate Apart(g: Geometry, chain: seq<nat>, s: nat) {
    0 < g.spc && (s >= g.dataSect ==> g.SectToClust(s) !in chain)
  }

  lemma CapacityIff(g: Geometry, n: nat, i: nat)
    requires 0 < g.spc
    ensures i < Capacity(g, n) <==> Row(g, i / SECTOR_SIZE) < n
  {
    hide Row, Span;
    SpanIff(g, n, i / SECTOR_SIZE);
  }

  /** The offset behind a chain is in the cluster behind its last one. */
  lemma CapacityRow(g: Geometry, n: nat)
    requires 0 < g.spc
    ensures Row(g, Capacity(g, n) / SECTOR_SIZE) == n
  {
    RowColOf(g, n, 0);
    assert Capacity(g, n) / SECTOR_SIZE == Span(g, n);
  }

  lemma CapacityMono(g: Geometry, m: nat, n: nat)
    requires m <= n
    ensures Capacity(g, m) <= Capacity(g, n)
  {
    MulNonNeg(n - m, g.spc);
    assert (n - m) * g.spc == n * g.spc - m * g.spc;
  }

  /** Byte `i` of a file. */
  ghost function ByteAt(g: Geometry, img: Image, chain: seq<nat>, i: nat): byte
    requires 0 < g.spc && Backed(g, |img|, chain) && i < Capacity(g, |chain|)
  {
    CapacityIff(g, |chain|, i);
    SectAtBounds(g, |img|, chain, i / SECTOR_SIZE);
    img[SectAt(g, chain, i / SECTOR_SIZE)][i % SECTOR_SIZE]
  }

  /** The first `n` bytes of a file. */
  ghost function Content(g: Geometry, img: Image, chain: seq<nat>, n: nat): (r: seq<byte>)
    requires 0 < g.spc && Backed(g, |img|, chain) && n <= Capacity(g, |chain|)
    ensures |r| == n
  {
    seq(n, i requires 0 <= i < n => ByteAt(g, img, chain, i))
  }

  /** On the device: byte `i` of a file is byte `i % 512` of a sector in the cluster of its chain that `i` is in, where
      the clusters follow each other from the start of the data region on, the first one being number 2. */
  lemma ContentOnDisk(g: Geometry, img: Image, chain: seq<nat>, n: nat, i: nat)
    requires 0 < g.spc && Backed(g, |img|, chain) && n <= Capacity(g, |chain|) && i < n
    ensures var k := i / 512 / g.spc;
            && k < |chain| && 2 <= chain[k]
            && var s := g.dataSect + (chain[k] - 2) * g.spc + i / 512 % g.spc;
               0 <= s < |img| && Content(g, img, chain, n)[i] == img[s][i % 512]
  {
    CapacityIff(g, |chain|, i);
    SectAtBounds(g, |img|, chain, i / SECTOR_SIZE);
  }

  /** `a` with `data` written at `pos`, extended if it does not fit. */
  function Splice(a: seq<byte>, pos: nat, data: seq<byte>): (r: seq<byte>)
    requires pos <= |a|
    ensures |r| == if pos + |data| <= |a| then |a| else pos + |data|
  {
    a[..pos] + data + if pos + |data| <= |a| then a[pos + |data|..] else []
  }

  lemma SpliceAt(a: seq<byte>, pos: nat, data: seq<byte>, i: nat)
    requires pos <= |a| && i < |Splice(a, pos, data)|
    ensures |Splice(a, pos, data)| >= |a| && |Splice(a, pos, data)| >= pos + |data|
    ensures if pos <= i < pos + |data| then Splice(a, pos, data)[i] == data[i - pos]
            else i < |a| && Splice(a, pos, data)[i] == a[i]
  {
  }

  /** One more chunk of a write: `x` holds the clusters before it, of which `e` bytes are file contents that already
      have the first `m` bytes of `data` spliced in. */
  lemma SpliceStep(x: seq<byte>, e: nat, c: seq<byte>, pos: nat, data: seq<byte>, m: nat, k: nat)
    requires pos <= |c| && m + k <= |data| && e == (if pos + m <= |c| then |c| else pos + m)
    requires e <= |x| && pos + m + k <= |x| && x[..e] == Splice(c, pos, data[..m])
    ensures var e' := if pos + m + k <= |c| then |c| else pos + m + k;
            e' <= |x| && Splice(x, pos + m, data[m..m + k])[..e'] == Splice(c, pos, data[..m + k])
  {
    var e' := if pos + m + k <= |c| then |c| else pos + m + k;
    assert data[..m] + data[m..m + k] == data[..m + k];
    var l, r := Splice(x, pos + m, data[m..m + k]), Splice(c, pos, data[..m + k]);
    forall i | 0 <= i < e'
      ensures l[i] == r[i]
    {
      if i < pos + m {
        assert x[i] == x[..e][i];
      } else if i >= pos + m + k {
        assert x[i] == x[..e][i];
      }
    }
  }

  // ---------- framing ----------

  /** File data depends on the data region only. */
  ghost predicate SameDataRegion(g: Geometry, a: Image, b: Image) {
    |a| == |b| && forall s :: g.dataSect <= s < |a| ==> b[s] == a[s]
  }

  lemma ByteFrame(g: Geometry, a: Image, b: Image, chain: seq<nat>, i: nat)
    requires 0 < g.spc && Backed(g, |a|, chain) && i < Capacity(g, |chain|) && SameDataRegion(g, a, b)
    ensures ByteAt(g, b, chain, i) == ByteAt(g, a, chain, i)
  {
    hide Row, Col, SectAt, Capacity;
    CapacityIff(g, |chain|, i);
    SectAtBounds(g, |a|, chain, i / SECTOR_SIZE);
  }

  lemma ContentFrame(g: Geometry, a: Image, b: Image, chain: seq<nat>, n: nat)
    requires 0 < g.spc && Backed(g, |a|, chain) && n <= Capacity(g, |chain|) && SameDataRegion(g, a, b)
    ensures Content(g, b, chain, n) == Content(g, a, chain, n)
  {
    hide ByteAt, Capacity;
    forall i | 0 <= i < n
      ensures ByteAt(g, b, chain, i) == ByteAt(g, a, chain, i)
    {
      ByteFrame(g, a, b, chain, i);
    }
  }

  /** A longer chain has the same bytes first. */
  lemma ContentGrown(g: Geometry, img: Image, chain: seq<nat>, chain': seq<nat>, n: nat)
    requires 0 < g.spc && Backed(g, |img|, chain) && Backed(g, |img|, chain') && chain <= chain'
    requires n <= Capacity(g, |chain|)
    ensures n <= Capacity(g, |chain'|) && Content(g, img, chain', n) == Content(g, img, chain, n)
  {
    hide Row, Col, Capacity;
    CapacityMono(g, |chain|, |chain'|);
    forall i | 0 <= i < n
      ensures ByteAt(g, img, chain', i) == ByteAt(g, img, chain, i)
    {
      CapacityIff(g, |chain|, i);
    }
  }

  lemma ContentPrefix(g: Geometry, img: Image, chain: seq<nat>, m: nat, n: nat)
    requires 0 < g.spc && Backed(g, |img|, chain) && m <= n <= Capacity(g, |chain|)
    ensures Content(g, img, chain, m) == Content(g, img, chain, n)[..m]
  {
    hide ByteAt, Capacity;
  }

  /** Replacing sector number `q` of a file replaces just its bytes. */
  lemma ByteOfSector(g: Geometry, img: Image, chain: seq<nat>, q: nat, x: Sector, i: nat)
    requires 0 < g.spc && Backed(g, |img|, chain) && Distinct(chain) && Row(g, q) < |chain| && i < Capacity(g, |chain|)
    requires SectAt(g, chain, q) < |img|
    ensures ByteAt(g, img[SectAt(g, chain, q) := x], chain, i) ==
            if i / SECTOR_SIZE == q then x[i % SECTOR_SIZE] else ByteAt(g, img, chain, i)
  {
    hide Row, Col, Capacity, SectAt;
    CapacityIff(g, |chain|, i);
    SectAtBounds(g, |img|, chain, i / SECTOR_SIZE);
    if SectAt(g, chain, i / SECTOR_SIZE) == SectAt(g, chain, q) {
      SectAtInjective(g, chain, i / SECTOR_SIZE, q);
    }
  }

  /** Writing into sector number `q` at an offset within it splices the bytes of the file. */
  lemma ContentSpliced(g: Geometry, img: Image, chain: seq<nat>, offset: nat, x: Sector, data: seq<byte>, n: nat)
    requires 0 < g.spc && Backed(g, |img|, chain) && Distinct(chain)
    requires n <= Capacity(g, |chain|) && offset + |data| <= n
    requires Row(g, offset / SECTOR_SIZE) < |chain| && SectAt(g, chain, offset / SECTOR_SIZE) < |img|
    requires var at := offset % SECTOR_SIZE;
             && at + |data| <= SECTOR_SIZE
             && x == img[SectAt(g, chain, offset / SECTOR_SIZE)][..at] + data +
                     img[SectAt(g, chain, offset / SECTOR_SIZE)][at + |data|..]
    ensures Content(g, img[SectAt(g, chain, offset / SECTOR_SIZE) := x], chain, n) ==
            Splice(Content(g, img, chain, n), offset, data)
  {
    hide Row, Col, Capacity, SectAt, ByteAt;
    var q := offset / SECTOR_SIZE;
    forall i | 0 <= i < n
      ensures ByteAt(g, img[SectAt(g, chain, q) := x], chain, i) ==
              if offset <= i < offset + |data| then data[i - offset] else ByteAt(g, img, chain, i)
    {
      ByteOfSector(g, img, chain, q, x, i);
      if i / SECTOR_SIZE == q {
        ByteIs(g, img, chain, q, i);
      }
    }
  }

  lemma ByteIs(g: Geometry, img: Image, chain: seq<nat>, q: nat, i: nat)
    requires 0 < g.spc && Backed(g, |img|, chain) && i < Capacity(g, |chain|) && i / SECTOR_SIZE == q
    requires Row(g, q) < |chain| && SectAt(g, chain, q) < |img|
    ensures ByteAt(g, img, chain, i) == img[SectAt(g, chain, q)][i % SECTOR_SIZE]
  {
    hide Row, Col, Capacity, SectAt;
  }

  /** Bytes within one sector. */
  lemma ContentInSector(g: Geometry, img: Image, chain: seq<nat>, offset: nat, cnt: nat, n: nat)
    requires 0 < g.spc && Backed(g, |img|, chain) && n <= Capacity(g, |chain|) && offset + cnt <= n
    requires Row(g, offset / SECTOR_SIZE) < |chain| && SectAt(g, chain, offset / SECTOR_SIZE) < |img|
    requires offset % SECTOR_SIZE + cnt <= SECTOR_SIZE
    ensures Content(g, img, chain, n)[offset..offset + cnt] ==
            img[SectAt(g, chain, offset / SECTOR_SIZE)][offset % SECTOR_SIZE..offset % SECTOR_SIZE + cnt]
  {
    hide Row, Col, Capacity, SectAt, ByteAt;
    forall i | offset <= i < offset + cnt
      ensures ByteAt(g, img, chain, i) ==
              img[SectAt(g, chain, offset / SECTOR_SIZE)][offset % SECTOR_SIZE + (i - offset)]
    {
      ByteIs(g, img, chain, offset / SECTOR_SIZE, i);
    }
  }

  // ---------- the cursor ----------

  /** Every cluster that the allocator may hand out lies on the device. */
  ghost predicate FreeOnDevice(g: Geometry, img: Image)
    requires g.Wf(|img|)
  {
    forall c :: 2 <= c < g.clustCnt && Table(g, img)[c] == 0 ==> g.ClustToSect(c) + g.spc <= |img|
  }

  ghost predicate OnDevice(g: Geometry, n: nat, c: nat) {
    2 <= c && g.ClustToSect(c) + g.spc <= n
  }

  /** That is exactly what it takes that the allocator never hands out a cluster that the device does not have. */
  lemma FreeOnDeviceIff(g: Geometry, img: Image)
    requires g.Wf(|img|)
    ensures var t := Table(g, img);
            FreeOnDevice(g, img) <==>
            forall prev, lastUsed :: 0 <= prev < |t| && 2 <= lastUsed < |t| && Choose(t, prev, lastUsed).Found? ==>
              OnDevice(g, |img|, Choose(t, prev, lastUsed).c)
  {
    hide Table, Geometry.ClustToSect;
    var t := Table(g, img);
    forall prev, lastUsed | 0 <= prev < |t| && 2 <= lastUsed < |t| && Choose(t, prev, lastUsed).Found?
      ensures var c := Choose(t, prev, lastUsed).c; 2 <= c < |t| && t[c] == 0
    {
      ScanTakesFree(t, lastUsed, lastUsed);
    }
    forall c | 2 <= c < g.clustCnt && t[c] == 0
      ensures exists p :: 2 <= p < |t| && Choose(t, 0, p) == Found(c)
    {
      TakenFromBefore(t, c);
    }
  }

  /** The cluster under a file offset. */
  ghost predicate Holds(g: Geometry, chain: seq<nat>, offset: nat, clust: nat) {
    0 < g.spc && Row(g, offset / SECTOR_SIZE) < |chain| && clust == chain[Row(g, offset / SECTOR_SIZE)] && 2 <= clust
  }

  /** Dividing by the cluster size in bytes counts clusters. */
  lemma ClusterIndex(g: Geometry, offset: nat)
    requires 0 < g.spc
    ensures 0 < SECTOR_SIZE * g.spc && offset / (SECTOR_SIZE * g.spc) == Row(g, offset / SECTOR_SIZE)
  {
    var q := offset / SECTOR_SIZE;
    var k, j := q / g.spc, q % g.spc;
    assert q == k * g.spc + j;
    assert offset == SECTOR_SIZE * q + offset % SECTOR_SIZE;
    assert SECTOR_SIZE * (k * g.spc) == k * (SECTOR_SIZE * g.spc);
    DivOfMulAdd(k, SECTOR_SIZE * g.spc, SECTOR_SIZE * j + offset % SECTOR_SIZE);
  }

  /** The sector under a file offset. */
  lemma SectorUnder(g: Geometry, chain: seq<nat>, offset: nat, clust: nat)
    requires Holds(g, chain, offset, clust)
    ensures g.ClustToSect(clust) + offset / SECTOR_SIZE % g.spc == SectAt(g, chain, offset / SECTOR_SIZE)
  {
    hide Row, Geometry.ClustToSect;
  }

  lemma SectorApart(g: Geometry, n: nat, chain: seq<nat>, q: nat, s: nat)
    requires 0 < g.spc && Backed(g, n, chain) && Row(g, q) < |chain| && Apart(g, chain, s)
    ensures SectAt(g, chain, q) != s && g.dataSect <= SectAt(g, chain, q) < n
  {
    hide Row, Col, Geometry.SectToClust, Geometry.ClustToSect;
    SectAtBounds(g, n, chain, q);
    SectToClustInverts(g, chain[Row(g, q)], Col(g, q));
  }

  lemma LowApart(g: Geometry, chain: seq<nat>, s: nat)
    requires 0 < g.spc && s < g.dataSect
    ensures Apart(g, chain, s)
  {
  }

  // ---------- growing ----------

  /** A file's chain has been extended by clusters that were free, without touching any data. */
  ghost predicate Stretched(g: Geometry, v0: Image, f0: uint32, ch0: seq<nat>, v1: Image, f1: uint32, ch1: seq<nat>) {
    && IsFile(g, v0, ch0) && IsFile(g, v1, ch1)
    && Grown(Table(g, v0), Table(g, v1), ch0, ch1)
    && SameDataRegion(g, v0, v1)
    && Upkeep(g, v0, f0, v1, f1)
    && (FreeOnDevice(g, v0) ==> FreeOnDevice(g, v1))
  }

  lemma StretchedRefl(g: Geometry, img: Image, freeCnt: uint32, ch: seq<nat>)
    requires IsFile(g, img, ch)
    ensures Stretched(g, img, freeCnt, ch, img, freeCnt, ch)
  {
    hide Table, Mirrored, Drift, NoneBroken, FreeOnDevice;
  }

  lemma StretchedFacts(g: Geometry, v0: Image, f0: uint32, ch0: seq<nat>, v1: Image, f1: uint32, ch1: seq<nat>)
    requires Stretched(g, v0, f0, ch0, v1, f1, ch1)
    ensures IsFile(g, v0, ch0) && IsFile(g, v1, ch1) && SameDataRegion(g, v0, v1) && |v0| == |v1|
    ensures ch0 != [] && ch0 <= ch1 && g.Wf(|v0|)
    ensures NoneBroken(Table(g, v0)) ==> NoneBroken(Table(g, v1))
    ensures FreeOnDevice(g, v0) ==> FreeOnDevice(g, v1)
  {
    hide Table, Mirrored, Drift, NoneBroken, FreeOnDevice, IsChain;
  }

  lemma StretchedTrans(g: Geometry, v0: Image, f0: uint32, ch0: seq<nat>, v1: Image, f1: uint32, ch1: seq<nat>,
                       v2: Image, f2: uint32, ch2: seq<nat>)
    requires Stretched(g, v0, f0, ch0, v1, f1, ch1) && Stretched(g, v1, f1, ch1, v2, f2, ch2)
    ensures Stretched(g, v0, f0, ch0, v2, f2, ch2)
  {
    hide Table, IsFile, Grown, Upkeep, FreeOnDevice;
    StretchedFacts(g, v0, f0, ch0, v1, f1, ch1);
    StretchedFacts(g, v1, f1, ch1, v2, f2, ch2);
    FileWf(g, v0, ch0);
    GrownTrans(Table(g, v0), Table(g, v1), Table(g, v2), ch0, ch1, ch2);
    UpkeepTrans(g, v0, f0, v1, f1, v2, f2);
  }

  lemma FileWf(g: Geometry, img: Image, chain: seq<nat>)
    requires IsFile(g, img, chain)
    ensures g.Wf(|img|) && 0 < g.spc && chain != []
    ensures var last := chain[|chain| - 1]; 2 <= last < g.clustCnt && Table(g, img)[last] != 0
    ensures Distinct(chain)
  {
    hide Table;
    ChainDistinct(Table(g, img), chain);
  }

  /** What `get_fat` reports for a cluster of the chain. */
  lemma ChainEntry(g: Geometry, img: Image, chain: seq<nat>, k: nat)
    requires IsFile(g, img, chain) && k < |chain|
    ensures g.Wf(|img|) && 2 <= chain[k] < g.clustCnt && g.infoSect < g.dataSect
    ensures if k + 1 < |chain| then KindAt(Table(g, img), chain[k]) == Used && Table(g, img)[chain[k]] == chain[k + 1]
            else KindAt(Table(g, img), chain[k]) == Last
  {
    hide Table;
  }

  /** One step of `stretch_chain` on a file. */
  lemma StretchedByOne(g: Geometry, v0: Image, f0: uint32, ch0: seq<nat>, v1: Image, c: nat)
    requires IsFile(g, v0, ch0) && Mild(g, v0, v1) && g.IsCluster(c) && Table(g, v0)[c] == 0 && FreeOnDevice(g, v0)
    requires |v1| == |v0| && Table(g, v1) == Linked(Table(g, v0), ch0[|ch0| - 1], c)
    ensures Stretched(g, v0, f0, ch0, v1, Decremented(f0), ch0 + [c])
  {
    hide Table, Drift, Mirrored, Geometry.ClustToSect;
    FileWf(g, v0, ch0);
    GrownByOne(Table(g, v0), ch0, c);
    UpkeepLinked(g, v0, f0, v1, ch0[|ch0| - 1], c);
    BackedMore(g, |v0|, ch0, c);
  }

  // ---------- what file operations do to the volume ----------

  /** The file's chain may have been extended, data may have changed in the file's own clusters, and everything else
      is as it was. */
  ghost predicate Evolved(g: Geometry, v0: Image, f0: uint32, ch0: seq<nat>, v1: Image, f1: uint32, ch1: seq<nat>) {
    && IsFile(g, v0, ch0) && IsFile(g, v1, ch1) && |v0| == |v1|
    && Grown(Table(g, v0), Table(g, v1), ch0, ch1)
    && SameOthers(g, v0, v1, ch1)
    && Upkeep(g, v0, f0, v1, f1)
    && (FreeOnDevice(g, v0) ==> FreeOnDevice(g, v1))
  }

  lemma EvolvedRefl(g: Geometry, img: Image, freeCnt: uint32, ch: seq<nat>)
    requires IsFile(g, img, ch)
    ensures Evolved(g, img, freeCnt, ch, img, freeCnt, ch)
  {
    hide Table, Mirrored, Drift, NoneBroken, FreeOnDevice;
  }

  lemma EvolvedFacts(g: Geometry, v0: Image, f0: uint32, ch0: seq<nat>, v1: Image, f1: uint32, ch1: seq<nat>)
    requires Evolved(g, v0, f0, ch0, v1, f1, ch1)
    ensures IsFile(g, v0, ch0) && IsFile(g, v1, ch1) && |v0| == |v1| && g.Wf(|v0|) && ch0 != [] && ch0 <= ch1
    ensures NoneBroken(Table(g, v0)) ==> NoneBroken(Table(g, v1))
    ensures FreeOnDevice(g, v0) ==> FreeOnDevice(g, v1)
    ensures Capacity(g, |ch0|) <= Capacity(g, |ch1|)
  {
    hide Table, Mirrored, Drift, NoneBroken, FreeOnDevice, IsChain, Capacity, Backed, SameOthers;
    CapacityMono(g, |ch0|, |ch1|);
  }

  lemma EvolvedUpkeep(g: Geometry, v0: Image, f0: uint32, ch0: seq<nat>, v1: Image, f1: uint32, ch1: seq<nat>)
    requires Evolved(g, v0, f0, ch0, v1, f1, ch1)
    ensures g.Wf(|v0|) && |v1| == |v0| && Upkeep(g, v0, f0, v1, f1)
  {
    hide Table, Upkeep, FreeOnDevice, IsChain, Backed, SameOthers, Grown;
  }

  lemma EvolvedTrans(g: Geometry, v0: Image, f0: uint32, ch0: seq<nat>, v1: Image, f1: uint32, ch1: seq<nat>,
                     v2: Image, f2: uint32, ch2: seq<nat>)
    requires Evolved(g, v0, f0, ch0, v1, f1, ch1) && Evolved(g, v1, f1, ch1, v2, f2, ch2)
    ensures Evolved(g, v0, f0, ch0, v2, f2, ch2)
  {
    hide Table, IsFile, Grown, Upkeep, FreeOnDevice, SameOthers;
    EvolvedFacts(g, v0, f0, ch0, v1, f1, ch1);
    EvolvedFacts(g, v1, f1, ch1, v2, f2, ch2);
    FileWf(g, v0, ch0);
    GrownTrans(Table(g, v0), Table(g, v1), Table(g, v2), ch0, ch1, ch2);
    SameOthersTrans(g, v0, v1, v2, ch1, ch2);
    UpkeepTrans(g, v0, f0, v1, f1, v2, f2);
  }

  /** Flushing the buffered sector `ss` of the file after its chain was stretched: data lands in the file only, and
      the disk as the file sees it keeps its data. */
  lemma EvolvedByFlush(g: Geometry, v0: Image, f0: uint32, ch0: seq<nat>, v1: Image, f1: uint32, ch1: seq<nat>,
                       ss: nat, b: Sector, q: nat)
    requires Stretched(g, v0, f0, ch0, v1, f1, ch1)
    requires ss < |v0| ==> Row(g, q) < |ch0| && ss == SectAt(g, ch0, q)
    ensures Evolved(g, v0, f0, ch0, v1, f1, ch1)
    ensures Evolved(g, v0, f0, ch0, Patched(v1, ss, b), f1, ch1)
    ensures SameDataRegion(g, Patched(v0, ss, b), Patched(v1, ss, b))
    ensures g.Wf(|v1|) && |Patched(v1, ss, b)| == |v1| && Table(g, Patched(v1, ss, b)) == Table(g, v1)
  {
    hide Table, Mirrored, Drift, NoneBroken, IsChain, Grown, Row, Col, Geometry.SectToClust, Geometry.ClustToSect,
         Upkeep;
    StretchedFacts(g, v0, f0, ch0, v1, f1, ch1);
    var v2 := Patched(v1, ss, b);
    if ss < |v0| {
      SectAtBounds(g, |v0|, ch0, q);
      SectToClustInverts(g, ch0[Row(g, q)], Col(g, q));
      assert ch1[Row(g, q)] == ch0[Row(g, q)];
    }
    SameTablesFrame(g, v1, v2);
    UpkeepTables(g, v1, f1, v2);
    UpkeepTrans(g, v0, f0, v1, f1, v2, f1);
  }

  /** The contents survive. */
  lemma ContentKept(g: Geometry, d0: Image, ch0: seq<nat>, d1: Image, ch1: seq<nat>, n: nat)
    requires 0 < g.spc && Backed(g, |d0|, ch0) && Backed(g, |d1|, ch1) && ch0 <= ch1 && n <= Capacity(g, |ch0|)
    requires SameDataRegion(g, d0, d1)
    ensures n <= Capacity(g, |ch1|) && Content(g, d1, ch1, n) == Content(g, d0, ch0, n)
  {
    hide Capacity, Content, Backed;
    ContentFrame(g, d0, d1, ch0, n);
    ContentGrown(g, d1, ch0, ch1, n);
  }

  lemma FileApart(g: Geometry, img: Image, chain: seq<nat>, q: nat, s: nat)
    requires IsFile(g, img, chain) && 0 < g.spc && Row(g, q) < |chain| && Apart(g, chain, s)
    ensures 2 <= chain[Row(g, q)] && SectAt(g, chain, q) != s && g.dataSect <= SectAt(g, chain, q) < |img|
  {
    hide Row, Table, Apart;
    SectorApart(g, |img|, chain, q, s);
  }

  /** A sector of the shorter chain keeps its place and its data. */
  lemma OldSector(g: Geometry, v0: Image, f0: uint32, ch0: seq<nat>, v1: Image, f1: uint32, ch1: seq<nat>, q: nat)
    requires Stretched(g, v0, f0, ch0, v1, f1, ch1) && 0 < g.spc && Row(g, q) < |ch0|
    ensures Row(g, q) < |ch1| && 2 <= ch0[Row(g, q)] == ch1[Row(g, q)]
    ensures SectAt(g, ch1, q) == SectAt(g, ch0, q) < |v0| == |v1| && v1[SectAt(g, ch0, q)] == v0[SectAt(g, ch0, q)]
  {
    hide Row, Table, Grown, Upkeep, IsChain;
    StretchedFacts(g, v0, f0, ch0, v1, f1, ch1);
    SectAtBounds(g, |v0|, ch0, q);
  }

  /** A sector that is none of the file's can change without changing the file. */
  lemma ContentApart(g: Geometry, img: Image, chain: seq<nat>, s: nat, x: Sector, n: nat)
    requires 0 < g.spc && Backed(g, |img|, chain) && n <= Capacity(g, |chain|) && s < |img| && Apart(g, chain, s)
    ensures Content(g, img[s := x], chain, n) == Content(g, img, chain, n)
  {
    hide Row, Col, Capacity, Apart, Geometry.ClustToSect, Geometry.SectToClust;
    forall i | 0 <= i < n
      ensures ByteAt(g, img[s := x], chain, i) == ByteAt(g, img, chain, i)
    {
      CapacityIff(g, |chain|, i);
      SectorApart(g, |img|, chain, i / SECTOR_SIZE, s);
    }
  }
}
