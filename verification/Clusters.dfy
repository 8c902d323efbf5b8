/** The sectors and slots of a cluster chain, in chain order. */
module Clusters {
  import opened Bytes
  import opened Chains
  import opened Layout
  import opened Names

  // ---------- sectors ----------

  /** Every cluster of the chain lies on the device. */
  ghost predicate Backed(g: Geometry, n: nat, chain: seq<nat>) {
    forall i :: 0 <= i < |chain| ==> 2 <= chain[i] && g.ClustToSect(chain[i]) + g.spc <= n
  }

  /** Which cluster of a chain its sector number `q` belongs to. */
  ghost function Row(g: Geometry, q: nat): (k: nat)
    requires 0 < g.spc
  {
    q / g.spc
  }

  /** Which sector of that cluster it is. */
  ghost function Col(g: Geometry, q: nat): (j: nat)
    requires 0 < g.spc
    ensures j < g.spc
  {
    q % g.spc
  }

  /** How many sectors a chain of `n` clusters has. */
  ghost function Span(g: Geometry, n: nat): nat {
    n * g.spc
  }

  lemma SpanIff(g: Geometry, n: nat, q: nat)
    requires 0 < g.spc
    ensures q < Span(g, n) <==> Row(g, q) < n
  {
    var k, j := q / g.spc, q % g.spc;
    assert q == k * g.spc + j;
    if k < n {
      MulAtLeast(n - k, g.spc);
      assert (n - k) * g.spc == n * g.spc - k * g.spc;
    } else {
      MulNonNeg(k - n, g.spc);
      assert (k - n) * g.spc == k * g.spc - n * g.spc;
    }
  }

  lemma SpanStep(g: Geometry, n: nat)
    ensures Span(g, n + 1) == Span(g, n) + g.spc && Span(g, 0) == 0
  {
  }

  lemma RowColUnique(g: Geometry, q: nat, r: nat)
    requires 0 < g.spc && Row(g, q) == Row(g, r) && Col(g, q) == Col(g, r)
    ensures q == r
  {
    assert q == q / g.spc * g.spc + q % g.spc && r == r / g.spc * g.spc + r % g.spc;
  }

  lemma RowColOf(g: Geometry, k: nat, j: nat)
    requires j < g.spc
    ensures Row(g, Span(g, k) + j) == k && Col(g, Span(g, k) + j) == j
  {
    DivOfMulAdd(k, g.spc, j);
  }

  /** Stepping to the next sector stays in the cluster or enters the next one. */
  lemma NextSector(g: Geometry, q: nat)
    requires 0 < g.spc
    ensures Col(g, q) + 1 < g.spc ==> Row(g, q + 1) == Row(g, q) && Col(g, q + 1) == Col(g, q) + 1
    ensures Col(g, q) + 1 == g.spc ==> Row(g, q + 1) == Row(g, q) + 1 && Col(g, q + 1) == 0
  {
    var k, j := q / g.spc, q % g.spc;
    assert q == k * g.spc + j;
    if j + 1 < g.spc {
      DivOfMulAdd(k, g.spc, j + 1);
    } else {
      assert (k + 1) * g.spc == k * g.spc + g.spc;
      DivOfMulAdd(k + 1, g.spc, 0);
    }
  }

  /** Sector number `q` of a chain, counted from its start. */
  ghost function SectAt(g: Geometry, chain: seq<nat>, q: nat): nat
    requires 0 < g.spc && Row(g, q) < |chain| && 2 <= chain[Row(g, q)]
  {
    g.SectorIn(chain[Row(g, q)], Col(g, q))
  }

  /** In an aligned data region, the remainder test of `dir_next` tells whether a cluster ends. */
  lemma BoundaryTest(g: Geometry, chain: seq<nat>, q: nat)
    requires 0 < g.spc && g.Aligned() && Row(g, q) < |chain| && 2 <= chain[Row(g, q)]
    ensures (SectAt(g, chain, q) + 1) % g.spc == 0 <==> Col(g, q) + 1 == g.spc
    ensures Col(g, q) + 1 < g.spc ==> Row(g, q + 1) == Row(g, q) && SectAt(g, chain, q + 1) == SectAt(g, chain, q) + 1
  {
    hide Row, Col;
    NextSector(g, q);
    var c := chain[Row(g, q)];
    if Col(g, q) + 1 < g.spc {
      AlignedRemainder(g, c, Col(g, q) + 1);
    } else {
      AlignedRemainder(g, c + 1, 0);
      assert (c + 1 - 2) * g.spc == (c - 2) * g.spc + g.spc;
    }
  }

  lemma SectAtBounds(g: Geometry, n: nat, chain: seq<nat>, q: nat)
    requires 0 < g.spc && Backed(g, n, chain) && Row(g, q) < |chain|
    ensures g.dataSect <= SectAt(g, chain, q) < n
  {
    hide Row, Col;
    SectToClustInverts(g, chain[Row(g, q)], Col(g, q));
  }

  /** Different sectors of a chain without repetitions are different sectors of the disk. */
  lemma SectAtInjective(g: Geometry, chain: seq<nat>, q: nat, r: nat)
    requires 0 < g.spc && Row(g, q) < |chain| && Row(g, r) < |chain|
    requires (forall i :: 0 <= i < |chain| ==> 2 <= chain[i]) && Distinct(chain)
    requires SectAt(g, chain, q) == SectAt(g, chain, r)
    ensures q == r
  {
    hide Row, Col, Geometry.ClustToSect;
    ClustersDisjoint(g, chain[Row(g, q)], Col(g, q), chain[Row(g, r)], Col(g, r));
    RowColUnique(g, q, r);
  }

  /** Every sector of a cluster of the chain has a number in it. */
  lemma SectAtCovers(g: Geometry, chain: seq<nat>, k: nat, j: nat)
    requires k < |chain| && j < g.spc && 2 <= chain[k]
    ensures Row(g, Span(g, k) + j) == k && SectAt(g, chain, Span(g, k) + j) == g.SectorIn(chain[k], j)
  {
    RowColOf(g, k, j);
  }

  /** A directory: a chain of clusters on the device, in an aligned data region. */
  ghost predicate IsDirectory(g: Geometry, img: Image, chain: seq<nat>) {
    && g.Wf(|img|) && g.Aligned()
    && IsChain(Table(g, img), chain)
    && Backed(g, |img|, chain)
  }

  /** Cluster, sector and index of a cursor that stands in sector number `q` of the chain. */
  ghost predicate Stands(g: Geometry, chain: seq<nat>, q: nat, clust: nat, sect: nat, idx: nat) {
    && 0 < g.spc && Row(g, q) < |chain| && clust == chain[Row(g, q)] && 2 <= clust
    && sect == SectAt(g, chain, q)
    && idx < SECTOR_SIZE && idx % 32 == 0
  }

  /** The place `(sect, idx)` is slot number `p` of the chain. */
  ghost predicate IsPlace(g: Geometry, chain: seq<nat>, p: nat, sect: nat, idx: nat) {
    exists q: nat ::
      && p == 16 * q + idx / 32 && 0 < g.spc && Row(g, q) < |chain|
      && Stands(g, chain, q, chain[Row(g, q)], sect, idx)
  }

  lemma StandsAtPlace(g: Geometry, chain: seq<nat>, q: nat, clust: nat, sect: nat, idx: nat)
    requires Stands(g, chain, q, clust, sect, idx)
    ensures IsPlace(g, chain, 16 * q + idx / 32, sect, idx)
  {
    hide Row, SectAt;
    assert Stands(g, chain, q, chain[Row(g, q)], sect, idx);
  }

  /** The last cluster of a chain is in use. */
  lemma LastInUse(g: Geometry, img: Image, chain: seq<nat>)
    requires IsDirectory(g, img, chain)
    ensures g.Wf(|img|) && chain != []
    ensures var last := chain[|chain| - 1]; 2 <= last < g.clustCnt && Table(g, img)[last] != 0
  {
    hide Table;
  }

  lemma StandsAtStart(g: Geometry, img: Image, chain: seq<nat>)
    requires IsDirectory(g, img, chain)
    ensures Stands(g, chain, 0, chain[0], g.ClustToSect(chain[0]), 0)
  {
    SectAtCovers(g, chain, 0, 0);
    SpanStep(g, 0);
  }

  lemma StandsInRange(g: Geometry, img: Image, chain: seq<nat>, q: nat, clust: nat, sect: nat, idx: nat)
    requires IsDirectory(g, img, chain) && Stands(g, chain, q, clust, sect, idx)
    ensures 2 <= clust < g.clustCnt && 0 < sect < |img| && !g.InFat(sect) && sect != g.infoSect
    ensures 16 * q + idx / 32 < SlotCount(g, |chain|)
    ensures SlotsOf(g, img, chain)[16 * q + idx / 32] == SlotAt(img[sect], idx / 32)
  {
    hide Row, Col, Span, Layout.Table;
    SectAtBounds(g, |img|, chain, q);
    SlotOfSector(g, img, chain, q, idx / 32);
  }

  /** Within a cluster, the next sector is the next one of the directory. */
  lemma StandsNext(g: Geometry, img: Image, chain: seq<nat>, q: nat, clust: nat, sect: nat, idx: nat)
    requires IsDirectory(g, img, chain) && Stands(g, chain, q, clust, sect, idx)
    ensures (sect + 1) % g.spc == 0 <==> Col(g, q) + 1 == g.spc
    ensures Col(g, q) + 1 < g.spc ==> Stands(g, chain, q + 1, clust, sect + 1, 0)
  {
    hide Row, Col, Layout.Table;
    BoundaryTest(g, chain, q);
  }

  /** At the end of a cluster, the entry of the FAT leads to the next one, or the directory ends. */
  lemma StandsLink(g: Geometry, img: Image, chain: seq<nat>, q: nat, clust: nat)
    requires IsDirectory(g, img, chain) && Row(g, q) < |chain| && clust == chain[Row(g, q)]
    requires Col(g, q) + 1 == g.spc && clust < g.clustCnt
    ensures var k := KindAt(Table(g, img), clust); var next := Table(g, img)[clust];
            if Row(g, q) + 1 < |chain|
            then k == Used && 2 <= next && Stands(g, chain, q + 1, next, g.ClustToSect(next), 0)
            else k == Last && 16 * (q + 1) == SlotCount(g, |chain|)
  {
    hide Row, Col, Layout.Table;
    NextSector(g, q);
    if Row(g, q) + 1 == |chain| {
      SpanEnd(g, |chain|, q);
    }
  }

  lemma SpanEnd(g: Geometry, n: nat, q: nat)
    requires 0 < g.spc && Row(g, q) + 1 == n && Col(g, q) + 1 == g.spc
    ensures q + 1 == Span(g, n)
  {
    assert q == q / g.spc * g.spc + q % g.spc;
    assert (q / g.spc + 1) * g.spc == q / g.spc * g.spc + g.spc;
  }

  // ---------- slots ----------

  /** How many slots a chain of `n` clusters has. */
  ghost function SlotCount(g: Geometry, n: nat): nat {
    SLOTS_PER_SECTOR * Span(g, n)
  }

  /** Slot `i` of sector number `q` of a chain. */
  ghost function SlotIn(g: Geometry, img: Image, chain: seq<nat>, q: nat, i: nat): Slot
    requires 0 < g.spc && Backed(g, |img|, chain) && Row(g, q) < |chain| && i < SLOTS_PER_SECTOR
  {
    SectAtBounds(g, |img|, chain, q);
    SlotAt(img[SectAt(g, chain, q)], i)
  }

  /** All the slots of a chain: the contents of a directory. */
  ghost function SlotsOf(g: Geometry, img: Image, chain: seq<nat>): (s: seq<Slot>)
    requires 0 < g.spc && Backed(g, |img|, chain)
    ensures |s| == SlotCount(g, |chain|)
  {
    seq(SlotCount(g, |chain|), p requires 0 <= p < SlotCount(g, |chain|) =>
      SpanIff(g, |chain|, p / SLOTS_PER_SECTOR);
      SlotIn(g, img, chain, p / SLOTS_PER_SECTOR, p % SLOTS_PER_SECTOR))
  }

  /** On the device: slot `16 q + i` of a directory is the `i`th run of 32 bytes of sector `q` of its chain, which is in
      the cluster number `q / spc` of the chain. */
  lemma SlotOnDisk(g: Geometry, img: Image, chain: seq<nat>, q: nat, i: nat)
    requires 0 < g.spc && Backed(g, |img|, chain) && i < 16 && 16 * q + i < |SlotsOf(g, img, chain)|
    ensures q / g.spc < |chain| && 2 <= chain[q / g.spc]
    ensures var s := g.dataSect + (chain[q / g.spc] - 2) * g.spc + q % g.spc;
            0 <= s < |img| && SlotsOf(g, img, chain)[16 * q + i] == img[s][32 * i..32 * i + 32]
  {
    assert (16 * q + i) / 16 == q && (16 * q + i) % 16 == i;
    SpanIff(g, |chain|, q);
    SectAtBounds(g, |img|, chain, q);
  }

  lemma SlotOfSector(g: Geometry, img: Image, chain: seq<nat>, q: nat, i: nat)
    requires 0 < g.spc && Backed(g, |img|, chain) && Row(g, q) < |chain| && i < SLOTS_PER_SECTOR
    ensures 16 * q + i < SlotCount(g, |chain|)
    ensures SlotsOf(g, img, chain)[16 * q + i] == SlotIn(g, img, chain, q, i)
  {
    hide Row, Span, SlotIn;
    SpanIff(g, |chain|, q);
    assert (16 * q + i) / 16 == q && (16 * q + i) % 16 == i;
  }

  /** Storing one slot of a chain changes that slot of the directory and no other. */
  lemma StoreSlot(g: Geometry, img: Image, chain: seq<nat>, q: nat, i: nat, s: Slot, img': Image)
    requires 0 < g.spc && Backed(g, |img|, chain) && Row(g, q) < |chain| && i < SLOTS_PER_SECTOR && Distinct(chain)
    requires var x := SectAt(g, chain, q);
             x < |img| && img' == img[x := WithSlot(img[x], i, s)]
    ensures 16 * q + i < SlotCount(g, |chain|)
    ensures SlotsOf(g, img', chain) == SlotsOf(g, img, chain)[16 * q + i := s]
  {
    hide Row, Col, Span, SectAt, WithSlot, Backed, SlotIn, SlotCount, SlotsOf;
    SlotOfSector(g, img, chain, q, i);
    var a, b := SlotsOf(g, img, chain), SlotsOf(g, img', chain);
    forall p | 0 <= p < |a|
      ensures b[p] == if p == 16 * q + i then s else a[p]
    {
      var q', i' := p / 16, p % 16;
      SlotCountIff(g, |chain|, p);
      SlotOfSector(g, img, chain, q', i');
      SlotOfSector(g, img', chain, q', i');
      StoreSlotAt(g, img, chain, q, i, s, img', q', i');
    }
  }

  lemma SlotCountIff(g: Geometry, n: nat, p: nat)
    requires 0 < g.spc
    ensures p < SlotCount(g, n) <==> Row(g, p / 16) < n
  {
    hide Row, Span;
    SpanIff(g, n, p / 16);
  }

  lemma StoreSlotAt(g: Geometry, img: Image, chain: seq<nat>, q: nat, i: nat, s: Slot, img': Image, q': nat, i': nat)
    requires 0 < g.spc && Backed(g, |img|, chain) && Distinct(chain)
    requires Row(g, q) < |chain| && i < SLOTS_PER_SECTOR && Row(g, q') < |chain| && i' < SLOTS_PER_SECTOR
    requires var x := SectAt(g, chain, q);
             x < |img| && img' == img[x := WithSlot(img[x], i, s)]
    ensures SlotIn(g, img', chain, q', i') == if q == q' && i == i' then s else SlotIn(g, img, chain, q', i')
  {
    hide WithSlot, SlotAt, Row, Col;
    var x, x' := SectAt(g, chain, q), SectAt(g, chain, q');
    SectAtBounds(g, |img|, chain, q');
    WithSlotReads(img[x], i, s, i');
    if x == x' {
      SectAtInjective(g, chain, q, q');
    }
  }

  // ---------- framing ----------

  /** The sectors of a cluster are the same in both images. */
  ghost predicate SameCluster(g: Geometry, a: Image, b: Image, c: nat)
    requires 2 <= c
  {
    forall j :: 0 <= j < g.spc && g.SectorIn(c, j) < |a| && g.SectorIn(c, j) < |b| ==>
      a[g.SectorIn(c, j)] == b[g.SectorIn(c, j)]
  }

  /** A directory depends on the sectors of its clusters only. */
  lemma SlotsFrame(g: Geometry, img: Image, img': Image, chain: seq<nat>)
    requires 0 < g.spc && Backed(g, |img|, chain) && |img'| == |img|
    requires forall i :: 0 <= i < |chain| ==> SameCluster(g, img, img', chain[i])
    ensures SlotsOf(g, img', chain) == SlotsOf(g, img, chain)
  {
    hide Row, Col, Span;
    forall p | 0 <= p < SlotCount(g, |chain|)
      ensures SlotsOf(g, img', chain)[p] == SlotsOf(g, img, chain)[p]
    {
      var q, i := p / 16, p % 16;
      SlotCountIff(g, |chain|, p);
      SlotOfSector(g, img, chain, q, i);
      SlotOfSector(g, img', chain, q, i);
      SectAtBounds(g, |img|, chain, q);
      assert SameCluster(g, img, img', chain[Row(g, q)]);
    }
  }

  /** In the data region, only sectors of clusters of the chain differ. */
  ghost predicate SameOthers(g: Geometry, a: Image, b: Image, chain: seq<nat>) {
    && |a| == |b| && 0 < g.spc
    && forall s :: g.dataSect <= s < |a| && g.SectToClust(s) !in chain ==> a[s] == b[s]
  }

  /** A cluster outside the chain is the same. */
  lemma OtherCluster(g: Geometry, a: Image, b: Image, chain: seq<nat>, c: nat)
    requires SameOthers(g, a, b, chain) && 2 <= c && c !in chain
    ensures SameCluster(g, a, b, c)
  {
    forall j | 0 <= j < g.spc && g.SectorIn(c, j) < |a|
      ensures a[g.SectorIn(c, j)] == b[g.SectorIn(c, j)]
    {
      SectToClustInverts(g, c, j);
    }
  }

  lemma SameOthersTrans(g: Geometry, a: Image, b: Image, c: Image, chain: seq<nat>, chain': seq<nat>)
    requires SameOthers(g, a, b, chain) && SameOthers(g, b, c, chain') && chain <= chain'
    ensures SameOthers(g, a, c, chain')
  {
  }

  /** A cursor's sector belongs to the chain. */
  lemma StoreInChain(g: Geometry, img: Image, chain: seq<nat>, q: nat, clust: nat, sect: nat, idx: nat,
                     contents: Sector)
    requires IsDirectory(g, img, chain) && Stands(g, chain, q, clust, sect, idx) && sect < |img|
    ensures SameOthers(g, img, img[sect := contents], chain) && SameTables(g, img, img[sect := contents])
    ensures IsDirectory(g, img[sect := contents], chain)
  {
    hide Row, Col, IsChain;
    SectAtBounds(g, |img|, chain, q);
    SectToClustInverts(g, clust, Col(g, q));
    SameTablesFrame(g, img, img[sect := contents]);
  }

  /** What storing a slot under the cursor does to the directory. */
  lemma StoreHere(g: Geometry, img: Image, chain: seq<nat>, q: nat, clust: nat, sect: nat, idx: nat, s: Slot)
    requires IsDirectory(g, img, chain) && Stands(g, chain, q, clust, sect, idx) && sect < |img|
    ensures var img' := img[sect := WithSlot(img[sect], idx / 32, s)];
            && IsDirectory(g, img', chain)
            && SameOthers(g, img, img', chain) && SameTables(g, img, img')
            && 16 * q + idx / 32 < SlotCount(g, |chain|)
            && SlotsOf(g, img', chain) == SlotsOf(g, img, chain)[16 * q + idx / 32 := s]
  {
    hide Row, Col, IsChain, WithSlot, SlotsOf, SlotCount, SameOthers, SameTables, Backed, SectAt, Table;
    StoreInChain(g, img, chain, q, clust, sect, idx, WithSlot(img[sect], idx / 32, s));
    ChainDistinct(Table(g, img), chain);
    StoreSlot(g, img, chain, q, idx / 32, s, img[sect := WithSlot(img[sect], idx / 32, s)]);
  }

  // ---------- growth ----------

  ghost predicate AllZero(s: Slot) {
    forall i :: 0 <= i < 32 ==> s[i] == 0
  }

  lemma BackedMore(g: Geometry, n: nat, chain: seq<nat>, c: nat)
    requires Backed(g, n, chain) && 2 <= c && g.ClustToSect(c) + g.spc <= n
    ensures Backed(g, n, chain + [c])
  {
  }

  /** A directory extended by a cleared cluster has the same slots and then cleared ones. */
  lemma SlotsExtend(g: Geometry, img: Image, img': Image, chain: seq<nat>, c: nat)
    requires 0 < g.spc && |img| == |img'| && Backed(g, |img|, chain + [c]) && Backed(g, |img|, chain) && 2 <= c
    requires forall i :: 0 <= i < |chain| ==> SameCluster(g, img, img', chain[i])
    requires forall j :: 0 <= j < g.spc ==> ZeroAt(img', g.SectorIn(c, j))
    ensures var a, b := SlotsOf(g, img, chain), SlotsOf(g, img', chain + [c]);
            && a <= b && |a| < |b| && forall p :: |a| <= p < |b| ==> AllZero(b[p])
  {
    hide Row, Col, Span, SlotsOf, SlotIn, Geometry.ClustToSect, AllZero;
    SpanStep(g, |chain|);
    assert forall i :: 0 <= i < |chain| ==> chain[i] == (chain + [c])[i];
    var a, b := SlotsOf(g, img, chain), SlotsOf(g, img', chain + [c]);
    forall p | 0 <= p < |b|
      ensures if p < |a| then b[p] == a[p] else AllZero(b[p])
    {
      SlotCountIff(g, |chain|, p);
      SlotCountIff(g, |chain| + 1, p);
      SlotOfSector(g, img', chain + [c], p / 16, p % 16);
      if p < |a| {
        SlotOfSector(g, img, chain, p / 16, p % 16);
        OldSlot(g, img, img', chain, c, p / 16, p % 16);
      } else {
        NewSlot(g, img', chain, c, p / 16, p % 16);
      }
    }
    assert b[..|a|] == a;
  }

  ghost predicate ZeroAt(img: Image, s: nat) {
    s < |img| && img[s] == ZeroSector()
  }

  lemma OldSlot(g: Geometry, img: Image, img': Image, chain: seq<nat>, c: nat, q: nat, i: nat)
    requires 0 < g.spc && |img| == |img'| && Backed(g, |img|, chain + [c]) && Backed(g, |img|, chain)
    requires Row(g, q) < |chain| && i < 16 && SameCluster(g, img, img', chain[Row(g, q)])
    ensures SlotIn(g, img', chain + [c], q, i) == SlotIn(g, img, chain, q, i)
  {
    hide Row, Col, SlotAt;
    SectAtBounds(g, |img|, chain, q);
  }

  lemma NewSlot(g: Geometry, img: Image, chain: seq<nat>, c: nat, q: nat, i: nat)
    requires 0 < g.spc && Backed(g, |img|, chain + [c]) && Row(g, q) == |chain| && i < 16 && 2 <= c
    requires forall j :: 0 <= j < g.spc ==> ZeroAt(img, g.SectorIn(c, j))
    ensures AllZero(SlotIn(g, img, chain + [c], q, i))
  {
    hide Row, Col;
    assert ZeroAt(img, g.SectorIn(c, Col(g, q)));
  }

  lemma SectorOfCluster(g: Geometry, c: nat, s: nat)
    requires 2 <= c && g.ClustToSect(c) <= s < g.ClustToSect(c) + g.spc
    ensures s >= g.dataSect && g.SectToClust(s) == c
  {
    SectToClustInverts(g, c, s - g.ClustToSect(c));
  }

  /** Data-region sectors outside the chain survive an update of the tables and the clearing of a new cluster. */
  lemma ClearedOthers(g: Geometry, v0: Image, v1: Image, v2: Image, chain: seq<nat>, c: nat)
    requires g.Wf(|v0|) && |v1| == |v0| && 2 <= c && g.ClustToSect(c) + g.spc <= |v1|
    requires forall s :: g.dataSect <= s < |v0| ==> v1[s] == v0[s]
    requires v2 == Zeroed(v1, g.ClustToSect(c), g.spc)
    ensures SameTables(g, v1, v2) && SameOthers(g, v0, v2, chain + [c])
    ensures forall d :: 2 <= d && d != c ==> SameCluster(g, v0, v2, d)
    ensures forall j :: 0 <= j < g.spc ==> ZeroAt(v2, g.SectorIn(c, j))
  {
    hide Geometry.ClustToSect, Geometry.SectToClust, SameCluster, Zeroed;
    SectToClustInverts(g, c, 0);
    forall s | g.dataSect <= s < |v0| && g.SectToClust(s) != c
      ensures v2[s] == v0[s]
    {
      if g.ClustToSect(c) <= s < g.ClustToSect(c) + g.spc {
        SectorOfCluster(g, c, s);
      }
    }
    assert SameOthers(g, v0, v2, [c]);
    forall d | 2 <= d && d != c
      ensures SameCluster(g, v0, v2, d)
    {
      OtherCluster(g, v0, v2, [c], d);
    }
    assert c in chain + [c];
  }

  /** A cursor at the start of cluster number `k` of a chain. */
  lemma StandsAtCluster(g: Geometry, chain: seq<nat>, k: nat)
    requires 0 < g.spc && k < |chain| && 2 <= chain[k]
    ensures Stands(g, chain, Span(g, k), chain[k], g.ClustToSect(chain[k]), 0)
  {
    hide Row, Col, Span, Geometry.ClustToSect;
    SectAtCovers(g, chain, k, 0);
  }

  /** Stretching a directory by a cleared cluster: `v0` before, `v1` with the tables updated, `v2` with the cluster
      cleared. */
  lemma GrowDirectory(g: Geometry, v0: Image, v1: Image, v2: Image, chain: seq<nat>, c: nat)
    requires IsDirectory(g, v0, chain) && |v1| == |v0| && g.IsCluster(c) && g.ClustToSect(c) + g.spc <= |v1|
    requires Table(g, v0)[c] == 0 && Table(g, v1) == Linked(Table(g, v0), chain[|chain| - 1], c)
    requires forall s :: g.dataSect <= s < |v0| ==> v1[s] == v0[s]
    requires v2 == Zeroed(v1, g.ClustToSect(c), g.spc)
    ensures SameTables(g, v1, v2) && IsDirectory(g, v2, chain + [c])
    ensures Grown(Table(g, v0), Table(g, v2), chain, chain + [c])
    ensures SameOthers(g, v0, v2, chain + [c])
    ensures var a, b := SlotsOf(g, v0, chain), SlotsOf(g, v2, chain + [c]);
            && a <= b && |a| < |b| && forall p :: |a| <= p < |b| ==> AllZero(b[p])
    ensures Stands(g, chain + [c], Span(g, |chain|), c, g.ClustToSect(c), 0)
    ensures 16 * Span(g, |chain|) == |SlotsOf(g, v0, chain)|
  {
    hide SlotsOf, Row, Col, Span, SlotIn, SameOthers, SameCluster, Table, AllZero, Zeroed, ZeroAt, Stands,
         Geometry.ClustToSect;
    GrownByOne(Table(g, v0), chain, c);
    ClearedOthers(g, v0, v1, v2, chain, c);
    SameTablesFrame(g, v1, v2);
    BackedMore(g, |v0|, chain, c);
    SlotsExtend(g, v0, v2, chain, c);
    StandsAtCluster(g, chain + [c], |chain|);
  }

  lemma PlaceExtend(g: Geometry, chain: seq<nat>, chain': seq<nat>, p: nat, sect: nat, idx: nat)
    requires IsPlace(g, chain, p, sect, idx) && chain <= chain'
    ensures IsPlace(g, chain', p, sect, idx)
  {
    hide Row, Col;
    var q: nat :|
      && p == 16 * q + idx / 32 && 0 < g.spc && Row(g, q) < |chain|
      && Stands(g, chain, q, chain[Row(g, q)], sect, idx);
    assert Stands(g, chain', q, chain'[Row(g, q)], sect, idx);
  }

  /** Going back to a place: the cluster is computed from the sector. */
  lemma StandsAtRewind(g: Geometry, img: Image, chain: seq<nat>, p: nat, sect: nat, idx: nat) returns (q: nat)
    requires IsDirectory(g, img, chain) && IsPlace(g, chain, p, sect, idx)
    ensures p == 16 * q + idx / 32 && sect >= g.dataSect && Stands(g, chain, q, g.SectToClust(sect), sect, idx)
  {
    hide Row, Col, Geometry.SectToClust, Geometry.ClustToSect, IsChain;
    q :| p == 16 * q + idx / 32 && 0 < g.spc && Row(g, q) < |chain| && Stands(g, chain, q, chain[Row(g, q)], sect, idx);
    SectToClustInverts(g, chain[Row(g, q)], Col(g, q));
  }

  /** A place names one slot of the directory. */
  lemma StandsUnique(g: Geometry, img: Image, chain: seq<nat>, q: nat, clust: nat, sect: nat, idx: nat, q': nat,
                     clust': nat)
    requires IsDirectory(g, img, chain)
    requires Stands(g, chain, q, clust, sect, idx) && Stands(g, chain, q', clust', sect, idx)
    ensures q == q' && clust == clust'
  {
    hide Row, Col, Table, Geometry.ClustToSect;
    ChainDistinct(Table(g, img), chain);
    SectAtInjective(g, chain, q, q');
  }

  lemma SlotNamesPlace(g: Geometry, chain: seq<nat>, q: nat, clust: nat, sect: nat, idx: nat, q': nat, clust': nat,
                       sect': nat, idx': nat)
    requires Stands(g, chain, q, clust, sect, idx) && Stands(g, chain, q', clust', sect', idx')
    requires 16 * q + idx / 32 == 16 * q' + idx' / 32
    ensures sect == sect' && idx == idx'
  {
    hide Row, Col;
    assert idx / 32 < 16 && idx' / 32 < 16;
  }
}
