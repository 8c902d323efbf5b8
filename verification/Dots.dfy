/** The first two entries of a new directory: itself and its parent. */
module Dots {
  import opened Bytes
  import opened Layout
  import opened Chains
  import opened Clusters
  import opened Names
  import opened Listing
  import opened Volume
  import opened Tree

  /** The 8.3 name of a dot entry: one dot or two, padded. */
  function DotName(dots: nat): (r: Name)
    ensures |r| == 11
  {
    seq(11, k requires 0 <= k < 11 => if k < dots then DOT else SFN_PAD)
  }

  function DotSlot(dots: nat, clust: nat, stamp: Stamp): Slot {
    SfnSlot(DotName(dots), ATTR_DIR, clust, stamp)
  }

  lemma DotSlotFields(dots: nat, clust: nat, stamp: Stamp)
    requires dots >= 1
    ensures var s := DotSlot(dots, clust, stamp); s[0] == DOT && !IsFree(s) && !IsLfn(s)
  {
    var s := DotSlot(dots, clust, stamp);
    SfnSlotName(DotName(dots), ATTR_DIR, clust, stamp);
    assert s[0] == s[..11][0];
  }

  /** In bytes: one 0x2e or two, and then spaces; marked as a directory by 0x10. */
  lemma DotBytes(dots: nat, clust: nat, stamp: Stamp)
    requires 1 <= dots <= 2 && clust < TWO_32
    ensures var s := DotSlot(dots, clust, stamp);
            && s[..11] == (if dots == 1 then [0x2e, 0x20] else [0x2e, 0x2e]) + seq(9, _ => 0x20)
            && s[11] == 0x10 && ClusterOf(s) == clust && SizeOf(s) == 0
  {
    SfnSlotFields(DotName(dots), ATTR_DIR, clust, stamp);
  }

  /** What a new directory lists. */
  function DotItems(self: nat, parent: nat, stamp: Stamp): seq<Item> {
    [Item(0, 0, NoLong, DotSlot(1, self, stamp)), Item(1, 1, NoLong, DotSlot(2, parent, stamp))]
  }

  lemma DotItemsDotted(self: nat, parent: nat, stamp: Stamp)
    ensures Dotted(DotItems(self, parent, stamp))
    ensures forall kid :: kid in DotItems(self, parent, stamp) ==> IsDot(kid)
  {
    hide DotSlot;
    DotSlotFields(1, self, stamp);
    DotSlotFields(2, parent, stamp);
  }

  /** A sector that starts with two dot entries. */
  function WithDots(sector: Sector, self: nat, parent: nat, stamp: Stamp): Sector {
    WithSlot(WithSlot(sector, 0, DotSlot(1, self, stamp)), 1, DotSlot(2, parent, stamp))
  }

  /** Two dot entries and then cleared slots list as such. */
  lemma DotsListed(slots: seq<Slot>, self: nat, parent: nat, stamp: Stamp)
    requires |slots| > 2 && slots[0] == DotSlot(1, self, stamp) && slots[1] == DotSlot(2, parent, stamp)
    requires IsLast(slots[2])
    ensures WellFormed(slots, 0) && Items(slots, 0) == DotItems(self, parent, stamp)
  {
    hide DotSlot;
    DotSlotFields(1, self, stamp);
    DotSlotFields(2, parent, stamp);
    assert WellFormed(slots, 2) && Items(slots, 2) == [];
    assert WellFormed(slots, 1) && Items(slots, 1) == [DotItems(self, parent, stamp)[1]];
  }

  /** A cluster that has been cleared and given two dot entries is a directory that lists just these. */
  lemma DotsShow(g: Geometry, v0: Image, v1: Image, v2: Image, c: nat, self: nat, parent: nat, stamp: Stamp)
    requires g.Wf(|v0|) && 2 <= c && g.ClustToSect(c) + g.spc <= |v0| && v1 == Zeroed(v0, g.ClustToSect(c), g.spc)
    requires var s := g.ClustToSect(c); v2 == v1[s := WithDots(v1[s], self, parent, stamp)]
    ensures SameTables(g, v0, v2) && SameOthers(g, v0, v2, [c])
    ensures Shows(g, v2, [c], DotItems(self, parent, stamp), true)
  {
    hide SlotsOf, Zeroed, WithSlot, DotSlot, Items, WellFormed, SameTables, SameOthers, DotItems, Geometry.ClustToSect,
         Row, Span, SlotCount, AllZero, ZeroAt;
    var s := g.ClustToSect(c);
    var va := v1[s := WithSlot(v1[s], 0, DotSlot(1, self, stamp))];
    ClearedOthers(g, v0, v0, v1, [], c);
    assert [] + [c] == [c];
    OneCluster(g, v1, c);
    StoreSlot(g, v1, [c], 0, 0, DotSlot(1, self, stamp), va);
    StoreSlot(g, va, [c], 0, 1, DotSlot(2, parent, stamp), v2);
    CleanSlots(g, v0, v1, c);
    DotsListed(SlotsOf(g, v2, [c]), self, parent, stamp);
    ClusterStore(g, v1, v2, c, s);
    FrameTrans(g, v0, v1, v2, c);
  }

  lemma OneCluster(g: Geometry, img: Image, c: nat)
    requires g.Wf(|img|) && 2 <= c && g.ClustToSect(c) + g.spc <= |img|
    ensures 0 < g.spc && Backed(g, |img|, [c]) && Distinct([c]) && Row(g, 0) == 0
    ensures SectAt(g, [c], 0) == g.ClustToSect(c)
    ensures SlotCount(g, 1) >= 16
  {
    hide Geometry.ClustToSect;
    SectAtCovers(g, [c], 0, 0);
    SpanStep(g, 0);
    MulAtLeast(1, g.spc);
  }

  /** All the slots of a cleared cluster are cleared. */
  lemma CleanSlots(g: Geometry, v0: Image, v1: Image, c: nat)
    requires g.Wf(|v0|) && 2 <= c && |v1| == |v0| && g.ClustToSect(c) + g.spc <= |v0|
    requires forall j :: 0 <= j < g.spc ==> ZeroAt(v1, g.SectorIn(c, j))
    ensures Backed(g, |v1|, [c]) && forall p :: 0 <= p < |SlotsOf(g, v1, [c])| ==> IsLast(SlotsOf(g, v1, [c])[p])
  {
    hide Geometry.ClustToSect, SlotsOf, Row, Span, SlotCount, ZeroAt;
    OneCluster(g, v1, c);
    assert [] + [c] == [c];
    SlotsExtend(g, v0, v1, [], c);
    NoSlots(g, v0);
    var slots := SlotsOf(g, v1, [c]);
    forall p | 0 <= p < |slots|
      ensures IsLast(slots[p])
    {
      assert AllZero(slots[p]);
    }
  }

  lemma NoSlots(g: Geometry, img: Image)
    requires 0 < g.spc
    ensures |SlotsOf(g, img, [])| == 0
  {
    SpanStep(g, 0);
  }

  /** Storing a sector of a cluster. */
  lemma ClusterStore(g: Geometry, a: Image, b: Image, c: nat, s: nat)
    requires g.Wf(|a|) && 2 <= c && s == g.ClustToSect(c) && s < |a| && |b| == |a| && b == a[s := b[s]]
    ensures SameTables(g, a, b) && SameOthers(g, a, b, [c])
  {
    SectToClustInverts(g, c, 0);
  }

  lemma FrameTrans(g: Geometry, a: Image, b: Image, c: Image, x: nat)
    requires SameTables(g, a, b) && SameTables(g, b, c) && SameOthers(g, a, b, [x]) && SameOthers(g, b, c, [x])
    ensures SameTables(g, a, c) && SameOthers(g, a, c, [x])
  {
  }

  /** The stores of `fat_dir_create` into the first sector of the new directory, which is cleared and buffered. */
  method PutDots(fat: Fat, self: nat, parent: nat, stamp: Stamp)
    requires fat.Valid() && 0 < fat.sect < |fat.view| && fat.buf[..] == fat.view[fat.sect]
    modifies fat`dirty, fat`view, fat`trace, fat.buf
    ensures fat.Valid() && fat.SameCounters()
    ensures fat.view == old(fat.view)[fat.sect := WithDots(old(fat.view)[fat.sect], self, parent, stamp)]
    ensures old(fat.Journal()) ==> fat.Journal()
    ensures old(fat.Tame()) && !fat.geo.InFat(fat.sect) ==> fat.Tame()
  {
    hide Fat.Journal, Fat.Tame, WithSlot, DotSlot;
    ghost var was := fat.buf[..];
    var dot, dots := DotSlot(1, self, stamp), DotSlot(2, parent, stamp);
    CopyInto(fat.buf, 0, dot);
    ghost var mid := fat.buf[..];
    StoredAt(was, mid, 0, dot);
    CopyInto(fat.buf, 32, dots);
    StoredAt(mid, fat.buf[..], 1, dots);
    fat.Touch();
  }

  lemma StoredAt(a: Sector, b: Sector, k: nat, s: Slot)
    requires k < 16 && b[32 * k..32 * k + 32] == s
    requires forall i :: 0 <= i < SECTOR_SIZE && !(32 * k <= i < 32 * k + 32) ==> b[i] == a[i]
    ensures b == WithSlot(a, k, s)
  {
    WithSlotElsewhere(a, b, k);
  }
}
