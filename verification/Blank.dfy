/** A freshly formatted volume: the tree that every run can start from. */
module Blank {
  import opened Bytes
  import opened Layout
  import opened Chains
  import opened Clusters
  import opened Names
  import opened Listing
  import opened Owners
  import opened Tree
  import opened Dots

  /** The root directory is one cleared cluster, and every other cluster is free, or set aside as bad or as the end of a
      chain that nobody has. What the boot sector, FSInfo, the reserved entries and the other clusters hold is left
      open. */
  ghost predicate Formatted(g: Geometry, img: Image) {
    && g.Wf(|img|) && g.Aligned() && g.ClustToSect(g.rootClust) + g.spc <= |img|
    && BlankEntries(Table(g, img), g.rootClust)
    && forall j :: 0 <= j < g.spc ==> ZeroAt(img, g.SectorIn(g.rootClust, j))
  }

  ghost predicate BlankEntries(t: FatTable, root: nat) {
    && 2 <= root < |t| && KindAt(t, 0) != Used && KindAt(t, root) == Last
    && forall c :: 2 <= c < |t| && c != root ==> KindAt(t, c) == Free || KindAt(t, c) == Last || KindAt(t, c) == Bad
  }

  /** The clusters that are set aside. */
  ghost function SetAside(t: FatTable, root: nat): set<nat> {
    set c: nat | 2 <= c < |t| && c != root && t[c] != 0
  }

  /** A root directory without entries. */
  ghost function BlankTree(root: nat, aside: set<nat>): Tree {
    Tree(map[root := [root]], map[root := []], map[], map[root := 0], aside, true, true)
  }

  ghost function FormattedTree(g: Geometry, img: Image): Tree
    requires g.Wf(|img|)
  {
    BlankTree(g.rootClust, SetAside(Table(g, img), g.rootClust))
  }

  lemma BlankOwns(t: FatTable, root: nat)
    requires BlankEntries(t, root)
    ensures NoneBroken(t) && Owns(t, map[root := [root]], SetAside(t, root)) && Tidy(t, SetAside(t, root))
  {
    forall c | 2 <= c < |t|
      ensures Classify(t[c], |t|) != Broken
    {
      assert KindAt(t, c) != Broken;
    }
    assert root in map[root := [root]] && root in map[root := [root]][root];
    assert IsChain(t, [root]);
    assert Owned(map[root := [root]], root);
    assert forall x :: Owned(map[root := [root]], x) ==> x == root;
  }

  lemma BlankIsTree(root: nat, aside: set<nat>)
    ensures IsTree(root, BlankTree(root, aside))
  {
  }

  /** A formatted volume is sound. */
  lemma FormattedSound(g: Geometry, img: Image)
    requires Formatted(g, img)
    ensures g.Wf(|img|) && Sound(g, img, FormattedTree(g, img))
  {
    hide Table, NoneBroken, Owns, IsTree, SlotsOf, Items, WellFormed, Geometry.ClustToSect, Backed, IsChain,
         BlankEntries, SetAside;
    var root, t := g.rootClust, Table(g, img);
    BlankOwns(t, root);
    BlankIsTree(root, SetAside(t, root));
    CleanSlots(g, img, img, root);
    OneCluster(g, img, root);
    NothingListed(SlotsOf(g, img, [root]));
    assert Shows(g, img, [root], [], true);
  }

  lemma NothingListed(slots: seq<Slot>)
    requires 0 < |slots| && forall p :: 0 <= p < |slots| ==> IsLast(slots[p])
    ensures WellFormed(slots, 0) && Items(slots, 0) == [] && EndMarked(slots)
  {
    assert IsLast(slots[0]);
  }

  // ---------- one formatted volume ----------

  /** Formatting a device that has nothing but cleared sectors where the tables and the data go: the root's entry is
      set. */
  lemma FormattedExists(g: Geometry, img: Image)
    requires g.Wf(|img|) && g.Aligned() && g.ClustToSect(g.rootClust) + g.spc <= |img|
    requires forall s :: g.fat0 <= s < |img| ==> img[s] == ZeroSector()
    ensures Formatted(g, PutEnd(g, img)) && forall s :: 0 <= s < g.fat0 && !g.InFat(s) ==> PutEnd(g, img)[s] == img[s]
  {
    hide Geometry.ClustToSect, PutFat;
    PutFatTable(g, img, g.rootClust, EOC);
    forall c | 0 <= c < g.clustCnt
      ensures Table(g, img)[c] == 0
    {
      assert g.fat0 + c / 128 < |img| && img[g.fat0 + c / 128] == ZeroSector();
    }
    forall j | 0 <= j < g.spc
      ensures ZeroAt(PutEnd(g, img), g.SectorIn(g.rootClust, j))
    {
      SectToClustInverts(g, g.rootClust, j);
      PutFatElsewhere(g, img, g.rootClust, EOC, g.SectorIn(g.rootClust, j));
    }
    forall s | 0 <= s < g.fat0 && !g.InFat(s)
      ensures PutEnd(g, img)[s] == img[s]
    {
      PutFatElsewhere(g, img, g.rootClust, EOC, s);
    }
  }

  ghost function PutEnd(g: Geometry, img: Image): Image
    requires g.Wf(|img|)
  {
    PutFat(g, img, g.rootClust, EOC)
  }

  /** A boot sector that passes the probe, on a device that is just large enough for the root: formatted, it is
      sound, but the first cluster that the allocator takes is beyond the end of the device. */
  lemma ClusterBeyondDevice(b: Bpb, img: Image)
    requires b == Bpb(1, 2, 2, 1, 0x80, 2, 1, 65529)
    requires |img| == 5 && forall s :: 2 <= s < 5 ==> img[s] == ZeroSector()
    ensures Mountable(b, 0, |img|) && MountGeometry(b, 0).Wf(|img|)
    ensures var g := MountGeometry(b, 0); var formatted := PutEnd(g, img);
            && Formatted(g, formatted) && Choose(Table(g, formatted), 0, 2) == Found(3)
            && g.ClustToSect(3) >= |formatted| && g.ClustToSect(g.clustCnt - 1) + g.spc > |formatted|
  {
    MountGeometryWf(b, 0, 5);
    var g := MountGeometry(b, 0);
    FormattedExists(g, img);
    PutFatTable(g, img, 2, EOC);
    assert Table(g, PutEnd(g, img))[3] == 0;
  }
}
