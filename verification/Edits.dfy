/** What storing and removing directory entries does to the tree. */
module Edits {
  import opened Bytes
  import opened Layout
  import opened Chains
  import opened Clusters
  import opened Names
  import opened LongNames
  import opened Listing
  import opened Owners
  import opened Volume
  import opened Directory
  import opened Tree

  /** A lost cluster stays what it is while a directory is stretched and edited. */
  lemma LostKept(g: Geometry, v0: Image, f0: uint32, v1: Image, f1: uint32, tree: Tree, d: nat, ch: seq<nat>, c: nat)
    requires Sound(g, v0, tree) && d in tree.items && d in tree.chains && c in tree.lost
    requires Extends(g, v0, f0, tree.chains[d], v1, f1, ch)
    ensures |v1| == |v0| && g.Wf(|v0|) && c < g.clustCnt && Table(g, v1)[c] == Table(g, v0)[c] && c !in ch
  {
    hide Table, IsTree, NoneBroken, SlotsOf, Shows, SameOthers, Upkeep, AllZero, IsDirectory;
    OwnsExtended(g, v0, f0, v1, f1, tree, d, ch);
    LostApart(Table(g, v1), tree.chains[d := ch], tree.lost, d, c);
    LostClusters(Table(g, v0), tree.chains, tree.lost, c);
    GrownElsewhere(Table(g, v0), Table(g, v1), tree.chains[d], ch, c);
  }

  lemma GrownElsewhere(t: FatTable, t': FatTable, ch: seq<nat>, ch': seq<nat>, c: nat)
    requires Grown(t, t', ch, ch') && c < |t| && c !in ch'
    ensures t'[c] == t[c]
  {
    assert forall i :: |ch| - 1 <= i < |ch'| ==> ch'[i] != c;
  }

  /** A directory has been stretched if need be, and an entry for a cluster that belonged to nobody has been stored
      in it. `kids` is what that cluster lists if the entry is a directory. */
  lemma SoundWithEntry(g: Geometry, v0: Image, f0: uint32, room: Image, f1: uint32, v1: Image, tree: Tree, d: nat,
                       ch: seq<nat>,
                       s: nat, name: Name, n: nat, sfn: Slot, eod: bool, kids: seq<Item>)
    requires Sound(g, v0, tree) && d in tree.items && d in tree.chains
    requires Extends(g, v0, f0, tree.chains[d], room, f1, ch) && OnlyEdited(g, room, v1, ch)
    requires g.Wf(|v0|) && ClusterOf(sfn) in tree.lost && ClusterOf(sfn) < g.clustCnt
    requires Table(g, v0)[ClusterOf(sfn)] == EOC
    requires Storable(name) && n == LfnCount(|name|) && sfn[..11] == SfnName(name) && !IsLfn(sfn)
    requires IsDirectory(g, room, ch) && IsDirectory(g, v1, ch)
    requires var slots := SlotsOf(g, room, ch);
             && s + n + 1 < |slots| && Scanned(slots, s + n + 1, n + 1, eod)
             && SlotsOf(g, v1, ch) == WithEntry(slots, s, name, n, sfn, eod)
    requires HasBit(sfn[ATTR_AT], 4) ==>
               Dotted(kids) && (forall kid :: kid in kids ==> IsDot(kid)) && Shows(g, v0, [ClusterOf(sfn)], kids, true)
    ensures WellFormed(SlotsOf(g, v1, ch), 0)
    ensures var item := NewItem(s, name, n, sfn); var list := Items(SlotsOf(g, v1, ch), 0);
            && Gained(tree.items[d], item, list)
            && d in tree.depth && Sound(g, v1, Adopted(tree.(chains := tree.chains[d := ch]), d, item, list, kids))
  {
    hide Table, IsTree, Owns, NoneBroken, SlotsOf, WellFormed, Items, Extends, OnlyEdited, IsChain, Backed, Scanned,
         WithEntry, Dotted, SfnName, LfnCount, Gained, Shows, Sound;
    var c, stretched := ClusterOf(sfn), tree.(chains := tree.chains[d := ch]);
    var item := NewItem(s, name, n, sfn);
    SoundExtended(g, v0, f0, room, f1, tree, d, ch);
    SoundDirectory(g, room, stretched, d);
    ListGained(SlotsOf(g, room, ch), s, name, n, sfn, eod);
    if tree.marked {
      MarkWithEntry(SlotsOf(g, room, ch), s, name, n, sfn, eod);
    }
    LostKept(g, v0, f0, room, f1, tree, d, ch, c);
    DirectoryShows(g, v1, ch, tree.marked);
    SoundDotted(g, v0, tree, d);
    if IsDir(item) {
      KidsKept(g, v0, f0, tree.chains[d], room, f1, ch, v1, c, kids);
    }
    SoundAdopted(g, room, v1, stretched, d, item, Items(SlotsOf(g, v1, ch), 0), kids);
  }

  lemma DirectoryShows(g: Geometry, img: Image, ch: seq<nat>, marked: bool)
    requires IsDirectory(g, img, ch) && WellFormed(SlotsOf(g, img, ch), 0)
    requires marked ==> EndMarked(SlotsOf(g, img, ch))
    ensures Shows(g, img, ch, Items(SlotsOf(g, img, ch), 0), marked)
  {
    hide SlotsOf, Table, IsChain;
  }

  lemma SoundDotted(g: Geometry, img: Image, tree: Tree, d: nat)
    requires Sound(g, img, tree) && d in tree.items
    ensures d != g.rootClust ==> Dotted(tree.items[d])
  {
    hide Table, Owns, NoneBroken, Shows, Dotted;
  }

  lemma KidsKept(g: Geometry, v0: Image, f0: uint32, ch0: seq<nat>, room: Image, f1: uint32, ch: seq<nat>, v1: Image,
                 c: nat, kids: seq<Item>)
    requires Extends(g, v0, f0, ch0, room, f1, ch) && OnlyEdited(g, room, v1, ch) && c !in ch
    requires Shows(g, v0, [c], kids, true)
    ensures Shows(g, v1, [c], kids, true)
  {
    hide Table, SlotsOf, IsDirectory, Grown, Upkeep, AllZero, Shows, SameOthers, SameTables;
    ShowsFrame(g, v0, room, ch, [c], kids, true);
    ShowsFrame(g, room, v1, ch, [c], kids, true);
  }

  // ---------- removing ----------

  /** The slots from the third one up to `p` are free, and before the end mark. */
  ghost predicate EmptyTo(slots: seq<Slot>, p: nat) {
    2 <= p <= |slots| && forall i :: 2 <= i < p ==> IsFree(slots[i]) && !IsLast(slots[i])
  }

  /** What the emptiness test of `fat_unlink` concludes at slot `p` is right: at an end mark, the directory lists its
      dot entries only; at a live slot, it lists more; at the very end, it lists no more but has no end mark. */
  lemma EmptyVerdict(slots: seq<Slot>, p: nat)
    requires WellFormed(slots, 0) && Dotted(Items(slots, 0)) && EmptyTo(slots, p)
    ensures p == |slots| ==> |Items(slots, 0)| == 2 && !EndMarked(slots)
    ensures p < |slots| && IsLast(slots[p]) ==> |Items(slots, 0)| == 2 && EndMarked(slots)
    ensures p < |slots| && !IsFree(slots[p]) ==> |Items(slots, 0)| > 2
  {
    hide GroupOk, GroupName, ItemAt, IsDot, Items, WellFormed;
    DotSlots(slots);
    RunTail(slots, 2, p);
    SkipRun(slots, 2, p);
    NextListed(slots, p);
  }

  /** Whether anything is listed from a slot on at which parsing has arrived. */
  lemma NextListed(slots: seq<Slot>, p: nat)
    requires p <= |slots| && WellFormed(slots, p)
    ensures p == |slots| || IsLast(slots[p]) ==> Items(slots, p) == []
    ensures p < |slots| && !IsFree(slots[p]) ==> Items(slots, p) != []
  {
    hide GroupOk, GroupName, ItemAt;
  }

  lemma DottedOnly(items: seq<Item>)
    requires Dotted(items) && |items| == 2
    ensures forall item :: item in items ==> IsDot(item)
  {
  }

  lemma ClearedNoneBroken(t: FatTable, cs: seq<nat>)
    requires NoneBroken(t)
    ensures NoneBroken(Cleared(t, cs))
  {
  }

  /** What releasing an item's clusters does. An item without clusters has the reserved entry 0 released. */
  lemma ReleaseFreed(g: Geometry, img: Image, tree: Tree, d: nat, item: Item)
    requires Sound(g, img, tree) && d in tree.items && item in tree.items[d] && !IsDot(item)
    ensures g.Wf(|img|) && Head(item) < g.clustCnt
    ensures var t := Table(g, img);
            && (Head(item) != 0 || KindAt(t, 0) == Last ==>
                  Release(t, Head(item)) == Released(Cleared(t, Freed(tree, item)), true, |Freed(tree, item)|))
            && (Head(item) == 0 && KindAt(t, 0) != Last ==> Release(t, 0) == Released(t, false, 0))
  {
    hide Table, NoneBroken, Shows, IsDot, IsDir, Owns, IsTree, Release, IsChain, Cleared;
    TreeFacts(g, img, tree);
    RemovedHead(g.rootClust, tree, d, item);
    var t := Table(g, img);
    NoChainAtZero(t, tree.chains, tree.lost);
    ReleaseRound(t, 0);
    if Head(item) != 0 {
      HeadChain(t, g.rootClust, tree, d, item);
      ReleaseChain(t, tree.chains[Head(item)]);
    } else if KindAt(t, 0) == Last {
      ChainOfZero(t);
      ReleaseChain(t, [0]);
    }
  }

  lemma ChainOfZero(t: FatTable)
    requires 0 < |t| && KindAt(t, 0) == Last
    ensures IsChain(t, [0])
  {
  }

  lemma HeadChain(t: FatTable, root: nat, tree: Tree, d: nat, item: Item)
    requires Owns(t, tree.chains, tree.lost) && IsTree(root, tree) && Registered(tree, d, item)
    ensures Head(item) in tree.chains && IsChain(t, tree.chains[Head(item)])
    ensures tree.chains[Head(item)][0] == Head(item) < |t|
  {
    hide Disjoint, Owned, InUse, Accounted, EntryIn, Dotted, IsDir;
  }

  /** The directory of the item is not touched by that. */
  lemma ReleasedElsewhere(g: Geometry, v0: Image, v1: Image, tree: Tree, d: nat, item: Item)
    requires Sound(g, v0, tree) && d in tree.items && d in tree.chains && item in tree.items[d] && !IsDot(item)
    requires Mild(g, v0, v1) && |v1| == |v0| && Table(g, v1) == Cleared(Table(g, v0), Freed(tree, item))
    ensures IsDirectory(g, v0, tree.chains[d]) && IsDirectory(g, v1, tree.chains[d])
    ensures SlotsOf(g, v1, tree.chains[d]) == SlotsOf(g, v0, tree.chains[d])
    ensures SameOthers(g, v0, v1, tree.chains[d])
  {
    hide Sound, Table, IsDot, SlotsOf, Mild, IsChain, Freed, SameOthers, Backed;
    SoundDirectory(g, v0, tree, d);
    DataKept(g, v0, v1);
    FreedApart(g, v0, tree, d, item);
    ChainKept(Table(g, v0), Table(g, v1), tree.chains[d]);
    SameDirectory(g, v0, v1, tree.chains[d]);
  }

  lemma SameDirectory(g: Geometry, a: Image, b: Image, ch: seq<nat>)
    requires 0 < g.spc && |b| == |a| && Backed(g, |a|, ch) && forall s :: g.dataSect <= s < |a| ==> b[s] == a[s]
    ensures SlotsOf(g, b, ch) == SlotsOf(g, a, ch) && SameOthers(g, a, b, ch)
  {
    hide SlotsOf;
    forall i | 0 <= i < |ch|
      ensures SameCluster(g, a, b, ch[i])
    {
      OtherCluster(g, a, b, [], ch[i]);
    }
    SlotsFrame(g, a, b, ch);
  }

  lemma FreedApart(g: Geometry, img: Image, tree: Tree, d: nat, item: Item)
    requires Sound(g, img, tree) && d in tree.items && d in tree.chains && item in tree.items[d] && !IsDot(item)
    ensures g.Wf(|img|) && forall x :: x in tree.chains[d] ==> x < |Table(g, img)| && x !in Freed(tree, item)
  {
    hide Table, NoneBroken, Shows, IsDot, IsDir, EntryIn, Dotted, IsTree, Accounted;
    TreeFacts(g, img, tree);
    RemovedHead(g.rootClust, tree, d, item);
    var t := Table(g, img);
    forall x | x in tree.chains[d]
      ensures x < |t| && x !in Freed(tree, item)
    {
      OwnedInUse(t, tree.chains, tree.lost, d, x);
    }
  }

  /** An item's clusters have been released and its slots have been marked free. */
  lemma SoundUnlinked(g: Geometry, v0: Image, v1: Image, v2: Image, tree: Tree, d: nat, item: Item)
    requires Sound(g, v0, tree) && d in tree.items && d in tree.chains && item in tree.items[d] && !IsDot(item)
    requires Mild(g, v0, v1) && |v1| == |v0| && Table(g, v1) == Cleared(Table(g, v0), Freed(tree, item))
    requires OnlyEdited(g, v1, v2, tree.chains[d]) && IsDirectory(g, v0, tree.chains[d])
    requires IsDirectory(g, v2, tree.chains[d])
    requires MarkedFree(SlotsOf(g, v0, tree.chains[d]), SlotsOf(g, v2, tree.chains[d]), item.start, item.at + 1)
    requires Head(item) in tree.items ==> |tree.items[Head(item)]| == 2
    ensures WellFormed(SlotsOf(g, v2, tree.chains[d]), 0)
    ensures var list := Items(SlotsOf(g, v2, tree.chains[d]), 0);
            Dropped(tree.items[d], item, list) && Sound(g, v2, Removed(tree, d, item, list))
  {
    hide Table, NoneBroken, Shows, IsDot, IsDir, EntryIn, Dotted, SlotsOf, Mild, IsChain, Owns, IsTree, MarkedFree,
         SameTables, Items, WellFormed, Dropped, Backed, Cleared, Removed, Sound;
    var ch := tree.chains[d];
    ReleasedElsewhere(g, v0, v1, tree, d, item);
    SoundDirectory(g, v0, tree, d);
    ListDropped(SlotsOf(g, v0, ch), SlotsOf(g, v2, ch), item);
    if tree.marked {
      MarkDropped(SlotsOf(g, v0, ch), SlotsOf(g, v2, ch), item);
    }
    DirectoryShows(g, v2, ch, tree.marked);
    SameTablesFrame(g, v1, v2);
    SoundReadable(g, v0, tree);
    ClearedNoneBroken(Table(g, v0), Freed(tree, item));
    SameOthersTrans(g, v0, v1, v2, ch, ch);
    SoundDotted(g, v0, tree, d);
    if Head(item) in tree.items {
      TreeFacts(g, v0, tree);
      RemovedHead(g.rootClust, tree, d, item);
      SoundDotted(g, v0, tree, Head(item));
      DottedOnly(tree.items[Head(item)]);
    }
    SoundRemoved(g, v0, v2, tree, d, item, Items(SlotsOf(g, v2, ch), 0));
  }

  lemma SoundReadable(g: Geometry, img: Image, tree: Tree)
    requires Sound(g, img, tree)
    ensures g.Wf(|img|) && NoneBroken(Table(g, img))
  {
    hide Table, Owns, IsTree, Shows;
  }

  // ---------- updating ----------

  /** The slot of an entry has been changed in place, in its data but not in its name, cluster or kind. */
  lemma SoundUpdated(g: Geometry, v0: Image, v1: Image, tree: Tree, d: nat, item: Item, sect: nat, idx: nat, s: Slot)
    requires Sound(g, v0, tree) && d in tree.items && d in tree.chains && item in tree.items[d] && !IsDot(item)
    requires IsPlace(g, tree.chains[d], item.at, sect, idx) && sect < |v0| && idx / 32 < SLOTS_PER_SECTOR
    requires v1 == v0[sect := WithSlot(v0[sect], idx / 32, s)]
    requires SameName(item.sfn, s) && ClusterOf(s) == Head(item) && (HasBit(s[ATTR_AT], 4) <==> IsDir(item))
    ensures 0 < g.spc && Backed(g, |v1|, tree.chains[d]) && WellFormed(SlotsOf(g, v1, tree.chains[d]), 0)
    ensures var list := Items(SlotsOf(g, v1, tree.chains[d]), 0);
            && Exchanged(tree.items[d], item, item.(sfn := s), list)
            && Sound(g, v1, tree.(items := tree.items[d := list]))
            && SameFiles(g, v0, tree, v1, tree.(items := tree.items[d := list]), 0)
  {
    hide Sound, Table, SlotsOf, WellFormed, Items, IsChain, Backed, Exchanged, Shows, WithSlot, SameTables, SameOthers,
         Row, Col, SectAt, Dotted, IsDot, IsDir, ClusterOf, SameName, SlotCount,
         SameFiles;
    var ch := tree.chains[d];
    SoundDirectory(g, v0, tree, d);
    var q: nat :|
      && item.at == 16 * q + idx / 32 && 0 < g.spc && Row(g, q) < |ch|
      && Stands(g, ch, q, ch[Row(g, q)], sect, idx);
    StoreHere(g, v0, ch, q, ch[Row(g, q)], sect, idx, s);
    ListExchanged(SlotsOf(g, v0, ch), item, s);
    if tree.marked {
      MarkExchanged(SlotsOf(g, v0, ch), item, s);
    }
    DirectoryShows(g, v1, ch, tree.marked);
    SoundDotted(g, v0, tree, d);
    SoundExchanged(g, v0, v1, tree, d, item, item.(sfn := s), Items(SlotsOf(g, v1, ch), 0));
    SameFilesInChain(g, v0, tree, v1, tree.(items := tree.items[d := Items(SlotsOf(g, v1, ch), 0)]), 0, d);
  }
}
