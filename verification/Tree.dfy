/** The directory tree of a volume: what its directories list, which chain belongs to which entry, and how this is
    read off the logical disk. */
module Tree {
  import opened Bytes
  import opened Layout
  import opened Chains
  import opened Clusters
  import opened Names
  import opened LongNames
  import opened Listing
  import opened Owners
  import opened Volume
  import opened Directory
  import opened FileData

  /** Where an entry is: the first cluster of its directory and the number of its 8.3 slot. */
  datatype Place = Place(dir: nat, at: nat)

  /** A volume's contents: its chains by first cluster, the items of each directory, the place of each chain's entry,
      a depth for each chain, and the clusters that are in use but belong to nobody. `marked` says that every directory
      has an end mark, and `tidy` that no lost cluster has a link. */
  datatype Tree = Tree(
    chains: ChainMap,
    items: map<nat, seq<Item>>,
    entry: map<nat, Place>,
    depth: map<nat, nat>,
    lost: set<nat>,
    marked: bool,
    tidy: bool)

  predicate IsDot(item: Item) {
    item.long.NoLong? && item.sfn[0] == DOT
  }

  predicate IsDir(item: Item) {
    HasBit(item.sfn[ATTR_AT], 4)
  }

  /** The cluster that holds what the item names. */
  function Head(item: Item): nat {
    ClusterOf(item.sfn)
  }

  /** In bytes: bit 4 of byte 11 marks a directory, the cluster is in bytes 26, 27, 20 and 21, and an entry without a
      long name that starts with 0x2e is a dot entry. */
  lemma ItemNumbers(item: Item)
    ensures IsDir(item) <==> item.sfn[11] / 16 % 2 == 1
    ensures Head(item) == Number(item.sfn[26..28]) + 0x1_0000 * Number(item.sfn[20..22])
    ensures IsDot(item) <==> item.long.NoLong? && item.sfn[0] == 0x2e
  {
    SlotNumbers(item.sfn);
  }

  /** The item is the one entry of its chain, and is marked as a directory if and only if it is one. */
  ghost predicate Registered(tree: Tree, d: nat, item: Item) {
    && Head(item) in tree.entry && tree.entry[Head(item)] == Place(d, item.at)
    && (IsDir(item) <==> Head(item) in tree.items)
  }

  /** An item of directory `d` is a dot entry, has no clusters, or is the one entry of a chain. */
  ghost predicate Accounted(tree: Tree, d: nat, item: Item) {
    IsDot(item) || (Head(item) == 0 && !IsDir(item)) || Registered(tree, d, item)
  }

  ghost predicate HasEntry(items: seq<Item>, at: nat, c: nat) {
    exists item :: item in items && item.at == at && Head(item) == c && !IsDot(item)
  }

  /** The first two slots are dot entries. */
  ghost predicate Dotted(items: seq<Item>) {
    && 2 <= |items| && IsDot(items[0]) && IsDot(items[1])
    && items[0].at == 0 && items[1].at == 1
  }

  /** The directories form a tree: every chain but the root's has exactly one entry, which is in a directory closer
      to the root. */
  ghost predicate IsTree(root: nat, tree: Tree) {
    && root in tree.items && tree.items.Keys <= tree.chains.Keys
    && tree.entry.Keys == tree.chains.Keys - {root}
    && tree.depth.Keys == tree.chains.Keys
    && (forall d, item :: d in tree.items && item in tree.items[d] ==> Accounted(tree, d, item))
    && (forall c :: c in tree.entry ==> EntryIn(tree, c))
    && (forall d :: d in tree.items && d != root ==> Dotted(tree.items[d]))
  }

  /** The entry of a chain is listed in a directory closer to the root. */
  ghost predicate EntryIn(tree: Tree, c: nat)
    requires c in tree.entry
  {
    var p := tree.entry[c];
    && p.dir in tree.items && HasEntry(tree.items[p.dir], p.at, c)
    && c in tree.depth && p.dir in tree.depth && tree.depth[p.dir] < tree.depth[c]
  }

  /** A chain of clusters lists these items, and has an end mark if it is to. */
  ghost predicate Shows(g: Geometry, img: Image, chain: seq<nat>, items: seq<Item>, marked: bool) {
    && 0 < g.spc && Backed(g, |img|, chain)
    && WellFormed(SlotsOf(g, img, chain), 0) && Items(SlotsOf(g, img, chain), 0) == items
    && (marked ==> EndMarked(SlotsOf(g, img, chain)))
  }

  lemma ShowsUnmarked(g: Geometry, img: Image, chain: seq<nat>, items: seq<Item>, marked: bool)
    requires Shows(g, img, chain, items, true)
    ensures Shows(g, img, chain, items, marked)
  {
  }

  /** The logical disk holds the tree. */
  ghost predicate Sound(g: Geometry, img: Image, tree: Tree) {
    && g.Wf(|img|) && g.Aligned() && NoneBroken(Table(g, img))
    && Owns(Table(g, img), tree.chains, tree.lost) && (tree.tidy ==> Tidy(Table(g, img), tree.lost))
    && IsTree(g.rootClust, tree)
    && forall d :: d in tree.items ==> d in tree.chains && Shows(g, img, tree.chains[d], tree.items[d], tree.marked)
  }

  /** Every chain's entry leads up to the root. */
  lemma {:induction false} LeadsToRoot(root: nat, tree: Tree, c: nat) returns (up: seq<nat>)
    requires IsTree(root, tree) && c in tree.chains
    ensures |up| > 0 && up[0] == c && up[|up| - 1] == root
    ensures forall i :: 0 <= i < |up| - 1 ==> up[i] in tree.entry && tree.entry[up[i]].dir == up[i + 1]
    decreases if c in tree.depth then tree.depth[c] else 0
  {
    if c == root {
      up := [c];
    } else {
      assert EntryIn(tree, c);
      var rest := LeadsToRoot(root, tree, tree.entry[c].dir);
      up := [c] + rest;
    }
  }

  // ---------- directories ----------

  lemma SoundDirectory(g: Geometry, img: Image, tree: Tree, d: nat)
    requires Sound(g, img, tree) && d in tree.items
    ensures d in tree.chains && IsDirectory(g, img, tree.chains[d]) && tree.chains[d][0] == d
    ensures WellFormed(SlotsOf(g, img, tree.chains[d]), 0) && Items(SlotsOf(g, img, tree.chains[d]), 0) == tree.items[d]
    ensures tree.marked ==> EndMarked(SlotsOf(g, img, tree.chains[d]))
  {
    hide Table, IsChain, SlotsOf, Backed, Items, WellFormed, NoneBroken, IsTree, Geometry.Wf;
    assert Shows(g, img, tree.chains[d], tree.items[d], tree.marked);
  }

  /** A directory that a change elsewhere does not touch. */
  lemma ShowsFrame(g: Geometry, a: Image, b: Image, cs: seq<nat>, chain: seq<nat>, items: seq<Item>, marked: bool)
    requires Shows(g, a, chain, items, marked) && SameOthers(g, a, b, cs)
    requires forall x :: x in chain ==> x !in cs
    ensures Shows(g, b, chain, items, marked)
  {
    hide SlotsOf, Items, WellFormed;
    forall i | 0 <= i < |chain|
      ensures SameCluster(g, a, b, chain[i])
    {
      OtherCluster(g, a, b, cs, chain[i]);
    }
    SlotsFrame(g, a, b, chain);
  }

  /** The tables and the data have not changed. */
  lemma SoundFrame(g: Geometry, a: Image, b: Image, tree: Tree)
    requires Sound(g, a, tree) && Mild(g, a, b) && |b| == |a| && Table(g, b) == Table(g, a)
    ensures Sound(g, b, tree)
  {
    hide Table, IsTree, Owns, Tidy, NoneBroken, Mild, Shows;
    DataKept(g, a, b);
    forall d | d in tree.items
      ensures Shows(g, b, tree.chains[d], tree.items[d], tree.marked)
    {
      ShowsFrame(g, a, b, [], tree.chains[d], tree.items[d], tree.marked);
    }
  }

  // ---------- what operations do to the tree ----------

  lemma TreeChains(root: nat, tree: Tree, chains: ChainMap, lost: set<nat>)
    requires IsTree(root, tree) && chains.Keys == tree.chains.Keys
    ensures IsTree(root, tree.(chains := chains, lost := lost))
  {
    hide HasEntry, Dotted;
    var tree' := tree.(chains := chains, lost := lost);
    forall d, item | d in tree'.items && item in tree'.items[d]
      ensures Accounted(tree', d, item)
    {
      assert Accounted(tree, d, item);
    }
    forall c | c in tree'.entry
      ensures EntryIn(tree', c)
    {
      assert EntryIn(tree, c);
    }
  }

  /** A directory has been stretched. */
  lemma SoundExtended(g: Geometry, v0: Image, f0: uint32, v1: Image, f1: uint32, tree: Tree, d: nat, ch: seq<nat>)
    requires Sound(g, v0, tree) && d in tree.items
    requires Extends(g, v0, f0, tree.chains[d], v1, f1, ch)
    ensures Sound(g, v1, tree.(chains := tree.chains[d := ch]))
  {
    hide Table, IsTree, Owns, Tidy, NoneBroken, SlotsOf, IsDirectory, Shows, SameOthers, Geometry.Wf;
    var chains := tree.chains[d := ch];
    var after := tree.(chains := chains);
    TreeFacts(g, v0, tree);
    TreeChains(g.rootClust, tree, chains, tree.lost);
    ExtendsFacts(g, v0, f0, tree.chains[d], v1, f1, ch);
    OwnsExtended(g, v0, f0, v1, f1, tree, d, ch);
    if tree.tidy {
      TidyExtended(g, v0, f0, v1, f1, tree, d, ch);
    }
    ShowsExtended(g, v0, f0, tree.chains[d], v1, f1, ch, tree.items[d], tree.marked);
    forall k | k in tree.items && k != d
      ensures Shows(g, v1, tree.chains[k], tree.items[k], tree.marked)
    {
      assert chains[k] == tree.chains[k];
      ChainsApart(Table(g, v1), chains, tree.lost, k, d);
      ShowsFrame(g, v0, v1, ch, tree.chains[k], tree.items[k], tree.marked);
    }
  }

  lemma TreeFacts(g: Geometry, img: Image, tree: Tree)
    requires Sound(g, img, tree)
    ensures g.Wf(|img|) && g.Aligned() && IsTree(g.rootClust, tree)
    ensures g.rootClust in tree.items && tree.items.Keys <= tree.chains.Keys && 0 !in tree.chains
  {
    hide Table, Owns, NoneBroken, Shows, Geometry.Wf;
    NoChainAtZero(Table(g, img), tree.chains, tree.lost);
  }

  /** No chain of the volume has a link to a free entry, and neither has a lost cluster. */
  lemma SoundNoDangling(g: Geometry, img: Image, tree: Tree)
    requires Sound(g, img, tree) && tree.tidy
    ensures g.Wf(|img|) && NoDangling(Table(g, img))
  {
    hide Table, Owns, Tidy, NoDangling, NoneBroken, IsTree, Shows;
    OwnsNoDangling(Table(g, img), tree.chains, tree.lost);
  }

  lemma ChainsApart(t: FatTable, chains: ChainMap, lost: set<nat>, h: nat, k: nat)
    requires Owns(t, chains, lost) && h in chains && k in chains && h != k
    ensures forall x :: x in chains[h] ==> x !in chains[k]
  {
  }

  lemma OwnsExtended(g: Geometry, v0: Image, f0: uint32, v1: Image, f1: uint32, tree: Tree, d: nat, ch: seq<nat>)
    requires Sound(g, v0, tree) && d in tree.items && d in tree.chains
    requires Extends(g, v0, f0, tree.chains[d], v1, f1, ch)
    ensures g.Wf(|v1|) && Owns(Table(g, v1), tree.chains[d := ch], tree.lost)
  {
    hide Table, IsTree, Owns, NoneBroken, SlotsOf, Shows, SameOthers, Grown, Upkeep, AllZero;
    OwnsGrown(Table(g, v0), Table(g, v1), tree.chains, tree.lost, d, ch);
  }

  lemma TidyExtended(g: Geometry, v0: Image, f0: uint32, v1: Image, f1: uint32, tree: Tree, d: nat, ch: seq<nat>)
    requires Sound(g, v0, tree) && d in tree.items && d in tree.chains && tree.tidy
    requires Extends(g, v0, f0, tree.chains[d], v1, f1, ch)
    ensures g.Wf(|v1|) && Tidy(Table(g, v1), tree.lost)
  {
    hide Table, IsTree, Owns, Tidy, NoneBroken, SlotsOf, Shows, SameOthers, Grown, Upkeep, AllZero;
    OwnsExtended(g, v0, f0, v1, f1, tree, d, ch);
    TidyGrown(Table(g, v0), Table(g, v1), tree.chains[d := ch], tree.lost, d, tree.chains[d], ch);
  }

  lemma ShowsExtended(g: Geometry, v0: Image, f0: uint32, ch0: seq<nat>, v1: Image, f1: uint32, ch1: seq<nat>,
                      items: seq<Item>, marked: bool)
    requires Extends(g, v0, f0, ch0, v1, f1, ch1) && Shows(g, v0, ch0, items, marked)
    ensures Shows(g, v1, ch1, items, marked)
  {
    hide Table, SlotsOf, Extends, WellFormed, Items, IsChain;
    ExtendsFacts(g, v0, f0, ch0, v1, f1, ch1);
    ExtendsEnd(g, v0, f0, ch0, v1, f1, ch1, |SlotsOf(g, v0, ch0)|);
    ItemsExtend(SlotsOf(g, v0, ch0), SlotsOf(g, v1, ch1), 0);
  }

  /** A cluster has been taken from the free ones; it belongs to nobody yet. */
  lemma SoundTaken(g: Geometry, v0: Image, v1: Image, tree: Tree, c: nat)
    requires Sound(g, v0, tree) && g.IsCluster(c) && Table(g, v0)[c] == 0
    requires Mild(g, v0, v1) && |v1| == |v0| && Table(g, v1) == Linked(Table(g, v0), 0, c)
    ensures Sound(g, v1, tree.(lost := tree.lost + {c}))
  {
    hide Table, IsTree, Owns, Tidy, NoneBroken, Mild, Shows, Linked;
    TreeFacts(g, v0, tree);
    DataKept(g, v0, v1);
    if tree.tidy {
      TidyTaken(Table(g, v0), tree.lost, c);
    }
    OwnsTaken(Table(g, v0), tree.chains, tree.lost, c);
    LinkedNoneBroken(Table(g, v0), 0, c);
    TreeChains(g.rootClust, tree, tree.chains, tree.lost + {c});
    forall d | d in tree.items
      ensures Shows(g, v1, tree.chains[d], tree.items[d], tree.marked)
    {
      ShowsFrame(g, v0, v1, [], tree.chains[d], tree.items[d], tree.marked);
    }
  }

  /** Writing to a cluster that belongs to nobody. */
  lemma SoundScratch(g: Geometry, v0: Image, v1: Image, tree: Tree, c: nat)
    requires Sound(g, v0, tree) && c in tree.lost
    requires SameTables(g, v0, v1) && SameOthers(g, v0, v1, [c])
    ensures Sound(g, v1, tree)
  {
    hide Table, IsTree, Owns, Tidy, NoneBroken, Shows, SameTables;
    TreeFacts(g, v0, tree);
    SameTablesFrame(g, v0, v1);
    forall d | d in tree.items
      ensures Shows(g, v1, tree.chains[d], tree.items[d], tree.marked)
    {
      LostApart(Table(g, v0), tree.chains, tree.lost, d, c);
      ShowsFrame(g, v0, v1, [c], tree.chains[d], tree.items[d], tree.marked);
    }
  }

  lemma LostApart(t: FatTable, chains: ChainMap, lost: set<nat>, h: nat, c: nat)
    requires Owns(t, chains, lost) && h in chains && c in lost
    ensures c !in chains[h] && forall x :: x in chains[h] ==> x !in [c]
  {
    if c in chains[h] {
      OwnedInUse(t, chains, lost, h, c);
    }
  }

  // ---------- a new entry ----------

  /** The tree with a new entry in directory `d`, which now lists `list`; `kids` is what the entry lists if it is a
      directory. */
  ghost function Adopted(tree: Tree, d: nat, item: Item, list: seq<Item>, kids: seq<Item>): Tree
    requires d in tree.depth
  {
    var c := Head(item);
    tree.(
      chains := tree.chains[c := [c]],
      items := if IsDir(item) then tree.items[d := list][c := kids] else tree.items[d := list],
      entry := tree.entry[c := Place(d, item.at)],
      depth := tree.depth[c := tree.depth[d] + 1],
      lost := tree.lost - {c})
  }

  /** The list has got one more item. */
  ghost predicate Gained(a: seq<Item>, item: Item, b: seq<Item>) {
    && item in b
    && (forall x :: x in a ==> x in b)
    && (forall x :: x in b && x != item ==> x in a)
  }

  lemma TreeAdopted(root: nat, tree: Tree, d: nat, item: Item, list: seq<Item>, kids: seq<Item>)
    requires IsTree(root, tree) && d in tree.items && Head(item) !in tree.chains && Head(item) != 0
    requires Gained(tree.items[d], item, list) && !IsDot(item) && (d != root ==> Dotted(list))
    requires IsDir(item) ==> Dotted(kids) && forall kid :: kid in kids ==> IsDot(kid)
    ensures d in tree.depth && IsTree(root, Adopted(tree, d, item, list, kids))
  {
    hide Dotted, IsDot, IsDir, Head, Accounted, EntryIn, Gained;
    var after := Adopted(tree, d, item, list, kids);
    forall k, x | k in after.items && x in after.items[k]
      ensures Accounted(after, k, x)
    {
      AdoptedItem(root, tree, d, item, list, kids, k, x);
    }
    forall c | c in after.entry
      ensures EntryIn(after, c)
    {
      AdoptedEntry(root, tree, d, item, list, kids, c);
    }
  }

  lemma AdoptedItem(root: nat, tree: Tree, d: nat, item: Item, list: seq<Item>, kids: seq<Item>, k: nat, x: Item)
    requires IsTree(root, tree) && d in tree.items && Head(item) !in tree.chains && Head(item) != 0
    requires Gained(tree.items[d], item, list)
    requires IsDir(item) ==> forall kid :: kid in kids ==> IsDot(kid)
    requires d in tree.depth && var after := Adopted(tree, d, item, list, kids); k in after.items && x in after.items[k]
    ensures Accounted(Adopted(tree, d, item, list, kids), k, x)
  {
    hide IsDot, IsDir, Head, EntryIn;
    if !(IsDir(item) && k == Head(item)) && x != item {
      assert k in tree.items && x in tree.items[k] && Accounted(tree, k, x);
    }
  }

  lemma AdoptedEntry(root: nat, tree: Tree, d: nat, item: Item, list: seq<Item>, kids: seq<Item>, c: nat)
    requires IsTree(root, tree) && d in tree.items && Head(item) !in tree.chains && Head(item) != 0
    requires Gained(tree.items[d], item, list) && !IsDot(item)
    requires d in tree.depth && c in Adopted(tree, d, item, list, kids).entry
    ensures EntryIn(Adopted(tree, d, item, list, kids), c)
  {
    hide IsDot, IsDir, Head, Accounted;
    if c == Head(item) {
      assert HasEntry(list, item.at, c);
    } else {
      assert EntryIn(tree, c);
      EntryKept(tree, c, d, list);
    }
  }

  lemma EntryKept(tree: Tree, c: nat, d: nat, list: seq<Item>)
    requires c in tree.entry && EntryIn(tree, c) && d in tree.items
    requires forall x :: x in tree.items[d] ==> x in list
    ensures tree.entry[c].dir == d ==> HasEntry(list, tree.entry[c].at, c)
  {
    if tree.entry[c].dir == d {
      var item :| item in tree.items[d] && item.at == tree.entry[c].at && Head(item) == c && !IsDot(item);
      assert item in list;
    }
  }

  /** An entry for a cluster that belonged to nobody has been added to directory `d`. */
  lemma SoundAdopted(g: Geometry, v0: Image, v1: Image, tree: Tree, d: nat, item: Item, list: seq<Item>,
                     kids: seq<Item>)
    requires Sound(g, v0, tree) && d in tree.items && Head(item) in tree.lost && Head(item) < g.clustCnt
    requires Table(g, v0)[Head(item)] == EOC
    requires d in tree.chains && OnlyEdited(g, v0, v1, tree.chains[d])
    requires Gained(tree.items[d], item, list) && !IsDot(item) && (d != g.rootClust ==> Dotted(list))
    requires Shows(g, v1, tree.chains[d], list, tree.marked)
    requires IsDir(item) ==>
               Dotted(kids) && (forall kid :: kid in kids ==> IsDot(kid)) && Shows(g, v1, [Head(item)], kids, true)
    ensures d in tree.depth && Sound(g, v1, Adopted(tree, d, item, list, kids))
  {
    hide Table, IsTree, Owns, Tidy, NoneBroken, Shows, SameTables, Dotted, IsDot, IsDir, Gained;
    var c, t := Head(item), Table(g, v0);
    TreeFacts(g, v0, tree);
    SameTablesFrame(g, v0, v1);
    if tree.tidy {
      TidyLess(t, tree.lost, tree.lost - {c});
    }
    OwnsAdopted(t, tree.chains, tree.lost, c);
    LostClusters(t, tree.chains, tree.lost, c);
    TreeAdopted(g.rootClust, tree, d, item, list, kids);
    if IsDir(item) {
      ShowsUnmarked(g, v1, [c], kids, tree.marked);
    }
    forall k | k in tree.items && k != d
      ensures Shows(g, v1, tree.chains[k], tree.items[k], tree.marked)
    {
      ChainsApart(t, tree.chains, tree.lost, k, d);
      ShowsFrame(g, v0, v1, tree.chains[d], tree.chains[k], tree.items[k], tree.marked);
    }
  }

  lemma LostClusters(t: FatTable, chains: ChainMap, lost: set<nat>, c: nat)
    requires Owns(t, chains, lost) && c in lost
    ensures 2 <= c < |t| && t[c] != 0
  {
  }

  // ---------- a removed entry ----------

  /** The tree without an entry of directory `d`, which now lists `list`. */
  ghost function Removed(tree: Tree, d: nat, item: Item, list: seq<Item>): Tree {
    var c := Head(item);
    if c == 0 then tree.(items := tree.items[d := list])
    else tree.(
      chains := tree.chains - {c},
      items := (tree.items - {c})[d := list],
      entry := tree.entry - {c},
      depth := tree.depth - {c})
  }

  /** The list has lost this item; no other is at its place, and a search that did not find it ends as before. */
  ghost predicate Dropped(a: seq<Item>, item: Item, b: seq<Item>) {
    && (forall x :: x in a && x != item ==> x in b)
    && (forall x :: x in b ==> x in a && x.at != item.at)
    && (forall name :: Find(a, name) != Hit(item) ==> Find(b, name) == Find(a, name))
  }

  /** A removed directory lists dot entries only, so no entry loses its directory. */
  lemma TreeRemoved(root: nat, tree: Tree, d: nat, item: Item, list: seq<Item>)
    requires IsTree(root, tree) && 0 !in tree.chains && d in tree.items && item in tree.items[d] && !IsDot(item)
    requires Dropped(tree.items[d], item, list) && (d != root ==> Dotted(list))
    requires Head(item) in tree.items ==> forall kid :: kid in tree.items[Head(item)] ==> IsDot(kid)
    ensures Head(item) != d && Head(item) != root && (Head(item) != 0 ==> Head(item) in tree.entry)
    ensures IsTree(root, Removed(tree, d, item, list))
  {
    hide Dotted, IsDot, IsDir, Head, EntryIn, Dropped;
    var c, after := Head(item), Removed(tree, d, item, list);
    assert Accounted(tree, d, item);
    RemovedHead(root, tree, d, item);
    forall k, x | k in after.items && x in after.items[k]
      ensures Accounted(after, k, x)
    {
      RemovedItem(root, tree, d, item, list, k, x);
    }
    forall x | x in after.entry
      ensures EntryIn(after, x)
    {
      RemovedEntry(root, tree, d, item, list, x);
    }
  }

  /** A listed item that has clusters is their one entry; it names neither the root nor its own directory. */
  lemma RemovedHead(root: nat, tree: Tree, d: nat, item: Item)
    requires IsTree(root, tree) && 0 !in tree.chains && d in tree.items && item in tree.items[d] && !IsDot(item)
    ensures Head(item) != d && Head(item) != root
    ensures (Head(item) == 0 && !IsDir(item)) || Registered(tree, d, item)
  {
    hide Dotted, IsDot, IsDir, Head;
    assert Accounted(tree, d, item);
    if Registered(tree, d, item) {
      assert EntryIn(tree, Head(item));
    }
  }

  lemma RemovedItem(root: nat, tree: Tree, d: nat, item: Item, list: seq<Item>, k: nat, x: Item)
    requires IsTree(root, tree) && 0 !in tree.chains && d in tree.items && item in tree.items[d] && !IsDot(item)
    requires Dropped(tree.items[d], item, list)
    requires var after := Removed(tree, d, item, list); k in after.items && x in after.items[k]
    ensures Accounted(Removed(tree, d, item, list), k, x)
  {
    hide IsDot, IsDir, Head, EntryIn;
    assert k in tree.items && x in tree.items[k] && Accounted(tree, k, x);
    RemovedHead(root, tree, d, item);
  }

  lemma RemovedEntry(root: nat, tree: Tree, d: nat, item: Item, list: seq<Item>, c: nat)
    requires IsTree(root, tree) && 0 !in tree.chains && d in tree.items && item in tree.items[d] && !IsDot(item)
    requires Dropped(tree.items[d], item, list)
    requires Head(item) in tree.items ==> forall kid :: kid in tree.items[Head(item)] ==> IsDot(kid)
    requires c in Removed(tree, d, item, list).entry
    ensures EntryIn(Removed(tree, d, item, list), c)
  {
    hide IsDot, IsDir, Head, Accounted, Dotted, Dropped, HasEntry;
    assert EntryIn(tree, c);
    RemovedHead(root, tree, d, item);
    var p := tree.entry[c];
    EntryStays(tree.items[p.dir], item, list, p, c, d);
  }

  /** An entry for another cluster has not been dropped, and is not in a directory that lists dot entries only. */
  lemma EntryStays(items: seq<Item>, item: Item, list: seq<Item>, p: Place, c: nat, d: nat)
    requires HasEntry(items, p.at, c) && c != Head(item)
    ensures p.dir == d && Dropped(items, item, list) ==> HasEntry(list, p.at, c)
    ensures exists x :: x in items && !IsDot(x)
  {
    hide IsDot, Head;
  }

  /** The clusters that unlinking an item releases. For an item without clusters this is the reserved entry 0. */
  ghost function Freed(tree: Tree, item: Item): seq<nat> {
    if Head(item) in tree.chains then tree.chains[Head(item)] else [0]
  }

  /** An item's chain has been released and the item has been removed from directory `d`. */
  lemma SoundRemoved(g: Geometry, v0: Image, v1: Image, tree: Tree, d: nat, item: Item, list: seq<Item>)
    requires Sound(g, v0, tree) && d in tree.items && d in tree.chains && item in tree.items[d] && !IsDot(item)
    requires Dropped(tree.items[d], item, list) && (d != g.rootClust ==> Dotted(list))
    requires Head(item) in tree.items ==> forall kid :: kid in tree.items[Head(item)] ==> IsDot(kid)
    requires SameOthers(g, v0, v1, tree.chains[d]) && NoneBroken(Table(g, v1))
    requires Table(g, v1) == Cleared(Table(g, v0), Freed(tree, item))
    requires Shows(g, v1, tree.chains[d], list, tree.marked)
    ensures Sound(g, v1, Removed(tree, d, item, list))
  {
    hide Table, IsTree, Owns, Tidy, NoneBroken, Shows, Dotted, IsDot, IsDir, Dropped;
    var t := Table(g, v0);
    TreeFacts(g, v0, tree);
    NoChainAtZero(t, tree.chains, tree.lost);
    TreeRemoved(g.rootClust, tree, d, item, list);
    if tree.tidy {
      TidyCleared(t, tree.lost, Freed(tree, item));
    }
    OwnsFreed(t, g.rootClust, tree, item);
    forall k | k in tree.items && k != d
      ensures Shows(g, v1, tree.chains[k], tree.items[k], tree.marked)
    {
      ChainsApart(t, tree.chains, tree.lost, k, d);
      ShowsFrame(g, v0, v1, tree.chains[d], tree.chains[k], tree.items[k], tree.marked);
    }
  }

  lemma NoChainAtZero(t: FatTable, chains: ChainMap, lost: set<nat>)
    requires Owns(t, chains, lost)
    ensures 0 !in chains && 0 < |t| && KindAt(t, 0) != Used
  {
  }

  lemma OwnsFreed(t: FatTable, root: nat, tree: Tree, item: Item)
    requires Owns(t, tree.chains, tree.lost) && IsTree(root, tree) && (Head(item) == 0 || Head(item) in tree.entry)
    ensures Owns(Cleared(t, Freed(tree, item)),
                 if Head(item) == 0 then tree.chains else tree.chains - {Head(item)}, tree.lost)
  {
    hide Owns, Accounted, EntryIn, Dotted;
    NoChainAtZero(t, tree.chains, tree.lost);
    if Head(item) == 0 {
      ClearedFree(t, [0], 0);
      OwnsReserved(t, Cleared(t, [0]), tree.chains, tree.lost);
    } else {
      OwnsReleased(t, tree.chains, tree.lost, Head(item));
    }
  }

  // ---------- a changed entry ----------

  /** An item has been replaced by one of the same name, place and cluster; a search finds the one for the other. */
  ghost predicate Exchanged(a: seq<Item>, item: Item, item': Item, b: seq<Item>) {
    && item in a && item' in b
    && item'.at == item.at && Head(item') == Head(item) && (IsDot(item') <==> IsDot(item))
    && (IsDir(item') <==> IsDir(item))
    && (forall x :: x in a && x != item ==> x in b)
    && (forall x :: x in b && x != item' ==> x in a)
    && (forall name :: Find(b, name) == if Find(a, name) == Hit(item) then Hit(item') else Find(a, name))
  }

  lemma TreeExchanged(root: nat, tree: Tree, d: nat, item: Item, item': Item, list: seq<Item>)
    requires IsTree(root, tree) && d in tree.items && Exchanged(tree.items[d], item, item', list)
    requires d != root ==> Dotted(list)
    ensures IsTree(root, tree.(items := tree.items[d := list]))
  {
    hide Dotted, IsDot, IsDir, Head;
    var after := tree.(items := tree.items[d := list]);
    forall k, x | k in after.items && x in after.items[k]
      ensures Accounted(after, k, x)
    {
      assert Accounted(tree, k, if k == d && x == item' then item else x);
    }
    forall c | c in after.entry
      ensures EntryIn(after, c)
    {
      assert EntryIn(tree, c);
      var p := tree.entry[c];
      var x :| x in tree.items[p.dir] && x.at == p.at && Head(x) == c && !IsDot(x);
      if p.dir == d {
        var y := if x == item then item' else x;
        assert y in list && y.at == p.at && Head(y) == c && !IsDot(y);
      }
    }
  }

  /** An entry of directory `d` has been updated in place. */
  lemma SoundExchanged(g: Geometry, v0: Image, v1: Image, tree: Tree, d: nat, item: Item, item': Item, list: seq<Item>)
    requires Sound(g, v0, tree) && d in tree.items && d in tree.chains && Exchanged(tree.items[d], item, item', list)
    requires OnlyEdited(g, v0, v1, tree.chains[d]) && Shows(g, v1, tree.chains[d], list, tree.marked)
    requires d != g.rootClust ==> Dotted(list)
    ensures Sound(g, v1, tree.(items := tree.items[d := list]))
  {
    hide Table, IsTree, Owns, Tidy, NoneBroken, Shows, SameTables, Dotted, Exchanged;
    TreeFacts(g, v0, tree);
    SameTablesFrame(g, v0, v1);
    TreeExchanged(g.rootClust, tree, d, item, item', list);
    forall k | k in tree.items && k != d
      ensures Shows(g, v1, tree.chains[k], tree.items[k], tree.marked)
    {
      ChainsApart(Table(g, v0), tree.chains, tree.lost, k, d);
      ShowsFrame(g, v0, v1, tree.chains[d], tree.chains[k], tree.items[k], tree.marked);
    }
  }

  // ---------- files ----------

  /** A file has been read, written or positioned; its chain may have grown. */
  lemma SoundEvolved(g: Geometry, v0: Image, f0: uint32, v1: Image, f1: uint32, tree: Tree, c: nat, ch: seq<nat>)
    requires Sound(g, v0, tree) && c in tree.chains && c !in tree.items
    requires Evolved(g, v0, f0, tree.chains[c], v1, f1, ch)
    ensures Sound(g, v1, tree.(chains := tree.chains[c := ch]))
  {
    hide Table, IsTree, Owns, Tidy, NoneBroken, IsFile, Shows, SameOthers, Upkeep, Grown, FreeOnDevice;
    var chains := tree.chains[c := ch];
    TreeFacts(g, v0, tree);
    EvolvedFacts(g, v0, f0, tree.chains[c], v1, f1, ch);
    TreeChains(g.rootClust, tree, chains, tree.lost);
    OwnsGrown(Table(g, v0), Table(g, v1), tree.chains, tree.lost, c, ch);
    if tree.tidy {
      TidyGrown(Table(g, v0), Table(g, v1), chains, tree.lost, c, tree.chains[c], ch);
    }
    forall k | k in tree.items
      ensures Shows(g, v1, chains[k], tree.items[k], tree.marked)
    {
      ChainsApart(Table(g, v1), chains, tree.lost, k, c);
      ShowsFrame(g, v0, v1, ch, tree.chains[k], tree.items[k], tree.marked);
    }
  }

  // ---------- files left alone ----------

  /** The file of this chain holds the same bytes. */
  ghost predicate SameBytes(g: Geometry, a: Image, b: Image, ch: seq<nat>) {
    |a| == |b| && forall x :: x in ch ==> 2 <= x && SameCluster(g, a, b, x)
  }

  /** Every file that is in both trees, but for the one of cluster `c`, has the same chain with the same bytes. */
  ghost predicate SameFiles(g: Geometry, a: Image, t0: Tree, b: Image, t1: Tree, c: nat) {
    forall k :: k in t0.chains && k in t1.chains && k !in t0.items && k != c ==>
      t1.chains[k] == t0.chains[k] && SameBytes(g, a, b, t0.chains[k])
  }

  /** Whatever the size of such a file is, its contents are the same. */
  lemma FileKept(g: Geometry, a: Image, t0: Tree, b: Image, t1: Tree, c: nat, k: nat, n: nat)
    requires SameFiles(g, a, t0, b, t1, c) && k in t0.chains && k in t1.chains && k !in t0.items && k != c
    requires 0 < g.spc && Backed(g, |a|, t0.chains[k]) && n <= Capacity(g, |t0.chains[k]|)
    ensures t1.chains[k] == t0.chains[k] && |b| == |a|
    ensures Content(g, b, t0.chains[k], n) == Content(g, a, t0.chains[k], n)
  {
    hide Capacity;
    ContentStays(g, a, b, t0.chains[k], n);
  }

  lemma ContentStays(g: Geometry, a: Image, b: Image, ch: seq<nat>, n: nat)
    requires SameBytes(g, a, b, ch) && 0 < g.spc && Backed(g, |a|, ch) && n <= Capacity(g, |ch|)
    ensures |b| == |a| && Content(g, b, ch, n) == Content(g, a, ch, n)
  {
    hide Capacity;
    forall i | 0 <= i < n
      ensures ByteAt(g, b, ch, i) == ByteAt(g, a, ch, i)
    {
      CapacityIff(g, |ch|, i);
      SameSector(g, a, b, ch, i / SECTOR_SIZE);
    }
  }

  lemma SameSector(g: Geometry, a: Image, b: Image, ch: seq<nat>, q: nat)
    requires 0 < g.spc && Backed(g, |a|, ch) && Row(g, q) < |ch| && SameBytes(g, a, b, ch)
    ensures 2 <= ch[Row(g, q)] && SectAt(g, ch, q) < |a| && a[SectAt(g, ch, q)] == b[SectAt(g, ch, q)]
  {
    hide Row, Geometry.ClustToSect;
    SectAtBounds(g, |a|, ch, q);
    assert SameCluster(g, a, b, ch[Row(g, q)]);
  }

  lemma SameFilesRefl(g: Geometry, img: Image, tree: Tree, c: nat)
    requires Sound(g, img, tree)
    ensures SameFiles(g, img, tree, img, tree, c)
  {
    hide Sound;
    forall k | k in tree.chains
      ensures forall x :: x in tree.chains[k] ==> 2 <= x
    {
      ChainAlone(g, img, tree, k);
    }
  }

  lemma SameFilesBut(g: Geometry, a: Image, t0: Tree, b: Image, t1: Tree, c: nat)
    requires Sound(g, a, t0) && SameFiles(g, a, t0, b, t1, 0)
    ensures SameFiles(g, a, t0, b, t1, c)
  {
    hide Sound, SameBytes;
    TreeFacts(g, a, t0);
  }

  lemma SameFilesTrans(g: Geometry, a: Image, t0: Tree, b: Image, t1: Tree, d: Image, t2: Tree, c: nat)
    requires SameFiles(g, a, t0, b, t1, c) && SameFiles(g, b, t1, d, t2, c)
    requires forall k :: k in t0.chains && k in t2.chains && k !in t0.items && k != c ==>
               k in t1.chains && k !in t1.items
    ensures SameFiles(g, a, t0, d, t2, c)
  {
  }

  /** In between, no chain has been released. */
  lemma SameFilesOn(g: Geometry, a: Image, t0: Tree, b: Image, t1: Tree, d: Image, t2: Tree)
    requires SameFiles(g, a, t0, b, t1, 0) && SameFiles(g, b, t1, d, t2, 0)
    requires t0.chains.Keys <= t1.chains.Keys && t1.items.Keys == t0.items.Keys
    ensures SameFiles(g, a, t0, d, t2, 0)
  {
    hide SameBytes;
    SameFilesTrans(g, a, t0, b, t1, d, t2, 0);
  }

  /** Data has changed in the clusters `cs` only, which are no file's. */
  lemma SameFilesOthers(g: Geometry, a: Image, t0: Tree, b: Image, t1: Tree, c: nat, cs: seq<nat>)
    requires SameOthers(g, a, b, cs)
    requires forall k :: k in t0.chains && k in t1.chains && k !in t0.items && k != c ==>
               t1.chains[k] == t0.chains[k] && forall x :: x in t0.chains[k] ==> 2 <= x && x !in cs
    ensures SameFiles(g, a, t0, b, t1, c)
  {
    forall k | k in t0.chains && k in t1.chains && k !in t0.items && k != c
      ensures SameBytes(g, a, b, t0.chains[k])
    {
      forall x | x in t0.chains[k]
        ensures 2 <= x && SameCluster(g, a, b, x)
      {
        OtherCluster(g, a, b, cs, x);
      }
    }
  }

  /** The clusters of a chain are cluster numbers, and are in no other chain. */
  lemma ChainAlone(g: Geometry, img: Image, tree: Tree, k: nat)
    requires Sound(g, img, tree) && k in tree.chains
    ensures forall x :: x in tree.chains[k] ==> 2 <= x
    ensures forall h, x :: h in tree.chains && h != k && x in tree.chains[k] ==> x !in tree.chains[h]
    ensures forall x :: x in tree.chains[k] ==> x !in tree.lost
  {
    hide Table, NoneBroken, IsTree, Shows, Tidy;
    ChainClusters(Table(g, img), tree.chains[k]);
    assert forall x :: x in tree.chains[k] ==> Owned(tree.chains, x);
  }

  /** No data has changed. */
  lemma SameFilesMild(g: Geometry, a: Image, t0: Tree, b: Image, t1: Tree)
    requires Sound(g, a, t0) && g.Wf(|a|) && Mild(g, a, b)
    requires forall k :: k in t0.chains && k in t1.chains && k !in t0.items ==> t1.chains[k] == t0.chains[k]
    ensures SameFiles(g, a, t0, b, t1, 0)
  {
    hide Table, NoneBroken, IsTree, Shows, Tidy, Owns, Mild, Sound;
    DataKept(g, a, b);
    forall k | k in t0.chains
      ensures forall x :: x in t0.chains[k] ==> 2 <= x
    {
      ChainAlone(g, a, t0, k);
    }
    SameFilesOthers(g, a, t0, b, t1, 0, []);
  }

  /** A change in the clusters of one directory or of one file, as they are in the later tree. */
  lemma SameFilesInChain(g: Geometry, a: Image, t0: Tree, b: Image, t1: Tree, c: nat, h: nat)
    requires Sound(g, b, t1) && h in t1.chains && SameOthers(g, a, b, t1.chains[h]) && (h in t0.items || h == c)
    requires forall k :: k in t0.chains && k in t1.chains && k !in t0.items && k != c ==> t1.chains[k] == t0.chains[k]
    ensures SameFiles(g, a, t0, b, t1, c)
  {
    hide Table, NoneBroken, IsTree, Shows, Tidy, Owns, Sound;
    forall k | k in t0.chains && k in t1.chains && k !in t0.items && k != c
      ensures forall x :: x in t0.chains[k] ==> 2 <= x && x !in t1.chains[h]
    {
      ChainAlone(g, b, t1, k);
    }
    SameFilesOthers(g, a, t0, b, t1, c, t1.chains[h]);
  }

  /** A change in a cluster that belongs to nobody. */
  lemma SameFilesScratch(g: Geometry, a: Image, b: Image, tree: Tree, c: nat)
    requires Sound(g, a, tree) && c in tree.lost && SameOthers(g, a, b, [c])
    ensures SameFiles(g, a, tree, b, tree, 0)
  {
    hide Table, NoneBroken, IsTree, Shows, Tidy, Owns, Sound;
    forall k | k in tree.chains
      ensures forall x :: x in tree.chains[k] ==> 2 <= x && x !in [c]
    {
      ChainAlone(g, a, tree, k);
    }
    SameFilesOthers(g, a, tree, b, tree, 0, [c]);
  }

  // ---------- dot entries ----------

  /** If the first item listed from `p` on is at `p`, it fills that slot. */
  lemma ItemInSlot(slots: seq<Slot>, p: nat)
    requires p <= |slots| && WellFormed(slots, p)
    requires Items(slots, p) != [] && Items(slots, p)[0].at == p
    ensures p < |slots| && !IsFree(slots[p]) && CanStep(slots, p) && After(slots, p) == p + 1
    ensures WellFormed(slots, p + 1) && Items(slots, p) == [Items(slots, p)[0]] + Items(slots, p + 1)
  {
    hide GroupOk, GroupName;
    if IsFree(slots[p]) {
      ItemsFrom(slots, p + 1);
    }
  }

  /** The dot entries of a directory are in its first two slots. */
  lemma DotSlots(slots: seq<Slot>)
    requires WellFormed(slots, 0) && Dotted(Items(slots, 0))
    ensures 2 <= |slots| && !IsFree(slots[0]) && !IsFree(slots[1])
    ensures CanStep(slots, 0) && After(slots, 0) == 1 && CanStep(slots, 1) && After(slots, 1) == 2
    ensures WellFormed(slots, 2) && Items(slots, 0) == Items(slots, 0)[..2] + Items(slots, 2)
  {
    hide GroupOk, GroupName, Items, WellFormed, CanStep, After, IsDot;
    ItemInSlot(slots, 0);
    ItemInSlot(slots, 1);
  }

  /** Parsing past the dot entries lists them first. */
  lemma DotsBefore(slots: seq<Slot>, s: nat)
    requires WellFormed(slots, 0) && Dotted(Items(slots, 0)) && Reaches(slots, 0, s) && s != 0 && s != 1
    ensures 2 <= |Before(slots, 0, s)| && Before(slots, 0, s)[..2] == Items(slots, 0)[..2]
  {
    hide GroupOk, GroupName, IsDot, ItemAt;
    DotSlots(slots);
    assert Items(slots, 0) == Here(slots, 0) + (Here(slots, 1) + Items(slots, 2));
    assert Before(slots, 0, s) == Here(slots, 0) + (Here(slots, 1) + Before(slots, 2, s));
  }

  lemma DottedPrefix(a: seq<Item>, b: seq<Item>)
    requires Dotted(a) && 2 <= |b| && b[..2] == a[..2]
    ensures Dotted(b)
  {
    assert a[0] == a[..2][0] && a[1] == a[..2][1] && b[0] == b[..2][0] && b[1] == b[..2][1];
  }

  /** What adding an entry means for the items of a directory. */
  lemma ListGained(a: seq<Slot>, s: nat, name: Name, n: nat, sfn: Slot, eod: bool)
    requires Storable(name) && n == LfnCount(|name|) && s + n + 1 < |a| && sfn[..11] == SfnName(name) && !IsLfn(sfn)
    requires WellFormed(a, 0) && Scanned(a, s + n + 1, n + 1, eod)
    ensures var b := WithEntry(a, s, name, n, sfn, eod);
            && WellFormed(b, 0) && Gained(Items(a, 0), NewItem(s, name, n, sfn), Items(b, 0))
            && (Dotted(Items(a, 0)) ==> Dotted(Items(b, 0)))
  {
    hide WithEntry, GroupOk, SfnName, LfnCount, WellFormed, Items, Before, Reaches, Scanned, Sits, Dotted, ItemAt,
         Parses;
    EntryAdded(a, s, name, n, sfn, eod);
    var b, item := WithEntry(a, s, name, n, sfn, eod), NewItem(s, name, n, sfn);
    var before, after := Before(a, 0, s), Items(a, s);
    if Dotted(Items(a, 0)) {
      DotSlots(a);
      AddedFree(a, b, s, s + n + 1, eod);
      DotsBefore(a, s);
      assert (before + [item] + after)[..2] == before[..2];
      DottedPrefix(Items(a, 0), Items(b, 0));
    }
  }

  lemma AddedFree(a: seq<Slot>, b: seq<Slot>, s: nat, e: nat, eod: bool)
    requires Added(a, b, s, e, eod)
    ensures IsFree(a[s])
  {
  }

  /** What removing an entry means for the items of a directory. */
  lemma ListDropped(a: seq<Slot>, b: seq<Slot>, item: Item)
    requires WellFormed(a, 0) && item in Items(a, 0) && !IsDot(item)
    requires MarkedFree(a, b, item.start, item.at + 1)
    ensures WellFormed(b, 0) && Dropped(Items(a, 0), item, Items(b, 0))
    ensures Dotted(Items(a, 0)) ==> Dotted(Items(b, 0))
  {
    hide GroupOk, WellFormed, Items, Before, Reaches, MarkedFree, Dotted, ItemAt, Parses, IsDot;
    ItemSits(a, 0, item);
    RemovedItems(a, b, item);
    BeforeTo(a, 0, item.start);
    ItemsFrom(a, item.at + 1);
    var before, after := Before(a, 0, item.start), Items(a, item.at + 1);
    forall name | Find(before + [item] + after, name) != Hit(item)
      ensures Find(before + after, name) == Find(before + [item] + after, name)
    {
      FindWithout(before, item, after, name);
    }
    if Dotted(Items(a, 0)) {
      NotADot(a, item);
      DotsBefore(a, item.start);
      assert (before + after)[..2] == before[..2];
      DottedPrefix(Items(a, 0), Items(b, 0));
    }
  }

  /** What updating an entry means for the items of a directory. */
  lemma ListExchanged(a: seq<Slot>, item: Item, s: Slot)
    requires WellFormed(a, 0) && item in Items(a, 0) && !IsDot(item) && SameName(item.sfn, s)
    requires ClusterOf(s) == Head(item) && (HasBit(s[ATTR_AT], 4) <==> IsDir(item))
    ensures item.at < |a| && WellFormed(a[item.at := s], 0)
    ensures var b := Items(a[item.at := s], 0);
            Exchanged(Items(a, 0), item, item.(sfn := s), b) && (Dotted(Items(a, 0)) ==> Dotted(b))
  {
    hide GroupOk, WellFormed, Items, Before, Reaches, Dotted, ItemAt, Parses, ClusterOf;
    ItemReplaced(a, item, s);
    assert item.sfn[..11][0] == item.sfn[0] && s[..11][0] == s[0];
    var before, after := Before(a, 0, item.start), Items(a, item.at + 1);
    BeforeTo(a, 0, item.start);
    forall name
      ensures Find(before + [item.(sfn := s)] + after, name) ==
              if Find(before + [item] + after, name) == Hit(item) then Hit(item.(sfn := s))
              else Find(before + [item] + after, name)
    {
      FindReplaced(before, item, item.(sfn := s), after, name);
    }
    if Dotted(Items(a, 0)) {
      NotADot(a, item);
      DotsBefore(a, item.start);
      assert (before + [item.(sfn := s)] + after)[..2] == before[..2];
      DottedPrefix(Items(a, 0), Items(a[item.at := s], 0));
    }
  }

  lemma NotADot(slots: seq<Slot>, item: Item)
    requires WellFormed(slots, 0) && Dotted(Items(slots, 0)) && Sits(slots, 0, item) && !IsDot(item)
    ensures item.start != 0 && item.start != 1
  {
    hide GroupOk, GroupName, IsDot;
    ItemInSlot(slots, 0);
    ItemInSlot(slots, 1);
  }
}
