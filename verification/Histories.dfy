/** Whole runs on a volume: whatever is created, written and removed, the volume stays a tree that owns its clusters. */
module Histories {
  import opened Bytes
  import opened Layout
  import opened Chains
  import opened Clusters
  import opened Names
  import opened LongNames
  import opened Listing
  import opened Volume
  import opened Directory
  import opened Dots
  import opened Blank
  import opened BlockDevice
  import opened Owners
  import opened Tree
  import opened Paths
  import opened FileData
  import opened Files
  import opened FileSystem
  import opened OpenFiles
  import opened Sessions

  /** The allocator will not hand out a cluster that the device does not have, and sizes fit their chains. */
  ghost predicate Roomy(g: Geometry, n: nat, tree: Tree) {
    && n <= NO_SECT
    && (forall c :: 2 <= c < g.clustCnt && g.ClustToSect(c) + g.spc > n ==> c in tree.lost)
    && forall d, item :: d in tree.items && item in tree.items[d] ==> SizeFits(g, tree, item)
  }

  ghost predicate SizeFits(g: Geometry, tree: Tree, item: Item) {
    !IsDot(item) && SizeOf(item.sfn) != 0 ==>
      && !IsDir(item) && Head(item) in tree.chains
      && SizeOf(item.sfn) <= Capacity(g, |tree.chains[Head(item)]|)
  }

  /** Every entry has clusters, as every entry that this driver makes has. */
  ghost predicate Clustered(tree: Tree) {
    forall d, item :: d in tree.items && item in tree.items[d] ==> IsDot(item) || Head(item) != 0
  }

  /** Directories have end marks, lost clusters no links, and entries clusters, if they did before. */
  ghost predicate SameTraits(tree: Tree, tree': Tree) {
    tree'.marked == tree.marked && tree'.tidy == tree.tidy && (Clustered(tree) ==> Clustered(tree'))
  }

  /** Then every chain is on the device. */
  lemma ChainOnDevice(g: Geometry, img: Image, tree: Tree, c: nat)
    requires Sound(g, img, tree) && Roomy(g, |img|, tree) && c in tree.chains
    ensures Backed(g, |img|, tree.chains[c])
  {
    hide NoneBroken, IsTree, Shows, Table, Geometry.ClustToSect, SizeFits;
    var ch := tree.chains[c];
    ChainClusters(Table(g, img), ch);
    forall i | 0 <= i < |ch|
      ensures 2 <= ch[i] && g.ClustToSect(ch[i]) + g.spc <= |img|
    {
      assert ch[i] in ch && Owned(tree.chains, ch[i]);
    }
  }

  /** And files can be opened. */
  lemma RoomyMeansSized(g: Geometry, img: Image, tree: Tree)
    requires Sound(g, img, tree) && Roomy(g, |img|, tree)
    ensures g.Wf(|img|) && Sized(g, img, tree)
  {
    hide NoneBroken, IsTree, Shows, Table, Geometry.ClustToSect, Capacity, IsDot, IsDir, Backed;
    forall d, item | d in tree.items && item in tree.items[d]
      ensures Fits(g, |img|, tree, item)
    {
      assert SizeFits(g, tree, item);
      if Head(item) in tree.chains {
        ChainOnDevice(g, img, tree, Head(item));
      }
    }
  }

  lemma RoomyLengthened(g: Geometry, n: nat, tree: Tree, tree': Tree, c: nat, ch: seq<nat>)
    requires Roomy(g, n, tree) && Lengthened(tree, tree', c, ch)
    ensures Roomy(g, n, tree') && SameTraits(tree, tree')
  {
    hide Capacity, IsDot, IsDir, Head, Geometry.ClustToSect;
    forall d, item | d in tree'.items && item in tree'.items[d]
      ensures SizeFits(g, tree', item)
    {
      assert SizeFits(g, tree, item);
      CapacityMono(g, |tree.chains[c]|, |ch|);
    }
  }

  /** What an entry of a file names: nothing, or a chain that is no directory's. */
  lemma FileChain(root: nat, tree: Tree, d: nat, item: Item)
    requires IsTree(root, tree) && d in tree.items && item in tree.items[d] && !IsDot(item) && !IsDir(item)
    requires 0 !in tree.chains
    ensures Head(item) == 0 || (Head(item) in tree.chains && Head(item) !in tree.items)
  {
    hide IsDot, IsDir, Head, EntryIn, Dotted;
    assert Accounted(tree, d, item);
  }

  lemma RoomyCreated(g: Geometry, n: nat, tree: Tree, tree': Tree, d: nat, ch: seq<nat>, name: Name, item: Item,
                     kids: seq<Item>)
    requires Roomy(g, n, tree) && IsTree(g.rootClust, tree) && 0 !in tree.chains && 0 !in tree'.chains
    requires Created(tree, tree', d, ch, name, item, kids) && Unowned(tree, Head(item))
    requires SizeOf(item.sfn) == 0 && forall kid :: kid in kids ==> IsDot(kid)
    ensures Roomy(g, n, tree') && SameTraits(tree, tree')
  {
    hide Capacity, IsDot, IsDir, Head, Geometry.ClustToSect, IsTree, Find;
    forall k, x | k in tree'.items && x in tree'.items[k] && x != item && !IsDot(x)
      ensures k in tree.items && x in tree.items[k] && SizeFits(g, tree', x)
    {
      assert SizeFits(g, tree, x);
      if SizeOf(x.sfn) != 0 {
        FileChain(g.rootClust, tree, k, x);
      }
    }
  }

  lemma RoomyLeaked(g: Geometry, n: nat, t: FatTable, tree: Tree, tree': Tree, d: nat, c: nat)
    requires Roomy(g, n, tree) && IsTree(g.rootClust, tree) && 0 !in tree.chains && d in tree.items
    requires d in tree.chains && d in tree'.chains && Leaked(t, tree, tree', d, c)
    ensures Roomy(g, n, tree') && SameTraits(tree, tree')
  {
    hide Capacity, IsDot, IsDir, Head, Geometry.ClustToSect, IsTree;
    forall k, x | k in tree'.items && x in tree'.items[k]
      ensures SizeFits(g, tree', x)
    {
      assert SizeFits(g, tree, x);
      if !IsDot(x) && SizeOf(x.sfn) != 0 {
        FileChain(g.rootClust, tree, k, x);
      }
    }
  }

  lemma RoomyNotCreated(fs: FileSystem, t: FatTable, full: bool, name: Name, err: int, tree: Tree, d: nat)
    requires Roomy(fs.fat.geo, |fs.fat.view|, tree) && IsTree(fs.fat.geo.rootClust, tree) && 0 !in tree.chains
    requires d in tree.items
    requires NotCreated(fs.fat.geo, fs.fat.view, fs.fat.lastUsed, t, full, name, err, tree, fs.tree, d)
    ensures Roomy(fs.fat.geo, |fs.fat.view|, fs.tree) && SameTraits(tree, fs.tree)
  {
    hide Roomy, IsTree, Clustered, Leaked, Crowded, LfnCount;
    if !full {
      var c: nat :| Leaked(t, tree, fs.tree, d, c);
      RoomyLeaked(fs.fat.geo, |fs.fat.view|, t, tree, fs.tree, d, c);
    }
  }

  /** Different entries name different chains. */
  lemma OneEntry(root: nat, tree: Tree, d: nat, x: Item, k: nat, y: Item)
    requires IsTree(root, tree) && 0 !in tree.chains
    requires d in tree.items && x in tree.items[d] && !IsDot(x) && k in tree.items && y in tree.items[k] && !IsDot(y)
    requires Head(x) == Head(y) != 0
    ensures k == d && x.at == y.at
  {
    hide IsDot, IsDir, Head, EntryIn, Dotted;
    assert Accounted(tree, d, x) && Accounted(tree, k, y);
  }

  lemma RoomyUnlinked(g: Geometry, n: nat, tree: Tree, tree': Tree, d: nat, item: Item)
    requires Roomy(g, n, tree) && IsTree(g.rootClust, tree) && 0 !in tree.chains
    requires Unlinked(tree, tree', d, item) && item in tree.items[d] && !IsDot(item)
    ensures Roomy(g, n, tree') && SameTraits(tree, tree')
  {
    hide Capacity, IsDot, IsDir, Head, Geometry.ClustToSect, IsTree;
    forall k, x | k in tree'.items && x in tree'.items[k]
      ensures k in tree.items && x in tree.items[k] && SizeFits(g, tree', x)
    {
      assert SizeFits(g, tree, x);
      if !IsDot(x) && Head(x) == Head(item) != 0 {
        OneEntry(g.rootClust, tree, k, x, d, item);
      }
    }
  }

  lemma RoomyReentered(g: Geometry, n: nat, tree: Tree, tree': Tree, d: nat, item: Item, entry: Item)
    requires Roomy(g, n, tree) && Reentered(tree, tree', d, item, entry) && item in tree.items[d] && !IsDot(item)
    requires SizeOf(entry.sfn) != 0 ==>
               && !IsDir(item) && Head(item) in tree.chains
               && SizeOf(entry.sfn) <= Capacity(g, |tree.chains[Head(item)]|)
    ensures Roomy(g, n, tree') && SameTraits(tree, tree')
  {
    hide Capacity, IsDot, IsDir, Head, Geometry.ClustToSect, SizeOf;
    forall k, x | k in tree'.items && x in tree'.items[k]
      ensures SizeFits(g, tree', x) && (Clustered(tree) ==> IsDot(x) || Head(x) != 0)
    {
      assert SizeFits(g, tree, item);
      if x != entry || k != d {
        assert SizeFits(g, tree, x);
      }
    }
  }

  lemma RoomyWorked(g: Geometry, n: nat, tree: Tree, tree': Tree, c: nat, d: nat, item: Item, entry: Item)
    requires Roomy(g, n, tree) && Worked(tree, tree', c, d, item, entry) && item in tree.items[d] && !IsDot(item)
    requires Head(item) == c && !IsDir(item) && SizeOf(entry.sfn) <= Capacity(g, |tree'.chains[c]|)
    ensures Roomy(g, n, tree') && SameTraits(tree, tree')
  {
    hide Capacity, IsDot, IsDir, Head, Roomy, SizeOf, Exchanged, Clustered;
    var t := tree.(chains := tree.chains[c := tree'.chains[c]]);
    RoomyLengthened(g, n, tree, t, c, tree'.chains[c]);
    RoomyReentered(g, n, t, tree', d, item, entry);
  }

  // ---------- what commands do ----------

  datatype Command =
    | MakeDirectory(path: Name, stamp: Stamp)
    | Remove(path: Name)
    | Use(path: Name, mode: Mode, ops: seq<Op>, from: Stamp, to: Stamp)

  /** A volume between two commands: its logical disk, the device, what it holds, and where the allocator has come
      to. */
  datatype Scene = Scene(img: Image, device: Image, tree: Tree, lastUsed: nat)

  /** The use of a file: the tree when it was open and its bytes then, how far the operations have come, and its entry
      and its bytes when it was closed. */
  datatype Usage = Usage(
    begun: Tree, initial: seq<byte>, done: nat, k: nat, outs: seq<seq<byte>>, last: seq<byte>, entry: Item,
    contents: seq<byte>)

  /** What has happened: how the command has ended, the scenes before and after it, the entry and its directory, how the
      entry was used, and the cluster of the file that may have been written to, or 0. */
  datatype Event =
    Event(before: Scene, err: int, dir: nat, item: Item, use: Usage, touched: nat, after: Scene)

  /** The event is one of this command: what it has done is what its outcome says, and the files that it does not name
      have the same chains with the same bytes. */
  ghost predicate Happened(g: Geometry, volume: Name, cmd: Command, e: Event) {
    && Sound(g, e.before.img, e.before.tree) && Sound(g, e.after.img, e.after.tree)
    && SameFiles(g, e.before.img, e.before.tree, e.after.img, e.after.tree, e.touched)
    && match cmd
       case MakeDirectory(path, stamp) => e.touched == 0 && Made(g, Below(volume, path), stamp, e)
       case Remove(path) => e.touched == 0 && TakenOut(g, Below(volume, path), e)
       case Use(path, mode, ops, _, _) => Handled(g, Below(volume, path), mode, ops, e)
  }

  ghost predicate Unchanged(e: Event, err: int) {
    e.err == err && e.after.tree == e.before.tree && e.touched == 0
  }

  ghost predicate NoFreeCluster(g: Geometry, s: Scene) {
    g.Wf(|s.img|) && NoneLeft(Table(g, s.img), s.lastUsed, 0)
  }

  /** Nothing has been created, for lack of room, or for the length of the name. */
  ghost predicate Refused(g: Geometry, d: nat, name: Name, e: Event) {
    && e.err != ERR_NONE && e.touched == 0 && g.Wf(|e.before.img|)
    && NotCreated(g, e.after.img, e.after.lastUsed, Table(g, e.before.img), NoFreeCluster(g, e.before), name, e.err,
                  e.before.tree, e.after.tree, d)
  }

  /** How `fat_dir_create` ends. */
  ghost predicate Made(g: Geometry, comps: Option<seq<Name>>, stamp: Stamp, e: Event)
    requires IsTree(g.rootClust, e.before.tree)
  {
    match comps
    case None => Unchanged(e, ERR_PATH)
    case Some(names) =>
      match Resolve(g.rootClust, e.before.tree, names)
      case NotDirectory => Unchanged(e, ERR_PATH)
      case NoEntry(d, rest) =>
        if |rest| != 1 then Unchanged(e, ERR_PATH)
        else if e.err != ERR_NONE then Refused(g, d, rest[0], e)
        else
          && Storable(rest[0]) && !NoFreeCluster(g, e.before) && e.after.device == e.after.img
          && e.dir == d && DirMade(g.rootClust, e.before.tree, e.after.tree, d, rest[0], e.item, stamp)
      case _ => Unchanged(e, ERR_NONE)
  }

  /** How `fat_unlink` ends. */
  ghost predicate TakenOut(g: Geometry, comps: Option<seq<Name>>, e: Event)
    requires Sound(g, e.before.img, e.before.tree)
  {
    match comps
    case None => Unchanged(e, ERR_PATH)
    case Some(names) =>
      var r := Resolve(g.rootClust, e.before.tree, names);
      && Listed(e.before.tree, r) && e.err == Verdict(g, e.before.img, e.before.tree, r)
      && if e.err != ERR_NONE then Unchanged(e, e.err) else
           && r == Entry(e.dir, e.item) && e.after.device == e.after.img
           && Unlinked(e.before.tree, e.after.tree, e.dir, e.item)
  }

  /** How a file is used: it is opened, or created first; the operations are run, and it is closed. */
  ghost predicate Handled(g: Geometry, comps: Option<seq<Name>>, mode: Mode, ops: seq<Op>, e: Event)
    requires IsTree(g.rootClust, e.before.tree)
  {
    if e.err != ERR_NONE then NotOpened(g, comps, mode, e) else
      && Opens(g, comps, mode, e.before, e.dir, e.item, e.use) && e.touched == Head(e.item)
      && Closes(g, e.dir, mode, ops, e.item, e.use, e.after)
  }

  /** How it fails to be opened. */
  ghost predicate NotOpened(g: Geometry, comps: Option<seq<Name>>, mode: Mode, e: Event)
    requires IsTree(g.rootClust, e.before.tree)
  {
    match comps
    case None => Unchanged(e, ERR_PATH)
    case Some(names) =>
      match Resolve(g.rootClust, e.before.tree, names)
      case TheRoot => false
      case NotDirectory => Unchanged(e, ERR_PATH)
      case Entry(d, item) =>
        e.err == ERR_FULL && e.dir == d && e.item == item && e.touched == Head(item) && Brims(g, mode, item, e)
      case NoEntry(d, rest) =>
        if !mode.create then Unchanged(e, ERR_DENIED)
        else if |rest| != 1 then Unchanged(e, ERR_PATH)
        else Refused(g, d, rest[0], e)
  }

  /** A file that fills its last cluster cannot be opened for appending if there is no other cluster to be had. */
  ghost predicate Brims(g: Geometry, mode: Mode, item: Item, e: Event) {
    var c := Head(item);
    && mode.append && !mode.trunc && SizeOf(item.sfn) != 0 && c in e.before.tree.chains && g.Wf(|e.before.img|)
    && var ch := e.before.tree.chains[c];
       && ch != [] && SizeOf(item.sfn) == Capacity(g, |ch|)
       && NoneLeft(Table(g, e.before.img), e.before.lastUsed, ch[|ch| - 1])
       && c in e.after.tree.chains && Lengthened(e.before.tree, e.after.tree, c, e.after.tree.chains[c])
  }

  /** A file that is opened has the bytes that its entry gives it, unless it is truncated; or it is new and empty. */
  ghost predicate Opens(g: Geometry, comps: Option<seq<Name>>, mode: Mode, s: Scene, d: nat, item: Item, u: Usage)
    requires IsTree(g.rootClust, s.tree)
  {
    && comps.Some? && IsTree(g.rootClust, u.begun)
    && match Resolve(g.rootClust, s.tree, comps.value)
       case Entry(k, x) =>
         var c, size := Head(item), SizeOf(item.sfn);
         && d == k && item == x
         && if mode.trunc || size == 0 then u.initial == [] && u.begun == s.tree else
              && Holding(g, s.img, s.tree, c, size, u.initial)
              && c in u.begun.chains && Lengthened(s.tree, u.begun, c, u.begun.chains[c])
       case NoEntry(k, rest) =>
         && d == k && |rest| == 1 && mode.create && Storable(rest[0]) && !NoFreeCluster(g, s)
         && Unowned(s.tree, Head(item)) && u.initial == [] && SizeOf(item.sfn) == 0 && item.sfn[11] == 0x20
         && d in u.begun.chains && Created(s.tree, u.begun, d, u.begun.chains[d], rest[0], item, [])
       case _ => false
  }

  /** After the operations and the closing, the entry has the length of the file's bytes, and its chain on the
      device has them. Where the code behaves as described, they are what the operations do to a sequence of bytes
      and a position; but an empty file stays empty. */
  ghost predicate Closes(g: Geometry, d: nat, mode: Mode, ops: seq<Op>, item: Item, u: Usage, after: Scene) {
    && SizeOf(u.entry.sfn) == |u.contents| && after.device == after.img
    && if u.initial == [] then u.contents == [] && Reentered(u.begun, after.tree, d, item, u.entry) else
         && Worked(u.begun, after.tree, Head(item), d, item, u.entry) && !IsDir(item)
         && Holding(g, after.img, after.tree, Head(item), |u.contents|, u.contents)
         && var s := Abstract(u.initial, if mode.append then |u.initial| else 0, mode.read, mode.write);
            AllInDomain(s, ops) ==>
              && Outcome(g, after.img, after.tree, after.lastUsed, Head(item), s, ops, u.done, u.outs, u.last)
              && u.contents == Result(s, ops, u.done, u.k, |u.contents|)
  }

  // ---------- runs ----------

  /** The names in a path can be stored, or are too long and refused. */
  predicate Nameable(comps: Option<seq<Name>>) {
    comps.Some? ==> forall name :: name in comps.value ==> Storable(name) || |name| > MAX_NAME
  }

  /** Every path without a byte 0x00 or 0xff is nameable, however long its names are. */
  lemma PlainNameable(volume: Name, path: Name)
    requires PlainBytes(path)
    ensures Nameable(Below(volume, path))
  {
    if Below(volume, path).Some? {
      var tail := path[1 + FirstLen(path[1..])..];
      SplitComponents(tail);
      forall name, k | name in Split(tail) && 0 <= k < |name|
        ensures name[k] != 0 && name[k] != 0xff
      {
        assert name[k] in tail;
      }
    }
  }

  predicate Permitted(volume: Name, cmd: Command) {
    match cmd
    case MakeDirectory(path, _) => Nameable(Below(volume, path))
    case Remove(_) => true
    case Use(path, _, _, _, _) => Nameable(Below(volume, path)) && Below(volume, path) != Some([])
  }

  /** The volume is a tree with room on the device. */
  ghost predicate Healthy(fs: FileSystem)
    reads fs, fs.names, fs.fat, fs.fat.dev, fs.fat.buf
  {
    fs.Consistent() && Roomy(fs.fat.geo, |fs.fat.view|, fs.tree)
  }

  ghost function Now(fs: FileSystem): Scene
    reads fs, fs.fat, fs.fat.dev
  {
    Scene(fs.fat.view, fs.fat.dev.sectors, fs.tree, fs.fat.lastUsed)
  }

  lemma NamedWithin(root: nat, tree: Tree, comps: seq<Name>)
    requires IsTree(root, tree)
    ensures var r := Resolve(root, tree, comps);
            && (r.TheRoot? <==> comps == [])
            && (r.NoEntry? ==> r.dir in tree.items && r.rest != [] && r.rest[0] in comps)
            && (r.Entry? ==> r.dir in tree.items && r.item in tree.items[r.dir] && !IsDot(r.item))
  {
    hide IsDot, Walk, Find, EntryIn, Accounted, Dotted;
    if comps != [] {
      WalkEnds(root, tree, root, comps);
    }
  }

  /** What a command keeps: the volume is a tree with room; directories keep their end marks; and if every entry has
      clusters, that stays so, and the free count and the mirror are in step as they were. */
  twostate predicate Kept(fs: FileSystem)
    reads fs, fs.names, fs.fat, fs.fat.dev, fs.fat.buf
  {
    && Healthy(fs) && fs.fat.geo.Wf(|old(fs.fat.view)|) && |fs.fat.view| == |old(fs.fat.view)|
    && SameTraits(old(fs.tree), fs.tree)
    && (old(Clustered(fs.tree)) ==>
          Upkeep(fs.fat.geo, old(fs.fat.view), old(fs.fat.freeCnt), fs.fat.view, fs.fat.freeCnt))
  }

  lemma KeptFacts(fs: FileSystem)
    requires Healthy(fs)
    ensures fs.fat.geo.Wf(|fs.fat.view|) && Upkeep(fs.fat.geo, fs.fat.view, fs.fat.freeCnt, fs.fat.view, fs.fat.freeCnt)
    ensures 0 !in fs.tree.chains
  {
    hide Fat.Valid, Sound, Upkeep;
    TreeFacts(fs.fat.geo, fs.fat.view, fs.tree);
    UpkeepTables(fs.fat.geo, fs.fat.view, fs.fat.freeCnt, fs.fat.view);
  }

  ghost function NoUse(tree: Tree, item: Item): Usage {
    Usage(tree, [], 0, 0, [], [], item, [])
  }

  method Make(fs: FileSystem, path: Name, stamp: Stamp) returns (err: int, ghost e: Event)
    requires Healthy(fs) && Nameable(fs.Within(path))
    modifies fs`tree, fs.fat, fs.fat.dev, fs.fat.buf, fs.names, fs.names.buf
    ensures fs.fat.dev.faults == old(fs.fat.dev.faults) ==>
              && Kept(fs) && e.before == old(Now(fs)) && e.after == Now(fs)
              && Happened(fs.fat.geo, fs.name, MakeDirectory(path, stamp), e)
    ensures old(fs.fat.Journal()) ==> fs.fat.Journal()
    ensures old(fs.fat.Tame()) ==> fs.fat.Tame()
  {
    hide Fat.Valid, Fat.Journal, Fat.Tame, Sound, IsTree, Roomy, Created, NotCreated, Storable, Resolve, NoneLeft,
         Below, Upkeep, SfnSlot, SfnName, DotItems, Clustered, SameFiles;
    ghost var g, v0, t0, s0 := fs.fat.geo, fs.fat.view, fs.tree, Now(fs);
    TreeFacts(g, v0, t0);
    KeptFacts(fs);
    if fs.Within(path).Some? {
      NamedWithin(g.rootClust, t0, fs.Within(path).value);
    }
    var dir := new Dir(fs.fat, fs.names);
    ghost var item;
    err, item := fs.DirCreate(dir, path, stamp);
    ghost var r := if fs.Within(path).Some? then Resolve(g.rootClust, t0, fs.Within(path).value) else TheRoot;
    e := Event(s0, err, if r.NoEntry? then r.dir else 0, item, NoUse(t0, item), 0, Now(fs));
    if fs.fat.dev.faults == old(fs.fat.dev.faults) && fs.Within(path).Some? {
      if r.NoEntry? && |r.rest| == 1 {
        TreeFacts(g, fs.fat.view, fs.tree);
        if err != ERR_NONE {
          RoomyNotCreated(fs, old(fs.fat.Fats()), old(fs.fat.Full(0)), r.rest[0], err, t0, r.dir);
        } else {
          SfnSlotFields(SfnName(r.rest[0]), ATTR_DIR, Head(item), stamp);
          var kids := DotItems(Head(item), if r.dir == g.rootClust then 0 else r.dir, stamp);
          DotItemsDotted(Head(item), if r.dir == g.rootClust then 0 else r.dir, stamp);
          RoomyCreated(g, |v0|, t0, fs.tree, r.dir, fs.tree.chains[r.dir], r.rest[0], item, kids);
        }
      }
    }
  }

  method Drop(fs: FileSystem, path: Name) returns (err: int, ghost e: Event)
    requires Healthy(fs)
    modifies fs`tree, fs.fat, fs.fat.dev, fs.fat.buf, fs.names, fs.names.buf
    ensures fs.fat.dev.faults == old(fs.fat.dev.faults) ==>
              && Kept(fs) && e.before == old(Now(fs)) && e.after == Now(fs)
              && Happened(fs.fat.geo, fs.name, Remove(path), e)
    ensures old(fs.fat.Journal()) ==> fs.fat.Journal()
    ensures old(fs.fat.Tame()) && old(fs.tree.tidy) ==> fs.fat.Tame()
  {
    hide Fat.Valid, Fat.Journal, Fat.Tame, Sound, IsTree, Roomy, Unlinked, Resolve, Below, Upkeep, Refusal, Clustered,
         SameFiles;
    ghost var g, v0, t0, s0 := fs.fat.geo, fs.fat.view, fs.tree, Now(fs);
    TreeFacts(g, v0, t0);
    KeptFacts(fs);
    err := fs.Unlink(path);
    ghost var none := NewItem(0, [], 0, seq(32, _ => 0));
    ghost var r := if fs.Within(path).Some? then Resolve(g.rootClust, t0, fs.Within(path).value) else TheRoot;
    ghost var item := if r.Entry? then r.item else none;
    e := Event(s0, err, if r.Entry? then r.dir else 0, item, NoUse(t0, item), 0, Now(fs));
    if fs.fat.dev.faults == old(fs.fat.dev.faults) && err == ERR_NONE {
      RoomyUnlinked(g, |v0|, t0, fs.tree, r.dir, r.item);
      HasCluster(t0, r.dir, r.item);
    }
  }

  lemma HasCluster(tree: Tree, d: nat, item: Item)
    requires d in tree.items && item in tree.items[d] && !IsDot(item)
    ensures Clustered(tree) ==> Head(item) != 0
  {
  }

  /** An empty file is open on the entry. */
  ghost predicate Hollow(fs: FileSystem, file: File, c: nat)
    reads fs, fs.names, file, fs.fat, fs.fat.dev, fs.fat.buf, file.fat, file.fat.dev, file.fat.buf, file.buf
  {
    && fs.Consistent() && Attached(fs, file, c)
    && file.size == 0 && file.offset == 0 && file.sect == NO_SECT
  }

  /** On an empty file, every operation comes to nothing, but a write marks the file as modified. */
  method WorkNowhere(fs: FileSystem, file: File, op: Op, ghost c: nat)
    requires Hollow(fs, file, c)
    modifies file`clust, file`sect, file`size, file`offset, file`dirty, file`chain, file`modified, file`accessed
    modifies file.buf, fs.fat, fs.fat.dev, fs.fat.buf
    ensures Hollow(fs, file, c) && SizeTold(0, old(file.modified), file)
    ensures fs.fat.view == old(fs.fat.view) && fs.fat.freeCnt == old(fs.fat.freeCnt)
    ensures fs.fat.dev.faults == old(fs.fat.dev.faults)
    ensures old(fs.fat.Journal()) ==> fs.fat.Journal()
    ensures old(fs.fat.Tame()) ==> fs.fat.Tame()
  {
    hide Fat.Valid, Fat.Journal, Fat.Tame, Sound, Holds, File.Intact;
    match op {
      case SeekTo(delta, whence) =>
        var err := file.Seek(delta, whence);
      case ReadBytes(len) =>
        var err, data := file.Read(len);
      case WriteBytes(data) =>
        var err, written := file.Write(data);
    }
  }

  /** A file has been opened on this entry. */
  ghost predicate OpenedIn(fs: FileSystem, file: File, mode: Mode, d: nat, item: Item)
    reads fs, fs.names, file, fs.fat, fs.fat.dev, fs.fat.buf, file.fat, file.fat.dev, file.fat.buf, file.buf
  {
    && Healthy(fs) && d in fs.tree.items && item in fs.tree.items[d] && !IsDot(item) && Opened(fs, file, mode, d, item)
    && (if file.Unreachable() then file.offset == 0
        else file.Valid() && file.offset == if mode.append then file.size else 0)
  }

  lemma OpenedFacts(fs: FileSystem, file: File, mode: Mode, d: nat, item: Item)
    requires OpenedIn(fs, file, mode, d, item)
    ensures if file.size == 0 then Hollow(fs, file, Head(item)) else Usable(fs, file, Head(item)) && !IsDir(item)
    ensures d in fs.tree.chains && IsPlace(fs.fat.geo, fs.tree.chains[d], item.at, file.dirSect, file.dirIdx)
    ensures file.modified || SizeOf(item.sfn) == file.size
    ensures file.size != 0 ==>
              && file.canRead == mode.read && file.canWrite == mode.write
              && file.offset == if mode.append then file.size else 0
  {
    hide Fat.Valid, Sound, IsTree, Holds, File.Intact, IsDot, IsDir, SizeOf, Head, IsPlace, Capacity;
    TreeFacts(fs.fat.geo, fs.fat.view, fs.tree);
    assert SizeFits(fs.fat.geo, fs.tree, item);
    if SizeOf(item.sfn) != 0 {
      FileChain(fs.fat.geo.rootClust, fs.tree, d, item);
    }
  }

  /** Working on an opened file, and closing it. */
  method Finish(fs: FileSystem, file: File, mode: Mode, ops: seq<Op>, to: Stamp, ghost d: nat, ghost item: Item)
    returns (ghost u: Usage)
    requires OpenedIn(fs, file, mode, d, item)
    modifies fs`tree, file`clust, file`sect, file`size, file`offset, file`dirty, file`chain, file`modified
    modifies file`accessed
    modifies file.buf, fs.fat, fs.fat.dev, fs.fat.buf
    ensures fs.fat.dev.faults == old(fs.fat.dev.faults) ==>
              && Kept(fs) && u.begun == old(fs.tree)
              && (if old(file.size) == 0 then u.initial == []
                  else old(file.Intact()) && u.initial == old(file.Contents()))
              && Closes(fs.fat.geo, d, mode, ops, item, u, Now(fs))
              && SameFiles(fs.fat.geo, old(fs.fat.view), old(fs.tree), fs.fat.view, fs.tree, Head(item))
    ensures old(fs.fat.Journal()) ==> fs.fat.Journal()
    ensures old(fs.fat.Tame()) ==> fs.fat.Tame()
  {
    hide Fat.Valid, Fat.Journal, Fat.Tame, Sound, Roomy, Clustered, Upkeep, Holds, File.Intact, IsDot, IsDir, SizeOf,
         Head, IsPlace, Capacity, Opened, SameFiles, Reentered, Worked, Holding, Outcome, Result, AllInDomain, Content;
    OpenedFacts(fs, file, mode, d, item);
    if file.size == 0 {
      u := FinishEmpty(fs, file, ops, to, d, item);
    } else {
      u := FinishUsed(fs, file, ops, to, d, item);
    }
  }

  method FinishEmpty(fs: FileSystem, file: File, ops: seq<Op>, to: Stamp, ghost d: nat, ghost item: Item)
    returns (ghost u: Usage)
    requires Hollow(fs, file, Head(item)) && Healthy(fs) && (file.modified || SizeOf(item.sfn) == 0)
    requires d in fs.tree.items && d in fs.tree.chains && item in fs.tree.items[d] && !IsDot(item)
    requires IsPlace(fs.fat.geo, fs.tree.chains[d], item.at, file.dirSect, file.dirIdx)
    modifies fs`tree, file`clust, file`sect, file`size, file`offset, file`dirty, file`chain, file`modified
    modifies file`accessed
    modifies file.buf, fs.fat, fs.fat.dev, fs.fat.buf
    ensures fs.fat.dev.faults == old(fs.fat.dev.faults) ==>
              && Kept(fs) && u.begun == old(fs.tree) && u.initial == [] && u.contents == []
              && Reentered(old(fs.tree), fs.tree, d, item, u.entry) && SizeOf(u.entry.sfn) == 0
              && fs.fat.dev.sectors == fs.fat.view
              && SameFiles(fs.fat.geo, old(fs.fat.view), old(fs.tree), fs.fat.view, fs.tree, Head(item))
    ensures old(fs.fat.Journal()) ==> fs.fat.Journal()
    ensures old(fs.fat.Tame()) ==> fs.fat.Tame()
  {
    hide Fat.Valid, Fat.Journal, Fat.Tame, Sound, Roomy, Clustered, Upkeep, IsDot, IsDir, SizeOf, Head, IsPlace,
         Capacity, SameFiles, Exchanged, Updated;
    ghost var g, v0, t0 := fs.fat.geo, fs.fat.view, fs.tree;
    u := NoUse(t0, item);
    KeptFacts(fs);
    var i := 0;
    while i < |ops|
      invariant 0 <= i <= |ops| && fs.fat.dev.faults == old(fs.fat.dev.faults) && Hollow(fs, file, Head(item))
      invariant fs.tree == t0 && fs.fat.view == v0 && fs.fat.freeCnt == old(fs.fat.freeCnt)
      invariant SizeTold(0, old(file.modified), file)
      invariant old(fs.fat.Journal()) ==> fs.fat.Journal()
      invariant old(fs.fat.Tame()) ==> fs.fat.Tame()
    {
      WorkNowhere(fs, file, ops[i], Head(item));
      i := i + 1;
    }
    ghost var accessed, modified := file.accessed, file.modified;
    UpdatedFields(item.sfn, 0, accessed, modified, to);
    var err := FileClose(fs, file, to, Head(item), d, item);
    u := u.(entry := item.(sfn := EntryAfter(item.sfn, 0, accessed, modified, to)));
    if err == ERR_NONE {
      SameFilesBut(g, v0, t0, fs.fat.view, fs.tree, Head(item));
      RoomyReentered(g, |v0|, t0, fs.tree, d, item, u.entry);
    }
  }

  method FinishUsed(fs: FileSystem, file: File, ops: seq<Op>, to: Stamp, ghost d: nat, ghost item: Item)
    returns (ghost u: Usage)
    requires Usable(fs, file, Head(item)) && Healthy(fs) && (file.modified || SizeOf(item.sfn) == file.size)
    requires !IsDir(item)
    requires d in fs.tree.items && d in fs.tree.chains && item in fs.tree.items[d] && !IsDot(item)
    requires IsPlace(fs.fat.geo, fs.tree.chains[d], item.at, file.dirSect, file.dirIdx)
    modifies fs`tree, file`clust, file`sect, file`size, file`offset, file`dirty, file`chain, file`modified
    modifies file`accessed
    modifies file.buf, fs.fat, fs.fat.dev, fs.fat.buf
    ensures fs.fat.dev.faults == old(fs.fat.dev.faults) ==>
              && Kept(fs) && u.begun == old(fs.tree) && u.initial == old(file.Contents())
              && |u.initial| == old(file.size) && u.initial != []
              && Worked(old(fs.tree), fs.tree, Head(item), d, item, u.entry)
              && SizeOf(u.entry.sfn) == |u.contents| && fs.fat.dev.sectors == fs.fat.view
              && Holding(fs.fat.geo, fs.fat.view, fs.tree, Head(item), |u.contents|, u.contents)
              && SameFiles(fs.fat.geo, old(fs.fat.view), old(fs.tree), fs.fat.view, fs.tree, Head(item))
              && (old(AllInDomain(Seen(file), ops)) ==>
                    && Outcome(fs.fat.geo, fs.fat.view, fs.tree, fs.fat.lastUsed, Head(item), old(Seen(file)), ops,
                               u.done, u.outs, u.last)
                    && u.contents == Result(old(Seen(file)), ops, u.done, u.k, |u.contents|))
    ensures old(fs.fat.Journal()) ==> fs.fat.Journal()
    ensures old(fs.fat.Tame()) ==> fs.fat.Tame()
  {
    hide Fat.Valid, Fat.Journal, Fat.Tame, Sound, Roomy, Clustered, Upkeep, Holds, File.Intact, IsDot, IsDir, SizeOf,
         Head, IsPlace, Capacity, SameFiles, Exchanged, Reentered, Outcome, Result, AllInDomain, Content;
    SeenFacts(file);
    ghost var t0 := fs.tree;
    u := NoUse(t0, item).(initial := file.Contents());
    var faults := fs.fat.dev.faults;
    var err, done, outs, last;
    ghost var k, entry, contents;
    err, done, outs, last, k, entry, contents := UseAndClose(fs, file, ops, to, Head(item), d, item);
    u := u.(done := done, k := k, outs := outs, last := last, entry := entry, contents := contents);
    if fs.fat.dev.faults == faults {
      RoomyWorked(fs.fat.geo, |fs.fat.view|, t0, fs.tree, Head(item), d, item, entry);
    }
  }

  /** What opening has made of the tree keeps every file. */
  lemma OpensKeeps(g: Geometry, comps: Option<seq<Name>>, mode: Mode, s: Scene, d: nat, item: Item, u: Usage, k: nat)
    requires IsTree(g.rootClust, s.tree) && Opens(g, comps, mode, s, d, item, u) && k in s.tree.chains
    requires k !in s.tree.items
    ensures k in u.begun.chains && k !in u.begun.items
  {
    hide Resolve, Holding, Find, Gained, Head, SizeOf, IsDir, Storable;
    RootListed(g.rootClust, s.tree);
  }

  lemma EntryFits(g: Geometry, n: nat, tree: Tree, d: nat, item: Item)
    requires Roomy(g, n, tree) && 0 !in tree.chains && d in tree.items && item in tree.items[d] && !IsDot(item)
    ensures SizeOf(item.sfn) != 0 ==> Head(item) != 0
  {
    hide Capacity, IsDot, IsDir, Head, SizeOf;
    assert SizeFits(g, tree, item);
  }

  /** The part of `fat_file_open` that a run of operations starts from. */
  method Begin(fs: FileSystem, path: Name, mode: Mode, from: Stamp)
    returns (err: int, file: File?, ghost d: nat, ghost item: Item, ghost touched: nat)
    requires Healthy(fs) && Nameable(fs.Within(path)) && fs.Within(path) != Some([])
    modifies fs`tree, fs.fat, fs.fat.dev, fs.fat.buf, fs.names, fs.names.buf
    ensures err == ERR_NONE ==> file != null
    ensures file != null ==> fresh(file) && fresh(file.buf)
    ensures fs.fat.dev.faults == old(fs.fat.dev.faults) ==>
              && Kept(fs) && IsTree(fs.fat.geo.rootClust, old(fs.tree))
              && SameFiles(fs.fat.geo, old(fs.fat.view), old(fs.tree), fs.fat.view, fs.tree, touched)
              && if err != ERR_NONE then
                   NotOpened(fs.fat.geo, fs.Within(path), mode,
                             Event(old(Now(fs)), err, d, item, NoUse(fs.tree, item), touched, Now(fs)))
                 else
                   && OpenedIn(fs, file, mode, d, item) && touched == Head(item)
                   && (file.size != 0 ==> file.Intact())
                   && Opens(fs.fat.geo, fs.Within(path), mode, old(Now(fs)), d, item,
                            NoUse(fs.tree, item).(initial := if file.size == 0 then [] else file.Contents()))
    ensures old(fs.fat.Journal()) ==> fs.fat.Journal()
    ensures old(fs.fat.Tame()) ==> fs.fat.Tame()
  {
    hide Fat.Valid, Fat.Journal, Fat.Tame, Sound, IsTree, Roomy, Clustered, Upkeep, Created, NotCreated, Storable,
         Resolve, FileSystem.Within, Sized, SfnSlot, SfnName, Holding, Content, File.Intact, Holds, IsDot, IsDir,
         SizeOf, Head, IsPlace, SameFiles, NoneLeft, Capacity;
    ghost var g, v0, t0 := fs.fat.geo, fs.fat.view, fs.tree;
    TreeFacts(g, v0, t0);
    RoomyMeansSized(g, v0, t0);
    if fs.Within(path).Some? {
      NamedWithin(g.rootClust, t0, fs.Within(path).value);
    }
    err, file, d, item := FileOpen(fs, path, mode, from);
    touched := if file == null then 0 else Head(item);
    if fs.fat.dev.faults == old(fs.fat.dev.faults) && fs.Within(path).Some? {
      ghost var r := Resolve(g.rootClust, t0, fs.Within(path).value);
      TreeFacts(g, fs.fat.view, fs.tree);
      if r.Entry? {
        EntryFits(g, |v0|, t0, r.dir, r.item);
      }
      if r.Entry? && !file.Unreachable() {
        RoomyLengthened(g, |v0|, t0, fs.tree, Head(item), file.chain);
      } else if r.NoEntry? && mode.create && |r.rest| == 1 {
        if err != ERR_NONE {
          RoomyNotCreated(fs, old(fs.fat.Fats()), old(fs.fat.Full(0)), r.rest[0], err, t0, r.dir);
        } else {
          CreatedItem(t0, fs.tree, d, fs.tree.chains[d], r.rest[0], item, []);
          RoomyCreated(g, |v0|, t0, fs.tree, d, fs.tree.chains[d], r.rest[0], item, []);
        }
      }
    }
  }

  /** Opening a file, working on it and closing it. */
  method Handle(fs: FileSystem, path: Name, mode: Mode, ops: seq<Op>, from: Stamp, to: Stamp)
    returns (err: int, ghost e: Event)
    requires Healthy(fs) && Nameable(fs.Within(path)) && fs.Within(path) != Some([])
    modifies fs`tree, fs.fat, fs.fat.dev, fs.fat.buf, fs.names, fs.names.buf
    ensures fs.fat.dev.faults == old(fs.fat.dev.faults) ==>
              && Kept(fs) && e.before == old(Now(fs)) && e.after == Now(fs)
              && Happened(fs.fat.geo, fs.name, Use(path, mode, ops, from, to), e)
    ensures old(fs.fat.Journal()) ==> fs.fat.Journal()
    ensures old(fs.fat.Tame()) ==> fs.fat.Tame()
  {
    hide Fat.Valid, Fat.Journal, Fat.Tame, Sound, IsTree, Roomy, Clustered, Upkeep, SameFiles, NotOpened, Opens,
         OpenedIn, Closes, Below, Head;
    ghost var g, v0, f0, t0, s0 := fs.fat.geo, fs.fat.view, fs.fat.freeCnt, fs.tree, Now(fs);
    var faults := fs.fat.dev.faults;
    TreeFacts(g, v0, t0);
    var file;
    ghost var d, item, touched;
    err, file, d, item, touched := Begin(fs, path, mode, from);
    ghost var u := NoUse(fs.tree, item);
    if fs.fat.dev.faults == faults && err == ERR_NONE {
      ghost var v1, f1, t1 := fs.fat.view, fs.fat.freeCnt, fs.tree;
      ghost var u1 := u.(initial := if file.size == 0 then [] else file.Contents());
      u := Finish(fs, file, mode, ops, to, d, item);
      if fs.fat.dev.faults == faults {
        UsedOn(g, fs.Within(path), mode, s0, d, item, u1, u, v1, fs.fat.view, fs.tree);
        if Clustered(t0) {
          UpkeepTrans(g, v0, f0, v1, f1, fs.fat.view, fs.fat.freeCnt);
        }
      }
    }
    e := Event(s0, err, d, item, u, touched, Now(fs));
  }

  lemma UsedOn(g: Geometry, comps: Option<seq<Name>>, mode: Mode, s: Scene, d: nat, item: Item, u1: Usage, u: Usage,
               v1: Image, v2: Image, t2: Tree)
    requires IsTree(g.rootClust, s.tree) && Opens(g, comps, mode, s, d, item, u1)
    requires u.begun == u1.begun && u.initial == u1.initial
    requires SameFiles(g, s.img, s.tree, v1, u.begun, Head(item)) && SameFiles(g, v1, u.begun, v2, t2, Head(item))
    ensures Opens(g, comps, mode, s, d, item, u) && SameFiles(g, s.img, s.tree, v2, t2, Head(item))
  {
    hide IsTree, Resolve, Holding, Created, Head, SizeOf, Storable, SameBytes, Opens;
    forall k | k in s.tree.chains && k !in s.tree.items
      ensures k in u.begun.chains && k !in u.begun.items
    {
      OpensKeeps(g, comps, mode, s, d, item, u1, k);
    }
    SameFilesTrans(g, s.img, s.tree, v1, u.begun, v2, t2, Head(item));
    OpensSame(g, comps, mode, s, d, item, u1, u);
  }

  lemma OpensSame(g: Geometry, comps: Option<seq<Name>>, mode: Mode, s: Scene, d: nat, item: Item, u1: Usage, u: Usage)
    requires IsTree(g.rootClust, s.tree) && Opens(g, comps, mode, s, d, item, u1)
    requires u.begun == u1.begun && u.initial == u1.initial
    ensures Opens(g, comps, mode, s, d, item, u)
  {
    hide IsTree, Resolve, Holding, Created, Head, SizeOf, Storable;
  }

  /** One command. */
  method Obey(fs: FileSystem, cmd: Command) returns (err: int, ghost e: Event)
    requires Healthy(fs) && Permitted(fs.name, cmd)
    modifies fs`tree, fs.fat, fs.fat.dev, fs.fat.buf, fs.names, fs.names.buf
    ensures fs.fat.dev.faults == old(fs.fat.dev.faults) ==>
              && Kept(fs) && e.before == old(Now(fs)) && e.after == Now(fs) && Happened(fs.fat.geo, fs.name, cmd, e)
    ensures old(fs.fat.Journal()) ==> fs.fat.Journal()
    ensures old(fs.fat.Tame()) && old(fs.tree.tidy) ==> fs.fat.Tame()
  {
    hide Fat.Valid, Fat.Journal, Fat.Tame, Healthy, Nameable, Kept, Happened;
    match cmd
    case MakeDirectory(path, stamp) => err, e := Make(fs, path, stamp);
    case Remove(path) => err, e := Drop(fs, path);
    case Use(path, mode, ops, from, to) => err, e := Handle(fs, path, mode, ops, from, to);
  }

  /** What has happened in a run that began with `first`: each command in turn, each where the one before it ended. */
  ghost predicate Chronicle(g: Geometry, volume: Name, cmds: seq<Command>, first: Scene, log: seq<Event>) {
    && |log| == |cmds|
    && forall i :: 0 <= i < |log| ==>
         Happened(g, volume, cmds[i], log[i]) && log[i].before == SceneAt(first, log, i)
  }

  /** The volume before the `i`th event of the log, or behind it. */
  function SceneAt(first: Scene, log: seq<Event>, i: nat): Scene
    requires i <= |log|
  {
    if i == 0 then first else log[i - 1].after
  }

  /** Any run of commands, up to the first fault of the device. Each has the outcome it should have. The volume stays a
      tree whose chains own all clusters in use, and the free count stays in step if every entry has clusters; and,
      faults or not, every image that the device has held is explained by the run. */
  method Run(fs: FileSystem, cmds: seq<Command>) returns (done: nat, ghost log: seq<Event>)
    requires Healthy(fs) && forall cmd :: cmd in cmds ==> Permitted(fs.name, cmd)
    modifies fs`tree, fs.fat, fs.fat.dev, fs.fat.buf, fs.names, fs.names.buf
    ensures done <= |cmds| && Chronicle(fs.fat.geo, fs.name, cmds[..done], old(Now(fs)), log)
    ensures fs.fat.dev.faults == old(fs.fat.dev.faults) ==>
              done == |cmds| && Kept(fs) && SceneAt(old(Now(fs)), log, done) == Now(fs)
    ensures old(fs.fat.Journal()) ==> fs.fat.Journal()
    ensures old(fs.fat.Tame()) && old(fs.tree.tidy) ==> fs.fat.Tame()
  {
    hide Fat.Valid, Fat.Journal, Fat.Tame, Sound, Roomy, Clustered, Upkeep, Permitted, Happened;
    var faults := fs.fat.dev.faults;
    ghost var v0, f0, t0 := fs.fat.view, fs.fat.freeCnt, fs.tree;
    KeptFacts(fs);
    done, log := 0, [];
    while done < |cmds|
      invariant done <= |cmds| && fs.fat.dev.faults == old(fs.fat.dev.faults) && Kept(fs)
      invariant Chronicle(fs.fat.geo, fs.name, cmds[..done], old(Now(fs)), log)
      invariant SceneAt(old(Now(fs)), log, done) == Now(fs)
      invariant old(fs.fat.Journal()) ==> fs.fat.Journal()
      invariant old(fs.fat.Tame()) && old(fs.tree.tidy) ==> fs.fat.Tame()
    {
      ghost var v, f := fs.fat.view, fs.fat.freeCnt;
      var err;
      ghost var e;
      err, e := Obey(fs, cmds[done]);
      if fs.fat.dev.faults != faults {
        return;
      }
      if Clustered(t0) {
        UpkeepTrans(fs.fat.geo, v0, f0, v, f, fs.fat.view, fs.fat.freeCnt);
      }
      done, log := done + 1, log + [e];
    }
  }

  /** A formatted volume has room, if the clusters that the device does not have are set aside. */
  lemma FormattedRoomy(g: Geometry, img: Image)
    requires Formatted(g, img) && |img| <= NO_SECT
    requires g.Wf(|img|) && FreeOnDevice(g, img)
    ensures var tree := FormattedTree(g, img);
            && Sound(g, img, tree) && Roomy(g, |img|, tree) && Clustered(tree) && tree.marked && tree.tidy
            && NoDangling(Table(g, img))
  {
    hide NoDangling, Sound, IsTree, Owns, NoneBroken, Table, Geometry.ClustToSect, BlankEntries;
    FormattedSound(g, img);
    SoundNoDangling(g, img, FormattedTree(g, img));
  }

  /** Any run of commands from the moment a formatted volume is mounted, by the geometry in its boot sector or
      otherwise. */
  method RunFromBlank(g: Geometry, img: Image, nextFree: uint32, freeCnt: uint32, name: Name, cmds: seq<Command>)
    returns (fs: FileSystem, done: nat, ghost log: seq<Event>)
    requires Formatted(g, img) && |img| <= NO_SECT && 2 <= nextFree < g.clustCnt
    requires g.Wf(|img|) && FreeOnDevice(g, img)
    requires forall cmd :: cmd in cmds ==> Permitted(name, cmd)
    ensures fs.fat.dev.faults == 0 ==>
              && done == |cmds| && Healthy(fs) && Clustered(fs.tree) && fs.tree.marked && fs.tree.tidy
              && |fs.fat.view| == |img| && fs.fat.geo == g && Upkeep(g, img, freeCnt, fs.fat.view, fs.fat.freeCnt)
    ensures done <= |cmds| && fs.fat.geo == g && fs.name == name
    ensures Chronicle(g, name, cmds[..done], Scene(img, img, FormattedTree(g, img), nextFree), log)
    ensures fs.fat.Tame()
    ensures forall i :: 0 <= i < |fs.fat.dev.images| ==>
              g.Wf(|fs.fat.dev.images[i]|) && NoDangling(Table(g, fs.fat.dev.images[i]))
  {
    hide Fat.Valid, Fat.Tame, Sound, Roomy, Clustered, Upkeep, Chronicle, NoDangling, Table, Formatted, SetAside;
    FormattedRoomy(g, img);
    var dev := new Device(img);
    var fat := new Fat.Mount(dev, g, nextFree, freeCnt, false, false);
    var names := new NameBuffer();
    fs := new FileSystem(fat, names, name, FormattedTree(g, img));
    done, log := Run(fs, cmds);
    fs.fat.NeverDangled();
  }
}
