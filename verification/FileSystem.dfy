/** The operations on paths: they keep the volume a tree of directories whose chains own every cluster in use. */
module FileSystem {
  import opened Bytes
  import opened Layout
  import opened Chains
  import opened Clusters
  import opened Names
  import opened LongNames
  import opened Listing
  import opened Volume
  import opened Directory
  import opened Owners
  import opened Edits
  import opened Dots
  import opened Tree
  import opened Paths

  /** The components of a path below the volume that it starts with. */
  function Below(volume: Name, path: Name): Option<seq<Name>> {
    if path == [] || path[0] != SLASH then None else
    var n := FirstLen(path[1..]);
    if n > 0 && path[1..1 + n] == volume then Some(Split(path[1 + n..])) else None
  }

  /** A path is on the volume if and only if it is a slash, the volume's name, and then nothing or another slash. What
      is behind the name gives the components; the name is none of them. */
  lemma BelowIff(volume: Name, path: Name)
    ensures Below(volume, path).Some? <==>
              && IsComponent(volume) && [0x2f] + volume <= path
              && (1 + |volume| < |path| ==> path[1 + |volume|] == 0x2f)
    ensures Below(volume, path).Some? ==> Below(volume, path).value == Split(path[1 + |volume|..])
  {
    if path != [] && path[0] == 0x2f {
      var rest := path[1..];
      if volume <= rest && IsComponent(volume) && (|volume| < |rest| ==> rest[|volume|] == 0x2f) {
        FirstLenIs(rest, |volume|);
      }
      if [0x2f] + volume <= path {
        assert rest[..|volume|] == ([0x2f] + volume)[1..] == volume;
      }
    }
  }

  /** A path that is put together of the volume's name and components has these components. */
  lemma BelowOwn(volume: Name, names: seq<Name>)
    requires IsComponent(volume) && AreComponents(names)
    ensures Below(volume, [0x2f] + volume + Join(names)) == Some(names)
  {
    var path := [0x2f] + volume + Join(names);
    assert path[1 + |volume|..] == Join(names);
    SplitJoin(names);
    BelowIff(volume, path);
  }

  /** On another volume, there is nothing below this one. */
  lemma BelowOther(volume: Name, other: Name, names: seq<Name>)
    requires IsComponent(other) && other != volume
    ensures Below(volume, [0x2f] + other + Join(names)) == None
  {
    var path := [0x2f] + other + Join(names);
    assert path[1..] == other + Join(names) && path[1..1 + |other|] == other;
    FirstLenIs(path[1..], |other|);
  }

  class FileSystem {
    const fat: Fat
    const names: NameBuffer
    const name: Name

    // What the volume holds.
    ghost var tree: Tree

    /** The volume is mounted, and its logical disk holds the tree. */
    ghost predicate Consistent()
      reads this, names, fat, fat.dev, fat.buf
    {
      && fat.Valid() && names.buf.Length == SECTOR_SIZE && names.buf != fat.buf
      && Sound(fat.geo, fat.view, tree)
    }

    constructor (f: Fat, n: NameBuffer, volume: Name, ghost contents: Tree)
      requires f.Valid() && n.buf.Length == SECTOR_SIZE && n.buf != f.buf
      requires Sound(f.geo, f.view, contents)
      ensures fat == f && names == n && name == volume && tree == contents && Consistent()
    {
      fat, names, name, tree := f, n, volume, contents;
    }

    /** The root stands in for cluster 0. */
    function Home(c: nat): nat {
      if c == 0 then fat.geo.rootClust else c
    }

    // ---------- paths ----------

    /** The cursor is where a path has led. */
    ghost predicate Arrived(dir: Dir, at: Resolution, loc: Loc)
      reads this, dir, names, dir.names, fat, fat.dev, fat.buf, dir.fat, dir.fat.dev, dir.fat.buf
    {
      && dir.fat == fat && dir.names == names && dir.Valid()
      && match at
         case TheRoot =>
           && fat.geo.rootClust in tree.chains && dir.chain == tree.chains[fat.geo.rootClust] && dir.Pos() == 0
         case Entry(d, item) =>
           && Standing(dir, d, item, loc)
           && dir.Loaded() && dir.Slots()[item.at] == item.sfn
         case _ => false
    }

    /** The cursor is at an item's 8.3 slot, and `loc` is where the item starts. */
    ghost predicate Standing(dir: Dir, d: nat, item: Item, loc: Loc)
      reads `tree, dir
    {
      && d in tree.chains && dir.chain == tree.chains[d] && dir.Pos() == item.at
      && IsPlace(fat.geo, dir.chain, item.start, loc.sect, loc.idx)
    }

    /** One round of the loop of `follow_path`: look a component up in a directory. */
    method Descend(dir: Dir, dirClust: nat, comp: Name) returns (err: int, loc: Loc, next: nat, enterable: bool)
      requires Consistent() && dir.fat == fat && dir.names == names && Home(dirClust) in tree.items
      modifies dir, fat`dirty, fat`sect, fat`trace, fat.dev, fat.buf, names, names.buf
      ensures fat.Valid() && names.buf.Length == SECTOR_SIZE && fat.Idle()
      ensures |fat.dev.sectors| == |old(fat.dev.sectors)|
      ensures err == ERR_IO <==> fat.dev.faults > old(fat.dev.faults)
      ensures fat.dev.faults >= old(fat.dev.faults)
      ensures fat.dev.faults == old(fat.dev.faults) ==>
                match Find(tree.items[Home(dirClust)], comp)
                case Missing =>
                  && err == ERR_EOF && dir.Open()
                  && Home(dirClust) in tree.chains && dir.chain == tree.chains[Home(dirClust)]
                case Hit(item) =>
                  && err == ERR_NONE && Arrived(dir, Entry(Home(dirClust), item), loc)
                  && next == Head(item) && (enterable <==> IsDir(item))
      ensures old(fat.Journal()) ==> fat.Journal()
      ensures old(fat.Tame()) ==> fat.Tame()
    {
      hide IsDirectory, Stands, Fat.Valid, Fat.Journal, Fat.Tame, SlotsOf, SlotCount, WellFormed, Items, Find, IsPlace,
           Sound;
      ghost var d := Home(dirClust);
      next, enterable := 0, false;
      SoundDirectory(fat.geo, fat.view, tree, d);
      dir.Enter(dirClust, tree.chains[d]);
      ghost var slots := dir.Slots();
      err, loc := dir.Search(comp);
      if err != ERR_NONE {
        return;
      }
      var sfn := dir.Ptr();
      next, enterable := ClusterOf(sfn), HasBit(sfn[ATTR_AT], 4);
      ListedSlots(slots);
    }

    /** The components of a path on this volume. */
    function Within(path: Name): Option<seq<Name>> {
      Below(name, path)
    }

    /** What a path names. */
    ghost function Named(comps: seq<Name>): Resolution
      requires IsTree(fat.geo.rootClust, tree)
      reads `tree
    {
      Resolve(fat.geo.rootClust, tree, comps)
    }

    /** How `follow_path` ends for a path that resolves to `r`: on an entry, before the root, or on the component that
        is missing, with the cursor's directory the one in which it is missing. */
    ghost predicate Followed(dir: Dir, r: Resolution, path: Name, err: int, at: nat, loc: Loc)
      reads this, dir, names, dir.names, fat, fat.dev, fat.buf, dir.fat, dir.fat.dev, dir.fat.buf
    {
      && at <= |path|
      && match r
         case TheRoot => err == ERR_NONE && Arrived(dir, r, loc) && Split(path[at..]) == []
         case Entry(d, item) => err == ERR_NONE && Arrived(dir, r, loc) && Split(path[at..]) == []
         case NotDirectory => err == ERR_PATH
         case NoEntry(d, rest) =>
           && err == ERR_EOF && dir.fat == fat && dir.names == names && dir.Open()
           && d in tree.chains && dir.chain == tree.chains[d]
           && at < |path| && path[at] != SLASH && Split(path[at..]) == rest
    }

    /** `follow_path`. */
    method FollowPath(dir: Dir, path: Name) returns (err: int, at: nat, loc: Loc)
      requires Consistent() && dir.fat == fat && dir.names == names
      modifies dir, fat`dirty, fat`sect, fat`trace, fat.dev, fat.buf, names, names.buf
      ensures fat.Valid() && names.buf.Length == SECTOR_SIZE && fat.Idle()
      ensures |fat.dev.sectors| == |old(fat.dev.sectors)|
      ensures err == ERR_IO <==> fat.dev.faults > old(fat.dev.faults)
      ensures fat.dev.faults >= old(fat.dev.faults) && at <= |path|
      ensures Consistent()
      ensures fat.dev.faults == old(fat.dev.faults) ==>
                match Within(path)
                case None => err == ERR_PATH
                case Some(comps) => Followed(dir, Named(comps), path, err, at, loc)
      ensures fat.dev.faults == old(fat.dev.faults) ==>
                forall volume: Name, comps: seq<Name> ::
                  IsComponent(volume) && AreComponents(comps) && path == [0x2f] + volume + Join(comps) ==>
                    if volume == name then Followed(dir, Named(comps), path, err, at, loc) else err == ERR_PATH
      ensures old(fat.Journal()) ==> fat.Journal()
      ensures old(fat.Tame()) ==> fat.Tame()
    {
      hide Fat.Valid, Fat.Journal, Fat.Tame, Sound, Followed, Resolve, Split, FirstLen, IsTree, IsDirectory, Stands,
           IsComponent, AreComponents;
      forall volume, comps | IsComponent(volume) && AreComponents(comps) && path == [0x2f] + volume + Join(comps)
        ensures Within(path) == if volume == name then Some(comps) else None
      {
        if volume == name {
          BelowOwn(name, comps);
        } else {
          BelowOther(name, volume, comps);
        }
      }
      at, loc := 0, Loc(0, 0);
      if |path| == 0 || path[0] != SLASH {
        return ERR_PATH, at, loc;
      }
      var len := SubpathLen(path, 1);
      if len == 0 {
        return ERR_PATH, at, loc;
      }
      if path[1..1 + len] != name {
        return ERR_PATH, at, loc;
      }
      TreeFacts(fat.geo, fat.view, tree);
      SoundDirectory(fat.geo, fat.view, tree, fat.geo.rootClust);
      dir.Enter(fat.geo.rootClust, tree.chains[fat.geo.rootClust]);
      err, at, loc := FollowRest(dir, path, 1 + len);
    }

    /** The loop of `follow_path`. */
    method FollowRest(dir: Dir, path: Name, start: nat) returns (err: int, at: nat, loc: Loc)
      requires Consistent() && dir.fat == fat && dir.names == names
      requires IsTree(fat.geo.rootClust, tree) && Arrived(dir, TheRoot, Loc(0, 0)) && start <= |path|
      modifies dir, fat`dirty, fat`sect, fat`trace, fat.dev, fat.buf, names, names.buf
      ensures fat.Valid() && names.buf.Length == SECTOR_SIZE && fat.Idle()
      ensures |fat.dev.sectors| == |old(fat.dev.sectors)|
      ensures err == ERR_IO <==> fat.dev.faults > old(fat.dev.faults)
      ensures fat.dev.faults >= old(fat.dev.faults) && at <= |path|
      ensures Consistent()
      ensures fat.dev.faults == old(fat.dev.faults) ==> Followed(dir, Named(Split(path[start..])), path, err, at, loc)
      ensures old(fat.Journal()) ==> fat.Journal()
      ensures old(fat.Tame()) ==> fat.Tame()
    {
      hide Fat.Valid, Fat.Journal, Fat.Tame, Sound, Split, FirstLen, IsTree, Walk, Find, Arrived, IsDir, Head, Dir.Open;
      var dirClust, enterable := fat.geo.rootClust, true;
      ghost var here: Resolution := TheRoot;
      TreeFacts(fat.geo, fat.view, tree);
      loc, at := Loc(0, 0), start;
      err := ERR_NONE;
      while true
        invariant Consistent() && fat.Idle() && |fat.dev.sectors| == |old(fat.dev.sectors)|
        invariant fat.dev.faults == old(fat.dev.faults) && start <= at <= |path|
        invariant Arrived(dir, here, loc) && Ahead(here, dirClust, enterable)
        invariant Named(Split(path[start..])) == Onward(here, dirClust, enterable, Split(path[at..]))
        invariant old(fat.Journal()) ==> fat.Journal()
        invariant old(fat.Tame()) ==> fat.Tame()
        decreases |path| - at
      {
        at := SkipSlashes(path, at);
        var len := SubpathLen(path, at);
        if len == 0 {
          return ERR_NONE, at, loc;
        }
        if !enterable {
          return ERR_PATH, at, loc;
        }
        SplitFirst(path, at, len);
        WalkStep(fat.geo.rootClust, tree, Home(dirClust), path[at..at + len], Split(path[at + len..]));
        ghost var d := Home(dirClust);
        err, loc, dirClust, enterable := Descend(dir, dirClust, path[at..at + len]);
        if err != ERR_NONE {
          return;
        }
        here := Entry(d, Find(tree.items[d], path[at..at + len]).item);
        at := at + len;
      }
    }

    /** The cluster to enter next, and whether it can be entered, fit where the path has led. */
    ghost predicate Ahead(here: Resolution, dirClust: nat, enterable: bool)
      reads `tree
    {
      && (enterable ==> Home(dirClust) in tree.items)
      && (here.TheRoot? || here.Entry?)
    }

    /** Where the components that are left lead to. */
    ghost function Onward(here: Resolution, dirClust: nat, enterable: bool, rest: seq<Name>): Resolution
      requires IsTree(fat.geo.rootClust, tree) && Ahead(here, dirClust, enterable)
      reads `tree
    {
      if rest == [] then here
      else if enterable then Walk(fat.geo.rootClust, tree, Home(dirClust), rest)
      else NotDirectory
    }

    // ---------- creating ----------

    /** `create_chain`. It fails exactly when no cluster but the one used last is free. After a device fault during
        the scan it may still report success, without having taken a cluster. */
    method CreateChain() returns (err: int, clust: nat)
      requires Consistent()
      modifies this`tree, fat, fat.dev, fat.buf
      ensures fat.Valid() && |fat.dev.sectors| == |old(fat.dev.sectors)|
      ensures fat.geo.Wf(|old(fat.view)|) && |fat.view| == |old(fat.view)|
      ensures fat.dev.faults >= old(fat.dev.faults) && fat.geo.IsCluster(clust)
      ensures err == ERR_NONE && fat.dev.faults > old(fat.dev.faults) ==> fat.view == old(fat.view) && tree == old(tree)
      ensures fat.dev.faults == old(fat.dev.faults) ==>
                && (err == ERR_NONE || err == ERR_FULL) && Consistent()
                && Upkeep(fat.geo, old(fat.view), old(fat.freeCnt), fat.view, fat.freeCnt)
                && SameFiles(fat.geo, old(fat.view), old(tree), fat.view, tree, 0)
                && (err == ERR_FULL <==> forall c :: 2 <= c < fat.geo.clustCnt && c != old(fat.lastUsed) ==>
                       old(fat.Fats())[c] != 0)
                && (err == ERR_FULL <==> old(fat.Full(0)))
                && (err == ERR_FULL ==> fat.view == old(fat.view) && tree == old(tree))
                && (err == ERR_NONE ==>
                     && old(fat.Fats())[clust] == 0 && fat.Fats()[clust] == EOC
                     && Mild(fat.geo, old(fat.view), fat.view)
                     && tree == old(tree).(lost := old(tree).lost + {clust}))
      ensures old(fat.Journal()) ==> fat.Journal()
      ensures old(fat.Tame()) ==> fat.Tame()
    {
      hide Fat.Valid, Fat.Journal, Fat.Tame, Sound, IsTree, Scan, NoneBroken, Table, Mild, Upkeep, Mirrored, Drift,
           SameFiles;
      ghost var v0, f0, t0 := fat.view, fat.freeCnt, tree;
      fat.Facts();
      SoundReadable(fat.geo, v0, t0);
      ChooseSpec(fat.Fats(), 0, fat.lastUsed);
      UpkeepTables(fat.geo, v0, f0, v0);
      SameFilesRefl(fat.geo, v0, t0, 0);
      err, clust := fat.StretchChain(0);
      fat.Facts();
      if fat.dev.faults == old(fat.dev.faults) && err == ERR_NONE {
        SoundTaken(fat.geo, v0, fat.view, t0, clust);
        UpkeepLinked(fat.geo, v0, f0, fat.view, 0, clust);
        tree := t0.(lost := t0.lost + {clust});
        SameFilesMild(fat.geo, v0, t0, fat.view, tree);
      }
    }

    /** All is set for an entry in directory `d`: the name is new there, and the cluster belongs to nobody. */
    ghost predicate Ready(dir: Dir, d: nat, name: Name, clust: nat)
      reads this, dir, names, fat, fat.dev, fat.buf
    {
      && Consistent() && d in tree.items && d in tree.chains && dir.chain == tree.chains[d]
      && clust in tree.lost && clust < fat.geo.clustCnt && fat.Fats()[clust] == EOC
      && Find(tree.items[d], name).Missing?
    }

    /** `dir_add` for a cluster that belongs to nobody yet. If there is no room for the entry, the cluster stays
        lost, and what the directory lists is as before. */
    method AddEntry(dir: Dir, ghost d: nat, name: Name, attr: byte, clust: nat, stamp: Stamp, ghost ok: bool,
                    ghost kids: seq<Item>)
      returns (err: int, ghost item: Item)
      requires dir.fat == fat && dir.names == names && dir.Open() && attr != ATTR_LFN
      requires ok ==> Ready(dir, d, name, clust)
      requires ok && HasBit(attr, 4) ==>
                 && Dotted(kids) && (forall kid :: kid in kids ==> IsDot(kid))
                 && Shows(fat.geo, fat.view, [clust], kids, true)
      modifies this`tree, dir`clust, dir`sect, dir`idx, dir`q, dir`chain, fat, fat.dev, fat.buf
      ensures fat.Valid() && |fat.dev.sectors| == |old(fat.dev.sectors)|
      ensures fat.geo.Wf(|old(fat.view)|) && |fat.view| == |old(fat.view)|
      ensures fat.dev.faults >= old(fat.dev.faults)
      ensures ok && fat.dev.faults == old(fat.dev.faults) && (Storable(name) || |name| > MAX_NAME) ==>
                && (err == ERR_PARAM <==> |name| > MAX_NAME) && (err == ERR_NONE || err == ERR_FULL || err == ERR_PARAM)
                && Consistent() && Upkeep(fat.geo, old(fat.view), old(fat.freeCnt), fat.view, fat.freeCnt)
                && SameFiles(fat.geo, old(fat.view), old(tree), fat.view, tree, 0)
                && (err == ERR_PARAM ==> tree == old(tree) && dir.chain == old(dir.chain))
      ensures ok && fat.dev.faults == old(fat.dev.faults) && Storable(name) && err == ERR_FULL ==>
                && tree == old(tree).(chains := old(tree).chains[d := dir.chain]) && old(dir.chain) <= dir.chain
                && Crowded(fat.geo, fat.view, fat.lastUsed, dir.chain, LfnCount(|name|) + 1)
      ensures ok && fat.dev.faults == old(fat.dev.faults) && Storable(name) && err == ERR_NONE ==>
                && Created(old(tree), tree, d, dir.chain, name, item, kids)
                && item.sfn == SfnSlot(SfnName(name), attr, clust, stamp) && Head(item) == clust
                && dir.Loaded() && dir.Pos() == item.at && dir.chain == tree.chains[d]
      ensures err == ERR_NONE ==>
                dir.Loaded() && dir.Slots()[dir.Pos()] == SfnSlot(SfnName(name), attr, clust, stamp)
      ensures old(fat.Journal()) ==> fat.Journal()
      ensures old(fat.Tame()) ==> fat.Tame()
    {
      hide Fat.Valid, Fat.Journal, Fat.Tame, Fat.Full, Crowded, Sound, Split, FirstLen, IsTree, Find, IsDirectory,
           Stands, SlotsOf, Extends, OnlyEdited, Upkeep, Created, Scanned, WithEntry, SfnSlot, SfnName, Shows, Dotted,
           NoneBroken, Table, PlainBytes, LfnCount, SameFiles;
      ghost var v0, f0, t0, ch0 := fat.view, fat.freeCnt, tree, dir.chain;
      fat.Facts();
      if ok {
        SoundReadable(fat.geo, v0, t0);
        SameFilesRefl(fat.geo, v0, t0, 0);
      }
      UpkeepTables(fat.geo, v0, f0, v0);
      ghost var room;
      err, room := dir.Add(name, attr, clust, stamp);
      fat.Facts();
      ghost var n := LfnCount(|name|);
      item := NewItem(room.start, name, n, SfnSlot(SfnName(name), attr, clust, stamp));
      if ok && fat.dev.faults == old(fat.dev.faults) && Storable(name) {
        if err == ERR_FULL {
          ExtendsFacts(fat.geo, v0, f0, ch0, fat.view, fat.freeCnt, dir.chain);
          ExtendsUpkeep(fat.geo, v0, f0, ch0, fat.view, fat.freeCnt, dir.chain);
          SoundExtended(fat.geo, v0, f0, fat.view, fat.freeCnt, t0, d, dir.chain);
          FilesExtended(fat.geo, v0, f0, fat.view, fat.freeCnt, t0, d, dir.chain);
          tree := t0.(chains := t0.chains[d := dir.chain]);
        } else {
          ExtendsFacts(fat.geo, v0, f0, ch0, room.img, fat.freeCnt, dir.chain);
          EditUpkeep(fat.geo, v0, f0, room.img, fat.freeCnt, fat.view, ch0, dir.chain);
          CreatedBy(fat.geo, v0, f0, fat.view, fat.freeCnt, t0, d, dir.chain, room, name, attr, clust, stamp, kids);
          tree := Adopted(t0.(chains := t0.chains[d := dir.chain]), d, item, Items(dir.Slots(), 0), kids);
          FilesCreated(fat.geo, v0, f0, room.img, fat.freeCnt, fat.view, t0, tree, d, dir.chain, name, item, kids);
        }
      }
    }

    /** The part of `fat_file_open` that creates the file: a chain of one cluster and an entry for it. */
    method CreateFile(dir: Dir, ghost d: nat, name: Name, stamp: Stamp) returns (err: int, ghost item: Item)
      requires Consistent() && dir.fat == fat && dir.names == names
      requires d in tree.items && d in tree.chains && dir.Open() && dir.chain == tree.chains[d]
      requires Find(tree.items[d], name).Missing?
      modifies this`tree, dir`clust, dir`sect, dir`idx, dir`q, dir`chain, fat, fat.dev, fat.buf
      ensures fat.Valid() && |fat.dev.sectors| == |old(fat.dev.sectors)|
      ensures fat.geo.Wf(|old(fat.view)|) && |fat.view| == |old(fat.view)|
      ensures fat.dev.faults >= old(fat.dev.faults)
      ensures fat.dev.faults == old(fat.dev.faults) && (Storable(name) || |name| > MAX_NAME) ==>
                && (err == ERR_NONE ==> !old(fat.Full(0)) && Storable(name))
                && Consistent() && Upkeep(fat.geo, old(fat.view), old(fat.freeCnt), fat.view, fat.freeCnt)
                && SameFiles(fat.geo, old(fat.view), old(tree), fat.view, tree, 0)
                && (err != ERR_NONE ==>
                       NotCreated(fat.geo, fat.view, fat.lastUsed, old(fat.Fats()), old(fat.Full(0)), name, err,
                                  old(tree), tree, d))
      ensures fat.dev.faults == old(fat.dev.faults) && (Storable(name) || |name| > MAX_NAME) && err == ERR_NONE ==>
                && Created(old(tree), tree, d, dir.chain, name, item, []) && Unowned(old(tree), Head(item))
                && Head(item) < fat.geo.clustCnt && old(fat.Fats())[Head(item)] == 0
                && item.sfn == SfnSlot(SfnName(name), ATTR_ARCHIVE, Head(item), stamp) && item.sfn[11] == 0x20
                && dir.Loaded() && dir.Pos() == item.at && dir.chain == tree.chains[d]
      ensures err == ERR_NONE ==> dir.Loaded() && SizeOf(dir.Slots()[dir.Pos()]) == 0
      ensures old(fat.Journal()) ==> fat.Journal()
      ensures old(fat.Tame()) ==> fat.Tame()
    {
      hide Fat.Valid, Fat.Journal, Fat.Tame, Fat.Full, Crowded, Sound, IsTree, Find, IsDirectory, Stands, SlotsOf,
           Upkeep, Created, SfnSlot, SfnName, Shows, Dotted, NoneBroken, Table, PlainBytes, Mild, SameFiles;
      ghost var v0, f0, t0, ch0 := fat.view, fat.freeCnt, tree, dir.chain;
      item := NewItem(0, [], 0, seq(32, _ => 0));
      var clust;
      fat.Facts();
      err, clust := CreateChain();
      if err != ERR_NONE {
        return;
      }
      ghost var v1, f1, t1 := fat.view, fat.freeCnt, tree;
      SoundDirectory(fat.geo, v1, t1, d);
      err, item := AddEntry(dir, d, name, ATTR_ARCHIVE, clust, stamp, fat.dev.faults == old(fat.dev.faults), []);
      SfnSlotFields(SfnName(name), ATTR_ARCHIVE, clust, stamp);
      if fat.dev.faults == old(fat.dev.faults) && (Storable(name) || |name| > MAX_NAME) {
        TakenThen(fat.geo, v0, f0, t0, v1, f1, t1, fat.view, fat.freeCnt, tree, clust);
        if err == ERR_NONE {
          CreatedFrom(t0, tree, d, dir.chain, name, item, []);
        } else {
          TakenLeaks(old(fat.Fats()), t0, t1, tree, d, dir.chain, clust);
        }
      }
    }

    /** The part of `fat_dir_create` that prepares the cluster of the new directory: it is cleared and gets its dot
        entries. The parent is named by 0 if it is the root. */
    method PrepareDir(clust: nat, parent: nat, stamp: Stamp) returns (err: int)
      requires fat.Valid() && fat.geo.IsCluster(clust)
      modifies fat`dirty, fat`sect, fat`trace, fat`view, fat.dev, fat.buf
      ensures fat.Valid() && |fat.dev.sectors| == |old(fat.dev.sectors)| && fat.SameCounters()
      ensures err == ERR_NONE || err == ERR_IO
      ensures err == ERR_IO ==> fat.dev.faults > old(fat.dev.faults)
      ensures err == ERR_NONE ==> fat.dev.faults == old(fat.dev.faults)
      ensures err == ERR_NONE ==>
                && SameTables(fat.geo, old(fat.view), fat.view) && SameOthers(fat.geo, old(fat.view), fat.view, [clust])
                && Shows(fat.geo, fat.view, [clust], DotItems(clust, parent, stamp), true)
      ensures old(fat.Journal()) ==> fat.Journal()
      ensures old(fat.Tame()) ==> fat.Tame()
    {
      hide Fat.Valid, Fat.Journal, Fat.Tame, Zeroed, Geometry.ClustToSect, Geometry.Wf, SameTables, SameOthers,
           WithDots, DotItems, Shows;
      fat.Facts();
      err := fat.ClustClear(clust);
      if err != ERR_NONE {
        return;
      }
      ghost var v1 := fat.view;
      fat.Facts();
      FirstSector(fat.geo, |v1|, clust);
      err := fat.UpdateBuf(fat.geo.ClustToSect(clust));
      if err != ERR_NONE {
        return;
      }
      PutDots(fat, clust, parent, stamp);
      DotsShow(fat.geo, old(fat.view), v1, fat.view, clust, clust, parent, stamp);
    }

    /** The part of `fat_dir_create` that gets the cluster of the new directory, which belongs to nobody yet. */
    method TakeDir(dir: Dir, ghost d: nat, parent: nat, stamp: Stamp) returns (err: int, clust: nat)
      requires Consistent() && dir.fat == fat && dir.names == names
      requires d in tree.items && d in tree.chains && dir.Open() && dir.chain == tree.chains[d]
      modifies this`tree, fat, fat.dev, fat.buf
      ensures fat.Valid() && |fat.dev.sectors| == |old(fat.dev.sectors)|
      ensures fat.geo.Wf(|old(fat.view)|) && |fat.view| == |old(fat.view)|
      ensures fat.dev.faults >= old(fat.dev.faults) && fat.geo.IsCluster(clust)
      ensures err == ERR_NONE ==> dir.Open()
      ensures fat.dev.faults == old(fat.dev.faults) ==>
                && Consistent() && Upkeep(fat.geo, old(fat.view), old(fat.freeCnt), fat.view, fat.freeCnt)
                && SameFiles(fat.geo, old(fat.view), old(tree), fat.view, tree, 0)
                && (err == ERR_NONE || err == ERR_FULL) && (err == ERR_FULL <==> old(fat.Full(0)))
                && (err == ERR_FULL ==> fat.view == old(fat.view) && tree == old(tree))
      ensures fat.dev.faults == old(fat.dev.faults) && err == ERR_NONE ==>
                && old(fat.Fats())[clust] == 0 && fat.Fats()[clust] == EOC
                && tree == old(tree).(lost := old(tree).lost + {clust})
                && Shows(fat.geo, fat.view, [clust], DotItems(clust, parent, stamp), true)
      ensures old(fat.Journal()) ==> fat.Journal()
      ensures old(fat.Tame()) ==> fat.Tame()
    {
      hide Fat.Valid, Fat.Journal, Fat.Tame, Fat.Full, Sound, IsTree, IsDirectory, Stands, SlotsOf, Upkeep, Shows,
           NoneBroken, Table, Mild, SameTables, SameOthers, DotItems, Geometry.Wf, Geometry.ClustToSect, SameFiles;
      ghost var v0, f0, t0, ch := fat.view, fat.freeCnt, tree, dir.chain;
      fat.Facts();
      err, clust := CreateChain();
      if err != ERR_NONE {
        return;
      }
      ghost var v1, f1, t1 := fat.view, fat.freeCnt, tree;
      fat.Facts();
      SoundDirectory(fat.geo, v1, t1, d);
      err := PrepareDir(clust, parent, stamp);
      fat.Facts();
      if err != ERR_NONE {
        return;
      }
      DirectoryFrame(fat.geo, v1, fat.view, ch);
      if fat.dev.faults == old(fat.dev.faults) {
        SoundScratch(fat.geo, v1, fat.view, t1, clust);
        SameTablesFrame(fat.geo, v1, fat.view);
        UpkeepTables(fat.geo, v1, f1, fat.view);
        UpkeepTrans(fat.geo, v0, f0, v1, f1, fat.view, f1);
        SameFilesScratch(fat.geo, v1, fat.view, t1, clust);
        SameFilesOn(fat.geo, v0, t0, v1, t1, fat.view, t1);
      }
    }

    /** The part of `fat_dir_create` that makes the directory: a chain of one cluster with the dot entries, and an entry
        for it. */
    method AddDir(dir: Dir, ghost d: nat, name: Name, stamp: Stamp) returns (err: int, clust: nat, ghost item: Item)
      requires Consistent() && dir.fat == fat && dir.names == names
      requires d in tree.items && d in tree.chains && dir.Open() && dir.chain == tree.chains[d]
      requires Find(tree.items[d], name).Missing?
      modifies this`tree, dir`clust, dir`sect, dir`idx, dir`q, dir`chain, fat, fat.dev, fat.buf
      ensures fat.Valid() && |fat.dev.sectors| == |old(fat.dev.sectors)|
      ensures fat.geo.Wf(|old(fat.view)|) && |fat.view| == |old(fat.view)|
      ensures fat.dev.faults >= old(fat.dev.faults) && fat.geo.IsCluster(clust)
      ensures fat.dev.faults == old(fat.dev.faults) && (Storable(name) || |name| > MAX_NAME) ==>
                && (err == ERR_NONE ==> !old(fat.Full(0)) && Storable(name))
                && Consistent() && Upkeep(fat.geo, old(fat.view), old(fat.freeCnt), fat.view, fat.freeCnt)
                && SameFiles(fat.geo, old(fat.view), old(tree), fat.view, tree, 0)
                && (err != ERR_NONE ==>
                       NotCreated(fat.geo, fat.view, fat.lastUsed, old(fat.Fats()), old(fat.Full(0)), name, err,
                                  old(tree), tree, d))
      ensures fat.dev.faults == old(fat.dev.faults) && (Storable(name) || |name| > MAX_NAME) && err == ERR_NONE ==>
                && Head(item) == clust < fat.geo.clustCnt && old(fat.Fats())[clust] == 0 && Unowned(old(tree), clust)
                && Created(old(tree), tree, d, dir.chain, name, item,
                           DotItems(clust, if d == fat.geo.rootClust then 0 else d, stamp))
                && item.sfn == SfnSlot(SfnName(name), ATTR_DIR, clust, stamp)
      ensures old(fat.Journal()) ==> fat.Journal()
      ensures old(fat.Tame()) ==> fat.Tame()
    {
      hide Fat.Valid, Fat.Journal, Fat.Tame, Fat.Full, Crowded, Sound, IsTree, Find, IsDirectory, Stands, SlotsOf,
           Upkeep, Created, SfnSlot, SfnName, Shows, Dotted, NoneBroken, Table, PlainBytes, DotItems, Geometry.Wf,
           SameFiles;
      ghost var v0, f0, t0 := fat.view, fat.freeCnt, tree;
      item := NewItem(0, [], 0, seq(32, _ => 0));
      fat.Facts();
      var parent := if dir.sclust == fat.geo.rootClust then 0 else dir.sclust;
      SoundDirectory(fat.geo, v0, t0, d);
      err, clust := TakeDir(dir, d, parent, stamp);
      if err != ERR_NONE {
        return;
      }
      ghost var v1, f1, t1, kids := fat.view, fat.freeCnt, tree, DotItems(clust, parent, stamp);
      DotItemsDotted(clust, parent, stamp);
      err, item := AddEntry(dir, d, name, ATTR_DIR, clust, stamp, fat.dev.faults == old(fat.dev.faults), kids);
      if fat.dev.faults == old(fat.dev.faults) && (Storable(name) || |name| > MAX_NAME) {
        TakenThen(fat.geo, v0, f0, t0, v1, f1, t1, fat.view, fat.freeCnt, tree, clust);
        if err == ERR_NONE {
          CreatedFrom(t0, tree, d, dir.chain, name, item, kids);
        } else {
          TakenLeaks(old(fat.Fats()), t0, t1, tree, d, dir.chain, clust);
        }
      }
    }

    /** The end of `fat_dir_create`: enter the new directory and write everything back. */
    method FinishDir(dir: Dir, clust: nat, ghost ok: bool) returns (err: int)
      requires fat.Valid() && fat.geo.IsCluster(clust) && dir.fat == fat && dir.names == names
      requires ok ==> Consistent() && clust in tree.items && clust in tree.chains && tree.chains[clust] == [clust]
      modifies dir, fat, fat.dev, fat.buf
      ensures fat.Valid() && |fat.dev.sectors| == |old(fat.dev.sectors)|
      ensures fat.geo.Wf(|old(fat.view)|) && |fat.view| == |old(fat.view)|
      ensures err == ERR_NONE || err == ERR_IO
      ensures err == ERR_IO ==> fat.dev.faults > old(fat.dev.faults)
      ensures err == ERR_NONE ==> fat.dev.faults == old(fat.dev.faults) && fat.dev.sectors == fat.view
      ensures ok && err == ERR_NONE ==>
                && Consistent() && Upkeep(fat.geo, old(fat.view), old(fat.freeCnt), fat.view, fat.freeCnt)
                && SameFiles(fat.geo, old(fat.view), old(tree), fat.view, tree, 0)
                && dir.Valid() && dir.Pos() == 0 && dir.chain == [clust]
      ensures old(fat.Journal()) ==> fat.Journal()
      ensures old(fat.Tame()) ==> fat.Tame()
    {
      hide Fat.Valid, Fat.Journal, Fat.Tame, Sound, IsTree, IsDirectory, Stands, SlotsOf, Upkeep, Table, Mild,
           Geometry.Wf, Geometry.ClustToSect, SameFiles;
      ghost var v0 := fat.view;
      fat.Facts();
      dir.Reset(clust, [clust]);
      err := fat.SyncFs();
      fat.Facts();
      if ok && err == ERR_NONE {
        SoundFrame(fat.geo, v0, fat.view, tree);
        SameFilesMild(fat.geo, v0, tree, fat.view, tree);
        MildUpkeep(fat.geo, v0, fat.freeCnt, fat.view);
        SoundDirectory(fat.geo, fat.view, tree, clust);
        StandsAtStart(fat.geo, fat.view, [clust]);
      }
    }

    /** The part of `fat_dir_create` after the path has been followed. */
    method MakeDir(dir: Dir, ghost d: nat, name: Name, stamp: Stamp) returns (err: int, ghost item: Item)
      requires Consistent() && dir.fat == fat && dir.names == names
      requires d in tree.items && d in tree.chains && dir.Open() && dir.chain == tree.chains[d]
      requires Find(tree.items[d], name).Missing?
      modifies this`tree, dir, fat, fat.dev, fat.buf
      ensures fat.Valid() && |fat.dev.sectors| == |old(fat.dev.sectors)|
      ensures fat.geo.Wf(|old(fat.view)|) && |fat.view| == |old(fat.view)|
      ensures fat.dev.faults >= old(fat.dev.faults)
      ensures fat.dev.faults == old(fat.dev.faults) && (Storable(name) || |name| > MAX_NAME) ==>
                && (err == ERR_NONE ==> !old(fat.Full(0)) && Storable(name))
                && Consistent() && Upkeep(fat.geo, old(fat.view), old(fat.freeCnt), fat.view, fat.freeCnt)
                && SameFiles(fat.geo, old(fat.view), old(tree), fat.view, tree, 0)
                && (err != ERR_NONE ==>
                       NotCreated(fat.geo, fat.view, fat.lastUsed, old(fat.Fats()), old(fat.Full(0)), name, err,
                                  old(tree), tree, d))
      ensures fat.dev.faults == old(fat.dev.faults) && (Storable(name) || |name| > MAX_NAME) && err == ERR_NONE ==>
                && Head(item) < fat.geo.clustCnt && old(fat.Fats())[Head(item)] == 0 && d in tree.chains
                && Unowned(old(tree), Head(item))
                && Created(old(tree), tree, d, tree.chains[d], name, item,
                           DotItems(Head(item), if d == fat.geo.rootClust then 0 else d, stamp))
                && item.sfn == SfnSlot(SfnName(name), ATTR_DIR, Head(item), stamp) && item.sfn[11] == 0x10
                && fat.dev.sectors == fat.view && dir.Valid() && dir.Pos() == 0 && dir.chain == [Head(item)]
      ensures old(fat.Journal()) ==> fat.Journal()
      ensures old(fat.Tame()) ==> fat.Tame()
    {
      hide Fat.Valid, Fat.Journal, Fat.Tame, Sound, IsTree, Find, IsDirectory, Stands, SlotsOf, Upkeep, Created,
           SfnSlot, SfnName, Table, PlainBytes, DotItems, Geometry.Wf, NotCreated, SameFiles;
      ghost var v0, f0, t0 := fat.view, fat.freeCnt, tree;
      fat.Facts();
      var clust;
      err, clust, item := AddDir(dir, d, name, stamp);
      if err != ERR_NONE {
        return;
      }
      ghost var v1, f1, t1, ch := fat.view, fat.freeCnt, tree, dir.chain;
      ghost var kids := DotItems(clust, if d == fat.geo.rootClust then 0 else d, stamp);
      ghost var ok := fat.dev.faults == old(fat.dev.faults) && (Storable(name) || |name| > MAX_NAME);
      if ok {
        HeadInUse(fat.geo, v0, t0, d);
        CreatedChains(t0, tree, d, ch, name, item, kids);
        SfnSlotFields(SfnName(name), ATTR_DIR, clust, stamp);
      }
      err := FinishDir(dir, clust, ok);
      if ok && err == ERR_NONE {
        FilesMade(fat.geo, v0, v1, fat.view, t0, t1, d, ch, name, item, kids);
        UpkeepTrans(fat.geo, v0, f0, v1, f1, fat.view, fat.freeCnt);
      }
    }

    /** `fat_dir_create`. A path that exists already is reported as success without anything being done. Otherwise only
        the last component may be missing; the new directory is then listed under it and entered. */
    method DirCreate(dir: Dir, path: Name, stamp: Stamp) returns (err: int, ghost item: Item)
      requires Consistent() && IsTree(fat.geo.rootClust, tree) && dir.fat == fat && dir.names == names
      modifies this`tree, dir, fat, fat.dev, fat.buf, names, names.buf
      ensures fat.Valid() && |fat.dev.sectors| == |old(fat.dev.sectors)|
      ensures fat.geo.Wf(|old(fat.view)|) && |fat.view| == |old(fat.view)|
      ensures fat.dev.faults >= old(fat.dev.faults)
      ensures fat.dev.faults == old(fat.dev.faults) && Within(path).None? ==>
                err == ERR_PATH && tree == old(tree) && Consistent()
      ensures fat.dev.faults == old(fat.dev.faults) && Within(path).Some? ==>
                match old(Named(Within(path).value))
                case NotDirectory => err == ERR_PATH && tree == old(tree) && Consistent()
                case NoEntry(d, rest) =>
                  rest != [] && (|rest| > 1 ==> err == ERR_PATH && tree == old(tree) && Consistent())
                case _ => err == ERR_NONE && tree == old(tree) && Consistent()
      ensures fat.dev.faults == old(fat.dev.faults) && Within(path).Some? ==>
                var r := old(Named(Within(path).value));
                (r.NoEntry? ==> |r.rest| > 1) ==>
                  && Upkeep(fat.geo, old(fat.view), old(fat.freeCnt), fat.view, fat.freeCnt)
                  && SameFiles(fat.geo, old(fat.view), old(tree), fat.view, tree, 0)
      ensures fat.dev.faults == old(fat.dev.faults) && Within(path).None? ==>
                && Upkeep(fat.geo, old(fat.view), old(fat.freeCnt), fat.view, fat.freeCnt)
                && SameFiles(fat.geo, old(fat.view), old(tree), fat.view, tree, 0)
      ensures fat.dev.faults == old(fat.dev.faults) && Within(path).Some? ==>
                var r := old(Named(Within(path).value));
                r.NoEntry? && |r.rest| == 1 && (Storable(r.rest[0]) || |r.rest[0]| > MAX_NAME) ==>
                  && Consistent() && Upkeep(fat.geo, old(fat.view), old(fat.freeCnt), fat.view, fat.freeCnt)
                  && SameFiles(fat.geo, old(fat.view), old(tree), fat.view, tree, 0)
                  && (err == ERR_NONE ==> !old(fat.Full(0)) && Storable(r.rest[0]))
                  && (err != ERR_NONE ==>
                        NotCreated(fat.geo, fat.view, fat.lastUsed, old(fat.Fats()), old(fat.Full(0)), r.rest[0], err,
                                   old(tree), tree, r.dir))
                  && (err == ERR_NONE ==>
                        && DirMade(fat.geo.rootClust, old(tree), tree, r.dir, r.rest[0], item, stamp)
                        && fat.dev.sectors == fat.view
                        && dir.Valid() && dir.Pos() == 0 && dir.chain == [Head(item)])
      ensures old(fat.Journal()) ==> fat.Journal()
      ensures old(fat.Tame()) ==> fat.Tame()
    {
      hide Fat.Valid, Fat.Journal, Fat.Tame, Sound, IsTree, IsDirectory, Resolve, Arrived, Find, Within, Split,
           FirstLen, Geometry.Wf, Upkeep, Table, NotCreated, Storable, SameFiles, DirMade, Walk;
      item := NewItem(0, [], 0, seq(32, _ => 0));
      fat.Facts();
      UpkeepTables(fat.geo, fat.view, fat.freeCnt, fat.view);
      SameFilesRefl(fat.geo, fat.view, tree, 0);
      var at, loc;
      err, at, loc := FollowPath(dir, path);
      fat.Facts();
      if err != ERR_EOF {
        return;
      }
      ghost var r := Named(Within(path).value);
      NamedMissing(fat.geo.rootClust, tree, Within(path).value);
      err, item := DirCreateAt(dir, path, at, r.dir, r.rest, stamp);
    }

    /** The part of `fat_dir_create` once the path has been found to be missing. */
    method DirCreateAt(dir: Dir, path: Name, at: nat, ghost d: nat, ghost rest: seq<Name>, stamp: Stamp)
      returns (err: int, ghost item: Item)
      requires Consistent() && dir.fat == fat && dir.names == names
      requires d in tree.items && d in tree.chains && dir.Open() && dir.chain == tree.chains[d]
      requires at < |path| && path[at] != SLASH && rest == Split(path[at..]) && rest != []
      requires Find(tree.items[d], rest[0]).Missing?
      modifies this`tree, dir, fat, fat.dev, fat.buf
      ensures fat.Valid() && |fat.dev.sectors| == |old(fat.dev.sectors)|
      ensures fat.geo.Wf(|old(fat.view)|) && |fat.view| == |old(fat.view)|
      ensures fat.dev.faults >= old(fat.dev.faults)
      ensures |rest| > 1 ==>
                && err == ERR_PATH && tree == old(tree) && Consistent() && fat.dev.faults == old(fat.dev.faults)
                && fat.view == old(fat.view) && fat.freeCnt == old(fat.freeCnt)
      ensures fat.dev.faults == old(fat.dev.faults) && |rest| == 1 && (Storable(rest[0]) || |rest[0]| > MAX_NAME) ==>
                && Consistent() && Upkeep(fat.geo, old(fat.view), old(fat.freeCnt), fat.view, fat.freeCnt)
                && SameFiles(fat.geo, old(fat.view), old(tree), fat.view, tree, 0)
                && (err == ERR_NONE ==> !old(fat.Full(0)) && Storable(rest[0]))
                && (err != ERR_NONE ==>
                      NotCreated(fat.geo, fat.view, fat.lastUsed, old(fat.Fats()), old(fat.Full(0)), rest[0], err,
                                 old(tree), tree, d))
      ensures fat.dev.faults == old(fat.dev.faults) && |rest| == 1 && (Storable(rest[0]) || |rest[0]| > MAX_NAME)
              && err == ERR_NONE ==>
                && DirMade(fat.geo.rootClust, old(tree), tree, d, rest[0], item, stamp) && fat.dev.sectors == fat.view
                && dir.Valid() && dir.Pos() == 0 && dir.chain == [Head(item)]
      ensures old(fat.Journal()) ==> fat.Journal()
      ensures old(fat.Tame()) ==> fat.Tame()
    {
      hide Fat.Valid, Fat.Journal, Fat.Tame, Sound, IsTree, IsDirectory, Find, Split, FirstLen, Geometry.Wf, Upkeep,
           Table, NotCreated, Storable, SameFiles, Created, DotItems, SfnSlot, SfnName;
      item := NewItem(0, [], 0, seq(32, _ => 0));
      fat.Facts();
      var len := LastSubpathLen(path, at);
      SplitFirst(path, at, FirstLen(path[at..]));
      if len == 0 {
        return ERR_PATH, item;
      }
      err, item := MakeDir(dir, d, path[at..at + len], stamp);
    }

    // ---------- unlinking ----------

    /** `dir_at_root`. */
    predicate AtRoot(dir: Dir)
      reads dir
    {
      && dir.clust == fat.geo.rootClust && dir.idx == 0
      && 2 <= fat.geo.rootClust && dir.sect == fat.geo.ClustToSect(fat.geo.rootClust)
    }

    /** That test holds before the root, and on an entry in the root's first slot as well. */
    lemma AtRootIff(dir: Dir, d: nat)
      requires Consistent() && dir.fat == fat && dir.names == names && dir.Valid()
      requires d in tree.items && d in tree.chains && dir.chain == tree.chains[d]
      ensures AtRoot(dir) <==> d == fat.geo.rootClust && dir.Pos() == 0
    {
      hide Fat.Valid, Sound, IsTree, IsDirectory, Owns, Table, SlotsOf, Row, Col, SectAt;
      var g, ch := fat.geo, tree.chains[d];
      SoundDirectory(g, fat.view, tree, d);
      TreeFacts(g, fat.view, tree);
      SoundDirectory(g, fat.view, tree, g.rootClust);
      StandsAtStart(g, fat.view, ch);
      if AtRoot(dir) {
        LastInUse(g, fat.view, tree.chains[g.rootClust]);
        assert ch[Row(g, dir.q)] == g.rootClust && tree.chains[g.rootClust][0] == g.rootClust;
        OwnerUnique(g, fat.view, tree, d, g.rootClust, g.rootClust);
        StandsUnique(g, fat.view, ch, dir.q, dir.clust, dir.sect, 0, 0, ch[0]);
      }
    }

    /** The emptiness test of `fat_unlink`. */
    method CheckEmpty(clust: nat) returns (err: int)
      requires Consistent() && clust in tree.items && clust != 0 && clust != fat.geo.rootClust
      modifies fat`dirty, fat`sect, fat`trace, fat.dev, fat.buf
      ensures Consistent() && fat.Idle() && |fat.dev.sectors| == |old(fat.dev.sectors)|
      ensures err == ERR_IO <==> fat.dev.faults > old(fat.dev.faults)
      ensures fat.dev.faults >= old(fat.dev.faults) && fat.geo.Wf(|fat.view|)
      ensures clust in tree.chains && 0 < fat.geo.spc && Backed(fat.geo, |fat.view|, tree.chains[clust])
      ensures fat.dev.faults == old(fat.dev.faults) ==>
                err == if |tree.items[clust]| > 2 then ERR_DENIED
                       else if !EndMarked(SlotsOf(fat.geo, fat.view, tree.chains[clust])) then ERR_EOF
                       else ERR_NONE
      ensures old(fat.Journal()) ==> fat.Journal()
      ensures old(fat.Tame()) ==> fat.Tame()
    {
      hide Fat.Valid, Fat.Journal, Fat.Tame, Sound, IsTree, IsDirectory, Stands, SlotsOf, SlotCount, Items, WellFormed,
           EmptyTo, EndMarked, Dotted, Backed, Geometry.Wf;
      fat.Facts();
      SoundDirectory(fat.geo, fat.view, tree, clust);
      SoundDotted(fat.geo, fat.view, tree, clust);
      DirectoryOnDevice(fat.geo, fat.view, tree.chains[clust]);
      var tmp := new Dir(fat, names);
      tmp.Enter(clust, tree.chains[clust]);
      DotSlots(tmp.Slots());
      StartEmpty(tmp.Slots());
      EmptyVerdict(tmp.Slots(), 2);
      err := tmp.Next();
      if err != ERR_NONE {
        return;
      }
      err := tmp.Next();
      if err != ERR_NONE {
        return;
      }
      err := EmptyScan(tmp);
    }

    /** The loop of that test. */
    method EmptyScan(dir: Dir) returns (err: int)
      requires dir.fat == fat && dir.names == names && dir.Valid() && dir.Pos() == 2
      requires WellFormed(dir.Slots(), 0) && Dotted(Items(dir.Slots(), 0))
      modifies dir`clust, dir`sect, dir`idx, dir`q, fat`dirty, fat`sect, fat`trace, fat.dev, fat.buf
      ensures dir.Open() && fat.Idle() && |fat.dev.sectors| == |old(fat.dev.sectors)|
      ensures err == ERR_IO <==> fat.dev.faults > old(fat.dev.faults)
      ensures fat.dev.faults >= old(fat.dev.faults)
      ensures fat.dev.faults == old(fat.dev.faults) ==>
                err == if |Items(dir.Slots(), 0)| > 2 then ERR_DENIED
                       else if !EndMarked(dir.Slots()) then ERR_EOF
                       else ERR_NONE
      ensures old(fat.Journal()) ==> fat.Journal()
      ensures old(fat.Tame()) ==> fat.Tame()
    {
      hide Fat.Valid, Fat.Journal, Fat.Tame, IsDirectory, Stands, SlotsOf, SlotCount, Items, WellFormed, EmptyTo,
           EndMarked, Dotted;
      ghost var slots := dir.Slots();
      StandsInRange(fat.geo, fat.view, dir.chain, dir.q, dir.clust, dir.sect, dir.idx);
      StartEmpty(slots);
      err := ERR_NONE;
      while true
        invariant dir.Valid() && dir.Slots() == slots && fat.Idle() && |fat.dev.sectors| == |old(fat.dev.sectors)|
        invariant fat.dev.faults == old(fat.dev.faults) && dir.Pos() < |slots| && EmptyTo(slots, dir.Pos())
        invariant old(fat.Journal()) ==> fat.Journal()
        invariant old(fat.Tame()) ==> fat.Tame()
        decreases |slots| - dir.Pos()
      {
        EmptyVerdict(slots, dir.Pos());
        err := dir.Load();
        if err != ERR_NONE {
          return;
        }
        var sfn := dir.Ptr();
        if IsLast(sfn) {
          return ERR_NONE;
        }
        if !IsFree(sfn) {
          return ERR_DENIED;
        }
        EmptyStep(slots, dir.Pos());
        EmptyVerdict(slots, dir.Pos() + 1);
        err := dir.Next();
        if err != ERR_NONE {
          return;
        }
        StandsInRange(fat.geo, fat.view, dir.chain, dir.q, dir.clust, dir.sect, dir.idx);
      }
    }

    /** The end of `fat_unlink`: release the clusters, mark the slots free, write everything back. */
    method RemoveEntry(dir: Dir, clust: nat, loc: Loc, ghost d: nat, ghost item: Item) returns (err: int)
      requires Consistent() && dir.fat == fat && dir.names == names && dir.Valid() && Standing(dir, d, item, loc)
      requires d in tree.items && item in tree.items[d] && !IsDot(item) && clust == Head(item)
      requires Head(item) in tree.items ==> |tree.items[Head(item)]| == 2
      modifies this`tree, dir`clust, dir`sect, dir`idx, dir`q, fat, fat.dev, fat.buf
      ensures fat.Valid() && |fat.dev.sectors| == |old(fat.dev.sectors)|
      ensures fat.geo.Wf(|old(fat.view)|) && |fat.view| == |old(fat.view)|
      ensures err == ERR_IO <==> fat.dev.faults > old(fat.dev.faults)
      ensures fat.dev.faults >= old(fat.dev.faults)
      ensures fat.dev.faults == old(fat.dev.faults) ==>
                Consistent() && SameFiles(fat.geo, old(fat.view), old(tree), fat.view, tree, 0)
      ensures fat.dev.faults == old(fat.dev.faults) && Head(item) == 0 && KindAt(old(fat.Fats()), 0) != Last ==>
                && err == ERR_BROKEN && tree == old(tree)
                && Upkeep(fat.geo, old(fat.view), old(fat.freeCnt), fat.view, fat.freeCnt)
      ensures fat.dev.faults == old(fat.dev.faults) && !(Head(item) == 0 && KindAt(old(fat.Fats()), 0) != Last) ==>
                && err == ERR_NONE && Unlinked(old(tree), tree, d, item) && fat.dev.sectors == fat.view
                && fat.Fats() == Cleared(old(fat.Fats()), Freed(old(tree), item))
                && fat.freeCnt == IncrementedBy(old(fat.freeCnt), |Freed(old(tree), item)|)
                && (Head(item) != 0 ==> Upkeep(fat.geo, old(fat.view), old(fat.freeCnt), fat.view, fat.freeCnt))
      ensures old(fat.Journal()) ==> fat.Journal()
      ensures old(fat.Tame()) && old(tree.tidy) ==> fat.Tame()
    {
      hide Fat.Valid, Fat.Journal, Fat.Tame, Sound, IsTree, IsDirectory, Stands, SlotsOf, SlotCount, Items, WellFormed,
           IsPlace, Table, Mild, MarkedFree, OnlyEdited, Release, Cleared, Freed, Upkeep, IsDot, Dropped, Removed,
           KindAt, Geometry.Wf, SameFiles;
      ghost var v0, f0, t0 := fat.view, fat.freeCnt, tree;
      fat.Facts();
      ReleaseFreed(fat.geo, v0, t0, d, item);
      if tree.tidy {
        ReleaseTame(fat.geo, v0, t0, d, item);
      }
      err := fat.RemoveChain(clust);
      fat.Facts();
      if err != ERR_NONE {
        if err != ERR_IO {
          SoundFrame(fat.geo, v0, fat.view, t0);
          SameFilesMild(fat.geo, v0, t0, fat.view, t0);
          MildUpkeep(fat.geo, v0, f0, fat.view);
        }
        return;
      }
      ReleasedElsewhere(fat.geo, v0, fat.view, t0, d, item);
      ReleaseUpkeep(fat.geo, v0, f0, fat.view, fat.freeCnt, t0, d, item);
      ghost var v1, f1 := fat.view, fat.freeCnt;
      err := DropEntry(dir, loc, d, item, v0);
      if err == ERR_NONE && Head(item) != 0 {
        UpkeepTrans(fat.geo, v0, f0, v1, f1, fat.view, f1);
      }
    }

    /** The second half of this: mark the slots free and write everything back. */
    method DropEntry(dir: Dir, loc: Loc, ghost d: nat, ghost item: Item, ghost v0: Image) returns (err: int)
      requires dir.fat == fat && dir.names == names && dir.Valid() && Sound(fat.geo, v0, tree)
      requires d in tree.items && d in tree.chains && item in tree.items[d] && !IsDot(item)
      requires dir.chain == tree.chains[d]
      requires Head(item) in tree.items ==> |tree.items[Head(item)]| == 2
      requires dir.Pos() == item.at && IsPlace(fat.geo, dir.chain, item.start, loc.sect, loc.idx)
      requires fat.geo.Wf(|v0|) && |fat.view| == |v0| && Mild(fat.geo, v0, fat.view)
      requires fat.Fats() == Cleared(Table(fat.geo, v0), Freed(tree, item))
      requires IsDirectory(fat.geo, v0, dir.chain) && dir.Slots() == SlotsOf(fat.geo, v0, dir.chain)
      modifies this`tree, dir`clust, dir`sect, dir`idx, dir`q, fat, fat.dev, fat.buf
      ensures fat.Valid() && |fat.dev.sectors| == |old(fat.dev.sectors)|
      ensures fat.geo.Wf(|old(fat.view)|) && |fat.view| == |old(fat.view)|
      ensures err == ERR_NONE || err == ERR_IO
      ensures err == ERR_IO <==> fat.dev.faults > old(fat.dev.faults)
      ensures fat.dev.faults >= old(fat.dev.faults)
      ensures err == ERR_NONE ==>
                && Consistent() && Unlinked(old(tree), tree, d, item) && fat.dev.sectors == fat.view
                && fat.Fats() == old(fat.Fats()) && fat.freeCnt == old(fat.freeCnt)
                && Upkeep(fat.geo, old(fat.view), fat.freeCnt, fat.view, fat.freeCnt)
                && SameFiles(fat.geo, v0, old(tree), fat.view, tree, 0)
      ensures old(fat.Journal()) ==> fat.Journal()
      ensures old(fat.Tame()) ==> fat.Tame()
    {
      hide Fat.Valid, Fat.Journal, Fat.Tame, Sound, IsTree, IsDirectory, Stands, SlotsOf, SlotCount, Items, WellFormed,
           IsPlace, Table, Mild, MarkedFree, OnlyEdited, Cleared, Freed, Upkeep, IsDot, Dropped, Removed, KindAt,
           Geometry.Wf, SameFiles;
      fat.Facts();
      ghost var v1, f1, t0, ch := fat.view, fat.freeCnt, tree, dir.chain;
      ItemOrder(fat.geo, v0, t0, d, item);
      err := dir.RemoveEntries(loc, item.start);
      fat.Facts();
      if err != ERR_NONE {
        return;
      }
      ghost var v2 := fat.view;
      SoundUnlinked(fat.geo, v0, v1, v2, t0, d, item);
      EditedUpkeep(fat.geo, v1, v2, ch, f1);
      DirectoryOnDevice(fat.geo, v2, ch);
      tree := Removed(t0, d, item, Items(SlotsOf(fat.geo, v2, ch), 0));
      RemovedLists(t0, d, item, Items(SlotsOf(fat.geo, v2, ch), 0));
      ghost var t1 := tree;
      FilesUnlinked(fat.geo, v0, v1, v2, t0, t1, d, item);
      err := fat.SyncFs();
      fat.Facts();
      if err == ERR_NONE {
        SoundFrame(fat.geo, v2, fat.view, tree);
        SameFilesMild(fat.geo, v2, t1, fat.view, t1);
        FilesSynced(fat.geo, v0, v2, fat.view, t0, t1, d, item);
        MildUpkeep(fat.geo, v2, f1, fat.view);
        UpkeepTrans(fat.geo, v1, f1, v2, f1, fat.view, f1);
      }
    }

    /** `fat_unlink`. Without device faults it ends as the state of the entry demands. If it succeeds, the entry is gone
        from its directory, nothing else has changed in the tree, and everything is on the device. */
    method Unlink(path: Name) returns (err: int)
      requires Consistent() && IsTree(fat.geo.rootClust, tree)
      modifies this`tree, fat, fat.dev, fat.buf, names, names.buf
      ensures fat.Valid() && |fat.dev.sectors| == |old(fat.dev.sectors)|
      ensures fat.geo.Wf(|old(fat.view)|) && |fat.view| == |old(fat.view)|
      ensures err == ERR_IO <==> fat.dev.faults > old(fat.dev.faults)
      ensures fat.dev.faults >= old(fat.dev.faults)
      ensures fat.dev.faults == old(fat.dev.faults) ==>
                && Consistent() && (err != ERR_NONE ==> tree == old(tree))
                && SameFiles(fat.geo, old(fat.view), old(tree), fat.view, tree, 0)
                && (err != ERR_NONE ==> Upkeep(fat.geo, old(fat.view), old(fat.freeCnt), fat.view, fat.freeCnt))
                && match Within(path)
                   case None => err == ERR_PATH
                   case Some(comps) =>
                     var r := old(Named(comps));
                     && Listed(old(tree), r) && err == Verdict(fat.geo, old(fat.view), old(tree), r)
                     && (err == ERR_NONE ==>
                          && fat.dev.sectors == fat.view && r.Entry?
                          && Unlinked(old(tree), tree, r.dir, r.item)
                          && (Head(r.item) != 0 ==>
                                 Upkeep(fat.geo, old(fat.view), old(fat.freeCnt), fat.view, fat.freeCnt)))
                     && (r.Entry? ==>
                          var a := r.item.sfn[11]; var c := Head(r.item);
                          if a % 2 == 1 || a / 4 % 2 == 1 || a / 8 % 2 == 1 then err == ERR_DENIED else
                            (err == ERR_DENIED <==>
                               || (r.dir == fat.geo.rootClust && r.item.at == 0)
                               || (a / 16 % 2 == 1 && c in old(tree).items && |old(tree).items[c]| > 2)))
      ensures old(fat.Journal()) ==> fat.Journal()
      ensures old(fat.Tame()) && old(tree.tidy) ==> fat.Tame()
    {
      hide Fat.Valid, Fat.Journal, Fat.Tame, Sound, IsTree, Resolve, IsDot, Arrived, Unlinked, Refusal, Upkeep,
           Geometry.Wf, Within, Split, FirstLen, SameFiles;
      var dir := new Dir(fat, names);
      var at, loc;
      fat.Facts();
      UpkeepTables(fat.geo, fat.view, fat.freeCnt, fat.view);
      SameFilesRefl(fat.geo, fat.view, tree, 0);
      if Within(path).Some? {
        NamedListed(fat.geo.rootClust, tree, Within(path).value);
      }
      err, at, loc := FollowPath(dir, path);
      fat.Facts();
      if err != ERR_NONE {
        return;
      }
      err := UnlinkAt(dir, loc, Named(Within(path).value));
    }

    /** The part of `fat_unlink` after the path has been followed. */
    method UnlinkAt(dir: Dir, loc: Loc, ghost r: Resolution) returns (err: int)
      requires Consistent() && dir.fat == fat && dir.names == names && Listed(tree, r) && Arrived(dir, r, loc)
      requires fat.geo.Wf(|fat.view|)
      modifies this`tree, dir`clust, dir`sect, dir`idx, dir`q, fat, fat.dev, fat.buf
      ensures fat.Valid() && |fat.dev.sectors| == |old(fat.dev.sectors)|
      ensures fat.geo.Wf(|old(fat.view)|) && |fat.view| == |old(fat.view)|
      ensures err == ERR_IO <==> fat.dev.faults > old(fat.dev.faults)
      ensures fat.dev.faults >= old(fat.dev.faults)
      ensures fat.dev.faults == old(fat.dev.faults) ==>
                && Consistent() && (err != ERR_NONE ==> tree == old(tree))
                && SameFiles(fat.geo, old(fat.view), old(tree), fat.view, tree, 0)
                && err == Verdict(fat.geo, old(fat.view), old(tree), r)
                && (err != ERR_NONE ==> Upkeep(fat.geo, old(fat.view), old(fat.freeCnt), fat.view, fat.freeCnt))
      ensures fat.dev.faults == old(fat.dev.faults) && err == ERR_NONE ==>
                && fat.dev.sectors == fat.view && r.Entry? && Unlinked(old(tree), tree, r.dir, r.item)
                && fat.Fats() == Cleared(old(fat.Fats()), Freed(old(tree), r.item))
                && fat.freeCnt == IncrementedBy(old(fat.freeCnt), |Freed(old(tree), r.item)|)
                && (Head(r.item) != 0 ==> Upkeep(fat.geo, old(fat.view), old(fat.freeCnt), fat.view, fat.freeCnt))
      ensures fat.dev.faults == old(fat.dev.faults) && r.Entry? ==>
                var a := r.item.sfn[11]; var c := Head(r.item);
                && (a % 2 == 1 || a / 4 % 2 == 1 || a / 8 % 2 == 1 ==> err == ERR_DENIED && tree == old(tree))
                && (a % 2 == 0 && a / 4 % 2 == 0 && a / 8 % 2 == 0 ==>
                      (err == ERR_DENIED <==>
                         || (r.dir == fat.geo.rootClust && r.item.at == 0)
                         || (a / 16 % 2 == 1 && c in old(tree).items && |old(tree).items[c]| > 2)))
      ensures old(fat.Journal()) ==> fat.Journal()
      ensures old(fat.Tame()) && old(tree.tidy) ==> fat.Tame()
    {
      hide Fat.Valid, Fat.Journal, Fat.Tame, Sound, IsTree, IsDot, Unlinked, IsDirectory, Stands, SlotsOf, SlotCount,
           IsPlace, EndMarked, Table, Upkeep, Cleared, Freed, Protected, SameFiles;
      fat.Facts();
      UpkeepTables(fat.geo, fat.view, fat.freeCnt, fat.view);
      SameFilesRefl(fat.geo, fat.view, tree, 0);
      ghost var d := if r.Entry? then r.dir else fat.geo.rootClust;
      if r.Entry? {
        RefusalBytes(fat.geo, fat.view, tree, r.dir, r.item);
      }
      RootInTree(fat.geo, fat.view, tree);
      AtRootIff(dir, d);
      if AtRoot(dir) {
        return ERR_DENIED;
      }
      var sfn := dir.Ptr();
      var clust := ClusterOf(sfn);
      if Protected(sfn) {
        return ERR_DENIED;
      }
      ghost var item := r.item;
      if HasBit(sfn[ATTR_AT], 4) {
        ListedDir(fat.geo, fat.view, tree, d, item);
        err := CheckEmpty(clust);
        if err != ERR_NONE {
          return;
        }
      }
      EmptyOrFile(fat.geo, fat.view, tree, d, item);
      err := RemoveEntry(dir, clust, loc, d, item);
    }
  }

  datatype Option<T> = None | Some(value: T)

  /** Directory `d`, whose chain is now `ch`, has got an entry with this name, for a cluster of its own; a search for
      the name finds it, and no other search has changed. `kids` is what the entry lists if it is a directory. */
  ghost predicate Created(tree: Tree, tree': Tree, d: nat, ch: seq<nat>, name: Name, item: Item, kids: seq<Item>) {
    && d in tree.items && d in tree'.items && d in tree.depth && item.long == Long(name)
    && tree' == Adopted(tree.(chains := tree.chains[d := ch]), d, item, tree'.items[d], kids)
    && Gained(tree.items[d], item, tree'.items[d])
    && Find(tree'.items[d], name) == Hit(item)
    && forall other :: other != name ==> Find(tree'.items[d], other) == Find(tree.items[d], other)
  }

  /** Directory `d` lists a new directory under this name, which lists its dot entries. */
  ghost predicate DirMade(root: nat, tree: Tree, tree': Tree, d: nat, name: Name, item: Item, stamp: Stamp) {
    && d in tree'.chains && item.sfn == SfnSlot(SfnName(name), ATTR_DIR, Head(item), stamp) && item.sfn[11] == 0x10
    && Unowned(tree, Head(item))
    && Created(tree, tree', d, tree'.chains[d], name, item, DotItems(Head(item), if d == root then 0 else d, stamp))
  }

  /** One step of a walk. */
  lemma WalkStep(root: nat, tree: Tree, d: nat, c: Name, rest: seq<Name>)
    requires IsTree(root, tree) && d in tree.items && 0 !in tree.items
    ensures var r := Find(tree.items[d], c);
            && (r.Missing? ==> Walk(root, tree, d, [c] + rest) == NoEntry(d, [c] + rest))
            && (r.Hit? ==>
                 && r.item in tree.items[d] && !IsDot(r.item)
                 && (IsDir(r.item) ==> Head(r.item) in tree.items && Head(r.item) != 0)
                 && Walk(root, tree, d, [c] + rest) ==
                    if rest == [] then Entry(d, r.item)
                    else if IsDir(r.item) then Walk(root, tree, Head(r.item), rest)
                    else NotDirectory)
  {
    hide IsTree, Find;
    FoundItem(root, tree, d, c);
    assert ([c] + rest)[1..] == rest;
  }

  /** What every path names after a creation: the new name names the new entry, which lists `kids` if it is a directory,
      and every other path names what it named. */
  lemma {:induction false} CreatedPaths(root: nat, tree: Tree, tree': Tree, d: nat, ch: seq<nat>, name: Name,
                                        item: Item, kids: seq<Item>, k: nat, names: seq<Name>)
    requires IsTree(root, tree) && IsTree(root, tree') && k in tree.items && names != []
    requires Created(tree, tree', d, ch, name, item, kids) && Unowned(tree, Head(item))
    requires Find(tree.items[d], name).Missing?
    ensures k in tree'.items && (IsDir(item) ==> Head(item) in tree'.items && tree'.items[Head(item)] == kids)
    ensures var r, r' := Walk(root, tree, k, names), Walk(root, tree', k, names);
            if r.NoEntry? && r.dir == d && r.rest != [] && r.rest[0] == name then
              r' == if |r.rest| == 1 then Entry(d, item)
                    else if IsDir(item) then Walk(root, tree', Head(item), r.rest[1..]) else NotDirectory
            else r' == r
    decreases |names|
  {
    hide IsTree, Find, Gained, IsDir, Head;
    ListsHaveChains(root, tree);
    FoundItem(root, tree, k, names[0]);
    FoundItem(root, tree', k, names[0]);
    var found := Find(tree.items[k], names[0]);
    if found.Hit? && |names| > 1 && IsDir(found.item) {
      CreatedPaths(root, tree, tree', d, ch, name, item, kids, Head(found.item), names[1..]);
    }
  }

  lemma ListsHaveChains(root: nat, tree: Tree)
    requires IsTree(root, tree)
    ensures forall k :: k in tree.items ==> k in tree.chains
  {
  }

  /** After an entry is gone, no path names it, and every path that named another one still does. */
  lemma {:induction false} UnlinkedPaths(root: nat, tree: Tree, tree': Tree, d: nat, item: Item, k: nat,
                                         names: seq<Name>)
    requires IsTree(root, tree) && IsTree(root, tree') && k in tree.items && k in tree'.items && names != []
    requires Unlinked(tree, tree', d, item) && Head(item) != d
    requires Head(item) in tree.items ==> forall kid :: kid in tree.items[Head(item)] ==> IsDot(kid)
    ensures var r, r' := Walk(root, tree, k, names), Walk(root, tree', k, names);
            && r' != Entry(d, item)
            && (r.Entry? && r != Entry(d, item) ==> r' == r)
    decreases |names|
  {
    hide IsTree, Find, IsDir, Head, IsDot, Unlinked;
    WalkEnds(root, tree', k, names);
    UnlinkedFind(tree, tree', d, item, k, names[0]);
    FoundItem(root, tree, k, names[0]);
    FoundItem(root, tree', k, names[0]);
    var found := Find(tree.items[k], names[0]);
    if |names| > 1 && found.Hit? && IsDir(found.item) {
      if found.item == item && k == d {
        NothingBelow(root, tree, Head(item), names[1..]);
      } else {
        UnlinkedPaths(root, tree, tree', d, item, Head(found.item), names[1..]);
      }
    }
  }

  lemma UnlinkedFind(tree: Tree, tree': Tree, d: nat, item: Item, k: nat, name: Name)
    requires Unlinked(tree, tree', d, item) && k in tree.items && k in tree'.items
    ensures d in tree'.items && item !in tree'.items[d]
    ensures k != d || Find(tree.items[k], name) != Hit(item) ==> Find(tree'.items[k], name) == Find(tree.items[k], name)
  {
    hide Find, Head;
  }

  lemma NothingBelow(root: nat, tree: Tree, k: nat, names: seq<Name>)
    requires IsTree(root, tree) && k in tree.items && names != []
    requires forall kid :: kid in tree.items[k] ==> IsDot(kid)
    ensures Walk(root, tree, k, names) == NoEntry(k, names)
  {
    hide IsTree, Find, IsDir, Head, IsDot;
    FoundItem(root, tree, k, names[0]);
  }

  /** What storing an entry has made of the volume. */
  lemma CreatedBy(g: Geometry, v0: Image, f0: uint32, v1: Image, f1: uint32, tree: Tree, d: nat, ch: seq<nat>,
                  room: Room,
                  name: Name, attr: byte, clust: nat, stamp: Stamp, kids: seq<Item>)
    requires Sound(g, v0, tree) && d in tree.items && d in tree.chains && g.Wf(|v0|)
    requires Storable(name) && Find(tree.items[d], name).Missing? && attr != ATTR_LFN
    requires clust in tree.lost && clust < g.clustCnt && Table(g, v0)[clust] == EOC
    requires Extends(g, v0, f0, tree.chains[d], room.img, f1, ch) && OnlyEdited(g, room.img, v1, ch)
    requires IsDirectory(g, room.img, ch) && IsDirectory(g, v1, ch)
    requires var slots := SlotsOf(g, room.img, ch); var n := LfnCount(|name|);
             && room.start + n + 1 < |slots| && Scanned(slots, room.start + n + 1, n + 1, room.eod)
             && SlotsOf(g, v1, ch) ==
                  WithEntry(slots, room.start, name, n, SfnSlot(SfnName(name), attr, clust, stamp), room.eod)
    requires HasBit(attr, 4) ==>
               Dotted(kids) && (forall kid :: kid in kids ==> IsDot(kid)) && Shows(g, v0, [clust], kids, true)
    ensures WellFormed(SlotsOf(g, v1, ch), 0)
    ensures var item := NewItem(room.start, name, LfnCount(|name|), SfnSlot(SfnName(name), attr, clust, stamp));
            && d in tree.depth
            && var tree' := Adopted(tree.(chains := tree.chains[d := ch]), d, item, Items(SlotsOf(g, v1, ch), 0), kids);
               && Sound(g, v1, tree') && Created(tree, tree', d, ch, name, item, kids)
               && d in tree'.chains && tree'.chains[d] == ch && Head(item) == clust
  {
    hide Table, IsTree, Owns, NoneBroken, SlotsOf, WellFormed, Items, Extends, OnlyEdited, IsChain, Backed, Scanned,
         WithEntry, Dotted, SfnName, SfnSlot, LfnCount, Gained, Shows, Sound, Find, Upkeep, Storable, ClusterOf, IsDot,
         PlainBytes, Disjoint;
    var sfn, n, c := SfnSlot(SfnName(name), attr, clust, stamp), LfnCount(|name|), clust;
    SfnSlotFields(SfnName(name), attr, clust, stamp);
    SoundWithEntry(g, v0, f0, room.img, f1, v1, tree, d, ch, room.start, name, n, sfn, room.eod, kids);
    var item, list := NewItem(room.start, name, n, sfn), Items(SlotsOf(g, v1, ch), 0);
    LostKept(g, v0, f0, room.img, f1, tree, d, ch, c);
    StoredLookups(g, v0, f0, v1, f1, tree, d, ch, room, name, sfn);
    assert Created(tree, Adopted(tree.(chains := tree.chains[d := ch]), d, item, list, kids), d, ch, name, item, kids);
  }

  lemma StoredLookups(g: Geometry, v0: Image, f0: uint32, v1: Image, f1: uint32, tree: Tree, d: nat, ch: seq<nat>,
                      room: Room,
                      name: Name, sfn: Slot)
    requires Sound(g, v0, tree) && d in tree.items && d in tree.chains && Storable(name)
    requires Find(tree.items[d], name).Missing?
    requires Extends(g, v0, f0, tree.chains[d], room.img, f1, ch) && IsDirectory(g, room.img, ch)
    requires IsDirectory(g, v1, ch)
    requires 0 < g.spc && !IsLfn(sfn) && sfn[..11] == SfnName(name)
    requires var slots := SlotsOf(g, room.img, ch); var n := LfnCount(|name|);
             && room.start + n + 1 < |slots| && Scanned(slots, room.start + n + 1, n + 1, room.eod)
             && SlotsOf(g, v1, ch) == WithEntry(slots, room.start, name, n, sfn, room.eod)
    ensures WellFormed(SlotsOf(g, v1, ch), 0) && d !in tree.lost
    ensures var list := Items(SlotsOf(g, v1, ch), 0);
            && Find(list, name) == Hit(NewItem(room.start, name, LfnCount(|name|), sfn))
            && forall other :: other != name ==> Find(list, other) == Find(tree.items[d], other)
  {
    hide Table, SlotsOf, WellFormed, Items, Extends, Sound, Find, Scanned, WithEntry, SfnName, LfnCount, NewItem,
         Storable, IsChain, Backed, PlainBytes, Distinct, SlotCount, Geometry.Wf;
    ExtendsList(g, v0, f0, v1, f1, tree, d, ch, room.img);
    Lookups(SlotsOf(g, room.img, ch), room.start, name, LfnCount(|name|), sfn, room.eod);
  }

  /** After an entry has been stored, its name is found, and every other name is what it was. */
  lemma Lookups(a: seq<Slot>, s: nat, name: Name, n: nat, sfn: Slot, eod: bool)
    requires WellFormed(a, 0) && Storable(name) && n == LfnCount(|name|) && s + n + 1 < |a|
    requires Scanned(a, s + n + 1, n + 1, eod) && !IsLfn(sfn) && sfn[..11] == SfnName(name)
    requires Find(Items(a, 0), name).Missing?
    ensures WellFormed(WithEntry(a, s, name, n, sfn, eod), 0)
    ensures var list := Items(WithEntry(a, s, name, n, sfn, eod), 0);
            && Find(list, name) == Hit(NewItem(s, name, n, sfn))
            && forall other :: other != name ==> Find(list, other) == Find(Items(a, 0), other)
  {
    hide WellFormed, Items, Find, WithEntry, Scanned, SfnName, LfnCount, NewItem;
    forall other: Name
      ensures WellFormed(WithEntry(a, s, name, n, sfn, eod), 0)
      ensures other != name ==> Find(Items(WithEntry(a, s, name, n, sfn, eod), 0), other) == Find(Items(a, 0), other)
    {
      EntryFound(a, s, name, n, sfn, eod, other);
    }
    EntryFound(a, s, name, n, sfn, eod, name);
  }

  /** The list of a stretched directory is the list it had. */
  lemma ExtendsList(g: Geometry, v0: Image, f0: uint32, v1: Image, f1: uint32, tree: Tree, d: nat, ch: seq<nat>,
                    room: Image)
    requires Sound(g, v0, tree) && d in tree.items && d in tree.chains
    requires Extends(g, v0, f0, tree.chains[d], room, f1, ch) && IsDirectory(g, room, ch)
    ensures WellFormed(SlotsOf(g, room, ch), 0) && Items(SlotsOf(g, room, ch), 0) == tree.items[d]
    ensures d !in tree.lost
  {
    hide Table, IsTree, Owns, NoneBroken, SlotsOf, WellFormed, Items, Extends, IsDirectory, Shows;
    SoundExtended(g, v0, f0, room, f1, tree, d, ch);
    SoundDirectory(g, room, tree.(chains := tree.chains[d := ch]), d);
    SoundDirectory(g, v0, tree, d);
    NotLost(Table(g, v0), tree.chains, tree.lost, d);
  }

  lemma NotLost(t: FatTable, chains: ChainMap, lost: set<nat>, d: nat)
    requires Owns(t, chains, lost) && d in chains
    ensures d !in lost
  {
    HeadsOwned(t, chains, lost);
  }

  /** Stretching a directory leaves the files alone. */
  lemma FilesExtended(g: Geometry, v0: Image, f0: uint32, v1: Image, f1: uint32, tree: Tree, d: nat, ch: seq<nat>)
    requires Sound(g, v0, tree) && d in tree.items && d in tree.chains
    requires Extends(g, v0, f0, tree.chains[d], v1, f1, ch)
    ensures SameFiles(g, v0, tree, v1, tree.(chains := tree.chains[d := ch]), 0)
  {
    hide Sound, SameFiles, SameOthers, IsDirectory, Grown, SlotsOf, Upkeep, Table;
    SoundExtended(g, v0, f0, v1, f1, tree, d, ch);
    SameFilesInChain(g, v0, tree, v1, tree.(chains := tree.chains[d := ch]), 0, d);
  }

  /** So does storing an entry for a cluster that was nobody's. */
  lemma FilesCreated(g: Geometry, v0: Image, f0: uint32, room: Image, f1: uint32, v1: Image, tree: Tree, tree': Tree,
                     d: nat, ch: seq<nat>, name: Name, item: Item, kids: seq<Item>)
    requires Sound(g, v0, tree) && Sound(g, v1, tree') && d in tree.chains && Head(item) in tree.lost
    requires Extends(g, v0, f0, tree.chains[d], room, f1, ch) && OnlyEdited(g, room, v1, ch)
    requires Created(tree, tree', d, ch, name, item, kids)
    ensures SameFiles(g, v0, tree, v1, tree', 0)
  {
    hide Sound, SameFiles, SameOthers, IsDirectory, Grown, SlotsOf, Upkeep, Table, SameTables, Find, Gained, IsDir,
         Head;
    var c := Head(item);
    HeadNotLost(g, v0, tree, c);
    SameOthersTrans(g, v0, room, v1, ch, ch);
    HeadNotLost(g, v0, tree, d);
    SameFilesInChain(g, v0, tree, v1, tree', 0, d);
  }

  /** The new directory has been written back. */
  lemma FilesMade(g: Geometry, v0: Image, v1: Image, v2: Image, t0: Tree, t1: Tree, d: nat, ch: seq<nat>, name: Name,
                  item: Item, kids: seq<Item>)
    requires Created(t0, t1, d, ch, name, item, kids) && Unowned(t0, Head(item)) && d in t0.chains
    requires SameFiles(g, v0, t0, v1, t1, 0) && SameFiles(g, v1, t1, v2, t1, 0)
    ensures SameFiles(g, v0, t0, v2, t1, 0)
  {
    hide SameBytes, Find, Gained, IsDir, Head;
    SameFilesTrans(g, v0, t0, v1, t1, v2, t1, 0);
  }

  /** The clusters of an entry have been released, and its slots marked free. */
  lemma FilesUnlinked(g: Geometry, v0: Image, v1: Image, v2: Image, t0: Tree, t1: Tree, d: nat, item: Item)
    requires Sound(g, v0, t0) && Sound(g, v2, t1) && d in t0.chains && g.Wf(|v0|) && |v1| == |v0|
    requires Unlinked(t0, t1, d, item) && item in t0.items[d] && !IsDot(item)
    requires Mild(g, v0, v1) && OnlyEdited(g, v1, v2, t0.chains[d])
    ensures SameFiles(g, v0, t0, v2, t1, 0)
  {
    hide Sound, SameFiles, SameCluster, Mild, SameTables, Dropped, IsDir, Head, IsDot, Geometry.Wf;
    RemovedFacts(g, v0, t0, d, item);
    DataKept(g, v0, v1);
    SameOthersTrans(g, v0, v1, v2, [], t0.chains[d]);
    SameFilesInChain(g, v0, t0, v2, t1, 0, d);
  }

  lemma FilesSynced(g: Geometry, v0: Image, v2: Image, v3: Image, t0: Tree, t1: Tree, d: nat, item: Item)
    requires Unlinked(t0, t1, d, item) && SameFiles(g, v0, t0, v2, t1, 0) && SameFiles(g, v2, t1, v3, t1, 0)
    requires d in t0.items
    ensures SameFiles(g, v0, t0, v3, t1, 0)
  {
    hide SameBytes, Dropped, Head;
    SameFilesTrans(g, v0, t0, v2, t1, v3, t1, 0);
  }

  lemma RemovedFacts(g: Geometry, img: Image, tree: Tree, d: nat, item: Item)
    requires Sound(g, img, tree) && d in tree.items && item in tree.items[d] && !IsDot(item)
    ensures Head(item) != d
  {
    hide Table, Owns, NoneBroken, Shows, IsDot;
    TreeFacts(g, img, tree);
    RemovedHead(g.rootClust, tree, d, item);
  }

  lemma HeadNotLost(g: Geometry, img: Image, tree: Tree, c: nat)
    requires Sound(g, img, tree)
    ensures c in tree.lost ==> c !in tree.chains
  {
    hide Table, NoneBroken, IsTree, Shows, Owns, Tidy;
    if c in tree.lost && c in tree.chains {
      NotLost(Table(g, img), tree.chains, tree.lost, c);
    }
  }

  lemma ExtendsUpkeep(g: Geometry, v0: Image, f0: uint32, ch0: seq<nat>, v1: Image, f1: uint32, ch: seq<nat>)
    requires Extends(g, v0, f0, ch0, v1, f1, ch) && g.Wf(|v0|)
    ensures |v1| == |v0| && Upkeep(g, v0, f0, v1, f1)
  {
    hide Table, SlotsOf, IsDirectory, Grown, AllZero, SameTables, Upkeep;
  }

  lemma EditUpkeep(g: Geometry, v0: Image, f0: uint32, room: Image, f1: uint32, v1: Image, ch0: seq<nat>, ch: seq<nat>)
    requires Extends(g, v0, f0, ch0, room, f1, ch) && OnlyEdited(g, room, v1, ch) && g.Wf(|v0|)
    ensures |v1| == |v0| && Upkeep(g, v0, f0, v1, f1)
  {
    hide Table, SlotsOf, IsDirectory, Grown, AllZero, SameTables, Upkeep, NoneBroken, Mirrored;
    UpkeepTables(g, room, f1, v1);
    UpkeepTrans(g, v0, f0, room, f1, v1, f1);
  }

  /** The entry may not be unlinked: it is read-only, or marked as belonging to the system, or the volume's label. */
  predicate Protected(s: Slot) {
    HasBit(s[ATTR_AT], 0) || HasBit(s[ATTR_AT], 2) || HasBit(s[ATTR_AT], 3)
  }

  lemma OwnerUnique(g: Geometry, img: Image, tree: Tree, h: nat, k: nat, x: nat)
    requires Sound(g, img, tree) && h in tree.chains && k in tree.chains && x in tree.chains[h] && x in tree.chains[k]
    ensures h == k
  {
    hide Table, NoneBroken, Shows, IsTree;
  }

  /** A listed item that is marked as a directory is one of the tree's. */
  lemma ListedDir(g: Geometry, img: Image, tree: Tree, d: nat, item: Item)
    requires Sound(g, img, tree) && d in tree.items && item in tree.items[d] && !IsDot(item) && IsDir(item)
    ensures Head(item) in tree.items && Head(item) in tree.chains && Head(item) != 0 && Head(item) != g.rootClust
    ensures 0 < g.spc && Backed(g, |img|, tree.chains[Head(item)])
  {
    hide Table, NoneBroken, IsDot, Head, Owns, IsTree;
    TreeFacts(g, img, tree);
    RemovedHead(g.rootClust, tree, d, item);
    SoundDirectory(g, img, tree, Head(item));
  }

  lemma DirectoryOnDevice(g: Geometry, img: Image, ch: seq<nat>)
    requires IsDirectory(g, img, ch)
    ensures 0 < g.spc && Backed(g, |img|, ch)
  {
    hide Table, IsChain, Backed;
  }

  /** Directory `d` has lost this item and no other; its clusters belong to nobody any more, or are free. */
  ghost predicate Unlinked(tree: Tree, tree': Tree, d: nat, item: Item) {
    && d in tree.items && d in tree'.items
    && tree' == Removed(tree, d, item, tree'.items[d]) && Dropped(tree.items[d], item, tree'.items[d])
  }

  lemma RemovedLists(tree: Tree, d: nat, item: Item, list: seq<Item>)
    requires d in tree.items && Dropped(tree.items[d], item, list)
    ensures Unlinked(tree, Removed(tree, d, item, list), d, item)
  {
    hide Dropped;
  }

  lemma ItemOrder(g: Geometry, img: Image, tree: Tree, d: nat, item: Item)
    requires Sound(g, img, tree) && d in tree.items && item in tree.items[d]
    ensures item.start <= item.at
  {
    hide Table, IsTree, Owns, SlotsOf, IsDirectory, NoneBroken;
    SoundDirectory(g, img, tree, d);
    ItemsFrom(SlotsOf(g, img, tree.chains[d]), 0);
  }

  /** The clusters of a listed item. */
  lemma ItemCluster(g: Geometry, img: Image, tree: Tree, d: nat, item: Item)
    requires Sound(g, img, tree) && d in tree.items && item in tree.items[d] && !IsDot(item) && Head(item) != 0
    ensures g.IsCluster(Head(item))
  {
    hide Table, NoneBroken, Shows, IsDot, IsDir, EntryIn, Dotted, Disjoint, Owned, InUse, Accounted;
    RemovedHead(g.rootClust, tree, d, item);
    assert tree.chains[Head(item)][0] == Head(item);
  }

  /** Releasing the clusters of an entry keeps the free count in step. */
  lemma ReleaseUpkeep(g: Geometry, v0: Image, f0: uint32, v1: Image, f1: uint32, tree: Tree, d: nat, item: Item)
    requires Sound(g, v0, tree) && d in tree.items && item in tree.items[d] && !IsDot(item) && g.Wf(|v0|)
    requires Head(item) < g.clustCnt
    requires Mild(g, v0, v1) && |v1| == |v0| && Table(g, v1) == Release(Table(g, v0), Head(item)).table
    requires f1 == IncrementedBy(f0, Release(Table(g, v0), Head(item)).freed)
    ensures Head(item) != 0 ==> Upkeep(g, v0, f0, v1, f1)
  {
    hide Sound, Table, NoneBroken, IsDot, Release, Mild, Upkeep;
    if Head(item) != 0 {
      ItemCluster(g, v0, tree, d, item);
      UpkeepReleased(g, v0, f0, v1, Head(item));
    }
  }

  lemma EditedUpkeep(g: Geometry, a: Image, b: Image, ch: seq<nat>, freeCnt: uint32)
    requires OnlyEdited(g, a, b, ch) && g.Wf(|a|)
    ensures |b| == |a| && Table(g, b) == Table(g, a) && Upkeep(g, a, freeCnt, b, freeCnt)
  {
    hide Table, Upkeep, SameTables;
    SameTablesFrame(g, a, b);
    UpkeepTables(g, a, freeCnt, b);
  }

  lemma MildUpkeep(g: Geometry, a: Image, freeCnt: uint32, b: Image)
    requires g.Wf(|a|) && Mild(g, a, b) && |b| == |a| && Table(g, b) == Table(g, a)
    ensures Upkeep(g, a, freeCnt, b, freeCnt)
  {
    hide Table, Drift, NoneBroken, Mirrored;
  }

  /** An entry that a path names is in the tree. */
  ghost predicate Listed(tree: Tree, r: Resolution) {
    r.Entry? ==> r.dir in tree.items && r.item in tree.items[r.dir] && !IsDot(r.item)
  }

  lemma NamedListed(root: nat, tree: Tree, comps: seq<Name>)
    requires IsTree(root, tree)
    ensures Listed(tree, Resolve(root, tree, comps))
  {
    hide IsTree, IsDot, Walk, Find;
    if comps != [] {
      RootListed(root, tree);
      WalkEnds(root, tree, root, comps);
    }
  }

  /** Why an entry cannot be unlinked, or `ERR_NONE` if it can. The emptiness test wants an end mark, which a
      directory that is filled to its last slot does not have; and an entry without clusters has the reserved entry 0
      of the FAT released, which works once. */
  ghost function Refusal(g: Geometry, img: Image, tree: Tree, d: nat, item: Item): int
    requires Sound(g, img, tree) && d in tree.items && item in tree.items[d] && !IsDot(item)
  {
    if d == g.rootClust && item.at == 0 then ERR_DENIED
    else if Protected(item.sfn) then ERR_DENIED
    else if IsDir(item) then
      ListedDir(g, img, tree, d, item);
      if |tree.items[Head(item)]| > 2 then ERR_DENIED
      else if !EndMarked(SlotsOf(g, img, tree.chains[Head(item)])) then ERR_EOF
      else ERR_NONE
    else if Head(item) == 0 && KindAt(Table(g, img), 0) != Last then ERR_BROKEN
    else ERR_NONE
  }

  /** What is no entry is not unlinked: the root is denied, and a path that leads nowhere ends as following it does. */
  lemma VerdictElsewhere(g: Geometry, img: Image, tree: Tree, r: Resolution)
    requires Sound(g, img, tree) && Listed(tree, r) && !r.Entry?
    ensures Verdict(g, img, tree, r) == if r.TheRoot? then -7 else if r.NotDirectory? then -5 else -6
  {
  }

  /** In bytes: read-only entries, those of the system and labels are denied, by bits 0, 2 and 3 of byte 11, and so are
      the root's first slot and directories, by bit 4, that list more than their dot entries. Of the others, a
      directory without an end mark, and the second entry without clusters, fail; everything else can be unlinked. */
  lemma RefusalBytes(g: Geometry, img: Image, tree: Tree, d: nat, item: Item)
    requires Sound(g, img, tree) && d in tree.items && item in tree.items[d] && !IsDot(item)
    ensures var a := item.sfn[11]; var c := Head(item); var r := Refusal(g, img, tree, d, item);
            && (a % 2 == 1 || a / 4 % 2 == 1 || a / 8 % 2 == 1 ==> r == ERR_DENIED)
            && (a % 2 == 0 && a / 4 % 2 == 0 && a / 8 % 2 == 0 ==>
                  (r == ERR_DENIED <==>
                     || (d == g.rootClust && item.at == 0)
                     || (a / 16 % 2 == 1 && c in tree.items && |tree.items[c]| > 2)))
            && (r != ERR_DENIED && a / 16 % 2 == 1 ==>
                  c in tree.items && c in tree.chains && 0 < g.spc && Backed(g, |img|, tree.chains[c]))
            && (r != ERR_DENIED ==>
                  r == if a / 16 % 2 == 1 then
                         var slots := SlotsOf(g, img, tree.chains[c]);
                         if (exists p :: 0 <= p < |slots| && slots[p][0] == 0) then ERR_NONE else ERR_EOF
                       else if c == 0 && Table(g, img)[0] < 0x0fff_fff8 then ERR_BROKEN
                       else ERR_NONE)
  {
    hide Sound, Table, SlotsOf, IsDot, Head, Owns;
    TreeFacts(g, img, tree);
    KindNumbers(Table(g, img)[0], |Table(g, img)|);
    if IsDir(item) {
      ListedDir(g, img, tree, d, item);
    }
  }

  /** Where every directory has an end mark, as on every volume that only this driver has written to, `fat_unlink` never
      fails for the lack of one. */
  lemma MarkedNeverEof(g: Geometry, img: Image, tree: Tree, d: nat, item: Item)
    requires Sound(g, img, tree) && d in tree.items && item in tree.items[d] && !IsDot(item) && tree.marked
    ensures Refusal(g, img, tree, d, item) != ERR_EOF
  {
    hide Table, Owns, NoneBroken, IsTree, SlotsOf, IsDot, Items, WellFormed, EndMarked;
    if IsDir(item) {
      ListedDir(g, img, tree, d, item);
      SoundDirectory(g, img, tree, Head(item));
    }
  }

  /** How `fat_unlink` ends on what a path names. */
  ghost function Verdict(g: Geometry, img: Image, tree: Tree, r: Resolution): int
    requires Sound(g, img, tree) && Listed(tree, r)
  {
    match r
    case TheRoot => ERR_DENIED
    case Entry(d, item) => Refusal(g, img, tree, d, item)
    case NotDirectory => ERR_PATH
    case NoEntry(_, _) => ERR_EOF
  }

  /** Where a path ends that is not in the tree. */
  lemma NamedMissing(root: nat, tree: Tree, comps: seq<Name>)
    requires IsTree(root, tree)
    ensures var r := Resolve(root, tree, comps);
            r.NoEntry? ==> r.dir in tree.items && r.rest != [] && Find(tree.items[r.dir], r.rest[0]).Missing?
  {
    hide IsTree, IsDot, Walk, Find;
    if comps != [] {
      RootListed(root, tree);
      WalkEnds(root, tree, root, comps);
    }
  }

  lemma RootInTree(g: Geometry, img: Image, tree: Tree)
    requires Sound(g, img, tree)
    ensures g.rootClust in tree.items && g.rootClust in tree.chains
  {
    TreeFacts(g, img, tree);
  }

  lemma RootListed(root: nat, tree: Tree)
    requires IsTree(root, tree)
    ensures root in tree.items
  {
  }

  /** Only entries marked as directories have anything listed under them, and then at least the dot entries. */
  lemma EmptyOrFile(g: Geometry, img: Image, tree: Tree, d: nat, item: Item)
    requires Sound(g, img, tree) && d in tree.items && item in tree.items[d] && !IsDot(item)
    ensures Head(item) in tree.items ==> IsDir(item) && |tree.items[Head(item)]| >= 2
  {
    hide Table, NoneBroken, IsDot, IsDir, Head, Owns, IsTree, Shows;
    TreeFacts(g, img, tree);
    RemovedHead(g.rootClust, tree, d, item);
    if Head(item) in tree.items {
      SoundDotted(g, img, tree, Head(item));
    }
  }

  lemma HeadInUse(g: Geometry, img: Image, tree: Tree, d: nat)
    requires Sound(g, img, tree) && d in tree.chains
    ensures g.Wf(|img|) && d < g.clustCnt && Table(g, img)[d] != 0
  {
    hide Table, NoneBroken, IsTree, Shows;
    assert tree.chains[d][0] in tree.chains[d];
    OwnedInUse(Table(g, img), tree.chains, tree.lost, d, d);
  }

  /** The chains after a creation. */
  lemma CreatedChains(tree: Tree, tree': Tree, d: nat, ch: seq<nat>, name: Name, item: Item, kids: seq<Item>)
    requires Created(tree, tree', d, ch, name, item, kids) && Head(item) != d
    ensures d in tree'.chains && tree'.chains[d] == ch
    ensures Head(item) in tree'.chains && tree'.chains[Head(item)] == [Head(item)]
    ensures IsDir(item) ==> Head(item) in tree'.items
  {
    hide Find, Gained, IsDir;
  }

  /** A directory does not depend on the data. */
  lemma DirectoryFrame(g: Geometry, a: Image, b: Image, ch: seq<nat>)
    requires IsDirectory(g, a, ch) && SameTables(g, a, b) && |b| == |a|
    ensures IsDirectory(g, b, ch)
  {
    SameTablesFrame(g, a, b);
  }

  /** No table that releasing an entry's clusters goes through has a link to a free entry. */
  lemma ReleaseTame(g: Geometry, img: Image, tree: Tree, d: nat, item: Item)
    requires Sound(g, img, tree) && d in tree.items && item in tree.items[d] && !IsDot(item) && tree.tidy
    ensures g.Wf(|img|) && Head(item) < g.clustCnt && SafeRelease(Table(g, img), Head(item))
  {
    hide Table, NoneBroken, IsTree, Shows, IsDot, IsDir, Registered, Owns, Tidy, SafeRelease, NoDangling;
    ReleaseFreed(g, img, tree, d, item);
    var t := Table(g, img);
    if Head(item) == 0 {
      OwnsNoDangling(t, tree.chains, tree.lost);
      NoChainAtZero(t, tree.chains, tree.lost);
      ZeroSafe(t);
    } else {
      TreeFacts(g, img, tree);
      RemovedHead(g.rootClust, tree, d, item);
      HeadChain(t, g.rootClust, tree, d, item);
      var ch := tree.chains[Head(item)];
      OwnedChain(t, tree.chains, tree.lost, Head(item));
      ReleaseSafe(t, tree.chains, tree.lost, Head(item), 0);
      assert Cleared(t, ch[..0]) == t;
    }
  }

  lemma FirstSector(g: Geometry, n: nat, c: nat)
    requires g.Wf(n) && 2 <= c && g.ClustToSect(c) + g.spc <= n
    ensures 0 < g.ClustToSect(c) < n && !g.InFat(g.ClustToSect(c))
  {
    SectToClustInverts(g, c, 0);
  }

  lemma StartEmpty(slots: seq<Slot>)
    requires 2 <= |slots|
    ensures EmptyTo(slots, 2)
  {
  }

  lemma EmptyStep(slots: seq<Slot>, p: nat)
    requires EmptyTo(slots, p) && p < |slots| && IsFree(slots[p]) && !IsLast(slots[p])
    ensures EmptyTo(slots, p + 1)
  {
  }

  /** The cluster is nobody's. */
  ghost predicate Unowned(tree: Tree, c: nat) {
    c !in tree.lost && c !in tree.chains
  }

  /** A free cluster is not lost. */
  lemma LostIsNew(g: Geometry, img: Image, tree: Tree, c: nat)
    requires Sound(g, img, tree) && g.IsCluster(c) && g.Wf(|img|) && Table(g, img)[c] == 0
    ensures Unowned(tree, c)
  {
    hide Table, NoneBroken, IsTree, Shows;
  }

  /** A cluster has been taken, and then an entry stored for it, or not. */
  lemma TakenThen(g: Geometry, v0: Image, f0: uint32, t0: Tree, v1: Image, f1: uint32, t1: Tree, v2: Image,
                  f2: uint32, t2: Tree, c: nat)
    requires Sound(g, v0, t0) && g.Wf(|v0|) && g.IsCluster(c) && Table(g, v0)[c] == 0
    requires t1 == t0.(lost := t0.lost + {c}) && |v1| == |v0| && |v2| == |v1|
    requires Upkeep(g, v0, f0, v1, f1) && Upkeep(g, v1, f1, v2, f2)
    requires SameFiles(g, v0, t0, v1, t1, 0) && SameFiles(g, v1, t1, v2, t2, 0)
    ensures Upkeep(g, v0, f0, v2, f2) && SameFiles(g, v0, t0, v2, t2, 0) && Unowned(t0, c)
  {
    hide Sound, Table, Upkeep, SameFiles;
    UpkeepTrans(g, v0, f0, v1, f1, v2, f2);
    SameFilesOn(g, v0, t0, v1, t1, v2, t2);
    LostIsNew(g, v0, t0, c);
  }

  lemma TakenLeaks(t: FatTable, t0: Tree, t1: Tree, t2: Tree, d: nat, ch: seq<nat>, c: nat)
    requires c < |t| && t[c] == 0 && d in t0.chains && t0.chains[d] <= ch
    requires t1 == t0.(lost := t0.lost + {c})
    requires t2 == t1.(chains := t1.chains[d := ch]) || (t2 == t1 && ch == t1.chains[d])
    ensures d in t2.chains && Leaked(t, t0, t2, d, c)
  {
    assert t2.chains == t0.chains[d := ch];
  }

  /** An entry for a cluster that was taken for it. */
  lemma CreatedFrom(tree: Tree, tree': Tree, d: nat, ch: seq<nat>, name: Name, item: Item, kids: seq<Item>)
    requires Head(item) !in tree.lost
    requires Created(tree.(lost := tree.lost + {Head(item)}), tree', d, ch, name, item, kids)
    ensures Created(tree, tree', d, ch, name, item, kids)
  {
    hide Find, Gained, IsDir;
    assert tree.lost + {Head(item)} - {Head(item)} == tree.lost;
  }

  /** How a creation under this name in directory `d` fails, which leaves every directory listing what it did. If there
      was no cluster for the new chain (`full`), nothing has happened. Otherwise the entry could not be stored, because
      its name is too long or the directory, stretched as far as possible, has no room; and then the cluster taken for
      the chain is lost. */
  ghost predicate NotCreated(g: Geometry, img: Image, lastUsed: nat, t: FatTable, full: bool, name: Name, err: int,
                             tree: Tree, tree': Tree, d: nat)
  {
    if full then err == ERR_FULL && tree' == tree
    else
      && d in tree.chains && d in tree'.chains
      && (if |name| > MAX_NAME then err == ERR_PARAM && tree'.chains[d] == tree.chains[d]
          else err == ERR_FULL && Crowded(g, img, lastUsed, tree'.chains[d], LfnCount(|name|) + 1))
      && exists c: nat :: Leaked(t, tree, tree', d, c)
  }

  /** A free cluster has been lost, and the chain of `d` may have grown. */
  ghost predicate Leaked(t: FatTable, tree: Tree, tree': Tree, d: nat, c: nat)
    requires d in tree.chains && d in tree'.chains
  {
    && c < |t| && t[c] == 0 && tree.chains[d] <= tree'.chains[d]
    && tree' == tree.(chains := tree.chains[d := tree'.chains[d]], lost := tree.lost + {c})
  }
}
