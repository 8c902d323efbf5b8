/** Files opened by path: what opening, positioning, reading, writing and closing mean for the volume's tree. */
module OpenFiles {
  import opened Bytes
  import opened Layout
  import opened Chains
  import opened Clusters
  import opened Names
  import opened LongNames
  import opened Listing
  import opened Volume
  import opened Directory
  import opened Owners
  import opened Tree
  import opened Edits
  import opened Paths
  import opened FileData
  import opened Files
  import opened FileSystem

  /** The file is open on an entry for cluster `c`, which may have no chain. */
  ghost predicate Attached(fs: FileSystem, file: File, c: nat)
    reads fs`tree, file`sclust, file`chain
  {
    && file.fat == fs.fat && file.buf != fs.fat.buf && file.buf.Length == SECTOR_SIZE && file.sclust == c
    && file.chain == (if c in fs.tree.chains then fs.tree.chains[c] else [])
  }

  /** The file is open on the chain of cluster `c`, which is not a directory's. */
  ghost predicate On(fs: FileSystem, file: File, c: nat)
    reads fs`tree, file`sclust, file`chain
  {
    Attached(fs, file, c) && c in fs.tree.chains && c !in fs.tree.items
  }

  /** Only the chain of `c` has changed: the file has extended it. */
  ghost predicate Lengthened(tree: Tree, tree': Tree, c: nat, ch: seq<nat>) {
    c in tree.chains && tree.chains[c] <= ch && tree' == tree.(chains := tree.chains[c := ch])
  }

  /** After the file has been used, the tree has its chain as the file has left it. */
  ghost method Adopt(fs: FileSystem, file: File, c: nat, v0: Image, f0: uint32, t0: Tree)
    requires fs.fat.Valid() && fs.names.buf.Length == SECTOR_SIZE && fs.names.buf != fs.fat.buf
    requires fs.tree == t0 && Sound(fs.fat.geo, v0, t0)
    requires c in t0.chains && c !in t0.items && file.fat == fs.fat
    requires Evolved(fs.fat.geo, v0, f0, t0.chains[c], fs.fat.view, fs.fat.freeCnt, file.chain)
    modifies fs`tree
    ensures fs.Consistent() && Lengthened(t0, fs.tree, c, file.chain) && |fs.fat.view| == |v0| && fs.fat.geo.Wf(|v0|)
    ensures Upkeep(fs.fat.geo, v0, f0, fs.fat.view, fs.fat.freeCnt)
    ensures SameFiles(fs.fat.geo, v0, t0, fs.fat.view, fs.tree, c)
    ensures fs.tree.items == t0.items && c in fs.tree.chains && fs.tree.chains[c] == file.chain
  {
    hide Fat.Valid, Sound, Evolved, Upkeep, SameFiles;
    EvolvedUpkeep(fs.fat.geo, v0, f0, t0.chains[c], fs.fat.view, fs.fat.freeCnt, file.chain);
    SoundEvolved(fs.fat.geo, v0, f0, fs.fat.view, fs.fat.freeCnt, t0, c, file.chain);
    EvolvedFacts(fs.fat.geo, v0, f0, t0.chains[c], fs.fat.view, fs.fat.freeCnt, file.chain);
    FilesEvolved(fs.fat.geo, v0, f0, fs.fat.view, fs.fat.freeCnt, t0, c, file.chain);
    fs.tree := t0.(chains := t0.chains[c := file.chain]);
  }

  /** `fat_file_seek` on a volume: whatever the file does to its chain, the volume stays a tree. */
  method FileSeek(fs: FileSystem, file: File, delta: int, whence: Whence, ghost c: nat) returns (err: int)
    requires fs.Consistent() && On(fs, file, c)
    requires file.Unreachable() || (0 <= file.Aim(delta, whence) < TWO_32 ==> file.CanSeek(file.Aim(delta, whence)))
    modifies fs`tree, file`clust, file`sect, file`offset, file`dirty, file`chain, file.buf, fs.fat, fs.fat.dev
    modifies fs.fat.buf
    ensures err == ERR_NONE || err == ERR_FULL || err == ERR_EOF || fs.fat.dev.faults > old(fs.fat.dev.faults)
    ensures var off := delta + (match whence case FromStart => 0 case FromCurrent => old(file.offset)
                                case FromEnd => old(file.size));
            && (!(0 <= off < TWO_32) ==>
                  && err == ERR_EOF && file.offset == old(file.offset) && (old(file.Valid()) ==> file.Valid())
                  && (old(file.Intact()) ==> file.Intact() && file.Contents() == old(file.Contents())))
            && (!old(file.Unreachable()) && 0 <= off < TWO_32 ==>
                   err != ERR_EOF || fs.fat.dev.faults > old(fs.fat.dev.faults))
            && (!old(file.Unreachable()) && err == ERR_NONE ==>
                  file.offset == off && file.Valid() && file.Contents() == old(file.Contents()))
            && (err == ERR_FULL ==>
                  && !old(file.Unreachable()) && 0 <= off < TWO_32 && file.Refused(off)
                  && file.offset == old(file.offset) && file.sect == old(file.sect)
                  && file.Contents() == old(file.Contents())
                  && (file.chain == old(file.chain) ==> old(fs.fat.Full(file.chain[|file.chain| - 1]))))
            && (old(file.Unreachable()) && 0 <= off < TWO_32 ==>
                   err == ERR_NONE && file.offset == 0 && file.sect == NO_SECT)
    ensures fs.fat.dev.faults == old(fs.fat.dev.faults) && (err == ERR_NONE || err == ERR_FULL || err == ERR_EOF) ==>
              && fs.Consistent() && On(fs, file, c) && Lengthened(old(fs.tree), fs.tree, c, file.chain)
              && fs.fat.geo.Wf(|old(fs.fat.view)|) && |fs.fat.view| == |old(fs.fat.view)|
              && Upkeep(fs.fat.geo, old(fs.fat.view), old(fs.fat.freeCnt), fs.fat.view, fs.fat.freeCnt)
              && SameFiles(fs.fat.geo, old(fs.fat.view), old(fs.tree), fs.fat.view, fs.tree, c)
    ensures old(fs.fat.Journal()) ==> fs.fat.Journal()
    ensures old(fs.fat.Tame()) ==> fs.fat.Tame()
  {
    hide Fat.Valid, Fat.Journal, Fat.Tame, NoneLeft, Sound, Evolved, Upkeep, File.Ready, File.Intact, File.Refused,
         SameDataRegion, Content, SameFiles;
    ghost var v0, f0, t0 := fs.fat.view, fs.fat.freeCnt, fs.tree;
    fs.fat.Facts();
    UpkeepTables(fs.fat.geo, v0, f0, v0);
    err := file.Seek(delta, whence);
    if fs.fat.dev.faults == old(fs.fat.dev.faults) {
      if file.Unreachable() || err == ERR_EOF {
        SameChain(t0, c, file.chain);
        SameFilesRefl(fs.fat.geo, v0, t0, c);
      } else if err == ERR_NONE || err == ERR_FULL {
        Adopt(fs, file, c, v0, f0, t0);
      }
    }
  }

  /** The file changes nothing outside its chain. */
  lemma FilesEvolved(g: Geometry, v0: Image, f0: uint32, v1: Image, f1: uint32, tree: Tree, c: nat, ch: seq<nat>)
    requires Sound(g, v0, tree) && c in tree.chains && c !in tree.items
    requires Evolved(g, v0, f0, tree.chains[c], v1, f1, ch)
    ensures SameFiles(g, v0, tree, v1, tree.(chains := tree.chains[c := ch]), c)
  {
    hide Sound, SameFiles, SameOthers, IsFile, Grown, Upkeep, Table, FreeOnDevice;
    SoundEvolved(g, v0, f0, v1, f1, tree, c, ch);
    SameFilesInChain(g, v0, tree, v1, tree.(chains := tree.chains[c := ch]), c, c);
  }

  /** The file's sector, its entry and the counters have been stored. */
  lemma FilesClosed(g: Geometry, v0: Image, v1: Image, v2: Image, v3: Image, t0: Tree, t1: Tree, d: nat, c: nat)
    requires Sound(g, v1, t0) && Sound(g, v2, t1) && d in t0.items && d in t1.items && g.Wf(|v2|) && Mild(g, v2, v3)
    requires t1 == t0.(items := t0.items[d := t1.items[d]])
    requires SameFiles(g, v0, t0, v1, t0, c) && SameFiles(g, v1, t0, v2, t1, 0)
    ensures SameFiles(g, v0, t0, v3, t1, c)
  {
    hide Sound, SameBytes, Mild;
    SameFilesMild(g, v2, t1, v3, t1);
    SameFilesBut(g, v1, t0, v2, t1, c);
    SameFilesBut(g, v2, t1, v3, t1, c);
    SameFilesTrans(g, v0, t0, v1, t0, v2, t1, c);
    SameFilesTrans(g, v0, t0, v2, t1, v3, t1, c);
  }

  lemma SameChain(tree: Tree, c: nat, ch: seq<nat>)
    requires c in tree.chains && tree.chains[c] == ch
    ensures Lengthened(tree, tree, c, ch)
  {
    assert tree.chains[c := ch] == tree.chains;
  }

  /** `fat_file_read` on a volume. */
  method FileRead(fs: FileSystem, file: File, len: nat, ghost c: nat) returns (err: int, data: seq<byte>)
    requires fs.Consistent() && On(fs, file, c) && (file.size == 0 || (file.Valid() && file.size < 0x8000_0000))
    modifies fs`tree, file`clust, file`sect, file`offset, file`dirty, file`chain, file`accessed, file.buf
    modifies fs.fat, fs.fat.dev, fs.fat.buf
    ensures fs.fat.dev.faults == old(fs.fat.dev.faults) ==>
              && fs.Consistent() && On(fs, file, c) && Lengthened(old(fs.tree), fs.tree, c, file.chain)
              && fs.fat.geo.Wf(|old(fs.fat.view)|) && |fs.fat.view| == |old(fs.fat.view)|
              && Upkeep(fs.fat.geo, old(fs.fat.view), old(fs.fat.freeCnt), fs.fat.view, fs.fat.freeCnt)
              && SameFiles(fs.fat.geo, old(fs.fat.view), old(fs.tree), fs.fat.view, fs.tree, c)
    ensures file.canRead ==> err == ERR_NONE || err == ERR_FULL || fs.fat.dev.faults > old(fs.fat.dev.faults)
    ensures !file.canRead ==> err == ERR_DENIED && data == [] && file.offset == old(file.offset)
    ensures file.accessed == (file.canRead || old(file.accessed))
    ensures !file.canRead && old(file.Valid()) ==> file.Valid() && file.Contents() == old(file.Contents())
    ensures file.canRead && old(file.size) > 0 && (err == ERR_NONE || err == ERR_FULL) ==>
              && data == old(file.Ahead(len)) && file.Valid() && file.Contents() == old(file.Contents())
              && (err == ERR_FULL <==> old(file.AtBrink(len)))
              && (err == ERR_NONE ==> file.offset == old(file.offset) + |data|)
              && (err == ERR_FULL ==>
                     old(file.offset) <= file.offset < old(file.offset) + |data| && file.chain == old(file.chain)
                                      && fs.fat.Full(file.chain[|file.chain| - 1]))
    ensures file.canRead && old(file.size) == 0 ==> err == ERR_NONE && data == []
    ensures !file.canRead || old(file.size) == 0 ==> file.offset == old(file.offset) && file.sect == old(file.sect)
    ensures old(fs.fat.Journal()) ==> fs.fat.Journal()
    ensures old(fs.fat.Tame()) ==> fs.fat.Tame()
  {
    hide Fat.Valid, Fat.Journal, Fat.Tame, NoneLeft, Sound, Evolved, Upkeep, File.Ready, File.Intact, File.Refused,
         SameDataRegion, Content, SameFiles;
    ghost var v0, f0, t0 := fs.fat.view, fs.fat.freeCnt, fs.tree;
    fs.fat.Facts();
    UpkeepTables(fs.fat.geo, v0, f0, v0);
    err, data := file.Read(len);
    if fs.fat.dev.faults == old(fs.fat.dev.faults) {
      if !file.canRead || file.size == 0 {
        SameChain(t0, c, file.chain);
        SameFilesRefl(fs.fat.geo, v0, t0, c);
      } else {
        Adopt(fs, file, c, v0, f0, t0);
      }
    }
  }

  /** `fat_file_write` on a volume. */
  method FileWrite(fs: FileSystem, file: File, data: seq<byte>, ghost c: nat) returns (err: int, written: nat)
    requires fs.Consistent() && On(fs, file, c) && (if file.Unreachable() then file.offset == 0 else file.Valid())
    modifies fs`tree, file`clust, file`sect, file`size, file`offset, file`dirty, file`chain, file`modified
    modifies file`accessed
    modifies file.buf, fs.fat, fs.fat.dev, fs.fat.buf
    ensures fs.fat.dev.faults == old(fs.fat.dev.faults) ==>
              && fs.Consistent() && On(fs, file, c) && Lengthened(old(fs.tree), fs.tree, c, file.chain)
              && fs.fat.geo.Wf(|old(fs.fat.view)|) && |fs.fat.view| == |old(fs.fat.view)|
              && Upkeep(fs.fat.geo, old(fs.fat.view), old(fs.fat.freeCnt), fs.fat.view, fs.fat.freeCnt)
              && SameFiles(fs.fat.geo, old(fs.fat.view), old(fs.tree), fs.fat.view, fs.tree, c)
    ensures file.canWrite == old(file.canWrite) && err == (if file.canWrite then ERR_NONE else ERR_DENIED)
    ensures file.modified == (file.canWrite || old(file.modified))
    ensures file.accessed == (file.canWrite || old(file.accessed))
    ensures (!file.canWrite ==> written == 0 && file.size == old(file.size))
    ensures !file.canWrite && old(file.Valid()) ==>
              file.Valid() && file.offset == old(file.offset) && file.Contents() == old(file.Contents())
    ensures fs.fat.dev.faults == old(fs.fat.dev.faults) && file.canWrite && !old(file.Unreachable()) ==>
              && file.Valid() && file.size == Max(old(file.size), file.offset) && written <= |data|
              && (if file.offset == old(file.offset) + |data| then written == |data|
                  else file.CutShort(old(file.offset), written))
    ensures fs.fat.dev.faults == old(fs.fat.dev.faults) && file.canWrite && !old(file.Unreachable())
            && old(file.offset) <= old(file.size) ==>
              && file.Valid() && file.size <= |Splice(old(file.Contents()), old(file.offset), data[..written])|
              && file.Contents() == Splice(old(file.Contents()), old(file.offset), data[..written])[..file.size]
    ensures old(file.Unreachable()) ==>
              && file.Unreachable() && file.offset == 0 && (file.sect == NO_SECT || file.sect == old(file.sect))
              && fs.fat.dev.faults == old(fs.fat.dev.faults)
    ensures old(fs.fat.Journal()) ==> fs.fat.Journal()
    ensures old(fs.fat.Tame()) ==> fs.fat.Tame()
  {
    hide Fat.Valid, Fat.Journal, Fat.Tame, NoneLeft, Sound, Evolved, Upkeep, File.Ready, File.Intact, File.Refused,
         SameDataRegion, Content, SameFiles;
    ghost var v0, f0, t0 := fs.fat.view, fs.fat.freeCnt, fs.tree;
    fs.fat.Facts();
    UpkeepTables(fs.fat.geo, v0, f0, v0);
    ghost var still := !file.canWrite || file.Unreachable();
    err, written := file.Write(data);
    if fs.fat.dev.faults == old(fs.fat.dev.faults) {
      if still {
        SameChain(t0, c, file.chain);
        SameFilesRefl(fs.fat.geo, v0, t0, c);
      } else {
        Adopt(fs, file, c, v0, f0, t0);
      }
    }
  }

  // ---------- closing ----------

  /** The contents are those of the first `size` bytes of the chain of `c`. */
  ghost predicate Holding(g: Geometry, img: Image, tree: Tree, c: nat, size: nat, contents: seq<byte>) {
    && 0 < g.spc && c in tree.chains && Backed(g, |img|, tree.chains[c]) && size <= Capacity(g, |tree.chains[c]|)
    && contents == Content(g, img, tree.chains[c], size)
  }

  /** Where an entry is, seen from a file whose clusters are not its directory's. */
  lemma EntryAt(g: Geometry, img: Image, tree: Tree, d: nat, item: Item, c: nat, sect: nat, idx: nat)
    requires Sound(g, img, tree) && d in tree.items && d in tree.chains && item in tree.items[d]
    requires IsPlace(g, tree.chains[d], item.at, sect, idx)
    ensures 0 < g.spc && g.dataSect <= sect < |img| && 0 < sect && !g.InFat(sect) && sect != g.infoSect
    ensures idx < SECTOR_SIZE && idx % 32 == 0
    ensures c != d ==> Apart(g, if c in tree.chains then tree.chains[c] else [], sect)
    ensures SlotAt(img[sect], idx / 32) == item.sfn && !IsLfn(item.sfn)
  {
    hide Table, IsTree, Owns, NoneBroken, Shows, SlotsOf, Items, WellFormed, IsChain, Backed, Row, Col, SlotCount,
         Geometry.ClustToSect, Geometry.SectToClust, Geometry.InFat, SlotAt;
    var ch := tree.chains[d];
    SoundDirectory(g, img, tree, d);
    var q: nat :|
      && item.at == 16 * q + idx / 32 && 0 < g.spc && Row(g, q) < |ch|
      && Stands(g, ch, q, ch[Row(g, q)], sect, idx);
    StandsInRange(g, img, ch, q, ch[Row(g, q)], sect, idx);
    SectToClustInverts(g, ch[Row(g, q)], Col(g, q));
    ListedSlots(SlotsOf(g, img, ch));
    ListedSfn(SlotsOf(g, img, ch), item);
    if c in tree.chains && c != d {
      ChainsApart(Table(g, img), tree.chains, tree.lost, d, c);
    }
    assert ch[Row(g, q)] in ch;
  }

  /** `fat_file_close` on a volume: the file's entry is updated in the tree, and everything is on the device. */
  method FileClose(fs: FileSystem, file: File, stamp: Stamp, ghost c: nat, ghost d: nat,
                   ghost item: Item) returns (err: int)
    requires fs.Consistent() && Attached(fs, file, c) && (file.sect != NO_SECT ==> On(fs, file, c) && file.Intact())
    requires d in fs.tree.items && d in fs.tree.chains && item in fs.tree.items[d] && !IsDot(item) && Head(item) == c
    requires IsPlace(fs.fat.geo, fs.tree.chains[d], item.at, file.dirSect, file.dirIdx)
    modifies fs`tree, file`accessed, file`modified, fs.fat, fs.fat.dev, fs.fat.buf
    ensures err == ERR_NONE || (err == ERR_IO && fs.fat.dev.faults > old(fs.fat.dev.faults))
    ensures err == ERR_NONE ==>
              && fs.Consistent() && Attached(fs, file, c) && fs.fat.dev.sectors == fs.fat.view
              && |fs.fat.view| == |old(fs.fat.view)|
              && fs.fat.SameAllocation()
              && Upkeep(fs.fat.geo, old(fs.fat.view), old(fs.fat.freeCnt), fs.fat.view, fs.fat.freeCnt)
              && SameFiles(fs.fat.geo, old(fs.fat.view), old(fs.tree), fs.fat.view, fs.tree,
                           if old(file.sect) == NO_SECT then 0 else c)
              && ClosedEntry(old(fs.tree), fs.tree, d, item, file.size, old(file.accessed), old(file.modified), stamp)
    ensures err == ERR_NONE && old(file.sect) != NO_SECT ==>
              Holding(fs.fat.geo, fs.fat.view, fs.tree, c, file.size, old(file.Contents()))
    ensures old(fs.fat.Journal()) ==> fs.fat.Journal()
    ensures old(fs.fat.Tame()) ==> fs.fat.Tame()
  {
    hide Fat.Valid, Fat.Journal, Fat.Tame, NoneLeft, Sound, Evolved, Upkeep, SameDataRegion, Content, IsPlace, IsTree,
         IsFile, Capacity, Backed, Mild, Table, Row, Apart, WithSlot, SlotAt, EntryAfter, IsDot, Exchanged,
         FreeOnDevice, NoneBroken, SectAt, SameFiles;
    var g := fs.fat.geo;
    ghost var v0, f0, t0, ch := fs.fat.view, fs.fat.freeCnt, fs.tree, file.chain;
    fs.fat.Facts();
    RemovedFacts(g, v0, t0, d, item);
    EntryAt(g, v0, t0, d, item, c, file.dirSect, file.dirIdx);
    ghost var x := if file.sect == NO_SECT then 0 else c;
    SameFilesRefl(g, v0, t0, x);
    if file.sect != NO_SECT {
      file.Grounded();
      FlushKeeps(g, v0, f0, t0, c, file.sect, file.buf[..], file.offset / SECTOR_SIZE);
    }
    ghost var stored, entered;
    err, stored, entered := file.Sync(stamp);
    if err == ERR_NONE {
      EntryAt(g, stored, t0, d, item, c, file.dirSect, file.dirIdx);
      EntryUpdated(g, stored, entered, t0, d, item, file.dirSect, file.dirIdx, file.size, old(file.accessed),
                   old(file.modified), stamp);
      ghost var list := Items(SlotsOf(g, entered, t0.chains[d]), 0);
      fs.tree := t0.(items := t0.items[d := list]);
      fs.fat.Facts();
      FilesClosed(g, v0, stored, entered, fs.fat.view, t0, fs.tree, d, x);
      SoundFrame(g, entered, fs.fat.view, fs.tree);
      CloseUpkeep(g, v0, stored, entered, fs.fat.view, f0, file.sect, file.dirSect);
    }
  }

  /** The entry of directory `d` has got the file's size and stamps; nothing else has changed in the tree. */
  ghost predicate ClosedEntry(tree: Tree, tree': Tree, d: nat, item: Item, size: uint32, accessed: bool, modified: bool,
                              stamp: Stamp) {
    && d in tree.items && d in tree'.items && tree' == tree.(items := tree.items[d := tree'.items[d]])
    && Exchanged(tree.items[d], item, item.(sfn := EntryAfter(item.sfn, size, accessed, modified, stamp)),
                 tree'.items[d])
  }

  /** Writing a file's buffered sector to the device. */
  lemma FlushKeeps(g: Geometry, v0: Image, f0: uint32, tree: Tree, c: nat, sect: nat, b: Sector, q: nat)
    requires Sound(g, v0, tree) && c in tree.chains && c !in tree.items && IsFile(g, v0, tree.chains[c])
    requires 0 < g.spc && Row(g, q) < |tree.chains[c]| && 2 <= tree.chains[c][Row(g, q)]
    requires sect == SectAt(g, tree.chains[c], q) < |v0|
    ensures Sound(g, v0[sect := b], tree) && g.dataSect <= sect && SameFiles(g, v0, tree, v0[sect := b], tree, c)
  {
    hide Sound, Evolved, Row, IsFile, Table, SectAt, SameFiles;
    var ch := tree.chains[c];
    StretchedRefl(g, v0, f0, ch);
    EvolvedByFlush(g, v0, f0, ch, v0, f0, ch, sect, b, q);
    SoundEvolved(g, v0, f0, v0[sect := b], f0, tree, c, ch);
    FilesEvolved(g, v0, f0, v0[sect := b], f0, tree, c, ch);
    FileSector(g, v0, ch, q);
    SameChain(tree, c, ch);
  }

  lemma FileSector(g: Geometry, img: Image, ch: seq<nat>, q: nat)
    requires IsFile(g, img, ch) && 0 < g.spc && Row(g, q) < |ch|
    ensures 2 <= ch[Row(g, q)] && g.dataSect <= SectAt(g, ch, q) < |img|
  {
    hide Row, Table, IsChain;
    SectAtBounds(g, |img|, ch, q);
  }

  /** The stores of closing a file change no table. */
  lemma CloseUpkeep(g: Geometry, v0: Image, v1: Image, v2: Image, v3: Image, freeCnt: uint32, sect: nat, dirSect: nat)
    requires g.Wf(|v0|) && |v0| == |v1| == |v2| == |v3|
    requires v1 == v0 || (g.dataSect <= sect < |v0| && v1 == v0[sect := v1[sect]])
    requires g.dataSect <= dirSect < |v0| && v2 == v1[dirSect := v2[dirSect]]
    requires Mild(g, v2, v3) && Table(g, v3) == Table(g, v2)
    ensures Upkeep(g, v0, freeCnt, v3, freeCnt)
  {
    hide Table, Upkeep, Mild;
    UpkeepTables(g, v0, freeCnt, v1);
    UpkeepTables(g, v1, freeCnt, v2);
    UpkeepTrans(g, v0, freeCnt, v1, freeCnt, v2, freeCnt);
    MildUpkeep(g, v2, freeCnt, v3);
    UpkeepTrans(g, v0, freeCnt, v2, freeCnt, v3, freeCnt);
  }

  /** The entry keeps its name, its cluster and its kind. */
  lemma EntryUpdated(g: Geometry, v0: Image, v1: Image, tree: Tree, d: nat, item: Item, sect: nat, idx: nat,
                     size: uint32, accessed: bool, modified: bool, stamp: Stamp)
    requires Sound(g, v0, tree) && d in tree.items && d in tree.chains && item in tree.items[d] && !IsDot(item)
    requires IsPlace(g, tree.chains[d], item.at, sect, idx) && sect < |v0| && idx / 32 < SLOTS_PER_SECTOR
    requires !IsLfn(item.sfn)
    requires v1 == v0[sect := WithSlot(v0[sect], idx / 32, EntryAfter(item.sfn, size, accessed, modified, stamp))]
    ensures 0 < g.spc && Backed(g, |v1|, tree.chains[d]) && WellFormed(SlotsOf(g, v1, tree.chains[d]), 0)
    ensures var list := Items(SlotsOf(g, v1, tree.chains[d]), 0); var tree' := tree.(items := tree.items[d := list]);
            && ClosedEntry(tree, tree', d, item, size, accessed, modified, stamp) && Sound(g, v1, tree')
            && SameFiles(g, v0, tree, v1, tree', 0)
  {
    hide Sound, WithSlot, Exchanged, SlotsOf, Items, WellFormed, IsPlace, Backed, Updated, IsDot, SameFiles;
    UpdatedFields(item.sfn, size, accessed, modified, stamp);
    SoundUpdated(g, v0, v1, tree, d, item, sect, idx, EntryAfter(item.sfn, size, accessed, modified, stamp));
  }

  // ---------- opening ----------

  /** The cursor is on an item of the tree, and the buffer holds its 8.3 slot. */
  ghost predicate OnItem(fs: FileSystem, dir: Dir, d: nat, item: Item)
    reads fs, dir, dir.names, dir.fat, dir.fat.dev, dir.fat.buf
  {
    && dir.Loaded() && d in fs.tree.items && d in fs.tree.chains && dir.chain == fs.tree.chains[d]
    && item in fs.tree.items[d] && !IsDot(item)
    && dir.Pos() == item.at && dir.Slots()[dir.Pos()] == item.sfn
  }

  /** The sizes in the entries fit their chains, and these and every free cluster lie on the device. */
  ghost predicate Sized(g: Geometry, img: Image, tree: Tree)
    requires g.Wf(|img|)
  {
    && |img| <= NO_SECT && FreeOnDevice(g, img)
    && forall d, item :: d in tree.items && item in tree.items[d] ==> Fits(g, |img|, tree, item)
  }

  ghost predicate Fits(g: Geometry, n: nat, tree: Tree, item: Item) {
    !IsDot(item) && Head(item) in tree.chains && SizeOf(item.sfn) != 0 ==>
      && !IsDir(item)
      && Backed(g, n, tree.chains[Head(item)]) && SizeOf(item.sfn) <= Capacity(g, |tree.chains[Head(item)]|)
  }

  /** If only the last component of the path is missing, its name can be stored, or is too long and refused. */
  ghost predicate Stores(fs: FileSystem, path: Name)
    requires IsTree(fs.fat.geo.rootClust, fs.tree)
    reads fs
  {
    fs.Within(path).Some? ==>
      var r := fs.Named(fs.Within(path).value);
      r.NoEntry? && |r.rest| == 1 ==> Storable(r.rest[0]) || |r.rest[0]| > MAX_NAME
  }

  /** The part of `fat_file_open` that finds or creates the entry. */
  method Locate(fs: FileSystem, dir: Dir, path: Name, create: bool,
                stamp: Stamp) returns (err: int, ghost d: nat, ghost item: Item)
    requires fs.Consistent() && IsTree(fs.fat.geo.rootClust, fs.tree) && dir.fat == fs.fat && dir.names == fs.names
    requires fs.Within(path).Some? ==> !fs.Named(fs.Within(path).value).TheRoot?
    modifies fs`tree, dir, fs.fat, fs.fat.dev, fs.fat.buf, fs.names, fs.names.buf
    ensures fs.fat.Valid() && fs.fat.geo.Wf(|old(fs.fat.view)|) && |fs.fat.view| == |old(fs.fat.view)|
    ensures fs.fat.dev.faults >= old(fs.fat.dev.faults)
    ensures fs.fat.dev.faults == old(fs.fat.dev.faults) && fs.Within(path).None? ==>
              err == ERR_PATH && fs.tree == old(fs.tree) && fs.Consistent()
    ensures fs.fat.dev.faults == old(fs.fat.dev.faults) && fs.Within(path).Some? ==>
              match old(fs.Named(fs.Within(path).value))
              case Entry(k, x) =>
                && err == ERR_NONE && fs.tree == old(fs.tree) && fs.fat.Idle()
                && fs.Consistent() && OnItem(fs, dir, k, x) && d == k && item == x
              case NoEntry(k, rest) =>
                && rest != [] && (!create || |rest| > 1 ==> fs.tree == old(fs.tree) && fs.Consistent())
                && (!create ==> err == ERR_DENIED) && (create && |rest| > 1 ==> err == ERR_PATH)
                && (create && |rest| == 1 && (Storable(rest[0]) || |rest[0]| > MAX_NAME) ==>
                      && fs.Consistent()
                      && (err == ERR_NONE ==> !old(fs.fat.Full(0)) && Storable(rest[0]))
                      && (err != ERR_NONE ==>
                            NotCreated(fs.fat.geo, fs.fat.view, fs.fat.lastUsed, old(fs.fat.Fats()),
                                       old(fs.fat.Full(0)), rest[0], err, old(fs.tree), fs.tree, k))
                      && (err == ERR_NONE ==>
                            && OnItem(fs, dir, k, item) && d == k && SizeOf(item.sfn) == 0 && item.sfn[11] == 0x20
                            && Unowned(old(fs.tree), Head(item))
                            && Created(old(fs.tree), fs.tree, k, dir.chain, rest[0], item, [])))
              case NotDirectory => err == ERR_PATH && fs.tree == old(fs.tree) && fs.Consistent()
              case TheRoot => true
    ensures err == ERR_NONE ==> dir.Loaded()
    ensures err == ERR_NONE
            && !(fs.fat.dev.faults == old(fs.fat.dev.faults) && fs.Within(path).Some?
                 && old(fs.Named(fs.Within(path).value)).Entry?) ==>
              SizeOf(dir.Slots()[dir.Pos()]) == 0
    ensures fs.fat.dev.faults == old(fs.fat.dev.faults) && old(Stores(fs, path)) ==>
              && Upkeep(fs.fat.geo, old(fs.fat.view), old(fs.fat.freeCnt), fs.fat.view, fs.fat.freeCnt)
              && SameFiles(fs.fat.geo, old(fs.fat.view), old(fs.tree), fs.fat.view, fs.tree, 0)
    ensures old(fs.fat.Journal()) ==> fs.fat.Journal()
    ensures old(fs.fat.Tame()) ==> fs.fat.Tame()
  {
    hide Fat.Valid, Fat.Journal, Fat.Tame, NoneLeft, Sound, IsTree, Upkeep, IsDirectory, Resolve, Find,
         FileSystem.Within, Split, FirstLen, Geometry.Wf, Table, NotCreated, Storable, Walk, Created, Stands, SlotsOf,
         SlotCount, IsPlace, IsDot, SizeOf, SameFiles;
    d, item := 0, NewItem(0, [], 0, seq(32, _ => 0));
    fs.fat.Facts();
    UpkeepTables(fs.fat.geo, fs.fat.view, fs.fat.freeCnt, fs.fat.view);
    SameFilesRefl(fs.fat.geo, fs.fat.view, fs.tree, 0);
    var at, loc;
    err, at, loc := fs.FollowPath(dir, path);
    fs.fat.Facts();
    if err != ERR_NONE && err != ERR_EOF {
      return;
    }
    ghost var r := fs.Named(fs.Within(path).value);
    NamedListed(fs.fat.geo.rootClust, fs.tree, fs.Within(path).value);
    NamedMissing(fs.fat.geo.rootClust, fs.tree, fs.Within(path).value);
    if err == ERR_NONE {
      d, item := r.dir, r.item;
      return;
    }
    if !create {
      return ERR_DENIED, d, item;
    }
    err, item := CreateAt(fs, dir, path, at, r.dir, r.rest, stamp);
    d := r.dir;
  }

  /** The part of `fat_file_open` once the path has been found to be missing. */
  method CreateAt(fs: FileSystem, dir: Dir, path: Name, at: nat, ghost d: nat, ghost rest: seq<Name>, stamp: Stamp)
    returns (err: int, ghost item: Item)
    requires fs.Consistent() && dir.fat == fs.fat && dir.names == fs.names
    requires d in fs.tree.items && d in fs.tree.chains && dir.Open() && dir.chain == fs.tree.chains[d]
    requires at < |path| && path[at] != SLASH && rest == Split(path[at..]) && rest != []
    requires Find(fs.tree.items[d], rest[0]).Missing?
    modifies fs`tree, dir`clust, dir`sect, dir`idx, dir`q, dir`chain, fs.fat, fs.fat.dev, fs.fat.buf
    ensures fs.fat.Valid() && fs.fat.geo.Wf(|old(fs.fat.view)|) && |fs.fat.view| == |old(fs.fat.view)|
    ensures fs.fat.dev.faults >= old(fs.fat.dev.faults)
    ensures |rest| > 1 ==>
              && err == ERR_PATH && fs.tree == old(fs.tree) && fs.Consistent()
              && fs.fat.dev.faults == old(fs.fat.dev.faults)
              && fs.fat.view == old(fs.fat.view) && fs.fat.freeCnt == old(fs.fat.freeCnt)
    ensures fs.fat.dev.faults == old(fs.fat.dev.faults) && |rest| == 1
            && (Storable(rest[0]) || |rest[0]| > MAX_NAME) ==>
              && fs.Consistent()
              && Upkeep(fs.fat.geo, old(fs.fat.view), old(fs.fat.freeCnt), fs.fat.view, fs.fat.freeCnt)
              && SameFiles(fs.fat.geo, old(fs.fat.view), old(fs.tree), fs.fat.view, fs.tree, 0)
              && (err == ERR_NONE ==> !old(fs.fat.Full(0)) && Storable(rest[0]))
              && (err != ERR_NONE ==>
                    NotCreated(fs.fat.geo, fs.fat.view, fs.fat.lastUsed, old(fs.fat.Fats()), old(fs.fat.Full(0)),
                               rest[0], err, old(fs.tree), fs.tree, d))
    ensures fs.fat.dev.faults == old(fs.fat.dev.faults) && |rest| == 1 && (Storable(rest[0]) || |rest[0]| > MAX_NAME)
            && err == ERR_NONE ==>
              && OnItem(fs, dir, d, item) && SizeOf(item.sfn) == 0 && item.sfn[11] == 0x20
              && Unowned(old(fs.tree), Head(item)) && Created(old(fs.tree), fs.tree, d, dir.chain, rest[0], item, [])
    ensures err == ERR_NONE ==> dir.Loaded() && SizeOf(dir.Slots()[dir.Pos()]) == 0
    ensures old(fs.fat.Journal()) ==> fs.fat.Journal()
    ensures old(fs.fat.Tame()) ==> fs.fat.Tame()
  {
    hide Fat.Valid, Fat.Journal, Fat.Tame, NoneLeft, Sound, IsTree, IsDirectory, Find, Split, FirstLen, Geometry.Wf,
         Upkeep, Table, NotCreated, Storable, SfnSlot, SfnName, SizeOf, Gained, Adopted, ClusterOf, SameFiles;
    item := NewItem(0, [], 0, seq(32, _ => 0));
    fs.fat.Facts();
    var len := LastSubpathLen(path, at);
    SplitFirst(path, at, FirstLen(path[at..]));
    if len == 0 {
      return ERR_PATH, item;
    }
    err, item := fs.CreateFile(dir, d, path[at..at + len], stamp);
    fs.fat.Facts();
    if err == ERR_NONE && fs.fat.dev.faults == old(fs.fat.dev.faults) && (Storable(rest[0]) || |rest[0]| > MAX_NAME) {
      SfnSlotFields(SfnName(rest[0]), ATTR_ARCHIVE, Head(item), stamp);
      CreatedItem(old(fs.tree), fs.tree, d, dir.chain, rest[0], item, []);
      ItemThere(fs.fat.geo, fs.fat.view, fs.tree, d, item);
    }
  }

  lemma CreatedItem(tree: Tree, tree': Tree, d: nat, ch: seq<nat>, name: Name, item: Item, kids: seq<Item>)
    requires Created(tree, tree', d, ch, name, item, kids)
    ensures d in tree'.items && item in tree'.items[d] && !IsDot(item)
  {
    hide Find;
  }

  lemma ItemThere(g: Geometry, img: Image, tree: Tree, d: nat, item: Item)
    requires Sound(g, img, tree) && d in tree.items && item in tree.items[d]
    ensures d in tree.chains && 0 < g.spc && Backed(g, |img|, tree.chains[d])
    ensures item.at < |SlotsOf(g, img, tree.chains[d])| && SlotsOf(g, img, tree.chains[d])[item.at] == item.sfn
  {
    hide Table, IsTree, Owns, SlotsOf, IsChain, Backed, NoneBroken, Items, WellFormed;
    SoundDirectory(g, img, tree, d);
    ListedSlots(SlotsOf(g, img, tree.chains[d]));
  }

  /** A file that is about to be positioned for the first time. */
  lemma FirstReady(fs: FileSystem, file: File, dir: Dir, d: nat, item: Item)
    requires fs.Consistent() && dir.fat == fs.fat && dir.names == fs.names && OnItem(fs, dir, d, item)
    requires fs.fat.geo.Wf(|fs.fat.view|) && |fs.fat.view| <= NO_SECT && FreeOnDevice(fs.fat.geo, fs.fat.view)
    requires Fits(fs.fat.geo, |fs.fat.view|, fs.tree, item)
    requires file.fat == fs.fat && file.buf.Length == SECTOR_SIZE && file.buf != fs.fat.buf
    requires file.sclust == file.clust == Head(item) && file.sect == NO_SECT && file.offset == 0 && !file.dirty
    requires file.size == SizeOf(item.sfn) && !file.Unreachable()
    requires Head(item) in fs.tree.chains ==> file.chain == fs.tree.chains[Head(item)]
    ensures file.Ready() && On(fs, file, Head(item))
    ensures Holding(fs.fat.geo, fs.fat.view, fs.tree, Head(item), file.size, file.Contents())
  {
    hide Sound, IsTree, Owns, NoneBroken, Shows, SlotsOf, SlotCount, IsDirectory, IsPlace, IsDot, FreeOnDevice, SizeOf,
         Backed, Capacity, Row, Table, Apart, Find, ClusterOf;
    var g, img := fs.fat.geo, fs.fat.view;
    ItemHead(g, img, fs.tree, d, item);
    SoundReadable(g, img, fs.tree);
    RemovedFacts(g, img, fs.tree, d, item);
    StandsAtPlace(g, dir.chain, dir.q, dir.clust, dir.sect, dir.idx);
    EntryAt(g, img, fs.tree, d, item, Head(item), dir.sect, dir.idx);
    FirstHolds(g, file.chain);
  }

  lemma FirstHolds(g: Geometry, ch: seq<nat>)
    requires 0 < g.spc && ch != [] && 2 <= ch[0]
    ensures Holds(g, ch, 0, ch[0])
  {
    RowColOf(g, 0, 0);
    SpanStep(g, 0);
  }

  /** The chain that a listed item names. */
  lemma ItemHead(g: Geometry, img: Image, tree: Tree, d: nat, item: Item)
    requires Sound(g, img, tree) && d in tree.items && item in tree.items[d] && !IsDot(item) && Head(item) != 0
    ensures g.Wf(|img|) && 0 < g.spc && Head(item) in tree.chains && 2 <= Head(item)
    ensures (Head(item) in tree.items <==> IsDir(item))
    ensures var ch := tree.chains[Head(item)]; ch != [] && ch[0] == Head(item) && IsChain(Table(g, img), ch)
  {
    hide Table, NoneBroken, Shows, IsDot, IsDir, EntryIn, Dotted, Disjoint, Owned, InUse, Accounted;
    RemovedHead(g.rootClust, tree, d, item);
  }

  /** The file as its 8.3 slot describes it. */
  method NewFile(fs: FileSystem, dir: Dir, mode: Mode, ghost ok: bool, ghost d: nat, ghost item: Item)
    returns (file: File)
    requires dir.fat == fs.fat && dir.names == fs.names && dir.Loaded()
    requires fs.fat.geo.Wf(|fs.fat.view|)
    requires if ok then
               && fs.Consistent() && OnItem(fs, dir, d, item)
               && (SizeOf(item.sfn) != 0 ==>
                     && |fs.fat.view| <= NO_SECT
                     && FreeOnDevice(fs.fat.geo, fs.fat.view)
                     && Fits(fs.fat.geo, |fs.fat.view|, fs.tree, item))
             else SizeOf(dir.Slots()[dir.Pos()]) == 0
    ensures fresh(file) && fresh(file.buf) && file.fat == fs.fat && file.buf != fs.fat.buf
    ensures file.dirSect == dir.sect && file.dirIdx == dir.idx
    ensures file.canRead == mode.read && file.canWrite == mode.write && file.sect == NO_SECT && file.offset == 0
    ensures !file.accessed
    ensures !ok ==> file.Unreachable()
    ensures ok ==>
              && file.sclust == Head(item) && file.size == (if mode.trunc then 0 else SizeOf(item.sfn))
              && file.modified == (mode.trunc && SizeOf(item.sfn) != 0)
              && d in fs.tree.chains && IsPlace(fs.fat.geo, fs.tree.chains[d], item.at, file.dirSect, file.dirIdx)
              && Attached(fs, file, Head(item))
    ensures ok && !file.Unreachable() ==>
              && file.Ready() && On(fs, file, Head(item))
              && Holding(fs.fat.geo, fs.fat.view, fs.tree, Head(item), file.size, file.Contents())
  {
    hide Fat.Valid, Sound, IsTree, File.Ready, Content, Fits, FreeOnDevice, IsPlace, SlotsOf, SlotCount, IsDirectory,
         Stands, SizeOf, ClusterOf, IsDot, IsDir, Backed, Capacity, Table, Geometry.Wf, Holding;
    var sfn := dir.Ptr();
    ghost var ch := if ok && Head(item) in fs.tree.chains then fs.tree.chains[Head(item)] else [];
    file := new File.FromSlot(fs.fat, sfn, dir.sect, dir.idx, mode, ch);
    StandsAtPlace(fs.fat.geo, dir.chain, dir.q, dir.clust, dir.sect, dir.idx);
    if ok && !file.Unreachable() {
      FirstReady(fs, file, dir, d, item);
    }
  }

  /** The end of `fat_file_open`: fill in the file from its 8.3 slot and position it. */
  method OpenAt(fs: FileSystem, dir: Dir, mode: Mode, ghost ok: bool, ghost d: nat, ghost item: Item)
    returns (err: int, file: File)
    requires dir.fat == fs.fat && dir.names == fs.names && dir.Loaded()
    requires fs.fat.geo.Wf(|fs.fat.view|)
    requires if ok then
               && fs.Consistent() && OnItem(fs, dir, d, item)
               && (SizeOf(item.sfn) != 0 ==>
                     && |fs.fat.view| <= NO_SECT
                     && FreeOnDevice(fs.fat.geo, fs.fat.view)
                     && Fits(fs.fat.geo, |fs.fat.view|, fs.tree, item))
             else SizeOf(dir.Slots()[dir.Pos()]) == 0
    modifies fs`tree, fs.fat, fs.fat.dev, fs.fat.buf
    ensures fs.fat.dev.faults >= old(fs.fat.dev.faults)
    ensures fs.fat.dev.faults == old(fs.fat.dev.faults) ==>
              && fs.fat.geo.Wf(|old(fs.fat.view)|) && |fs.fat.view| == |old(fs.fat.view)|
              && Upkeep(fs.fat.geo, old(fs.fat.view), old(fs.fat.freeCnt), fs.fat.view, fs.fat.freeCnt)
    ensures fresh(file) && fresh(file.buf) && file.fat == fs.fat && file.dirSect == dir.sect && file.dirIdx == dir.idx
    ensures file.canRead == mode.read && file.canWrite == mode.write && !file.accessed
    ensures ok ==>
              && file.sclust == Head(item) && file.size == (if mode.trunc then 0 else SizeOf(item.sfn))
              && file.modified == (mode.trunc && SizeOf(item.sfn) != 0)
              && d in old(fs.tree).chains
              && IsPlace(fs.fat.geo, old(fs.tree).chains[d], item.at, file.dirSect, file.dirIdx)
    ensures ok && file.Unreachable() ==>
              && err == ERR_NONE && fs.Consistent() && fs.tree == old(fs.tree) && file.offset == 0
              && file.sect == NO_SECT
              && Attached(fs, file, Head(item))
    ensures ok && fs.fat.dev.faults == old(fs.fat.dev.faults) ==>
              SameFiles(fs.fat.geo, old(fs.fat.view), old(fs.tree), fs.fat.view, fs.tree, Head(item))
    ensures ok && !file.Unreachable() && fs.fat.dev.faults == old(fs.fat.dev.faults) ==>
              && (err == ERR_NONE || err == ERR_FULL) && fs.Consistent()
              && Lengthened(old(fs.tree), fs.tree, Head(item), file.chain) && On(fs, file, Head(item))
    ensures ok && !file.Unreachable() && fs.fat.dev.faults == old(fs.fat.dev.faults) ==>
              && Head(item) in old(fs.tree).chains
              && (err == ERR_FULL <==> mode.append && old(Brim(fs.fat, fs.tree.chains[Head(item)], SizeOf(item.sfn))))
    ensures ok && !file.Unreachable() && err == ERR_NONE ==>
              && file.Valid() && file.offset == (if mode.append then file.size else 0)
              && Holding(fs.fat.geo, old(fs.fat.view), old(fs.tree), Head(item), file.size, file.Contents())
    ensures old(fs.fat.Journal()) ==> fs.fat.Journal()
    ensures old(fs.fat.Tame()) ==> fs.fat.Tame()
  {
    hide Fat.Valid, Fat.Journal, Fat.Tame, NoneLeft, Sound, IsTree, Upkeep, File.Ready, Content, Fits, FreeOnDevice,
         IsPlace, SlotsOf, SlotCount, Dir.Loaded, SizeOf, ClusterOf, IsDot, IsDir, Table, Geometry.Wf, SameFiles,
         Holding;
    if ok {
      SameFilesRefl(fs.fat.geo, fs.fat.view, fs.tree, Head(item));
    }
    file := NewFile(fs, dir, mode, ok, d, item);
    err := Position(fs, file, if mode.append then FromEnd else FromStart, ok, Head(item));
  }

  /** The seek at the end of `fat_file_open`. */
  method Position(fs: FileSystem, file: File, whence: Whence, ghost ok: bool, ghost c: nat) returns (err: int)
    requires ok ==> fs.Consistent() && (!file.Unreachable() ==> file.Ready() && On(fs, file, c))
    requires fs.fat.geo.Wf(|fs.fat.view|) && (!ok ==> file.Unreachable())
    requires file.fat == fs.fat && file.buf != fs.fat.buf && whence != FromCurrent
    modifies fs`tree, file`clust, file`sect, file`offset, file`dirty, file`chain, file.buf, fs.fat, fs.fat.dev
    modifies fs.fat.buf
    ensures fs.fat.dev.faults >= old(fs.fat.dev.faults)
    ensures fs.fat.dev.faults == old(fs.fat.dev.faults) ==>
              && fs.fat.geo.Wf(|old(fs.fat.view)|) && |fs.fat.view| == |old(fs.fat.view)|
              && Upkeep(fs.fat.geo, old(fs.fat.view), old(fs.fat.freeCnt), fs.fat.view, fs.fat.freeCnt)
    ensures ok && file.Unreachable() ==>
              && err == ERR_NONE && file.offset == 0 && file.sect == NO_SECT && file.chain == old(file.chain)
              && fs.Consistent() && fs.tree == old(fs.tree) && fs.fat.view == old(fs.fat.view)
    ensures ok && !file.Unreachable() && fs.fat.dev.faults == old(fs.fat.dev.faults) ==>
              && (err == ERR_NONE || err == ERR_FULL) && fs.Consistent()
              && SameFiles(fs.fat.geo, old(fs.fat.view), old(fs.tree), fs.fat.view, fs.tree, c)
              && Lengthened(old(fs.tree), fs.tree, c, file.chain) && On(fs, file, c)
    ensures ok && !file.Unreachable() && fs.fat.dev.faults == old(fs.fat.dev.faults) ==>
              (err == ERR_FULL <==> whence == FromEnd && old(Brim(fs.fat, file.chain, file.size)))
    ensures ok && !file.Unreachable() && err == ERR_NONE ==>
              && file.Valid() && file.offset == (if whence == FromEnd then file.size else 0) && file.SameContents()
    ensures old(fs.fat.Journal()) ==> fs.fat.Journal()
    ensures old(fs.fat.Tame()) ==> fs.fat.Tame()
  {
    hide Fat.Valid, Fat.Journal, Fat.Tame, NoneLeft, Sound, Evolved, Upkeep, File.Intact, File.Refused, Content, Holds,
         SameFiles;
    ghost var v0, f0, t0 := fs.fat.view, fs.fat.freeCnt, fs.tree;
    UpkeepTables(fs.fat.geo, v0, f0, v0);
    err := file.Seek(0, whence);
    if ok && !file.Unreachable() && fs.fat.dev.faults == old(fs.fat.dev.faults) {
      Adopt(fs, file, c, v0, f0, t0);
    }
  }

  /** `fat_file_open` of anything but the root. Without device faults it opens the entry that the path names, with the
      cursor at the start or at the end, or creates it first if it is to; positioning at the end of a file whose size is
      a multiple of the cluster size stretches its chain. */
  method FileOpen(fs: FileSystem, path: Name, mode: Mode, stamp: Stamp)
    returns (err: int, file: File?, ghost d: nat, ghost item: Item)
    requires fs.Consistent() && IsTree(fs.fat.geo.rootClust, fs.tree)
    requires fs.fat.geo.Wf(|fs.fat.view|) && Sized(fs.fat.geo, fs.fat.view, fs.tree)
    requires fs.Within(path).Some? ==> !fs.Named(fs.Within(path).value).TheRoot?
    modifies fs`tree, fs.fat, fs.fat.dev, fs.fat.buf, fs.names, fs.names.buf
    ensures fs.fat.dev.faults >= old(fs.fat.dev.faults) && (err == ERR_NONE ==> file != null)
    ensures (file != null ==> fresh(file) && fresh(file.buf))
    ensures fs.fat.dev.faults == old(fs.fat.dev.faults) ==> |fs.fat.view| == |old(fs.fat.view)|
    ensures fs.fat.dev.faults == old(fs.fat.dev.faults) && old(Stores(fs, path)) ==>
              && Upkeep(fs.fat.geo, old(fs.fat.view), old(fs.fat.freeCnt), fs.fat.view, fs.fat.freeCnt)
              && SameFiles(fs.fat.geo, old(fs.fat.view), old(fs.tree), fs.fat.view, fs.tree,
                           if file == null then 0 else Head(item))
    ensures fs.fat.dev.faults == old(fs.fat.dev.faults) && old(Stores(fs, path)) && file != null && err != ERR_NONE ==>
              fs.Within(path).Some? && old(fs.Named(fs.Within(path).value)).Entry?
    ensures fs.fat.dev.faults == old(fs.fat.dev.faults) && fs.Within(path).None? ==>
              err == ERR_PATH && fs.tree == old(fs.tree) && fs.Consistent()
    ensures fs.fat.dev.faults == old(fs.fat.dev.faults) && fs.Within(path).Some? ==>
              match old(fs.Named(fs.Within(path).value))
              case Entry(k, x) =>
                && (err == ERR_NONE || err == ERR_FULL) && fs.Consistent() && d == k && item == x
                && file != null && Opened(fs, file, mode, k, x)
                && (if file.Unreachable() then fs.tree == old(fs.tree)
                    else Lengthened(old(fs.tree), fs.tree, Head(x), file.chain))
                && (err == ERR_FULL <==>
                      && !file.Unreachable() && mode.append
                      && old(Brim(fs.fat, fs.tree.chains[Head(x)], SizeOf(x.sfn))))
                && (!file.Unreachable() && err == ERR_NONE ==>
                      && file.Valid() && file.offset == (if mode.append then file.size else 0)
                      && Holding(fs.fat.geo, old(fs.fat.view), old(fs.tree), Head(x), file.size, file.Contents()))
              case NoEntry(k, rest) =>
                && rest != [] && (!mode.create || |rest| > 1 ==> fs.tree == old(fs.tree) && fs.Consistent())
                && (!mode.create ==> err == ERR_DENIED) && (mode.create && |rest| > 1 ==> err == ERR_PATH)
                && (mode.create && |rest| == 1 && (Storable(rest[0]) || |rest[0]| > MAX_NAME) ==>
                      && fs.Consistent()
                      && (err == ERR_NONE ==> !old(fs.fat.Full(0)) && Storable(rest[0]))
                      && (err != ERR_NONE ==>
                            NotCreated(fs.fat.geo, fs.fat.view, fs.fat.lastUsed, old(fs.fat.Fats()),
                                       old(fs.fat.Full(0)), rest[0], err, old(fs.tree), fs.tree, k))
                      && (err == ERR_NONE ==>
                            && d == k && k in fs.tree.chains && file != null && Opened(fs, file, mode, k, item)
                            && SizeOf(item.sfn) == 0 && item.sfn[11] == 0x20
                            && Unowned(old(fs.tree), Head(item))
                            && Created(old(fs.tree), fs.tree, k, fs.tree.chains[k], rest[0], item, [])))
              case NotDirectory => err == ERR_PATH && fs.tree == old(fs.tree) && fs.Consistent()
              case TheRoot => true
    ensures old(fs.fat.Journal()) ==> fs.fat.Journal()
    ensures old(fs.fat.Tame()) ==> fs.fat.Tame()
  {
    hide Fat.Valid, Fat.Journal, Fat.Tame, NoneLeft, Sound, IsTree, Upkeep, Resolve, FileSystem.Within, Table,
         NotCreated, Storable, Created, SlotsOf, SlotCount, IsPlace, IsDot, SizeOf, Fits, FreeOnDevice, Content,
         File.Ready, Dir.Loaded, IsDir, ClusterOf, Backed, Capacity, Geometry.Wf, SameFiles, Holding;
    file := null;
    ghost var v0, f0, t0 := fs.fat.view, fs.fat.freeCnt, fs.tree;
    var dir := new Dir(fs.fat, fs.names);
    err, d, item := Locate(fs, dir, path, mode.create, stamp);
    ghost var v1, f1, t1 := fs.fat.view, fs.fat.freeCnt, fs.tree;
    if err != ERR_NONE {
      return;
    }
    ghost var ok := fs.fat.dev.faults == old(fs.fat.dev.faults) && OnItem(fs, dir, d, item) && fs.Consistent()
      && (SizeOf(item.sfn) != 0 ==>
            && |fs.fat.view| <= NO_SECT
            && FreeOnDevice(fs.fat.geo, fs.fat.view)
            && Fits(fs.fat.geo, |fs.fat.view|, fs.tree, item));
    err, file := OpenAt(fs, dir, mode, ok, d, item);
    if fs.fat.dev.faults == old(fs.fat.dev.faults) && old(Stores(fs, path)) {
      UpkeepTrans(fs.fat.geo, v0, f0, v1, f1, fs.fat.view, fs.fat.freeCnt);
      FilesOpened(fs.fat.geo, v0, v1, fs.fat.view, t0, t1, fs.tree, d, dir.chain, item);
    }
  }

  /** The entry was there, or has been created, and then the file has been positioned. */
  lemma FilesOpened(g: Geometry, v0: Image, v1: Image, v2: Image, t0: Tree, t1: Tree, t2: Tree, d: nat, ch: seq<nat>,
                    item: Item)
    requires Sound(g, v0, t0)
    requires t1 == t0 || (Unowned(t0, Head(item)) && exists name :: Created(t0, t1, d, ch, name, item, []))
    requires SameFiles(g, v0, t0, v1, t1, 0) && SameFiles(g, v1, t1, v2, t2, Head(item))
    ensures SameFiles(g, v0, t0, v2, t2, Head(item))
  {
    hide Sound, SameBytes, Find, Gained, Head, IsDir;
    TreeFacts(g, v0, t0);
    SameFilesBut(g, v0, t0, v1, t1, Head(item));
    SameFilesTrans(g, v0, t0, v1, t1, v2, t2, Head(item));
  }

  /** The file is open on this entry. */
  ghost predicate Opened(fs: FileSystem, file: File, mode: Mode, d: nat, item: Item)
    reads fs`tree, file
  {
    && file.fat == fs.fat && file.sclust == Head(item) && file.size == (if mode.trunc then 0 else SizeOf(item.sfn))
    && file.canRead == mode.read && file.canWrite == mode.write
    && file.modified == (mode.trunc && SizeOf(item.sfn) != 0) && !file.accessed
    && (file.Unreachable() ==> file.sect == NO_SECT && file.offset == 0)
    && d in fs.tree.chains && IsPlace(fs.fat.geo, fs.tree.chains[d], item.at, file.dirSect, file.dirIdx)
    && Attached(fs, file, Head(item))
  }
}
