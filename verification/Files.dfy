/** Open files: a buffered cursor over a chain that grows when the cursor moves past its end. */
module Files {
  import opened Bytes
  import opened Layout
  import opened Chains
  import opened Clusters
  import opened Names
  import opened Volume
  import opened FileData
  import opened WriteOrder

  /** The sector number that means "no sector is buffered". */
  const NO_SECT := 0xffff_ffff

  datatype Mode = Mode(read: bool, write: bool, append: bool, trunc: bool, create: bool)

  datatype Whence = FromStart | FromCurrent | FromEnd

  /** A file of this size fills the last cluster of its chain, and there is no other cluster for it. */
  ghost predicate Brim(fat: Fat, chain: seq<nat>, size: nat)
    reads fat
  {
    chain != [] && size == Capacity(fat.geo, |chain|) && fat.Full(chain[|chain| - 1])
  }

  class File {
    const fat: Fat
    const buf: array<byte>
    var sclust: nat
    var clust: nat
    var sect: nat
    var size: uint32
    var offset: uint32
    var canRead: bool
    var canWrite: bool
    var accessed: bool
    var modified: bool
    var dirty: bool
    var dirSect: nat
    var dirIdx: nat

    // The chain of the file.
    ghost var chain: seq<nat>

    /** The logical disk with the sector in this file's buffer laid over it. */
    ghost function Disk(): Image
      requires buf.Length == SECTOR_SIZE
      reads `sect, fat, buf
    {
      Patched(fat.view, sect, buf[..])
    }

    /** A non-empty file on a sound volume: its bytes are safe, whatever cluster the cursor is in. The buffer may still
        have to be loaded. */
    ghost predicate Intact()
      reads `sclust, `sect, `size, `offset, `dirty, `chain, fat, fat.dev, fat.buf, buf
    {
      && fat.Valid() && buf.Length == SECTOR_SIZE && buf != fat.buf && |fat.view| <= NO_SECT
      && IsFile(fat.geo, fat.view, chain) && chain[0] == sclust
      && NoneBroken(fat.Fats()) && FreeOnDevice(fat.geo, fat.view)
      && Apart(fat.geo, chain, fat.sect)
      && 0 < size <= Capacity(fat.geo, |chain|)
      && 0 < fat.geo.spc && Row(fat.geo, offset / SECTOR_SIZE) < |chain|
      && if sect == NO_SECT then !dirty else
           && sect == SectAt(fat.geo, chain, offset / SECTOR_SIZE) && sect < |fat.view|
           && (!dirty ==> buf[..] == fat.view[sect])
    }

    /** The cursor is in the cluster that its offset belongs to. */
    ghost predicate Ready()
      reads `sclust, `clust, `sect, `size, `offset, `dirty, `chain, fat, fat.dev, fat.buf, buf
    {
      Intact() && Holds(fat.geo, chain, offset, clust)
    }

    ghost predicate Valid()
      reads `sclust, `clust, `sect, `size, `offset, `dirty, `chain, fat, fat.dev, fat.buf, buf
    {
      Ready() && sect != NO_SECT
    }

    /** The contents of the file as its reader sees them. */
    ghost function Contents(): seq<byte>
      requires Intact()
      reads `sclust, `sect, `size, `offset, `dirty, `chain, fat, fat.dev, fat.buf, buf
    {
      hide Fat.Valid, NoneBroken, FreeOnDevice, Apart, Table, IsChain, SectAt;
      Content(fat.geo, Disk(), chain, size)
    }

    /** What a read of `len` bytes delivers. */
    ghost function Ahead(len: nat): seq<byte>
      requires Intact()
      reads `sclust, `sect, `size, `offset, `dirty, `chain, fat, fat.dev, fat.buf, buf
    {
      if offset < size then Contents()[offset..offset + Min(len, size - offset)] else []
    }

    /** All the bytes in the file's clusters. */
    ghost function Raw(): seq<byte>
      requires Intact()
      reads `sclust, `sect, `size, `offset, `dirty, `chain, fat, fat.dev, fat.buf, buf
    {
      hide Fat.Valid, NoneBroken, FreeOnDevice, Apart, Table, IsChain, SectAt;
      Content(fat.geo, Disk(), chain, Capacity(fat.geo, |chain|))
    }

    /** A seek to `off` has been refused: the target is beyond the clusters of the file, of which there can be no more,
        and the cursor has been left in the last of them. */
    ghost predicate Refused(off: nat)
      reads `sclust, `clust, `sect, `size, `offset, `dirty, `chain, fat, fat.dev, fat.buf, buf
    {
      && Intact() && |chain| <= Row(fat.geo, off / SECTOR_SIZE)
      && fat.Full(chain[|chain| - 1]) && clust == chain[|chain| - 1]
    }

    ghost predicate Brimful()
      requires Intact()
      reads `sclust, `sect, `size, `offset, `dirty, `chain, fat, fat.dev, fat.buf, buf
    {
      Brim(fat, chain, size)
    }

    /** The bytes of the file are what they were. */
    twostate predicate SameContents()
      reads `sclust, `sect, `size, `offset, `dirty, `chain, fat, fat.dev, fat.buf, buf
    {
      old(Intact()) && Intact() && Contents() == old(Contents())
    }

    /** The offset does not move, so only a cursor that was in the last cluster already is still where it says. */
    lemma RefusedReadyIff(off: nat)
      requires Refused(off)
      ensures Ready() <==> Row(fat.geo, offset / SECTOR_SIZE) + 1 == |chain|
    {
      hide Fat.Valid, NoneBroken, FreeOnDevice, Apart, Table, Capacity, Row, SectAt, NoneLeft;
      FileWf(fat.geo, fat.view, chain);
    }

    /** Where in the chain a seek to `off` arrives if the cursor is in cluster number `k`. It counts on from there,
        as if the offset were there too, unless the target is in an earlier cluster than the offset. */
    ghost function Landing(k: nat, off: nat): nat
      requires 0 < fat.geo.spc
      reads `offset
    {
      var dst, src := Row(fat.geo, off / SECTOR_SIZE), Row(fat.geo, offset / SECTOR_SIZE);
      if dst < src then dst else k + (dst - src)
    }

    /** A seek to `off` finds its way: the cursor is in the cluster of its offset, or the target is in an earlier
        one. */
    ghost predicate CanSeek(off: int)
      reads `sclust, `clust, `sect, `size, `offset, `dirty, `chain, fat, fat.dev, fat.buf, buf
    {
      || Ready()
      || (Intact() && 0 <= off && Row(fat.geo, off / SECTOR_SIZE) < Row(fat.geo, offset / SECTOR_SIZE))
    }

    /** Exactly then it arrives in the cluster that the target belongs to. */
    lemma CanSeekIff(k: nat, off: nat)
      requires Intact() && k < |chain| && clust == chain[k]
      ensures CanSeek(off) <==> Landing(k, off) == Row(fat.geo, off / SECTOR_SIZE)
    {
      hide Fat.Valid, NoneBroken, FreeOnDevice, Apart, Table, Capacity, Row, SectAt;
      FileWf(fat.geo, fat.view, chain);
    }

    /** The part of `fat_file_open` that fills in the file from its 8.3 slot. */
    constructor FromSlot(f: Fat, s: Slot, entrySect: nat, entryIdx: nat, mode: Mode, ghost ch: seq<nat>)
      ensures fat == f && fresh(buf) && buf != f.buf && buf.Length == SECTOR_SIZE && chain == ch
      ensures sclust == clust == ClusterOf(s) && sect == NO_SECT && offset == 0 && !dirty && !accessed
      ensures size == (if mode.trunc then 0 else SizeOf(s)) && modified == (mode.trunc && SizeOf(s) != 0)
      ensures canRead == mode.read && canWrite == mode.write && dirSect == entrySect && dirIdx == entryIdx
    {
      fat := f;
      buf := new byte[SECTOR_SIZE](_ => 0);
      dirSect, dirIdx := entrySect, entryIdx;
      sclust, clust := ClusterOf(s), ClusterOf(s);
      sect, offset := NO_SECT, 0;
      size := if mode.trunc then 0 else SizeOf(s);
      canRead, canWrite := mode.read, mode.write;
      accessed, dirty := false, false;
      modified := mode.trunc && SizeOf(s) != 0;
      chain := ch;
    }

    // ---------- seeking ----------

    /** The loop of `fat_file_seek`: follow the chain for some clusters, stretching it when it ends. */
    method Advance(steps: nat, ghost k: nat) returns (err: int)
      requires fat.Valid() && IsFile(fat.geo, fat.view, chain) && k < |chain| && clust == chain[k]
      requires NoneBroken(fat.Fats()) && FreeOnDevice(fat.geo, fat.view) && Apart(fat.geo, chain, fat.sect)
      modifies this`clust, this`chain, fat, fat.dev, fat.buf
      ensures fat.Valid() && |fat.dev.sectors| == |old(fat.dev.sectors)|
      ensures Reported(err)
      ensures err == ERR_NONE || err == ERR_FULL || fat.dev.faults > old(fat.dev.faults)
      ensures err == ERR_NONE || err == ERR_FULL ==>
                && fat.dev.faults == old(fat.dev.faults)
                && Stretched(fat.geo, old(fat.view), old(fat.freeCnt), old(chain), fat.view, fat.freeCnt, chain)
                && Apart(fat.geo, chain, fat.sect)
      ensures err == ERR_NONE ==>
                old(chain) <= chain && |chain| == Max(|old(chain)|, k + steps + 1) && clust == chain[k + steps]
      ensures err == ERR_NONE && |old(chain)| <= k + steps ==> !old(fat.Full(chain[|chain| - 1]))
      ensures err == ERR_FULL ==>
                0 < |old(chain)| <= |chain| <= k + steps && fat.Full(chain[|chain| - 1]) && clust == chain[|chain| - 1]
      ensures (err == ERR_NONE || err == ERR_FULL) && chain == old(chain) ==>
                fat.Full(chain[|chain| - 1]) == old(fat.Full(chain[|chain| - 1]))
      ensures old(fat.Journal()) ==> fat.Journal()
      ensures old(fat.Tame()) ==> fat.Tame()
    {
      hide Fat.Valid, Fat.Journal, Fat.Tame, NoneLeft, IsFile, Stretched, NoneBroken, FreeOnDevice, Apart, Table;
      ghost var v0, f0, ch0 := fat.view, fat.freeCnt, chain;
      fat.Facts();
      StretchedRefl(fat.geo, v0, f0, ch0);
      err := ERR_NONE;
      var i := 0;
      while i < steps
        invariant 0 <= i <= steps && fat.Valid() && |fat.dev.sectors| == |old(fat.dev.sectors)|
        invariant err == ERR_NONE && fat.dev.faults == old(fat.dev.faults)
        invariant IsFile(fat.geo, fat.view, chain) && k + i < |chain| && clust == chain[k + i]
        invariant Stretched(fat.geo, v0, f0, ch0, fat.view, fat.freeCnt, chain)
        invariant fat.geo.Wf(|fat.view|) && NoneBroken(fat.Fats()) && FreeOnDevice(fat.geo, fat.view)
        invariant Apart(fat.geo, chain, fat.sect)
        invariant |chain| == Max(|ch0|, k + i + 1) && ch0 <= chain
        invariant k + i < |ch0| ==> chain == ch0 && fat.view == v0 && fat.lastUsed == old(fat.lastUsed)
        invariant |ch0| <= k + i ==> !old(fat.Full(chain[|chain| - 1]))
        invariant old(fat.Journal()) ==> fat.Journal()
        invariant old(fat.Tame()) ==> fat.Tame()
      {
        ghost var v, f, ch := fat.view, fat.freeCnt, chain;
        err := StepCluster(k + i);
        if err == ERR_NONE || err == ERR_FULL {
          StretchedTrans(fat.geo, v0, f0, ch0, v, f, ch, fat.view, fat.freeCnt, chain);
          StretchedFacts(fat.geo, v0, f0, ch0, fat.view, fat.freeCnt, chain);
        }
        if err != ERR_NONE {
          return;
        }
        i := i + 1;
      }
    }

    /** One round of that loop. */
    method StepCluster(ghost k: nat) returns (err: int)
      requires fat.Valid() && IsFile(fat.geo, fat.view, chain) && k < |chain| && clust == chain[k]
      requires NoneBroken(fat.Fats()) && FreeOnDevice(fat.geo, fat.view) && Apart(fat.geo, chain, fat.sect)
      modifies this`clust, this`chain, fat, fat.dev, fat.buf
      ensures fat.Valid() && |fat.dev.sectors| == |old(fat.dev.sectors)|
      ensures Reported(err)
      ensures err == ERR_NONE || err == ERR_FULL || fat.dev.faults > old(fat.dev.faults)
      ensures err == ERR_FULL ==> k + 1 == |chain| && fat.Full(clust) && old(fat.Full(clust))
      ensures err == ERR_NONE && k + 1 == |old(chain)| ==> |chain| == k + 2 && !old(fat.Full(clust))
      ensures k + 1 < |old(chain)| ==>
                chain == old(chain) && fat.view == old(fat.view) && fat.lastUsed == old(fat.lastUsed)
      ensures err == ERR_NONE || err == ERR_FULL ==>
                && fat.dev.faults == old(fat.dev.faults)
                && Stretched(fat.geo, old(fat.view), old(fat.freeCnt), old(chain), fat.view, fat.freeCnt, chain)
                && Apart(fat.geo, chain, fat.sect)
      ensures err == ERR_NONE ==> k + 1 < |chain| && clust == chain[k + 1]
      ensures err == ERR_FULL ==>
                && chain == old(chain) && clust == chain[k]
                && fat.view == old(fat.view) && fat.lastUsed == old(fat.lastUsed)
      ensures old(fat.Journal()) ==> fat.Journal()
      ensures old(fat.Tame()) ==> fat.Tame()
    {
      hide Fat.Valid, Fat.Journal, Fat.Tame, NoneLeft, Stretched, IsFile, NoneBroken, FreeOnDevice, Apart, Table;
      fat.Facts();
      ChainEntry(fat.geo, fat.view, chain, k);
      StretchedRefl(fat.geo, fat.view, fat.freeCnt, chain);
      var next, last;
      err, next, last := NextLink();
      if err != ERR_NONE {
        return;
      }
      LowApart(fat.geo, chain, fat.sect);
      if last {
        err, next := Stretch();
        if err != ERR_NONE {
          return;
        }
      }
      clust := next;
    }

    /** The link of the cursor's cluster, in any table: a cluster number, an end mark, or broken. */
    method NextLink() returns (err: int, next: nat, last: bool)
      requires fat.Valid() && clust < fat.geo.clustCnt
      modifies fat`dirty, fat`sect, fat`trace, fat.dev, fat.buf
      ensures fat.Valid() && |fat.dev.sectors| == |old(fat.dev.sectors)|
      ensures err == ERR_NONE || err == ERR_IO || err == ERR_BROKEN
      ensures err == ERR_IO ==> fat.dev.faults > old(fat.dev.faults)
      ensures err != ERR_IO ==>
                var v := fat.Fats()[clust];
                && fat.dev.faults == old(fat.dev.faults) && fat.sect == fat.geo.fat0 + clust / 128
                && (err == ERR_NONE <==> 2 <= v < fat.geo.clustCnt || 0x0fff_fff8 <= v)
                && (err == ERR_NONE ==> next == v && (last <==> 0x0fff_fff8 <= v))
      ensures old(fat.Journal()) ==> fat.Journal()
      ensures old(fat.Tame()) ==> fat.Tame()
    {
      hide Fat.Valid, Fat.Journal, Fat.Tame;
      fat.Facts();
      var kind;
      last := false;
      err, next, kind := fat.GetFat(clust);
      if err != ERR_NONE {
        return;
      }
      if kind == Bad || kind == Free {
        return ERR_BROKEN, next, last;
      }
      last := kind == Last;
    }

    /** The call of `stretch_chain` in `fat_file_seek`. */
    method Stretch() returns (err: int, next: nat)
      requires fat.Valid() && IsFile(fat.geo, fat.view, chain) && clust == chain[|chain| - 1]
      requires NoneBroken(fat.Fats()) && FreeOnDevice(fat.geo, fat.view) && Apart(fat.geo, chain, fat.sect)
      modifies this`chain, fat, fat.dev, fat.buf
      ensures fat.Valid() && |fat.dev.sectors| == |old(fat.dev.sectors)|
      ensures Reported(err)
      ensures err == ERR_NONE || err == ERR_FULL || fat.dev.faults > old(fat.dev.faults)
      ensures err == ERR_FULL ==> fat.Full(clust) && old(fat.Full(clust))
      ensures err == ERR_NONE ==> !old(fat.Full(clust))
      ensures err == ERR_NONE || err == ERR_FULL ==>
                && fat.dev.faults == old(fat.dev.faults)
                && Stretched(fat.geo, old(fat.view), old(fat.freeCnt), old(chain), fat.view, fat.freeCnt, chain)
                && Apart(fat.geo, chain, fat.sect)
      ensures err == ERR_NONE ==> chain == old(chain) + [next]
      ensures err == ERR_FULL ==> chain == old(chain) && fat.view == old(fat.view) && fat.lastUsed == old(fat.lastUsed)
      ensures old(fat.Journal()) ==> fat.Journal()
      ensures old(fat.Tame()) ==> fat.Tame()
    {
      hide Fat.Valid, Fat.Journal, Fat.Tame, NoneLeft, Stretched, IsFile, NoneBroken, FreeOnDevice, Apart, Table, Mild,
           Scan;
      ghost var v0, f0, ch0 := fat.view, fat.freeCnt, chain;
      fat.Facts();
      FileWf(fat.geo, v0, ch0);
      StretchedRefl(fat.geo, v0, f0, ch0);
      ChooseSpec(fat.Fats(), clust, fat.lastUsed);
      err, next := fat.StretchChain(clust);
      if err == ERR_NONE {
        chain := chain + [next];
        DataKept(fat.geo, v0, fat.view);
        StretchedByOne(fat.geo, v0, f0, ch0, fat.view, next);
        LowApart(fat.geo, chain, fat.sect);
      } else if err == ERR_FULL && fat.sect != old(fat.sect) {
        LowApart(fat.geo, chain, fat.sect);
      }
    }

    /** The end of `fat_file_seek`: the buffer, which holds sector `from`, is written back if it is dirty and then
        loaded with the current sector. */
    method Reload(from: nat) returns (err: int)
      requires fat.Valid() && buf.Length == SECTOR_SIZE && buf != fat.buf && sect != fat.sect
      requires from == NO_SECT || (from < |fat.view| && from != fat.sect)
      requires !dirty ==> Patched(fat.view, from, buf[..]) == fat.view
      requires dirty ==> from < |fat.view| <= NO_SECT
      modifies this`dirty, fat`view, fat`trace, fat.dev, buf
      ensures fat.Valid() && |fat.dev.sectors| == |old(fat.dev.sectors)|
      ensures err == ERR_NONE || (err == ERR_IO && fat.dev.faults > old(fat.dev.faults))
      ensures err == ERR_NONE ==>
                && fat.dev.faults == old(fat.dev.faults) && !dirty && sect < |fat.view| && buf[..] == fat.view[sect]
                && fat.view == Patched(old(fat.view), from, old(buf[..]))
      ensures old(fat.Journal()) ==> fat.Journal()
      ensures old(fat.Tame()) && (old(dirty) ==> fat.geo.dataSect <= from) ==> fat.Tame()
    {
      hide Fat.Valid, Fat.Journal, Fat.Tame;
      if dirty {
        var ok := fat.WriteThrough(buf, from);
        if !ok {
          return ERR_IO;
        }
        dirty := false;
      }
      var ok := fat.ReadThrough(buf, sect);
      if !ok {
        return ERR_IO;
      }
      return ERR_NONE;
    }

    /** The second half of `fat_file_seek`: go to the sector under `off` in the current cluster. Before the seek, the
        volume was `v0`, the chain `ch0`, and the buffer held `b0` for sector number `q`, if any. */
    method Settle(off: uint32, from: nat, ghost v0: Image, ghost f0: uint32, ghost ch0: seq<nat>, ghost b0: Sector,
                  ghost q: nat) returns (err: int)
      requires fat.Valid() && buf.Length == SECTOR_SIZE && buf != fat.buf && |fat.view| <= NO_SECT
      requires Stretched(fat.geo, v0, f0, ch0, fat.view, fat.freeCnt, chain) && Apart(fat.geo, chain, fat.sect)
      requires Holds(fat.geo, chain, off, clust) && buf[..] == b0
      requires if from == NO_SECT then !dirty else
                 && Row(fat.geo, q) < |ch0| && from == SectAt(fat.geo, ch0, q) && from < |v0|
                 && (!dirty ==> b0 == v0[from])
      modifies this`sect, this`offset, this`dirty, fat`view, fat`trace, fat.dev, buf
      ensures fat.Valid() && |fat.dev.sectors| == |old(fat.dev.sectors)|
      ensures err == ERR_NONE || (err == ERR_IO && fat.dev.faults > old(fat.dev.faults))
      ensures err == ERR_NONE ==>
                && fat.dev.faults == old(fat.dev.faults) && offset == off
                && sect == SectAt(fat.geo, chain, off / SECTOR_SIZE) && sect < |fat.view|
                && (!dirty ==> buf[..] == fat.view[sect])
      ensures err == ERR_NONE ==> Evolved(fat.geo, v0, f0, ch0, fat.view, fat.freeCnt, chain)
      ensures err == ERR_NONE ==>
                |fat.view| == |old(fat.view)| && fat.Full(chain[|chain| - 1]) == old(fat.Full(chain[|chain| - 1]))
      ensures err == ERR_NONE ==> SameDataRegion(fat.geo, Patched(v0, from, b0), Disk())
      ensures old(fat.Journal()) ==> fat.Journal()
      ensures old(fat.Tame()) ==> fat.Tame()
    {
      hide Fat.Valid, Fat.Journal, Fat.Tame, NoneLeft, IsFile, Stretched, Evolved, Table, Capacity, Row, SectAt, Apart,
           Geometry.ClustToSect, SameDataRegion;
      ghost var v1 := fat.view;
      StretchedFacts(fat.geo, v0, f0, ch0, v1, fat.freeCnt, chain);
      EvolvedByFlush(fat.geo, v0, f0, ch0, v1, fat.freeCnt, chain, from, b0, q);
      SectorUnder(fat.geo, chain, off, clust);
      FileApart(fat.geo, v1, chain, off / SECTOR_SIZE, fat.sect);
      if from != NO_SECT {
        FileApart(fat.geo, v1, chain, q, fat.sect);
        OldSector(fat.geo, v0, f0, ch0, v1, fat.freeCnt, chain, q);
      }
      sect := fat.geo.ClustToSect(clust) + off / SECTOR_SIZE % fat.geo.spc;
      offset := off;
      err := ERR_NONE;
      if sect != from {
        err := Reload(from);
        if err == ERR_NONE {
          assert fat.view[sect := buf[..]] == fat.view;
        }
      }
    }

    /** Clusters in terms of bytes: where the cursor is, and where it has been refused to go. */
    lemma Reach(off: nat)
      ensures Ready() ==> fat.Valid() && Intact() && offset < Capacity(fat.geo, |chain|)
      ensures Refused(off) ==>
                Intact() && chain != [] && Capacity(fat.geo, |chain|) <= off && fat.Full(chain[|chain| - 1])
    {
      hide Fat.Valid, NoneBroken, FreeOnDevice, Apart, Table, Capacity, Row, SectAt, NoneLeft;
      if Intact() {
        CapacityIff(fat.geo, |chain|, offset);
        CapacityIff(fat.geo, |chain|, off);
        Grounded();
      }
    }

    /** Stretching the chain leaves the buffered sector where it is. */
    lemma StillIntact(v0: Image, f0: uint32, ch0: seq<nat>)
      requires fat.Valid() && buf.Length == SECTOR_SIZE && buf != fat.buf && |v0| <= NO_SECT
      requires Stretched(fat.geo, v0, f0, ch0, fat.view, fat.freeCnt, chain) && ch0 != [] && ch0[0] == sclust
      requires fat.geo.Wf(|v0|) && NoneBroken(Table(fat.geo, v0)) && FreeOnDevice(fat.geo, v0)
      requires Apart(fat.geo, chain, fat.sect)
      requires 0 < size <= Capacity(fat.geo, |ch0|) && 0 < fat.geo.spc && Row(fat.geo, offset / SECTOR_SIZE) < |ch0|
      requires if sect == NO_SECT then !dirty else
                 && sect == SectAt(fat.geo, ch0, offset / SECTOR_SIZE) && sect < |v0|
                 && (!dirty ==> buf[..] == v0[sect])
      ensures Intact() && ch0 <= chain
    {
      hide Fat.Valid, IsFile, Stretched, NoneBroken, FreeOnDevice, Apart, Table, Capacity, Row, SectAt;
      StretchedFacts(fat.geo, v0, f0, ch0, fat.view, fat.freeCnt, chain);
      OldSector(fat.geo, v0, f0, ch0, fat.view, fat.freeCnt, chain, offset / SECTOR_SIZE);
      CapacityMono(fat.geo, |ch0|, |chain|);
    }

    /** The cursor has arrived in its new sector. */
    lemma Arrived(v0: Image, f0: uint32, ch0: seq<nat>)
      requires fat.Valid() && buf.Length == SECTOR_SIZE && buf != fat.buf && |v0| <= NO_SECT
      requires Evolved(fat.geo, v0, f0, ch0, fat.view, fat.freeCnt, chain) && ch0 != [] && ch0[0] == sclust
      requires fat.geo.Wf(|v0|) && NoneBroken(Table(fat.geo, v0)) && FreeOnDevice(fat.geo, v0)
      requires Apart(fat.geo, chain, fat.sect)
      requires 0 < size <= Capacity(fat.geo, |ch0|) && Holds(fat.geo, chain, offset, clust)
      requires sect == SectAt(fat.geo, chain, offset / SECTOR_SIZE) && sect < |fat.view|
      requires (!dirty ==> buf[..] == fat.view[sect])
      ensures Valid()
    {
      hide Fat.Valid, IsFile, Evolved, NoneBroken, FreeOnDevice, Apart, Table, Capacity, Row, SectAt;
      EvolvedFacts(fat.geo, v0, f0, ch0, fat.view, fat.freeCnt, chain);
    }

    /** `fat_file_seek` on a non-empty file, to an absolute offset. It is refused if and only if the target is beyond
        the clusters that the file has or can get; the file's bytes are the same in any case. */
    method Goto(off: uint32) returns (err: int)
      requires CanSeek(off)
      modifies this`clust, this`sect, this`offset, this`dirty, this`chain, buf, fat, fat.dev, fat.buf
      ensures fat.Valid() && |fat.dev.sectors| == |old(fat.dev.sectors)|
      ensures Reported(err)
      ensures err == ERR_NONE || err == ERR_FULL || fat.dev.faults > old(fat.dev.faults)
      ensures err == ERR_NONE || err == ERR_FULL ==>
                && fat.dev.faults == old(fat.dev.faults)
                && Evolved(fat.geo, old(fat.view), old(fat.freeCnt), old(chain), fat.view, fat.freeCnt, chain)
                && SameDataRegion(fat.geo, old(Disk()), Disk())
      ensures err == ERR_NONE ==> Valid() && offset == off
      ensures err == ERR_NONE ==> |chain| == Max(|old(chain)|, Row(fat.geo, off / SECTOR_SIZE) + 1)
      ensures err == ERR_NONE && |old(chain)| < |chain| ==> !old(fat.Full(chain[|chain| - 1]))
      ensures (err == ERR_NONE || err == ERR_FULL) && chain == old(chain) ==>
                fat.Full(chain[|chain| - 1]) == old(fat.Full(chain[|chain| - 1]))
      ensures err == ERR_FULL ==> Refused(off) && offset == old(offset) && sect == old(sect) && dirty == old(dirty)
      ensures old(fat.Journal()) ==> fat.Journal()
      ensures old(fat.Tame()) ==> fat.Tame()
    {
      hide Fat.Valid, Fat.Journal, Fat.Tame, Fat.Full, IsFile, Stretched, Evolved, NoneBroken, FreeOnDevice, Apart,
           Table, Capacity, Row, SectAt, SameDataRegion, Patched, Geometry.ClustToSect;
      ghost var v0, f0, ch0, b0, q := fat.view, fat.freeCnt, chain, buf[..], offset / SECTOR_SIZE;
      var from := sect;
      ghost var k := Row(fat.geo, offset / SECTOR_SIZE);
      err := Approach(off, k);
      if err == ERR_FULL {
        EvolvedByFlush(fat.geo, v0, f0, ch0, fat.view, fat.freeCnt, chain, from, b0, q);
        StillIntact(v0, f0, ch0);
      }
      if err != ERR_NONE {
        return;
      }
      err := Settle(off, from, v0, f0, ch0, b0, q);
      if err == ERR_NONE {
        Arrived(v0, f0, ch0);
      }
    }

    /** The first half of `fat_file_seek`: count clusters to the target, from the start of the chain if it is before
        the offset. */
    method Approach(off: uint32, ghost k: nat) returns (err: int)
      requires Intact()
      requires Row(fat.geo, off / SECTOR_SIZE) >= Row(fat.geo, offset / SECTOR_SIZE) ==>
                 k < |chain| && clust == chain[k]
      modifies this`clust, this`sect, this`offset, this`chain, fat, fat.dev, fat.buf
      ensures fat.Valid() && |fat.dev.sectors| == |old(fat.dev.sectors)|
      ensures Reported(err)
      ensures err == ERR_NONE || err == ERR_FULL || fat.dev.faults > old(fat.dev.faults)
      ensures err == ERR_NONE || err == ERR_FULL ==>
                && fat.dev.faults == old(fat.dev.faults) && fat.geo.Wf(|old(fat.view)|) && |fat.view| == |old(fat.view)|
                && Stretched(fat.geo, old(fat.view), old(fat.freeCnt), old(chain), fat.view, fat.freeCnt, chain)
                && Apart(fat.geo, chain, fat.sect) && chain != []
                && (chain == old(chain) ==> fat.Full(chain[|chain| - 1]) == old(fat.Full(chain[|chain| - 1])))
      ensures err == ERR_NONE ==>
                && old(Landing(k, off)) < |chain| && clust == chain[old(Landing(k, off))] && 2 <= clust
                && |chain| == Max(|old(chain)|, old(Landing(k, off)) + 1)
                && (|old(chain)| < |chain| ==> !old(fat.Full(chain[|chain| - 1])))
      ensures err == ERR_FULL ==>
                && |chain| <= old(Landing(k, off)) && fat.Full(chain[|chain| - 1])
                && clust == chain[|chain| - 1]
                && offset == old(offset) && sect == old(sect)
      ensures if Row(fat.geo, off / SECTOR_SIZE) < Row(fat.geo, old(offset) / SECTOR_SIZE)
              then offset == 0 && sect == fat.geo.ClustToSect(sclust) else offset == old(offset) && sect == old(sect)
      ensures old(fat.Journal()) ==> fat.Journal()
      ensures old(fat.Tame()) ==> fat.Tame()
    {
      hide Fat.Valid, Fat.Journal, Fat.Tame, Fat.Full, IsFile, Stretched, NoneBroken, FreeOnDevice, Apart, Table,
           Capacity, Row, SectAt, Geometry.ClustToSect;
      ghost var v0, f0, ch0 := fat.view, fat.freeCnt, chain;
      FileWf(fat.geo, v0, ch0);
      ChainEntry(fat.geo, v0, ch0, 0);
      fat.Facts();
      ClusterIndex(fat.geo, off);
      ClusterIndex(fat.geo, offset);
      var clustSize := SECTOR_SIZE * fat.geo.spc;
      var dst := off / clustSize;
      var src := offset / clustSize;
      ghost var from := k;
      if dst < src {
        clust := sclust;
        sect := fat.geo.ClustToSect(sclust);
        offset := 0;
        src, from := 0, 0;
      }
      err := Advance(dst - src, from);
      fat.Facts();
      if err == ERR_NONE || err == ERR_FULL {
        StretchedFacts(fat.geo, v0, f0, ch0, fat.view, fat.freeCnt, chain);
      }
      if err == ERR_NONE {
        ChainEntry(fat.geo, fat.view, chain, from + (dst - src));
      }
    }

    /** No data can be reached through the file: it has no clusters, or its size is 0. */
    predicate Unreachable()
      reads this
    {
      sclust == 0 || size == 0
    }

    /** The offset that a seek aims at. */
    function Aim(delta: int, whence: Whence): int
      reads `offset, `size
    {
      (match whence case FromStart => 0 case FromCurrent => offset case FromEnd => size) + delta
    }

    /** `fat_file_seek`. On an empty file it does nothing but reset the cursor. It is refused if and only if the target
        is beyond the clusters that the file has or can get: then the cursor stays where it was, but for its cluster. */
    method Seek(delta: int, whence: Whence) returns (err: int)
      requires Unreachable() || (0 <= Aim(delta, whence) < TWO_32 ==> CanSeek(Aim(delta, whence)))
      modifies this`clust, this`sect, this`offset, this`dirty, this`chain, buf, fat, fat.dev, fat.buf
      ensures var off :=
                delta + (match whence case FromStart => 0 case FromCurrent => old(offset) case FromEnd => old(size));
              && (!(0 <= off < TWO_32) ==>
                   && err == ERR_EOF && offset == old(offset) && sect == old(sect) && chain == old(chain)
                   && fat.view == old(fat.view) && fat.freeCnt == old(fat.freeCnt)
                   && fat.dev.faults == old(fat.dev.faults) && (old(fat.Valid()) ==> fat.Valid())
                   && (old(Valid()) ==> Valid()) && (old(Intact()) ==> Intact() && Contents() == old(Contents())))
              && (0 <= off < TWO_32 && Unreachable() ==>
                   && err == ERR_NONE && offset == 0 && sect == NO_SECT && chain == old(chain)
                   && fat.dev.faults == old(fat.dev.faults))
              && (0 <= off < TWO_32 && !Unreachable() ==>
                   && fat.Valid()
                   && (err == ERR_NONE || err == ERR_FULL || fat.dev.faults > old(fat.dev.faults))
                   && (err == ERR_NONE || err == ERR_FULL ==>
                        Evolved(fat.geo, old(fat.view), old(fat.freeCnt), old(chain), fat.view, fat.freeCnt, chain))
                   && (err == ERR_NONE ==>
                        && fat.dev.faults == old(fat.dev.faults) && Valid() && offset == off
                        && Contents() == old(Contents())
                        && |chain| == Max(|old(chain)|, Row(fat.geo, off / SECTOR_SIZE) + 1)
                        && (|old(chain)| < |chain| ==> !old(fat.Full(chain[|chain| - 1]))))
                   && (err == ERR_FULL ==>
                        && fat.dev.faults == old(fat.dev.faults) && Refused(off)
                        && offset == old(offset) && sect == old(sect)
                        && Contents() == old(Contents())
                        && (chain == old(chain) ==> old(fat.Full(chain[|chain| - 1]))))
                   && (off <= size && (err == ERR_NONE || err == ERR_FULL) ==>
                        (err == ERR_FULL <==> off == size && old(Brimful()))))
      ensures err == ERR_FULL ==> !Unreachable()
      ensures fat.dev.faults >= old(fat.dev.faults)
      ensures Unreachable() ==> fat.view == old(fat.view) && fat.freeCnt == old(fat.freeCnt)
      ensures Unreachable() ==> dirty == old(dirty) && buf[..] == old(buf[..])
      ensures Unreachable() && old(fat.Valid()) ==> fat.Valid()
      ensures old(fat.Journal()) ==> fat.Journal()
      ensures old(fat.Tame()) ==> fat.Tame()
    {
      hide Fat.Valid, Fat.Journal, Fat.Tame, NoneLeft, Evolved, SameDataRegion, Patched, Content, Capacity, IsFile,
           NoneBroken, FreeOnDevice, Apart, Row, SectAt, Backed;
      var off := match whence case FromStart => 0 case FromCurrent => offset case FromEnd => size;
      off := off + delta;
      if off < 0 || off > 0xffff_ffff {
        return ERR_EOF;
      }
      if sclust == 0 || size == 0 {
        offset := 0;
        sect := NO_SECT;
        return ERR_NONE;
      }
      ghost var v0, f0, d0, ch0 := fat.view, fat.freeCnt, Disk(), chain;
      Grounded();
      CapacityIff(fat.geo, |ch0|, off);
      CapacityRow(fat.geo, |ch0|);
      err := Goto(off);
      if err == ERR_NONE || err == ERR_FULL {
        Grounded();
        EvolvedFacts(fat.geo, v0, f0, ch0, fat.view, fat.freeCnt, chain);
        ContentKept(fat.geo, d0, ch0, Disk(), chain, size);
      }
    }

    // ---------- reading ----------

    /** One round of `fat_file_read`: the bytes that the buffer can deliver. It is refused if and only if they are the
        last ones of the file and of its chain, which cannot be stretched. */
    method ReadChunk(len: nat) returns (err: int, chunk: seq<byte>)
      requires Valid() && 0 < len && offset < size < 0x8000_0000
      modifies this`clust, this`sect, this`offset, this`dirty, this`chain, buf, fat, fat.dev, fat.buf
      ensures fat.Valid() && |fat.dev.sectors| == |old(fat.dev.sectors)|
      ensures err == ERR_NONE || err == ERR_FULL || fat.dev.faults > old(fat.dev.faults)
      ensures 0 < |chunk| <= len && old(offset) + |chunk| <= size
      ensures chunk == old(Contents())[old(offset)..old(offset) + |chunk|]
      ensures err == ERR_NONE || err == ERR_FULL ==>
                && fat.dev.faults == old(fat.dev.faults) && Valid() && Contents() == old(Contents())
                && old(chain) <= chain
                && Evolved(fat.geo, old(fat.view), old(fat.freeCnt), old(chain), fat.view, fat.freeCnt, chain)
                && (chain == old(chain) ==> fat.Full(chain[|chain| - 1]) == old(fat.Full(chain[|chain| - 1])))
      ensures err == ERR_NONE ==> offset == old(offset) + |chunk|
      ensures err == ERR_NONE && chain != old(chain) ==> !old(fat.Full(chain[|chain| - 1]))
      ensures err == ERR_NONE && offset < Capacity(fat.geo, |old(chain)|) ==> chain == old(chain)
      ensures err == ERR_FULL ==>
                && chain == old(chain) && old(fat.Full(chain[|chain| - 1])) && offset == old(offset)
                && old(offset) + |chunk| == size == Capacity(fat.geo, |chain|)
      ensures old(fat.Journal()) ==> fat.Journal()
      ensures old(fat.Tame()) ==> fat.Tame()
    {
      hide Fat.Valid, Fat.Journal, Fat.Tame, Fat.Full, NoneLeft, Evolved, SameDataRegion, Content, Capacity, IsFile,
           NoneBroken, FreeOnDevice, Apart, Row, Table, SectAt, Patched;
      var idx := offset % SECTOR_SIZE;
      var cnt := Min(len, Min(SECTOR_SIZE - idx, size - offset));
      chunk := buf[idx..idx + cnt];
      ContentInBuffer(cnt, size);
      ghost var v0, f0, d0, ch0 := fat.view, fat.freeCnt, Disk(), chain;
      Grounded();
      NearRows(fat.geo, offset, cnt);
      CapacityIff(fat.geo, |ch0|, offset + cnt);
      err := Goto(offset + cnt);
      if err == ERR_NONE || err == ERR_FULL {
        Grounded();
        EvolvedFacts(fat.geo, v0, f0, ch0, fat.view, fat.freeCnt, chain);
        ContentKept(fat.geo, d0, ch0, Disk(), chain, size);
      }
      if err == ERR_FULL {
        RefusedReadyIff(old(offset) + cnt);
      }
    }

    lemma Grounded()
      requires Intact()
      ensures 0 < fat.geo.spc && |Disk()| == |fat.view| && Backed(fat.geo, |Disk()|, chain)
      ensures Distinct(chain) && size <= Capacity(fat.geo, |chain|)
      ensures Row(fat.geo, offset / SECTOR_SIZE) < |chain| && 2 <= chain[Row(fat.geo, offset / SECTOR_SIZE)]
    {
      hide Fat.Valid, Table, Capacity, Row, NoneBroken, FreeOnDevice, Apart;
      ChainDistinct(Table(fat.geo, fat.view), chain);
    }

    /** The buffer shows what the file holds under the cursor. */
    lemma ContentInBuffer(cnt: nat, n: nat)
      requires Valid() && n <= Capacity(fat.geo, |chain|) && offset + cnt <= n
      requires offset % SECTOR_SIZE + cnt <= SECTOR_SIZE
      ensures 0 < fat.geo.spc && Backed(fat.geo, |Disk()|, chain)
      ensures Content(fat.geo, Disk(), chain, n)[offset..offset + cnt] ==
                buf[..][offset % SECTOR_SIZE..offset % SECTOR_SIZE + cnt]
    {
      hide Fat.Valid, IsChain, NoneBroken, FreeOnDevice, Apart, Row, Capacity, Table;
      ContentInSector(fat.geo, Disk(), chain, offset, cnt, n);
    }

    /** A read of `len` bytes would come to the end of such a file. */
    ghost predicate AtBrink(len: nat)
      requires Intact()
      reads `sclust, `sect, `size, `offset, `dirty, `chain, fat, fat.dev, fat.buf, buf
    {
      0 < len && offset < size <= offset + len && Brimful()
    }

    /** `fat_file_read`. It delivers the bytes from the cursor on, up to the end of the file. Moving on past the last
        cluster stretches the chain; if that is refused, all bytes are delivered still, but the cursor stays behind. */
    method Read(len: nat) returns (err: int, data: seq<byte>)
      requires buf.Length == SECTOR_SIZE
      requires size == 0 || (Valid() && size < 0x8000_0000)
      modifies this`clust, this`sect, this`offset, this`dirty, this`chain, this`accessed, buf, fat, fat.dev, fat.buf
      ensures !canRead ==> err == ERR_DENIED && data == [] && offset == old(offset)
      ensures accessed == (canRead || old(accessed))
      ensures canRead && size == 0 ==> err == ERR_NONE && data == []
      ensures !canRead && old(Valid()) ==> Valid() && Contents() == old(Contents())
      ensures !canRead || size == 0 ==>
                && fat.dev.faults == old(fat.dev.faults)
                && offset == old(offset) && sect == old(sect) && chain == old(chain) && fat.view == old(fat.view)
                && fat.freeCnt == old(fat.freeCnt)
                && (old(fat.Valid()) ==> fat.Valid())
      ensures canRead && size > 0 ==>
                && fat.Valid() && (err == ERR_NONE || err == ERR_FULL || fat.dev.faults > old(fat.dev.faults))
      ensures canRead && size > 0 && (err == ERR_NONE || err == ERR_FULL) ==>
                && fat.dev.faults == old(fat.dev.faults) && Valid() && Contents() == old(Contents())
                && data == old(Ahead(len)) && (err == ERR_FULL <==> old(AtBrink(len)))
                && Evolved(fat.geo, old(fat.view), old(fat.freeCnt), old(chain), fat.view, fat.freeCnt, chain)
      ensures canRead && size > 0 && err == ERR_NONE ==> offset == old(offset) + |data|
      ensures canRead && size > 0 && err == ERR_FULL ==>
                && old(offset) <= offset < old(offset) + |data| && chain == old(chain) && fat.Full(chain[|chain| - 1])
      ensures old(fat.Journal()) ==> fat.Journal()
      ensures old(fat.Tame()) ==> fat.Tame()
    {
      hide Fat.Valid, Fat.Journal, Fat.Tame, NoneLeft, Evolved, Content, Ready;
      data := [];
      if !canRead {
        return ERR_DENIED, data;
      }
      accessed := true;
      if size == 0 {
        return ERR_NONE, data;
      }
      err, data := ReadLoop(len);
    }

    /** The loop of `fat_file_read`. */
    method ReadLoop(len: nat) returns (err: int, data: seq<byte>)
      requires Valid() && size < 0x8000_0000
      modifies this`clust, this`sect, this`offset, this`dirty, this`chain, buf, fat, fat.dev, fat.buf
      ensures fat.Valid()
      ensures err == ERR_NONE || err == ERR_FULL || fat.dev.faults > old(fat.dev.faults)
      ensures err == ERR_NONE || err == ERR_FULL ==>
                && fat.dev.faults == old(fat.dev.faults) && Valid() && Contents() == old(Contents())
                && data == old(Ahead(len)) && (err == ERR_FULL <==> old(AtBrink(len)))
                && Evolved(fat.geo, old(fat.view), old(fat.freeCnt), old(chain), fat.view, fat.freeCnt, chain)
      ensures err == ERR_NONE ==> offset == old(offset) + |data|
      ensures err == ERR_FULL ==>
                && old(offset) <= offset < old(offset) + |data| && chain == old(chain) && fat.Full(chain[|chain| - 1])
      ensures old(fat.Journal()) ==> fat.Journal()
      ensures old(fat.Tame()) ==> fat.Tame()
    {
      hide Fat.Valid, Fat.Journal, Fat.Tame, Fat.Full, NoneLeft, Evolved, Intact, Holds, Content, Capacity, IsFile,
           NoneBroken, FreeOnDevice, Apart, Row, Table, Patched, SectAt;
      ghost var v0, f0, ch0, c, pos := fat.view, fat.freeCnt, chain, Contents(), offset;
      Grounded();
      EntersLoop();
      ghost var full := fat.Full(chain[|chain| - 1]);
      err, data := ERR_NONE, [];
      EvolvedRefl(fat.geo, v0, f0, ch0);
      while |data| < len && offset < size
        invariant Valid() && err == ERR_NONE && fat.dev.faults == old(fat.dev.faults)
        invariant |data| <= len && offset == pos + |data| && (data == [] || offset <= size)
        invariant data == (if data == [] then [] else c[pos..pos + |data|])
        invariant Contents() == c
        invariant Evolved(fat.geo, v0, f0, ch0, fat.view, fat.freeCnt, chain)
        invariant offset < Capacity(fat.geo, |ch0|) ==> chain == ch0
        invariant chain != [] && (if chain == ch0 then fat.Full(chain[|chain| - 1]) == full else !full)
        invariant old(fat.Journal()) ==> fat.Journal()
        invariant old(fat.Tame()) ==> fat.Tame()
        decreases len - |data|
      {
        ghost var v, f, ch := fat.view, fat.freeCnt, chain;
        var chunk;
        err, chunk := ReadChunk(len - |data|);
        assert c[pos..pos + |data|] + c[pos + |data|..pos + |data| + |chunk|] == c[pos..pos + |data| + |chunk|];
        data := data + chunk;
        if err == ERR_NONE || err == ERR_FULL {
          EvolvedTrans(fat.geo, v0, f0, ch0, v, f, ch, fat.view, fat.freeCnt, chain);
        }
        if err != ERR_NONE {
          return;
        }
      }
      Reach(0);
    }

    lemma EntersLoop()
      requires Intact()
      ensures chain != [] && |Contents()| == size && IsFile(fat.geo, fat.view, chain)
    {
      hide Fat.Valid, NoneBroken, FreeOnDevice, Apart, Table, SectAt, Capacity, Row, Content;
      Grounded();
    }

    // ---------- writing ----------

    /** The `memcpy` of `fat_file_write` into the buffer: the file's bytes under the cursor are replaced. */
    method Fill(chunk: seq<byte>)
      requires Valid() && offset % SECTOR_SIZE + |chunk| <= SECTOR_SIZE
      modifies this`dirty, buf
      ensures Valid() && dirty && offset + |chunk| <= Capacity(fat.geo, |chain|)
      ensures Raw() == Splice(old(Raw()), offset, chunk)
    {
      hide Fat.Valid, IsFile, NoneBroken, FreeOnDevice, Apart, Row, Capacity, Table, Content, SectAt, Backed;
      Grounded();
      ghost var d0, b0 := Disk(), buf[..];
      var at := offset % SECTOR_SIZE;
      RoomInSector(fat.geo, chain, offset, |chunk|);
      CopyInto(buf, at, chunk);
      dirty := true;
      assert buf[..] == b0[..at] + chunk + b0[at + |chunk|..];
      assert Disk() == d0[sect := buf[..]];
      ContentSpliced(fat.geo, d0, chain, offset, buf[..], chunk, Capacity(fat.geo, |chain|));
    }

    /** One round of `fat_file_write`: the chunk is in the buffer, whether or not the cursor can move on. It cannot if
        the chunk ends where the chain does, which cannot be stretched, or with the largest offset. */
    method WriteChunk(chunk: seq<byte>) returns (err: int)
      requires Valid() && 0 < |chunk| && offset % SECTOR_SIZE + |chunk| <= SECTOR_SIZE
      modifies this`clust, this`sect, this`offset, this`dirty, this`chain, buf, fat, fat.dev, fat.buf
      ensures fat.Valid()
      ensures err == ERR_NONE || err == ERR_FULL || err == ERR_EOF || fat.dev.faults > old(fat.dev.faults)
      ensures err == ERR_NONE ==> offset == old(offset) + |chunk|
      ensures err == ERR_NONE || err == ERR_FULL || err == ERR_EOF ==>
                var cap := Capacity(fat.geo, |old(chain)|);
                && fat.dev.faults == old(fat.dev.faults) && Valid()
                && old(offset) + |chunk| <= cap <= Capacity(fat.geo, |chain|)
                && Raw()[..cap] == Splice(old(Raw()), old(offset), chunk)
                && Evolved(fat.geo, old(fat.view), old(fat.freeCnt), old(chain), fat.view, fat.freeCnt, chain)
      ensures err == ERR_FULL || err == ERR_EOF ==> chain == old(chain) && offset == old(offset) && sect == old(sect)
      ensures err == ERR_FULL ==>
                && fat.Full(chain[|chain| - 1]) && old(offset) + |chunk| == Capacity(fat.geo, |chain|)
                && old(offset) + |chunk| < TWO_32
      ensures err == ERR_EOF <==> old(offset) + |chunk| == TWO_32
      ensures old(offset) + |chunk| <= TWO_32
      ensures old(fat.Journal()) ==> fat.Journal()
      ensures old(fat.Tame()) ==> fat.Tame()
    {
      hide Fat.Valid, Fat.Journal, Fat.Tame, NoneLeft, Evolved, SameDataRegion, Content, Capacity, IsFile, NoneBroken,
           FreeOnDevice, Apart, Row, Patched, SectAt, Splice, Table;
      Fill(chunk);
      ghost var v0, f0, d0, ch0 := fat.view, fat.freeCnt, Disk(), chain;
      ghost var cap := Capacity(fat.geo, |ch0|);
      Grounded();
      NearRows(fat.geo, offset, |chunk|);
      CapacityIff(fat.geo, |ch0|, offset + |chunk|);
      if offset + |chunk| > 0xffff_ffff {
        EvolvedRefl(fat.geo, v0, f0, ch0);
        return ERR_EOF;
      }
      err := Goto(offset + |chunk|);
      if err == ERR_NONE || err == ERR_FULL {
        Grounded();
        EvolvedFacts(fat.geo, v0, f0, ch0, fat.view, fat.freeCnt, chain);
        ContentKept(fat.geo, d0, ch0, Disk(), chain, cap);
        ContentPrefix(fat.geo, Disk(), chain, cap, Capacity(fat.geo, |chain|));
      }
      if err == ERR_FULL {
        RefusedReadyIff(old(offset) + |chunk|);
      }
    }

    /** The bytes before a write at the cursor: the contents, and what the clusters hold between the end of the file
        and the cursor, if that is further on. */
    ghost function Base(): seq<byte>
      requires Ready() && offset <= Capacity(fat.geo, |chain|)
      reads `sclust, `clust, `sect, `size, `offset, `dirty, `chain, fat, fat.dev, fat.buf, buf
    {
      Raw()[..Max(size, offset)]
    }

    lemma CursorInRoom()
      requires Intact()
      ensures offset <= Capacity(fat.geo, |chain|)
      ensures Contents() == Raw()[..size]
    {
      hide Fat.Valid, IsChain, NoneBroken, FreeOnDevice, Apart, Row, Capacity, Table, Content;
      RoomInSector(fat.geo, chain, offset, 0);
      ContentPrefix(fat.geo, Disk(), chain, size, Capacity(fat.geo, |chain|));
    }

    /** Why a write has ended before all of `data` was passed by: the `written` bytes fill the chain, which cannot be
        stretched, or reach the largest offset. The last chunk of them is in the buffer, but the cursor is before it. */
    ghost predicate CutShort(pos: nat, written: nat)
      reads `offset, `chain, fat
    {
      && 0 < written && offset == Max(pos, (pos + written - 1) / SECTOR_SIZE * SECTOR_SIZE)
      && if pos + written >= TWO_32 then pos + written == TWO_32
         else chain != [] && pos + written == Capacity(fat.geo, |chain|) && fat.Full(chain[|chain| - 1])
    }

    /** The loop of `fat_file_write`. The inner error only ends it. */
    method WriteLoop(data: seq<byte>) returns (written: nat)
      requires Valid() && offset <= Capacity(fat.geo, |chain|)
      modifies this`clust, this`sect, this`offset, this`dirty, this`chain, buf, fat, fat.dev, fat.buf
      ensures fat.Valid() && written <= |data|
      ensures fat.dev.faults == old(fat.dev.faults) ==>
                && Valid() && offset <= Capacity(fat.geo, |chain|)
                && Max(size, offset) <= |Splice(old(Base()), old(offset), data[..written])|
                && Raw()[..Max(size, offset)] == Splice(old(Base()), old(offset), data[..written])[..Max(size, offset)]
                && Evolved(fat.geo, old(fat.view), old(fat.freeCnt), old(chain), fat.view, fat.freeCnt, chain)
                && (if offset == old(offset) + |data| then written == |data| else CutShort(old(offset), written))
      ensures old(fat.Journal()) ==> fat.Journal()
      ensures old(fat.Tame()) ==> fat.Tame()
    {
      hide Fat.Valid, Fat.Journal, Fat.Tame, NoneLeft, Evolved, Content, Capacity, IsFile, NoneBroken, FreeOnDevice,
           Apart, Row, Table, Patched, Splice, SectAt, CutShort;
      ghost var v0, f0, ch0, base, pos := fat.view, fat.freeCnt, chain, Base(), offset;
      EvolvedRefl(fat.geo, v0, f0, ch0);
      SpliceNothing(base, pos, data);
      written := 0;
      while written < |data|
        invariant Valid() && fat.dev.faults == old(fat.dev.faults) && Writing(base, pos, data, written)
        invariant Evolved(fat.geo, v0, f0, ch0, fat.view, fat.freeCnt, chain)
        invariant old(fat.Journal()) ==> fat.Journal()
        invariant old(fat.Tame()) ==> fat.Tame()
      {
        ghost var v, f, ch := fat.view, fat.freeCnt, chain;
        var err;
        err, written := WriteRound(data, written, pos, base);
        if err == ERR_NONE || err == ERR_FULL || err == ERR_EOF {
          EvolvedTrans(fat.geo, v0, f0, ch0, v, f, ch, fat.view, fat.freeCnt, chain);
        }
        if err != ERR_NONE {
          return;
        }
      }
      WholeSplice(Raw(), Max(size, offset), base, pos, data);
    }

    /** The state of that loop: the first `done` bytes have been spliced into `base`, and the cursor is behind them. */
    ghost predicate Writing(base: seq<byte>, pos: nat, data: seq<byte>, done: nat)
      requires Intact()
      reads `sclust, `sect, `size, `offset, `dirty, `chain, fat, fat.dev, fat.buf, buf
    {
      && done <= |data| && offset == pos + done && (done == 0 || done == |data| || offset % SECTOR_SIZE == 0)
      && size <= Capacity(fat.geo, |chain|) && offset <= Capacity(fat.geo, |chain|)
      && |base| == Max(size, pos) && Raw()[..Max(size, offset)] == Splice(base, pos, data[..done])
    }

    /** The first `done` bytes have been spliced into `base`, as far as the file and the cursor go. */
    ghost predicate Begun(base: seq<byte>, pos: nat, data: seq<byte>, done: nat)
      requires Intact()
      reads `sclust, `sect, `size, `offset, `dirty, `chain, fat, fat.dev, fat.buf, buf
    {
      && pos <= |base| && done <= |data| && offset <= Capacity(fat.geo, |chain|)
      && Max(size, offset) <= |Splice(base, pos, data[..done])|
      && Raw()[..Max(size, offset)] == Splice(base, pos, data[..done])[..Max(size, offset)]
    }

    /** One round of that loop. */
    method WriteRound(data: seq<byte>, done: nat, ghost pos: nat,
                      ghost base: seq<byte>) returns (err: int, written: nat)
      requires Valid() && Writing(base, pos, data, done) && done < |data|
      modifies this`clust, this`sect, this`offset, this`dirty, this`chain, buf, fat, fat.dev, fat.buf
      ensures fat.Valid() && done < written <= |data|
      ensures err == ERR_NONE || err == ERR_FULL || err == ERR_EOF || fat.dev.faults > old(fat.dev.faults)
      ensures err == ERR_NONE || err == ERR_FULL || err == ERR_EOF ==>
                && fat.dev.faults == old(fat.dev.faults) && Valid()
                && Evolved(fat.geo, old(fat.view), old(fat.freeCnt), old(chain), fat.view, fat.freeCnt, chain)
                && (err == ERR_NONE ==> Writing(base, pos, data, written))
      ensures err == ERR_FULL || err == ERR_EOF ==>
                && CutShort(pos, written) && offset < pos + written && offset <= Capacity(fat.geo, |chain|)
                && Begun(base, pos, data, written)
      ensures old(fat.Journal()) ==> fat.Journal()
      ensures old(fat.Tame()) ==> fat.Tame()
    {
      hide Fat.Valid, Fat.Journal, Fat.Tame, NoneLeft, Intact, Holds, Evolved, Content, Capacity, IsFile, NoneBroken,
           FreeOnDevice, Apart, Row, Table, Patched, Splice, SectAt, CutShort, Begun;
      ghost var ch, raw, e := chain, Raw(), Max(size, offset);
      var cnt := Min(|data| - done, SECTOR_SIZE - offset % SECTOR_SIZE);
      Grounded();
      RoomInSector(fat.geo, chain, offset, cnt);
      ChunkStart(pos, done, cnt);
      written := done + cnt;
      err := WriteChunk(data[done..written]);
      if err == ERR_NONE || err == ERR_FULL || err == ERR_EOF {
        RoundSpliced(raw, Capacity(fat.geo, |ch|), e, base, pos, data, done, cnt);
      }
      if err == ERR_FULL || err == ERR_EOF {
        NotPast(pos, written);
      }
    }

    /** The chunk has been spliced in, whether or not the cursor has moved on. */
    lemma RoundSpliced(raw: seq<byte>, cap: nat, e: nat, base: seq<byte>, pos: nat, data: seq<byte>, done: nat,
                       cnt: nat)
      requires Intact() && cap <= Capacity(fat.geo, |chain|) && |base| == Max(size, pos) && done + cnt <= |data|
      requires e == Max(|base|, pos + done) && e <= |raw| && pos + done + cnt <= |raw| == cap
      requires raw[..e] == Splice(base, pos, data[..done])
      requires Raw()[..cap] == Splice(raw, pos + done, data[done..done + cnt])
      requires offset <= pos + done + cnt
      ensures Begun(base, pos, data, done + cnt)
      ensures offset == pos + done + cnt && (done + cnt == |data| || offset % SECTOR_SIZE == 0) ==>
                Writing(base, pos, data, done + cnt)
    {
      hide Intact, Capacity, Splice, Content;
      CursorInRoom();
      ChunkSpliced(raw, Raw(), cap, e, base, pos, data, done, cnt, Max(size, offset));
    }

    lemma NotPast(pos: nat, written: nat)
      requires 0 < written && offset == Max(pos, (pos + written - 1) / SECTOR_SIZE * SECTOR_SIZE)
      requires pos + written <= TWO_32
      requires pos + written < TWO_32 ==>
                 chain != [] && pos + written == Capacity(fat.geo, |chain|) && fat.Full(chain[|chain| - 1])
      ensures CutShort(pos, written)
    {
    }

    /** The loop of `fat_file_write` on an empty file: every chunk goes to the buffer and is forgotten. */
    method WriteNowhere(data: seq<byte>) returns (written: nat)
      requires Unreachable() && offset == 0 && buf.Length == SECTOR_SIZE && buf != fat.buf
      modifies this`clust, this`sect, this`offset, this`dirty, this`chain, buf, fat, fat.dev, fat.buf
      ensures written == |data| && fat.view == old(fat.view) && fat.dev.faults == old(fat.dev.faults)
      ensures offset == 0 && (sect == NO_SECT || sect == old(sect))
      ensures data == [] ==> dirty == old(dirty) && buf[..] == old(buf[..])
      ensures data != [] ==>
                dirty && exists k: nat :: k < |data| <= k + 512 && k % 512 == 0 && buf[..|data| - k] == data[k..]
      ensures chain == old(chain) && fat.freeCnt == old(fat.freeCnt) && (old(fat.Valid()) ==> fat.Valid())
      ensures old(fat.Journal()) ==> fat.Journal()
      ensures old(fat.Tame()) ==> fat.Tame()
    {
      hide Fat.Journal, Fat.Tame, Ready;
      written := 0;
      ghost var k := 0;
      while written < |data|
        invariant 0 <= written <= |data| && Unreachable() && offset == 0
        invariant fat.view == old(fat.view) && fat.dev.faults == old(fat.dev.faults)
        invariant chain == old(chain) && fat.freeCnt == old(fat.freeCnt) && (old(fat.Valid()) ==> fat.Valid())
        invariant if written > 0 then sect == NO_SECT else sect == old(sect)
        invariant written == |data| || written % SECTOR_SIZE == 0
        invariant written == 0 ==> dirty == old(dirty) && buf[..] == old(buf[..])
        invariant 0 < written ==>
                    dirty && 0 <= k < written <= k + SECTOR_SIZE && k % SECTOR_SIZE == 0
                    && buf[..written - k] == data[k..written]
        invariant old(fat.Journal()) ==> fat.Journal()
        invariant old(fat.Tame()) ==> fat.Tame()
      {
        var idx := offset % SECTOR_SIZE;
        var cnt := Min(|data| - written, SECTOR_SIZE - idx);
        CopyInto(buf, idx, data[written..written + cnt]);
        dirty := true;
        k := written;
        written := written + cnt;
        var err := Seek(cnt, FromCurrent);
        if err != ERR_NONE {
          break;
        }
      }
      assert data != [] ==> 0 <= k && data[k..written] == data[k..];
    }

    /** `fat_file_write`. It always reports success once the file is open for writing. A write that runs to its end
        splices the data into the contents at the cursor. One that is cut short has spliced in what it counts as
        written, but the cursor is before the last chunk of that, and so is the end of the file if it has grown.
        Nothing written to an empty file is stored. */
    method Write(data: seq<byte>) returns (err: int, written: nat)
      requires buf.Length == SECTOR_SIZE && buf != fat.buf
      requires if Unreachable() then offset == 0 else Valid()
      modifies this`clust, this`sect, this`size, this`offset, this`dirty, this`chain, this`modified, this`accessed
      modifies buf, fat, fat.dev, fat.buf
      ensures canWrite == old(canWrite) && err == (if canWrite then ERR_NONE else ERR_DENIED)
      ensures modified == (canWrite || old(modified)) && accessed == (canWrite || old(accessed))
      ensures !canWrite ==> written == 0 && size == old(size) && offset == old(offset) && sect == old(sect)
      ensures !canWrite && old(Valid()) ==> Valid() && Contents() == old(Contents())
      ensures !canWrite || old(Unreachable()) ==>
                && chain == old(chain) && fat.view == old(fat.view) && fat.freeCnt == old(fat.freeCnt)
                && fat.dev.faults == old(fat.dev.faults) && (old(fat.Valid()) ==> fat.Valid())
      ensures canWrite && old(Unreachable()) ==>
                && written == |data| && size == old(size) && offset == 0 && (sect == NO_SECT || sect == old(sect))
                && dirty == (old(dirty) || data != [])
      ensures canWrite && !old(Unreachable()) ==> fat.Valid()
      ensures canWrite && !old(Unreachable()) && fat.dev.faults == old(fat.dev.faults) ==>
                && Valid() && size == Max(old(size), offset)
                && old(offset) <= Capacity(fat.geo, |old(chain)|) && written <= |data|
                && (if offset == old(offset) + |data| then written == |data| else CutShort(old(offset), written))
                && size <= |Splice(old(Base()), old(offset), data[..written])|
                && Contents() == Splice(old(Base()), old(offset), data[..written])[..size]
                && (old(offset) <= old(size) ==> old(Base()) == old(Contents()))
                && Evolved(fat.geo, old(fat.view), old(fat.freeCnt), old(chain), fat.view, fat.freeCnt, chain)
      ensures old(fat.Journal()) ==> fat.Journal()
      ensures old(fat.Tame()) ==> fat.Tame()
    {
      hide Fat.Valid, Fat.Journal, Fat.Tame, NoneLeft, Evolved, Content, Capacity, IsFile, NoneBroken, FreeOnDevice,
           Apart, Row, Table, Patched, Splice, SectAt, Holds;
      if !canWrite {
        return ERR_DENIED, 0;
      }
      modified, accessed := true, true;
      if Unreachable() {
        written := WriteNowhere(data);
      } else {
        CursorInRoom();
        written := WriteLoop(data);
      }
      if offset > size {
        size := offset;
      }
      err := ERR_NONE;
      if !old(Unreachable()) && fat.dev.faults == old(fat.dev.faults) {
        CursorInRoom();
      }
    }

    // ---------- closing ----------

    /** Where the file's 8.3 slot is: in a data sector that is not one of its own. */
    ghost predicate EntryPlaced()
      reads `dirSect, `dirIdx, `chain, fat
    {
      && fat.geo.dataSect <= dirSect < |fat.view| && Apart(fat.geo, chain, dirSect) && 0 < fat.geo.spc
      && 0 < dirSect && !fat.geo.InFat(dirSect) && dirSect != fat.geo.infoSect
      && dirIdx < SECTOR_SIZE && dirIdx % 32 == 0
    }

    /** The 8.3 slot has been updated. */
    ghost predicate Entered(a: Image, b: Image, wasAccessed: bool, wasModified: bool, stamp: Stamp)
      reads `dirSect, `dirIdx, `size
    {
      && dirSect < |a| && dirIdx / 32 < SLOTS_PER_SECTOR
      && var s := SlotAt(a[dirSect], dirIdx / 32);
         b == a[dirSect := WithSlot(a[dirSect], dirIdx / 32, EntryAfter(s, size, wasAccessed, wasModified, stamp))]
    }

    /** The part of `fat_file_sync` that updates the 8.3 slot. */
    method UpdateEntry(stamp: Stamp) returns (err: int)
      requires fat.Valid() && EntryPlaced()
      modifies fat`dirty, fat`sect, fat`trace, fat`view, fat.dev, fat.buf
      ensures fat.Valid() && |fat.dev.sectors| == |old(fat.dev.sectors)| && fat.SameCounters()
      ensures err == ERR_NONE || (err == ERR_IO && fat.dev.faults > old(fat.dev.faults))
      ensures err == ERR_NONE ==> fat.dev.faults == old(fat.dev.faults) && fat.sect == dirSect
      ensures err == ERR_NONE ==>
                var was := old(fat.view)[dirSect];
                var s := Updated(SlotAt(was, dirIdx / 32), size, accessed, modified, stamp);
                fat.view == old(fat.view)[dirSect := WithSlot(was, dirIdx / 32, s)]
      ensures old(fat.Journal()) ==> fat.Journal()
      ensures old(fat.Tame()) ==> fat.Tame()
    {
      hide Fat.Journal, Fat.Tame, WithSlot, SlotAt, Updated, Apart;
      err := fat.UpdateBuf(dirSect);
      if err != ERR_NONE {
        return;
      }
      ghost var was := fat.buf[..];
      var s := SlotOfBuffer(fat.buf, dirIdx);
      CopyInto(fat.buf, dirIdx, Updated(s, size, accessed, modified, stamp));
      SlotStored(was, fat.buf[..], dirIdx, Updated(s, size, accessed, modified, stamp));
      fat.Touch();
    }

    /** `fat_file_sync`, which is all that closing a file does: the buffer, the 8.3 slot and the volume are written
        back. Afterwards the device holds the contents and the size. On the way, the logical disk is `stored` and then
        `entered`. */
    method Sync(stamp: Stamp) returns (err: int, ghost stored: Image, ghost entered: Image)
      requires buf.Length == SECTOR_SIZE && buf != fat.buf && EntryPlaced()
      requires fat.Valid() && (sect != NO_SECT ==> Intact())
      modifies this`accessed, this`modified, fat, fat.dev, fat.buf
      ensures fat.Valid() && |fat.dev.sectors| == |old(fat.dev.sectors)|
      ensures err == ERR_NONE || (err == ERR_IO && fat.dev.faults > old(fat.dev.faults))
      ensures err == ERR_NONE ==>
                && fat.dev.faults == old(fat.dev.faults) && fat.dev.sectors == fat.view && !accessed && !modified
                && SlotAt(fat.view[dirSect], dirIdx / 32) ==
                   EntryAfter(old(SlotAt(fat.view[dirSect], dirIdx / 32)), size, old(accessed), old(modified), stamp)
      ensures err == ERR_NONE && sect != NO_SECT ==>
                && 0 < fat.geo.spc && Backed(fat.geo, |fat.view|, chain) && size <= Capacity(fat.geo, |chain|)
                && Content(fat.geo, fat.view, chain, size) == old(Contents())
      ensures err == ERR_NONE ==>
                && (if sect == NO_SECT then stored == old(fat.view)
                    else sect < |old(fat.view)| && stored == old(fat.view)[sect := buf[..]])
                && Entered(stored, entered, old(accessed), old(modified), stamp)
                && fat.geo.Wf(|entered|) && |fat.view| == |entered| && Mild(fat.geo, entered, fat.view)
                && fat.Fats() == Table(fat.geo, entered) && fat.freeCnt == old(fat.freeCnt) && fat.SameAllocation()
      ensures old(fat.Journal()) ==> fat.Journal()
      ensures old(fat.Tame()) ==> fat.Tame()
    {
      hide Fat.Valid, Fat.Journal, Fat.Tame, NoneLeft, Intact, NoneBroken, FreeOnDevice, Row, Capacity, Table, Content,
           Updated, WithSlot, SlotAt, Apart, PutInfo, EntryAfter, Backed, Mild;
      ghost var keep := sect != NO_SECT;
      stored, entered := fat.view, fat.view;
      fat.Facts();
      if sect != NO_SECT {
        err := SyncBuffer();
        if err != ERR_NONE {
          return;
        }
        stored := fat.view;
      }
      err, entered := SyncVolume(stamp, size, keep);
      if err == ERR_NONE {
        accessed, modified := false, false;
      }
    }

    /** The first part of `fat_file_sync`: the buffered sector goes to the device. */
    method SyncBuffer() returns (err: int)
      requires Intact() && sect != NO_SECT && EntryPlaced()
      modifies fat`view, fat`trace, fat.dev
      ensures fat.Valid() && |fat.dev.sectors| == |old(fat.dev.sectors)|
      ensures err == ERR_NONE || (err == ERR_IO && fat.dev.faults > old(fat.dev.faults))
      ensures err == ERR_NONE ==>
                && fat.dev.faults == old(fat.dev.faults)
                && sect < |old(fat.view)| && fat.view == old(fat.view)[sect := buf[..]] && sect != dirSect
                && fat.SameAllocation()
                && 0 < fat.geo.spc && Backed(fat.geo, |fat.view|, chain) && size <= Capacity(fat.geo, |chain|)
                && Content(fat.geo, fat.view, chain, size) == old(Contents())
      ensures old(fat.Journal()) ==> fat.Journal()
      ensures old(fat.Tame()) ==> fat.Tame()
    {
      hide Fat.Valid, Fat.Journal, Fat.Tame, NoneLeft, IsFile, NoneBroken, FreeOnDevice, Row, Capacity, Table, Content,
           Apart, Backed;
      ghost var v0 := fat.view;
      Grounded();
      CursorInRoom();
      FileApart(fat.geo, v0, chain, offset / SECTOR_SIZE, fat.sect);
      FileApart(fat.geo, v0, chain, offset / SECTOR_SIZE, dirSect);
      SectorApart(fat.geo, |v0|, chain, offset / SECTOR_SIZE, fat.sect);
      var ok := fat.WriteThrough(buf, sect);
      fat.Facts();
      err := if ok then ERR_NONE else ERR_IO;
      if ok {
        SameTablesFrame(fat.geo, v0, fat.view);
      }
    }

    /** The second half of `fat_file_sync`: the 8.3 slot and the volume. */
    method SyncVolume(stamp: Stamp, ghost n: nat, ghost keep: bool) returns (err: int, ghost entered: Image)
      requires fat.Valid() && EntryPlaced() && 0 < fat.geo.spc
      requires keep ==> Backed(fat.geo, |fat.view|, chain) && n <= Capacity(fat.geo, |chain|)
      modifies fat, fat.dev, fat.buf
      ensures fat.Valid() && |fat.dev.sectors| == |old(fat.dev.sectors)|
      ensures err == ERR_NONE || (err == ERR_IO && fat.dev.faults > old(fat.dev.faults))
      ensures err == ERR_NONE ==>
                && fat.dev.faults == old(fat.dev.faults) && fat.dev.sectors == fat.view && |fat.view| == |old(fat.view)|
                && (keep ==> Content(fat.geo, fat.view, chain, n) == Content(fat.geo, old(fat.view), chain, n))
                && SlotAt(fat.view[dirSect], dirIdx / 32) ==
                   EntryAfter(SlotAt(old(fat.view)[dirSect], dirIdx / 32), size, accessed, modified, stamp)
      ensures err == ERR_NONE ==>
                && Entered(old(fat.view), entered, accessed, modified, stamp)
                && fat.geo.Wf(|entered|) && |fat.view| == |entered| && Mild(fat.geo, entered, fat.view)
                && fat.Fats() == Table(fat.geo, entered) && fat.freeCnt == old(fat.freeCnt) && fat.SameAllocation()
      ensures old(fat.Journal()) ==> fat.Journal()
      ensures old(fat.Tame()) ==> fat.Tame()
    {
      hide Mild, Fat.Valid, Fat.Journal, Fat.Tame, Row, Capacity, Table, Content, Updated, WithSlot, SlotAt, Apart,
           PutInfo, Backed;
      ghost var v1 := fat.view;
      entered := v1;
      fat.Facts();
      err := ERR_NONE;
      if accessed || modified {
        err := UpdateEntry(stamp);
        if err != ERR_NONE {
          return;
        }
      }
      ghost var v2 := fat.view;
      entered := v2;
      WithSame(v1[dirSect], dirIdx / 32);
      assert v1[dirSect := v1[dirSect]] == v1;
      fat.Facts();
      SameTablesFrame(fat.geo, v1, v2);
      err := fat.SyncFs();
      if err != ERR_NONE {
        return;
      }
      if keep {
        SyncedContent(fat.geo, v1, v2, fat.view, chain, dirSect, n, fat.lastUsed, fat.freeCnt);
      }
      EntryStored(v1, v2, fat.view, dirSect, dirIdx, size, accessed, modified, stamp, fat.geo, fat.lastUsed,
                  fat.freeCnt);
    }
  }

  /** The 8.3 slot after a file has been synchronized. */
  /** What that changes, byte by byte. */
  lemma EntryAfterBytes(s: Slot, size: uint32, accessed: bool, modified: bool, stamp: Stamp)
    ensures var r := EntryAfter(s, size, accessed, modified, stamp);
            && (if accessed then Number(r[18..20]) == stamp.date % 0x1_0000 else r[18..20] == s[18..20])
            && (if modified then
                  && Number(r[22..24]) == stamp.time % 0x1_0000 && Number(r[24..26]) == stamp.date % 0x1_0000
                  && Number(r[28..32]) == size && r[11] == (if s[11] / 32 % 2 == 1 then s[11] else s[11] + 32)
                else r[22..26] == s[22..26] && r[28..32] == s[28..32] && r[11] == s[11])
            && r[..11] == s[..11] && r[12..18] == s[12..18] && r[20..22] == s[20..22] && r[26..28] == s[26..28]
  {
    hide Updated;
    UpdatedBytes(s, size, accessed, modified, stamp);
  }

  function EntryAfter(s: Slot, size: uint32, accessed: bool, modified: bool, stamp: Stamp): Slot {
    if accessed || modified then Updated(s, size, accessed, modified, stamp) else s
  }

  lemma WithSame(sector: Sector, k: nat)
    requires k < SLOTS_PER_SECTOR
    ensures WithSlot(sector, k, SlotAt(sector, k)) == sector
  {
  }

  /** Neither the update of the entry nor the one of FSInfo touches the contents. */
  lemma SyncedContent(g: Geometry, v1: Image, v2: Image, v3: Image, chain: seq<nat>, dirSect: nat, n: nat,
                      nextFree: uint32, freeCnt: uint32)
    requires g.Wf(|v1|) && 0 < g.spc && Backed(g, |v1|, chain) && n <= Capacity(g, |chain|)
    requires dirSect < |v1| && Apart(g, chain, dirSect)
    requires |v2| == |v1| && v2 == v1[dirSect := v2[dirSect]]
    requires v3 == v2 || v3 == PutInfo(g, v2, nextFree, freeCnt)
    ensures |v3| == |v1| && Content(g, v3, chain, n) == Content(g, v1, chain, n)
  {
    hide Capacity, Content, Apart, Backed, WithWord;
    ContentApart(g, v1, chain, dirSect, v2[dirSect], n);
    LowApart(g, chain, g.infoSect);
    if v3 != v2 {
      ContentApart(g, v2, chain, g.infoSect, v3[g.infoSect], n);
      assert v3 == v2[g.infoSect := v3[g.infoSect]];
    }
  }

  lemma EntryStored(v1: Image, v2: Image, v3: Image, dirSect: nat, dirIdx: nat, size: uint32, accessed: bool,
                    modified: bool,
                    stamp: Stamp, g: Geometry, nextFree: uint32, freeCnt: uint32)
    requires g.Wf(|v1|) && dirSect < |v1| && dirSect != g.infoSect && dirIdx < SECTOR_SIZE
    requires var s := SlotAt(v1[dirSect], dirIdx / 32);
             v2 == if accessed || modified
                   then v1[dirSect := WithSlot(v1[dirSect], dirIdx / 32, Updated(s, size, accessed, modified, stamp))]
                   else v1
    requires v3 == v2 || v3 == PutInfo(g, v2, nextFree, freeCnt)
    ensures |v3| == |v1|
    ensures SlotAt(v3[dirSect], dirIdx / 32) ==
            EntryAfter(SlotAt(v1[dirSect], dirIdx / 32), size, accessed, modified, stamp)
  {
    hide SlotAt, WithSlot, Updated, WithWord;
    var s := SlotAt(v1[dirSect], dirIdx / 32);
    WithSlotReads(v1[dirSect], dirIdx / 32, Updated(s, size, accessed, modified, stamp), dirIdx / 32);
  }

  function Min(a: int, b: int): int {
    if a < b then a else b
  }

  function Max(a: nat, b: nat): nat {
    if a < b then b else a
  }

  lemma SpliceNothing(a: seq<byte>, pos: nat, data: seq<byte>)
    requires pos <= |a|
    ensures Splice(a, pos, data[..0]) == a
  {
  }

  /** A small volume without a free cluster: one FAT sector, and 126 clusters of one sector each. */
  function FullDisk(): Image {
    var zero, ends := seq(SECTOR_SIZE, _ => 0), seq(SECTOR_SIZE, i => if i % 4 == 3 then 0x0f else 0xff);
    seq(129, s => if s == 2 then ends else zero)
  }

  /** There, a file of 512 bytes in cluster 3 fills its chain, so that every read to its end is refused. */
  lemma BrimExample(fat: Fat)
    requires fat.geo == Geometry(1, 128, 1, 2, 0, 3, 2) && fat.view == FullDisk() && 2 <= fat.lastUsed < 128
    ensures fat.geo.Wf(|fat.view|) && IsFile(fat.geo, fat.view, [3]) && NoneBroken(fat.Fats()) && Brim(fat, [3], 512)
  {
    var t := Table(fat.geo, fat.view);
    forall c | 0 <= c < 128
      ensures t[c] == EOC
    {
      assert 4 * c % 4 == 0 && (4 * c + 3) % 4 == 3;
    }
    ChooseSpec(t, 3, fat.lastUsed);
  }

  /** Such a volume with clusters of two sectors, and with clusters 3, 4 and 5 in a chain. */
  function ChainedDisk(): Image {
    var zero := seq(SECTOR_SIZE, _ => 0);
    var table := seq(SECTOR_SIZE, i =>
      if 12 <= i < 20 then (if i == 12 then 4 else if i == 16 then 5 else 0) else if i % 4 == 3 then 0x0f else 0xff);
    seq(255, s => if s == 2 then table else zero)
  }

  lemma ChainedTable(g: Geometry)
    requires g == Geometry(2, 128, 1, 2, 0, 3, 2)
    ensures |ChainedDisk()| == 255 && g.Wf(255)
    ensures Table(g, ChainedDisk()) == seq(128, c => if c == 3 then 4 else if c == 4 then 5 else EOC)
  {
    forall c | 0 <= c < 128
      ensures Table(g, ChainedDisk())[c] == if c == 3 then 4 else if c == 4 then 5 else EOC
    {
      assert 4 * c % 4 == 0 && (4 * c + 3) % 4 == 3;
    }
  }

  lemma ChainedFile(g: Geometry)
    requires g == Geometry(2, 128, 1, 2, 0, 3, 2)
    ensures |ChainedDisk()| == 255 && g.Wf(255)
    ensures IsFile(g, ChainedDisk(), [3, 4, 5]) && NoneBroken(Table(g, ChainedDisk()))
    ensures FreeOnDevice(g, ChainedDisk())
  {
    hide Table, ChainedDisk, IsChain;
    ChainedTable(g);
    ThreeLinks(Table(g, ChainedDisk()));
  }

  lemma ThreeLinks(t: FatTable)
    requires |t| == 128 && t[3] == 4 && t[4] == 5 && t[5] == EOC
    ensures IsChain(t, [3, 4, 5])
  {
  }

  /** There, a seek beyond that chain has been refused, with the offset in its first cluster. Going back to the start of
      the file would load a sector of the third cluster, and going to the second one would be refused. */
  lemma LostCursor(file: File)
    requires file.fat.Valid() && file.fat.geo == Geometry(2, 128, 1, 2, 0, 3, 2) && file.fat.view == ChainedDisk()
    requires 2 <= file.fat.lastUsed < 128 && file.fat.sect == 2 && file.buf.Length == SECTOR_SIZE
    requires file.buf != file.fat.buf
    requires file.sclust == 3 && file.chain == [3, 4, 5] && 0 < file.size <= 3072 && file.offset == 600
    requires file.clust == 5 && file.sect == 6 && !file.dirty && file.buf[..] == file.fat.view[6]
    ensures file.Refused(3072) && !file.Ready() && !file.CanSeek(0) && !file.CanSeek(1024)
    ensures file.Landing(2, 0) == 2 && file.Landing(2, 1024) == |file.chain|
  {
    hide Fat.Valid, Table, ChainedDisk, IsFile, NoneBroken, FreeOnDevice;
    ChainedTable(file.fat.geo);
    ChainedFile(file.fat.geo);
    ChooseSpec(file.fat.Fats(), 5, file.fat.lastUsed);
  }

  /** One more chunk has been spliced in: `x` holds the file's clusters before, `y` after it. */
  lemma ChunkSpliced(x: seq<byte>, y: seq<byte>, cap: nat, e: nat, c: seq<byte>, pos: nat, data: seq<byte>, m: nat,
                     k: nat, u: nat)
    requires pos <= |c| && m + k <= |data| && e == Max(|c|, pos + m) && e <= |x| && pos + m + k <= |x| == cap <= |y|
    requires x[..e] == Splice(c, pos, data[..m]) && y[..cap] == Splice(x, pos + m, data[m..m + k])
    requires u <= Max(|c|, pos + m + k)
    ensures u <= |Splice(c, pos, data[..m + k])| && y[..u] == Splice(c, pos, data[..m + k])[..u]
    ensures u == Max(|c|, pos + m + k) ==> y[..u] == Splice(c, pos, data[..m + k])
  {
    hide Splice;
    SpliceStep(x, e, c, pos, data, m, k);
    var e' := Max(|c|, pos + m + k);
    PrefixOfPrefix(y, Splice(x, pos + m, data[m..m + k]), cap, e');
    assert y[..e'][..u] == y[..u];
  }

  lemma WholeSplice(x: seq<byte>, u: nat, c: seq<byte>, pos: nat, data: seq<byte>)
    requires pos <= |c| && u <= |x| && x[..u] == Splice(c, pos, data[..|data|])
    ensures u <= |Splice(c, pos, data[..|data|])| && x[..u] == Splice(c, pos, data[..|data|])[..u]
    ensures data[..|data|] == data
  {
  }

  /** A chunk starts with the write or with its sector. */
  lemma ChunkStart(pos: nat, m: nat, cnt: nat)
    requires (m == 0 || (pos + m) % SECTOR_SIZE == 0) && 0 < cnt <= SECTOR_SIZE - (pos + m) % SECTOR_SIZE
    ensures pos + m == Max(pos, (pos + m + cnt - 1) / SECTOR_SIZE * SECTOR_SIZE)
  {
  }

  lemma PrefixOfPrefix(a: seq<byte>, b: seq<byte>, n: nat, m: nat)
    requires m <= n <= |a| && a[..n] == b
    ensures m <= |b| && a[..m] == b[..m]
  {
  }

  method SlotOfBuffer(a: array<byte>, idx: nat) returns (s: Slot)
    requires a.Length == SECTOR_SIZE && idx < SECTOR_SIZE && idx % 32 == 0
    ensures s == SlotAt(a[..], idx / 32)
  {
    assert idx + 32 <= SECTOR_SIZE && idx == 32 * (idx / 32);
    s := a[idx..idx + 32];
  }

  lemma SlotStored(a: Sector, b: Sector, idx: nat, s: Slot)
    requires idx < SECTOR_SIZE && idx % 32 == 0 && idx + 32 <= SECTOR_SIZE && b[idx..idx + 32] == s
    requires forall i :: 0 <= i < SECTOR_SIZE && !(idx <= i < idx + 32) ==> b[i] == a[i]
    ensures b == WithSlot(a, idx / 32, s)
  {
    WithSlotElsewhere(a, b, idx / 32);
  }

  lemma RoomInSector(g: Geometry, chain: seq<nat>, offset: nat, cnt: nat)
    requires 0 < g.spc && Row(g, offset / SECTOR_SIZE) < |chain| && offset % SECTOR_SIZE + cnt <= SECTOR_SIZE
    ensures offset + cnt <= Capacity(g, |chain|)
  {
    hide Row, Span;
    SpanIff(g, |chain|, offset / SECTOR_SIZE);
    assert offset == SECTOR_SIZE * (offset / SECTOR_SIZE) + offset % SECTOR_SIZE;
  }

  /** Moving within a sector crosses at most one cluster boundary. */
  lemma NearRows(g: Geometry, offset: nat, cnt: nat)
    requires 0 < g.spc && offset % SECTOR_SIZE + cnt <= SECTOR_SIZE
    ensures Row(g, offset / SECTOR_SIZE) <= Row(g, (offset + cnt) / SECTOR_SIZE) <= Row(g, offset / SECTOR_SIZE) + 1
  {
    hide Row;
    NextSector(g, offset / SECTOR_SIZE);
    var q, r := offset / SECTOR_SIZE, (offset + cnt) / SECTOR_SIZE;
    assert r == q || r == q + 1;
    ColSplit(g, q);
  }

  lemma ColSplit(g: Geometry, q: nat)
    requires 0 < g.spc
    ensures Col(g, q) + 1 < g.spc || Col(g, q) + 1 == g.spc
  {
  }
}
