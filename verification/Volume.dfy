/** The mounted volume: a one-sector write-back buffer over the device, the allocation tables and FSInfo. */
module Volume {
  import opened Bytes
  import opened BlockDevice
  import opened Layout
  import opened Chains
  import opened WriteOrder

  const ERR_NONE := 0
  const ERR_BROKEN := -2
  const ERR_IO := -3
  const ERR_PARAM := -4
  const ERR_PATH := -5
  const ERR_EOF := -6
  const ERR_DENIED := -7
  const ERR_FULL := -8

  /** The codes that callers see, and the flags of an entry that the allocator may return instead of one. */
  lemma ErrorCodes()
    ensures ERR_NONE == 0 && ERR_BROKEN == -2 && ERR_IO == -3 && ERR_PARAM == -4
    ensures ERR_PATH == -5 && ERR_EOF == -6 && ERR_DENIED == -7 && ERR_FULL == -8
    ensures KindBits(Free) == 1 && KindBits(Used) == 2 && KindBits(Last) == 2 + 4 && KindBits(Bad) == 8
  {
  }

  /** Everything but the tables and FSInfo is the same in both images. */
  ghost predicate SameData(g: Geometry, a: Image, b: Image) {
    |a| == |b| && forall s :: 0 <= s < |a| && !g.InFat(s) && s != g.infoSect ==> a[s] == b[s]
  }

  /** The data is the same, and the mirror is kept if there was one. */
  ghost predicate Mild(g: Geometry, a: Image, b: Image)
    requires g.Wf(|a|)
  {
    SameData(g, a, b) && (Mirrored(g, a) ==> Mirrored(g, b))
  }

  /** What every operation keeps: the mirror, readable entries, and the offset between `free_cnt` and the number of
      free entries. */
  ghost predicate Upkeep(g: Geometry, a: Image, freeCnt: uint32, b: Image, freeCnt': uint32)
    requires g.Wf(|a|) && |b| == |a|
  {
    && (Mirrored(g, a) ==> Mirrored(g, b))
    && (NoneBroken(Table(g, a)) ==> NoneBroken(Table(g, b)))
    && Drift(freeCnt', Table(g, b)) == Drift(freeCnt, Table(g, a))
  }

  lemma UpkeepTables(g: Geometry, a: Image, freeCnt: uint32, b: Image)
    requires g.Wf(|a|) && SameTables(g, a, b)
    ensures Upkeep(g, a, freeCnt, b, freeCnt)
  {
    SameTablesFrame(g, a, b);
  }

  lemma UpkeepTrans(g: Geometry, a: Image, fa: uint32, b: Image, fb: uint32, c: Image, fc: uint32)
    requires g.Wf(|a|) && |b| == |a| && |c| == |a| && Upkeep(g, a, fa, b, fb) && Upkeep(g, b, fb, c, fc)
    ensures Upkeep(g, a, fa, c, fc)
  {
    hide Drift, Mirrored, NoneBroken, Table;
  }

  /** `stretch_chain` keeps them. */
  lemma UpkeepLinked(g: Geometry, a: Image, freeCnt: uint32, b: Image, prev: nat, c: nat)
    requires g.Wf(|a|) && Mild(g, a, b) && g.IsCluster(c) && prev < g.clustCnt
    requires Table(g, a)[c] == 0 && (prev != 0 ==> Table(g, a)[prev] != 0)
    requires Table(g, b) == Linked(Table(g, a), prev, c)
    ensures Upkeep(g, a, freeCnt, b, Decremented(freeCnt))
  {
    hide Mirrored, Table, Drift;
    LinkedKeepsDrift(Table(g, a), prev, c, freeCnt);
    if NoneBroken(Table(g, a)) {
      LinkedNoneBroken(Table(g, a), prev, c);
    }
  }

  /** `remove_chain` keeps them, even when it fails half-way. */
  lemma UpkeepReleased(g: Geometry, a: Image, freeCnt: uint32, b: Image, c: nat)
    requires g.Wf(|a|) && Mild(g, a, b) && g.IsCluster(c) && Table(g, b) == Release(Table(g, a), c).table
    ensures Upkeep(g, a, freeCnt, b, IncrementedBy(freeCnt, Release(Table(g, a), c).freed))
  {
    hide Mirrored, Table, Drift, Release;
    ReleaseKeepsDrift(Table(g, a), c, freeCnt);
    if NoneBroken(Table(g, a)) {
      ReleaseNoneBroken(Table(g, a), c);
    }
  }

  /** What the allocator can return: an error code, or the flags of an entry. */
  predicate Reported(err: int) {
    err >= 0 || err == ERR_IO || err == ERR_BROKEN || err == ERR_FULL
  }

  /** The flag bits `get_fat` reports for an entry. */
  function KindBits(k: Kind): byte {
    match k
    case Free => 1
    case Used => 2
    case Last => 6
    case Bad => 8
    case Broken => 0
  }

  /** The logical disks that `put_fat` goes through: with a mirror, the mirror is updated first. */
  ghost function PutFatSteps(g: Geometry, img: Image, c: nat, v: nat): set<Image>
    requires g.Wf(|img|) && c < g.clustCnt
  {
    (if g.fat1 != 0 then {PutWord(img, g.fat1, c, v)} else {}) + {PutFat(g, img, c, v)}
  }

  /** The allocator finds no cluster. */
  ghost predicate NoneLeft(t: FatTable, lastUsed: nat, prev: nat) {
    prev < |t| && 2 <= lastUsed < |t| && Choose(t, prev, lastUsed).Full?
  }

  /** No logical disk of the run has a link to a free entry, and file data goes to the data region. */
  ghost predicate TameTrace(g: Geometry, tr: seq<Step>) {
    forall i :: 0 <= i < |tr| ==> TameStep(g, tr[i])
  }

  ghost predicate TameStep(g: Geometry, step: Step) {
    match step
    case Logical(img) => g.Wf(|img|) && NoDangling(Table(g, img))
    case Flush => true
    case Direct(s, _) => g.dataSect <= s
  }

  lemma EitherTame(g: Geometry, tr0: seq<Step>, tr: seq<Step>, t: FatTable, t': FatTable)
    requires TameTrace(g, tr0) && tr0 <= tr && Either(g, tr, |tr0|, t, t') && NoDangling(t) && NoDangling(t')
    ensures TameTrace(g, tr)
  {
    hide NoDangling, Table, Geometry.Wf;
  }

  lemma StagedTame(g: Geometry, tr0: seq<Step>, tr: seq<Step>, t0: FatTable, prev: nat, c: nat)
    requires TameTrace(g, tr0) && tr0 <= tr && Staged(g, tr, |tr0|, t0, prev, c) && NoDangling(t0)
    requires 2 <= c && |t0| <= BAD_MARK && prev < |t0| && c < |t0| && t0[c] == 0
    ensures TameTrace(g, tr)
  {
    hide NoDangling, Table, Geometry.Wf, LinkStage;
    forall i | 0 <= i < |tr|
      ensures TameStep(g, tr[i])
    {
      if i < |tr0| {
        assert tr[i] == tr0[i] && TameStep(g, tr0[i]);
      } else if tr[i].Logical? {
        StagesNeverDangle(Table(g, tr[i].img), t0, prev, c);
      }
    }
  }

  /** One more logical disk. */
  lemma LogicalTame(g: Geometry, tr: seq<Step>, img: Image)
    requires TameTrace(g, tr) && g.Wf(|img|) && NoDangling(Table(g, img))
    ensures TameTrace(g, tr + [Logical(img)])
  {
    hide NoDangling, Table, Geometry.Wf;
  }

  /** File data does not touch the tables. */
  lemma PatchedTable(g: Geometry, img: Image, s: nat, data: Sector)
    requires g.Wf(|img|) && g.dataSect <= s
    ensures |Patched(img, s, data)| == |img| && Table(g, Patched(img, s, data)) == Table(g, img)
  {
    SameTablesFrame(g, img, Patched(img, s, data));
  }

  lemma {:induction false} TameCurrent(g: Geometry, tr: seq<Step>, m: nat)
    requires TameTrace(g, tr) && |tr| > 0 && tr[0].Logical? && 0 < m <= |tr|
    ensures g.Wf(|Current(tr[..m])|) && NoDangling(Table(g, Current(tr[..m])))
    decreases m
  {
    hide NoDangling, Table, Geometry.Wf, Patched;
    assert TameStep(g, tr[m - 1]);
    assert tr[..m][..m - 1] == tr[..m - 1];
    if !tr[m - 1].Logical? {
      TameCurrent(g, tr, m - 1);
      if tr[m - 1].Direct? {
        PatchedTable(g, Current(tr[..m - 1]), tr[m - 1].sect, tr[m - 1].data);
      }
    }
  }

  lemma {:induction false} TameOverlaid(g: Geometry, tr: seq<Step>, img: Image, m: nat, p: nat)
    requires TameTrace(g, tr) && m <= p <= |tr| && g.Wf(|img|) && NoDangling(Table(g, img))
    ensures g.Wf(|Overlaid(img, tr[m..p])|) && NoDangling(Table(g, Overlaid(img, tr[m..p])))
    decreases p
  {
    hide NoDangling, Table, Geometry.Wf, Patched;
    if m < p {
      assert tr[m..p][..p - m - 1] == tr[m..p - 1] && tr[m..p][p - m - 1] == tr[p - 1];
      assert TameStep(g, tr[p - 1]);
      TameOverlaid(g, tr, img, m, p - 1);
      if tr[p - 1].Direct? {
        PatchedTable(g, Overlaid(img, tr[m..p - 1]), tr[p - 1].sect, tr[p - 1].data);
      }
    }
  }

  class Fat {
    const geo: Geometry
    const dev: Device
    const buf: array<byte>
    var sect: nat
    var dirty: bool
    var infoDirty: bool
    var lastUsed: uint32
    var freeCnt: uint32

    // The logical disk: the device with the buffered sector laid over it. The buffer does not count while
    // `sect` is 0, which is how mounting marks it as not yet loaded.
    ghost var view: Image
    // Every logical disk of the run and every device write, in order.
    ghost var trace: seq<Step>

    ghost predicate Valid()
      reads this, dev, buf
    {
      && buf.Length == SECTOR_SIZE
      && geo.Wf(|dev.sectors|)
      && 2 <= lastUsed < geo.clustCnt
      && view == (if 0 < sect < |dev.sectors| then dev.sectors[sect := buf[..]] else dev.sectors)
      && (dirty ==> 0 < sect)
      && (!dirty ==> view == dev.sectors)
    }

    /** The device has held exactly what the trace says was flushed. */
    ghost predicate Journal()
      reads `view, `trace, dev`images, dev`sectors
    {
      && Run(trace, |view|) && dev.Recorded()
      && dev.images == Flushed(trace) && view == Current(trace)
    }

    /** And no logical disk of the run has a table with a link to a free entry. */
    ghost predicate Tame()
      reads `view, `trace, dev`images, dev`sectors
    {
      Journal() && TameTrace(geo, trace)
    }

    /** Then neither has any image the device has held. */
    lemma NeverDangled()
      requires Tame()
      ensures geo.Wf(|view|) && NoDangling(Table(geo, view))
      ensures forall i :: 0 <= i < |dev.images| ==> geo.Wf(|dev.images[i]|) && NoDangling(Table(geo, dev.images[i]))
    {
      hide Moments, Ends, Flushed, Current, Overlaid, NoDangling, Table, Geometry.Wf, TameTrace;
      TameCurrent(geo, trace, |trace|);
      assert trace[..|trace|] == trace;
      FlushedInOrder(trace, |view|);
      forall i | 0 <= i < |dev.images|
        ensures geo.Wf(|dev.images[i]|) && NoDangling(Table(geo, dev.images[i]))
      {
        var m, p := Moments(trace)[i], Ends(trace)[i];
        assert Explains(trace, m, p, Flushed(trace)[i]);
        TameCurrent(geo, trace, m);
        TameOverlaid(geo, trace, Current(trace[..m]), m, p);
      }
    }

    /** Whenever the power fails: every image the device has held, the current one included, is the logical disk of a
        moment of the run with just the file data laid over it that has been written since, and later images belong to
        moments that are no earlier. */
    lemma CrashConsistent()
      requires Journal()
      ensures dev.images != [] && dev.images[|dev.images| - 1] == dev.sectors
      ensures |Moments(trace)| == |Ends(trace)| == |dev.images|
      ensures forall i :: 0 <= i < |dev.images| ==>
                var m, p := Moments(trace)[i], Ends(trace)[i];
                && m < p <= |trace| && trace[m].Flush? && (forall k :: m < k < p ==> !trace[k].Flush?)
                && dev.images[i] == Overlaid(Current(trace[..m]), trace[m..p])
      ensures forall i, j :: 0 <= i < j < |dev.images| ==>
                Moments(trace)[i] <= Moments(trace)[j] && Ends(trace)[i] < Ends(trace)[j]
    {
      hide Moments, Ends, Flushed, Current, Overlaid;
      FlushedInOrder(trace, |view|);
      assert forall i :: 0 <= i < |dev.images| ==>
        Explains(trace, Moments(trace)[i], Ends(trace)[i], Flushed(trace)[i]);
    }

    /** The active FAT of the logical disk. */
    ghost function Fats(): FatTable
      requires geo.Wf(|view|)
      reads this
    {
      Table(geo, view)
    }

    /** The allocator finds what it would have found before. */
    twostate predicate SameAllocation()
      reads this
      ensures SameAllocation() ==> forall prev :: Full(prev) == old(Full(prev))
    {
      geo.Wf(|old(view)|) && geo.Wf(|view|) && Fats() == old(Fats()) && lastUsed == old(lastUsed)
    }

    /** Nothing but the buffer has changed. */
    twostate predicate Idle()
      reads this
    {
      view == old(view) && SameCounters()
    }

    /** `stretch_chain` would find no cluster for a chain that ends in `prev`, or for a new chain if that is 0. */
    ghost predicate Full(prev: nat)
      reads this
    {
      geo.Wf(|view|) && NoneLeft(Fats(), lastUsed, prev)
    }

    twostate predicate Untouched()
      reads this
    {
      view == old(view) && lastUsed == old(lastUsed) && freeCnt == old(freeCnt)
    }

    twostate predicate SameCounters()
      reads this
    {
      lastUsed == old(lastUsed) && freeCnt == old(freeCnt) && infoDirty == old(infoDirty)
    }

    lemma Facts()
      requires Valid()
      ensures geo.Wf(|view|) && |view| == |dev.sectors| && buf.Length == SECTOR_SIZE && 2 <= lastUsed < geo.clustCnt
    {
    }

    constructor Mount(device: Device, geometry: Geometry, nextFree: uint32, freeCount: uint32, wasDirty: bool,
                      wasInfoDirty: bool)
      requires geometry.Wf(|device.sectors|)
      requires device.images == [device.sectors]
      ensures dev == device && geo == geometry && fresh(buf)
      ensures lastUsed == nextFree && freeCnt == freeCount && sect == 0
      ensures dirty == wasDirty && infoDirty == wasInfoDirty
      ensures view == device.sectors && (NoDangling(Table(geo, view)) ==> Tame())
      ensures Journal() && view == device.sectors && (Valid() <==> 2 <= nextFree < geometry.clustCnt && !wasDirty)
    {
      geo, dev := geometry, device;
      buf := new byte[SECTOR_SIZE](_ => 0);
      sect, dirty, infoDirty := 0, wasDirty, wasInfoDirty;
      lastUsed, freeCnt := nextFree, freeCount;
      view, trace := device.sectors, [Logical(device.sectors), Flush];
      new;
      FlushedOnce(view);
    }

    lemma TouchJournal(img: Image)
      requires |img| == |view|
      ensures Journal() ==>
                Run(trace + [Logical(img)], |img|) && Flushed(trace + [Logical(img)]) == Flushed(trace)
                && Current(trace + [Logical(img)]) == img
    {
      hide Flushed, Current;
      FlushedMore(trace, Logical(img));
      RunMore(trace, Logical(img), |img|);
    }

    /** An edit outside the FATs changes no table. */
    lemma TouchTame(img: Image)
      requires Tame() && geo.Wf(|view|) && sect < |view| == |img| && img == view[sect := img[sect]]
      requires !geo.InFat(sect) || NoDangling(Table(geo, img))
      ensures TameTrace(geo, trace + [Logical(img)])
    {
      hide Flushed, Current, TameTrace, NoDangling, Table, Journal;
      NeverDangled();
      if !geo.InFat(sect) {
        TableFrame(geo, view, img);
      }
      LogicalTame(geo, trace, img);
    }

    /** The bookkeeping of every edit of the buffered sector. */
    method Touch()
      requires buf.Length == SECTOR_SIZE && geo.Wf(|dev.sectors|) && 2 <= lastUsed < geo.clustCnt
      requires 0 < sect < |dev.sectors| == |view| && view == dev.sectors[sect := view[sect]]
      modifies this`dirty, this`view, this`trace
      ensures Valid() && dirty && view == old(view)[sect := buf[..]]
      ensures trace == old(trace) + [Logical(view)] && (old(Journal()) ==> Journal())
      ensures old(Tame()) && (!geo.InFat(sect) || NoDangling(Table(geo, view))) ==> Tame()
    {
      hide Run, Flushed, Current, TameTrace, NoDangling, Table;
      if Tame() && (!geo.InFat(sect) || NoDangling(Table(geo, view[sect := buf[..]]))) {
        TouchTame(view[sect := buf[..]]);
      }
      TouchJournal(view[sect := buf[..]]);
      dirty := true;
      view := view[sect := buf[..]];
      trace := trace + [Logical(view)];
    }

    method SyncBuf() returns (err: int)
      requires Valid()
      modifies this`dirty, this`trace, dev
      ensures Valid() && |dev.sectors| == |old(dev.sectors)| && Idle()
      ensures err == ERR_NONE || err == ERR_IO
      ensures err == ERR_NONE ==> !dirty && dev.faults == old(dev.faults)
      ensures err == ERR_IO ==> dirty == old(dirty) && dev.faults > old(dev.faults)
      ensures err == ERR_NONE && old(dirty) ==> sect < |view|
      ensures trace in {old(trace), old(trace) + [Flush]} && (old(Journal()) ==> Journal())
      ensures old(Tame()) ==> Tame()
    {
      if dirty {
        var ok := dev.Write(buf, sect);
        if !ok {
          return ERR_IO;
        }
        dirty := false;
        trace := trace + [Flush];
      }
      return ERR_NONE;
    }

    method UpdateBuf(s: nat) returns (err: int)
      requires Valid()
      modifies this`dirty, this`sect, this`trace, dev, buf
      ensures Valid() && |dev.sectors| == |old(dev.sectors)| && Idle()
      ensures err == ERR_NONE || err == ERR_IO
      ensures err == ERR_NONE ==> sect == s && dev.faults == old(dev.faults)
      ensures err == ERR_NONE && 0 < s < |view| ==> buf[..] == view[s]
      ensures err == ERR_NONE && s != old(sect) ==> s < |view|
      ensures err == ERR_IO ==> dev.faults > old(dev.faults)
      ensures trace in {old(trace), old(trace) + [Flush]} && (old(Journal()) ==> Journal())
      ensures old(Tame()) ==> Tame()
    {
      if sect != s {
        err := SyncBuf();
        if err != ERR_NONE {
          return err;
        }
        var ok := dev.Read(buf, s);
        if !ok {
          return ERR_IO;
        }
        sect := s;
      }
      return ERR_NONE;
    }

    /** A sector of file data goes to the device directly. The buffer holds another sector. */
    method WriteThrough(data: array<byte>, s: nat) returns (ok: bool)
      requires Valid() && data.Length == SECTOR_SIZE && data != buf && s != sect
      modifies this`view, this`trace, dev
      ensures Valid() && |dev.sectors| == |old(dev.sectors)|
      ensures ok ==> dev.faults == old(dev.faults) && s < |view| && view == old(view)[s := data[..]]
      ensures !ok ==> dev.faults > old(dev.faults) && view == old(view)
      ensures old(Journal()) ==> Journal()
      ensures old(Tame()) && geo.dataSect <= s ==> Tame()
    {
      hide Current, Flushed, Run, Geometry.Wf;
      ok := dev.Write(data, s);
      if ok {
        FlushedMore(trace, Direct(s, data[..]));
        RunMore(trace, Direct(s, data[..]), |view|);
        view := view[s := data[..]];
        trace := trace + [Direct(s, data[..])];
      }
    }

    /** And is read from it directly. */
    method ReadThrough(data: array<byte>, s: nat) returns (ok: bool)
      requires Valid() && data.Length == SECTOR_SIZE && data != buf && s != sect
      modifies dev`faults, data
      ensures Valid()
      ensures ok ==> dev.faults == old(dev.faults) && s < |view| && data[..] == view[s]
      ensures !ok ==> dev.faults > old(dev.faults) && data[..] == old(data[..])
      ensures old(Journal()) ==> Journal()
      ensures old(Tame()) ==> Tame()
    {
      ok := dev.Read(data, s);
    }

    /** The part of `sync_fs` that edits the buffered FSInfo. */
    method StoreCounters()
      requires Valid() && sect == geo.infoSect && buf[..] == view[geo.infoSect]
      modifies this`dirty, this`view, this`trace, buf
      ensures Valid() && dirty
      ensures view == PutInfo(geo, old(view), lastUsed, freeCnt) && trace == old(trace) + [Logical(view)]
      ensures old(Journal()) ==> Journal()
      ensures old(Tame()) ==> Tame()
    {
      hide Journal;
      StoreWord(buf, INFO_NEXT_FREE, lastUsed);
      StoreWord(buf, INFO_FREE_CNT, freeCnt);
      ghost var v := view;
      if Tame() {
        NeverDangled();
      }
      PutInfoReads(geo, v, lastUsed, freeCnt);
      Touch();
    }

    /** The second half of `sync_fs`. */
    method SyncInfo() returns (err: int)
      requires Valid() && !dirty && infoDirty
      modifies this, dev, buf
      ensures Valid() && |dev.sectors| == |old(dev.sectors)|
      ensures lastUsed == old(lastUsed) && freeCnt == old(freeCnt)
      ensures err == ERR_NONE || err == ERR_IO
      ensures err == ERR_NONE ==> dev.faults == old(dev.faults) && !dirty && !infoDirty && sect == geo.infoSect
      ensures err == ERR_NONE ==> view == PutInfo(geo, old(view), lastUsed, freeCnt)
      ensures err == ERR_IO ==> dev.faults > old(dev.faults) && infoDirty
      ensures view == old(view) || view == PutInfo(geo, old(view), lastUsed, freeCnt)
      ensures NewIn(trace, |old(trace)|, {PutInfo(geo, old(view), lastUsed, freeCnt)})
      ensures old(trace) <= trace && (old(Journal()) ==> Journal())
      ensures old(Tame()) ==> Tame()
    {
      hide Journal, Current, Flushed, PutInfo;
      err := UpdateBuf(geo.infoSect);
      if err != ERR_NONE {
        return err;
      }
      StoreCounters();
      err := SyncBuf();
      if err != ERR_NONE {
        return err;
      }
      infoDirty := false;
    }

    /** `sync_fs`: flush the buffer and, if they are out of date, the counters in FSInfo. */
    method SyncFs() returns (err: int)
      requires Valid()
      modifies this, dev, buf
      ensures Valid() && |dev.sectors| == |old(dev.sectors)|
      ensures lastUsed == old(lastUsed) && freeCnt == old(freeCnt)
      ensures err == ERR_NONE || err == ERR_IO
      ensures err == ERR_NONE ==> dev.faults == old(dev.faults) && !dirty && !infoDirty && dev.sectors == view
      ensures err == ERR_NONE ==>
                view == if old(infoDirty) then PutInfo(geo, old(view), lastUsed, freeCnt) else old(view)
      ensures err == ERR_NONE ==> if old(infoDirty) then sect == geo.infoSect else sect == old(sect)
      ensures err == ERR_NONE ==> Fats() == old(Fats()) && Mild(geo, old(view), view) && (old(infoDirty) ==> Synced())
      ensures err == ERR_IO ==> dev.faults > old(dev.faults)
      ensures view == old(view) || view == PutInfo(geo, old(view), lastUsed, freeCnt)
      ensures NewIn(trace, |old(trace)|, {PutInfo(geo, old(view), lastUsed, freeCnt)})
      ensures old(trace) <= trace && (old(Journal()) ==> Journal())
      ensures old(Tame()) ==> Tame()
    {
      PutInfoReads(geo, view, lastUsed, freeCnt);
      err := SyncBuf();
      if err == ERR_NONE && infoDirty {
        err := SyncInfo();
      }
    }

    /** `get_fat`: the entry of a cluster and how it reads. */
    method GetFat(clust: nat) returns (err: int, val: nat, kind: Kind)
      requires Valid() && clust < geo.clustCnt
      modifies this`dirty, this`sect, this`trace, dev, buf
      ensures Valid() && |dev.sectors| == |old(dev.sectors)| && Idle()
      ensures err == ERR_NONE || err == ERR_IO || err == ERR_BROKEN
      ensures err == ERR_NONE ==> kind != Broken
      ensures err != ERR_IO ==> dev.faults == old(dev.faults) && sect == geo.fat0 + clust / 128
      ensures err != ERR_IO ==> val == Fats()[clust] && kind == KindAt(Fats(), clust)
      ensures err == ERR_BROKEN ==> kind == Broken
      ensures err != ERR_IO ==>
                && (kind == Free <==> val == 0) && (kind == Bad <==> val == 0x0fff_fff7)
                && (kind == Last <==> 0x0fff_fff8 <= val) && (kind == Used <==> 2 <= val < geo.clustCnt)
                && (err == ERR_BROKEN <==> val == 1 || (0 < val && geo.clustCnt <= val < 0x0fff_fff7))
      ensures err == ERR_IO ==> dev.faults > old(dev.faults)
      ensures trace in {old(trace), old(trace) + [Flush]} && (old(Journal()) ==> Journal())
      ensures old(Tame()) ==> Tame()
    {
      val, kind := 0, Broken;
      err := UpdateBuf(geo.fat0 + clust / 128);
      if err != ERR_NONE {
        return;
      }
      assert buf[..] == view[geo.fat0 + clust / 128];
      val := Low28(Word(buf[..], clust % 128));
      kind := Classify(val, geo.clustCnt);
      KindNumbers(val, geo.clustCnt);
      if kind == Broken {
        err := ERR_BROKEN;
      }
    }

    /** `put_fat2`: store an entry in one FAT, keeping the upper nibble. */
    method PutFat2(fatSect: nat, clust: nat, val: nat) returns (err: int)
      requires Valid() && clust < geo.clustCnt
      requires fatSect > 0 && fatSect in {geo.fat0, geo.fat1}
      modifies this`dirty, this`sect, this`trace, this`view, dev, buf
      ensures Valid() && |dev.sectors| == |old(dev.sectors)| && SameCounters()
      ensures err == ERR_NONE || err == ERR_IO
      ensures err == ERR_NONE ==> dev.faults == old(dev.faults) && sect == fatSect + clust / 128
      ensures err == ERR_NONE ==> view == PutWord(old(view), fatSect, clust, val)
      ensures err == ERR_IO ==> dev.faults > old(dev.faults) && view == old(view)
      ensures NewIn(trace, |old(trace)|, {PutWord(old(view), fatSect, clust, val)})
      ensures old(trace) <= trace && (old(Journal()) ==> Journal())
    {
      err := UpdateBuf(fatSect + clust / 128);
      if err != ERR_NONE {
        return err;
      }
      StoreWord(buf, clust % 128, ReplaceLow28(Word(buf[..], clust % 128), val));
      Touch();
    }

    /** `put_fat`: store an entry in the mirror, if there is one, and then in the active FAT. */
    method PutFat(clust: nat, val: nat) returns (err: int)
      requires Valid() && clust < geo.clustCnt
      modifies this`dirty, this`sect, this`trace, this`view, dev, buf
      ensures Valid() && |dev.sectors| == |old(dev.sectors)| && SameCounters()
      ensures err == ERR_NONE || err == ERR_IO
      ensures err == ERR_NONE ==> dev.faults == old(dev.faults) && sect == geo.fat0 + clust / 128
      ensures err == ERR_NONE ==> view == Layout.PutFat(geo, old(view), clust, val)
      ensures err == ERR_IO ==> dev.faults > old(dev.faults)
      ensures view == old(view) || view in PutFatSteps(geo, old(view), clust, val)
      ensures NewIn(trace, |old(trace)|, PutFatSteps(geo, old(view), clust, val))
      ensures old(trace) <= trace && (old(Journal()) ==> Journal())
    {
      if geo.fat1 != 0 {
        err := PutFat2(geo.fat1, clust, val);
        if err != ERR_NONE {
          return err;
        }
      }
      err := PutFat2(geo.fat0, clust, val);
    }

    /** `put_fat` seen as an update of the table. */
    method PutEntry(clust: nat, val: nat) returns (err: int)
      requires Valid() && clust < geo.clustCnt && val < TWO_28
      modifies this`dirty, this`sect, this`trace, this`view, dev, buf
      ensures Valid() && |dev.sectors| == |old(dev.sectors)| && SameCounters()
      ensures err == ERR_NONE || err == ERR_IO
      ensures err == ERR_NONE ==> dev.faults == old(dev.faults)
      ensures err == ERR_NONE ==> Fats() == old(Fats())[clust := val] && Mild(geo, old(view), view)
      ensures err == ERR_IO ==> dev.faults > old(dev.faults)
      ensures Either(geo, trace, |old(trace)|, old(Fats()), old(Fats())[clust := val])
      ensures old(trace) <= trace && (old(Journal()) ==> Journal())
      ensures old(Tame()) && NoDangling(old(Fats())[clust := val]) ==> Tame()
    {
      ghost var v := view;
      if Tame() {
        NeverDangled();
      }
      err := PutFat(clust, val);
      PutFatStages(geo, v, trace, |old(trace)|, clust, val);
      PutFatMild(geo, v, clust, val);
      if old(Tame()) && NoDangling(old(Fats())[clust := val]) {
        EitherTame(geo, old(trace), trace, old(Fats()), old(Fats())[clust := val]);
      }
    }

    /** One round of the loop of `remove_chain`: read the entry, clear it, count it. */
    method ReleaseOne(clust: nat) returns (err: int, next: nat, last: bool)
      requires Valid() && clust < geo.clustCnt
      modifies this, dev, buf
      ensures Valid() && |dev.sectors| == |old(dev.sectors)| && lastUsed == old(lastUsed) && infoDirty == old(infoDirty)
      ensures dev.faults >= old(dev.faults) && (err == ERR_IO ==> dev.faults > old(dev.faults))
      ensures var k := KindAt(old(Fats()), clust);
              err != ERR_IO ==>
                && dev.faults == old(dev.faults)
                && next == old(Fats())[clust]
                && (if k == Used || k == Last
                    then
                      && err == ERR_NONE && (last <==> k == Last)
                      && freeCnt == Incremented(old(freeCnt))
                      && Fats() == old(Fats())[clust := 0] && Mild(geo, old(view), view)
                    else err == ERR_BROKEN && freeCnt == old(freeCnt) && view == old(view))
      ensures err == ERR_NONE && !last ==> 2 <= next < geo.clustCnt
      ensures err != ERR_NONE ==> freeCnt == old(freeCnt)
      ensures old(trace) <= trace && (old(Journal()) ==> Journal())
      ensures old(Tame())
              && (KindAt(old(Fats()), clust) == Used || KindAt(old(Fats()), clust) == Last ==>
                    NoDangling(old(Fats())[clust := 0])) ==>
                Tame()
    {
      hide Table, Mild, Journal, Either, Entry;
      var kind;
      last := false;
      err, next, kind := GetFat(clust);
      if err != ERR_NONE {
        return;
      }
      if kind == Bad || kind == Free {
        err := ERR_BROKEN;
        return;
      }
      err := PutEntry(clust, 0);
      if err != ERR_NONE {
        return;
      }
      freeCnt := Incremented(freeCnt);
      last := kind == Last;
    }

    /** The loop of `remove_chain`. */
    method ReleaseAll(clust: nat) returns (err: int)
      requires Valid() && clust < geo.clustCnt
      modifies this, dev, buf
      ensures Valid() && |dev.sectors| == |old(dev.sectors)| && lastUsed == old(lastUsed) && infoDirty == old(infoDirty)
      ensures dev.faults >= old(dev.faults) && (err == ERR_IO <==> dev.faults > old(dev.faults))
      ensures var r := Release(old(Fats()), clust);
              dev.faults == old(dev.faults) ==>
                && err == (if r.ok then ERR_NONE else ERR_BROKEN)
                && Fats() == r.table
                && freeCnt == IncrementedBy(old(freeCnt), r.freed)
                && Mild(geo, old(view), view)
      ensures old(trace) <= trace && (old(Journal()) ==> Journal())
      ensures old(Tame()) && SafeRelease(old(Fats()), clust) ==> Tame()
    {
      hide Release, Table, Journal, CountFree, KindAt;
      ghost var n := 0;
      ghost var all := Release(Fats(), clust);
      var c: nat, last := clust, false;
      err := ERR_NONE;
      while !last
        invariant Valid() && |dev.sectors| == |old(dev.sectors)| && lastUsed == old(lastUsed)
        invariant infoDirty == old(infoDirty) && err == ERR_NONE
        invariant dev.faults == old(dev.faults)
        invariant freeCnt == IncrementedBy(old(freeCnt), n)
        invariant Mild(geo, old(view), view)
        invariant last ==> all == Released(Fats(), true, n)
        invariant !last ==> c < geo.clustCnt && all == Continued(Release(Fats(), c), n)
        invariant old(trace) <= trace && (old(Journal()) ==> Journal())
        invariant old(Tame()) && SafeRelease(old(Fats()), clust) ==> Tame() && (!last ==> SafeRelease(Fats(), c))
        decreases !last, |Fats()| - CountFree(Fats(), 0)
      {
        ghost var v := view;
        ReleaseRound(Fats(), c);
        var next;
        err, next, last := ReleaseOne(c);
        if err != ERR_NONE {
          return;
        }
        MildTrans(geo, old(view), v, view);
        n := n + 1;
        c := next;
      }
    }

    /** `remove_chain`. Without device faults it computes `Release` on the active FAT, counts what it freed, and
        leaves the data alone, whatever the table looks like. */
    method RemoveChain(clust: nat) returns (err: int)
      requires Valid() && clust < geo.clustCnt
      modifies this, dev, buf
      ensures Valid() && |dev.sectors| == |old(dev.sectors)| && lastUsed == old(lastUsed)
      ensures dev.faults >= old(dev.faults) && (err == ERR_IO <==> dev.faults > old(dev.faults))
      ensures var r := Release(old(Fats()), clust);
              dev.faults == old(dev.faults) ==>
                && err == (if r.ok then ERR_NONE else ERR_BROKEN)
                && Fats() == r.table
                && freeCnt == IncrementedBy(old(freeCnt), r.freed)
                && Mild(geo, old(view), view)
                && (r.ok ==> Synced())
      ensures old(trace) <= trace && (old(Journal()) ==> Journal())
      ensures old(Tame()) && SafeRelease(old(Fats()), clust) ==> Tame()
    {
      infoDirty := true;
      err := ReleaseAll(clust);
      if err != ERR_NONE {
        return;
      }
      ghost var v := view;
      err := SyncFs();
      if err == ERR_NONE {
        MildTrans(geo, old(view), v, view);
      }
    }

    /** The choice of a cluster in `stretch_chain`. The scan's error exit returns the flags of the entry before
        (an uninitialized byte if there was none) instead of an error code. */
    method FindCluster(prev: nat) returns (found: bool, err: int, clust: nat)
      requires Valid() && prev < geo.clustCnt
      modifies this`dirty, this`sect, this`trace, dev, buf
      ensures Valid() && |dev.sectors| == |old(dev.sectors)| && Idle()
      ensures Reported(err)
      ensures 2 <= clust < geo.clustCnt && dev.faults >= old(dev.faults)
      ensures found ==> err == ERR_NONE && dev.faults == old(dev.faults) && Fats()[clust] == 0
      ensures dev.faults == old(dev.faults) ==>
                match Choose(Fats(), prev, lastUsed)
                case Found(c) => found && clust == c
                case Full => !found && err == ERR_FULL
                case Corrupt => !found && (err == ERR_BROKEN || 0 <= err)
      ensures err == ERR_FULL ==> sect == old(sect) || sect < geo.dataSect
      ensures err == ERR_FULL ==> dev.faults == old(dev.faults)
      ensures prev != 0 && !found ==> err != ERR_NONE
      ensures NewIn(trace, |old(trace)|, {})
      ensures old(trace) <= trace && (old(Journal()) ==> Journal())
      ensures old(Tame()) ==> Tame()
    {
      var bits: byte := *;
      found, clust := false, lastUsed;
      if prev != 0 {
        var next, kind;
        err, next, kind := GetFat(Next(prev, geo.clustCnt));
        if err != ERR_NONE {
          return;
        }
        if kind == Free {
          return true, ERR_NONE, Next(prev, geo.clustCnt);
        }
        bits := KindBits(kind);
      }
      found, err, clust := ScanFrom(bits);
    }

    /** The scan of `stretch_chain`. */
    method ScanFrom(stale: byte) returns (found: bool, err: int, clust: nat)
      requires Valid()
      modifies this`dirty, this`sect, this`trace, dev, buf
      ensures Valid() && |dev.sectors| == |old(dev.sectors)| && Idle()
      ensures Reported(err)
      ensures 2 <= clust < geo.clustCnt && dev.faults >= old(dev.faults)
      ensures found ==> err == ERR_NONE && dev.faults == old(dev.faults) && Fats()[clust] == 0
      ensures dev.faults == old(dev.faults) ==>
                match Scan(Fats(), lastUsed, lastUsed)
                case Found(c) => found && clust == c
                case Full => !found && err == ERR_FULL
                case Corrupt => !found && 0 <= err
      ensures err == ERR_FULL ==> sect == old(sect) || sect < geo.dataSect
      ensures err == ERR_FULL ==> dev.faults == old(dev.faults)
      ensures stale != 0 && !found ==> err != ERR_NONE
      ensures NewIn(trace, |old(trace)|, {})
      ensures old(trace) <= trace && (old(Journal()) ==> Journal())
      ensures old(Tame()) ==> Tame()
    {
      hide Table, Journal, Entry;
      var bits := stale;
      ghost var choice := Scan(Fats(), lastUsed, lastUsed);
      found, clust := false, lastUsed;
      while true
        invariant Valid() && |dev.sectors| == |old(dev.sectors)| && Idle()
        invariant 2 <= clust < geo.clustCnt && !found
        invariant dev.faults == old(dev.faults)
        invariant choice == Scan(Fats(), clust, lastUsed)
        invariant sect == old(sect) || sect < geo.dataSect
        invariant stale != 0 ==> bits != 0
        invariant NewIn(trace, |old(trace)|, {})
        invariant old(trace) <= trace && (old(Journal()) ==> Journal())
        invariant old(Tame()) ==> Tame()
        decreases Steps(clust, lastUsed, geo.clustCnt)
      {
        var next, kind;
        var c := Next(clust, geo.clustCnt);
        if c == lastUsed {
          return false, ERR_FULL, clust;
        }
        err, next, kind := GetFat(c);
        if err != ERR_NONE {
          return false, bits, clust;
        }
        clust, bits := c, KindBits(kind);
        if kind == Free {
          return true, ERR_NONE, clust;
        }
      }
    }

    /** The updates of `stretch_chain`: mark the new end of chain, then link to it. */
    method LinkCluster(prev: nat, clust: nat) returns (err: int)
      requires Valid() && prev < geo.clustCnt && 2 <= clust < geo.clustCnt
      modifies this`dirty, this`sect, this`trace, this`view, dev, buf
      ensures Valid() && |dev.sectors| == |old(dev.sectors)| && SameCounters()
      ensures err == ERR_NONE || err == ERR_IO
      ensures err == ERR_NONE ==> dev.faults == old(dev.faults)
      ensures err == ERR_NONE ==> Fats() == Linked(old(Fats()), prev, clust) && Mild(geo, old(view), view)
      ensures err == ERR_IO ==> dev.faults > old(dev.faults)
      ensures Staged(geo, trace, |old(trace)|, old(Fats()), prev, clust)
      ensures old(trace) <= trace && (old(Journal()) ==> Journal())
      ensures old(Tame()) && old(Fats())[clust] == 0 ==> Tame()
    {
      hide Journal, TameTrace, NoDangling, LinkStage, Table, Mild;
      ghost var n, v, t := |trace|, view, Fats();
      LinkStages(t, prev, clust);
      if Tame() {
        NeverDangled();
      }
      err := PutEntry(clust, EOC);
      StagedEither(geo, trace, n, t, t[clust := EOC], t, prev, clust);
      if err == ERR_NONE && prev != 0 {
        ghost var n1, v1 := |trace|, view;
        err := PutEntry(prev, clust);
        StagedEither(geo, trace, n1, t[clust := EOC], t[clust := EOC][prev := clust], t, prev, clust);
        if err == ERR_NONE {
          MildTrans(geo, v, v1, view);
        }
      }
      if old(Tame()) && t[clust] == 0 {
        StagedTame(geo, old(trace), trace, t, prev, clust);
      }
    }

    /** `stretch_chain`: take a free cluster, make it an end of chain, link it from `prev` unless that is 0, and write
        everything back. While this goes on, no table that reaches the device has a link to a free entry. */
    method StretchChain(prev: nat) returns (err: int, clust: nat)
      requires Valid() && prev < geo.clustCnt
      modifies this, dev, buf
      ensures Valid() && |dev.sectors| == |old(dev.sectors)|
      ensures Reported(err)
      ensures 2 <= clust < geo.clustCnt && dev.faults >= old(dev.faults)
      ensures dev.faults == old(dev.faults) ==>
                match Choose(old(Fats()), prev, old(lastUsed))
                case Found(c) =>
                  && err == ERR_NONE && clust == c && lastUsed == c && freeCnt == Decremented(old(freeCnt))
                  && Fats() == Linked(old(Fats()), prev, c) && Mild(geo, old(view), view) && Synced()
                case Full => err == ERR_FULL && Untouched()
                case Corrupt => (err == ERR_BROKEN || 0 <= err) && Untouched()
      ensures err == ERR_FULL ==> sect == old(sect) || sect < geo.dataSect
      ensures err == ERR_FULL ==> dev.faults == old(dev.faults) && Choose(old(Fats()), prev, old(lastUsed)).Full?
      ensures err == ERR_FULL ==> Full(prev) && old(Full(prev)) && Untouched()
      ensures prev != 0 && err == ERR_NONE ==> !old(Full(prev))
      ensures prev != 0 && err == ERR_NONE ==>
                && dev.faults == old(dev.faults) && Choose(old(Fats()), prev, old(lastUsed)).Found?
                && old(Fats())[clust] == 0
      ensures err == ERR_NONE && dev.faults > old(dev.faults) ==> Untouched()
      ensures old(trace) <= trace && (old(Journal()) ==> Journal())
      ensures old(Tame()) ==> Tame()
      ensures old(Journal()) && NoDangling(old(Fats())) ==>
                forall i :: |old(dev.images)| <= i < |dev.images| ==>
                  geo.Wf(|dev.images[i]|) && NoDangling(Table(geo, dev.images[i]))
    {
      err, clust := StretchStages(prev);
      if old(Journal()) && NoDangling(old(Fats())) {
        NeverDangles(geo, old(trace), trace, old(Fats()), prev, clust);
      }
    }

    /** `stretch_chain`, with the stages its tables go through. */
    method StretchStages(prev: nat) returns (err: int, clust: nat)
      requires Valid() && prev < geo.clustCnt
      modifies this, dev, buf
      ensures Valid() && |dev.sectors| == |old(dev.sectors)|
      ensures Reported(err)
      ensures 2 <= clust < geo.clustCnt && dev.faults >= old(dev.faults)
      ensures dev.faults == old(dev.faults) ==>
                match Choose(old(Fats()), prev, old(lastUsed))
                case Found(c) =>
                  && err == ERR_NONE && clust == c && lastUsed == c && freeCnt == Decremented(old(freeCnt))
                  && Fats() == Linked(old(Fats()), prev, c) && Mild(geo, old(view), view) && Synced()
                case Full => err == ERR_FULL && Untouched()
                case Corrupt => (err == ERR_BROKEN || 0 <= err) && Untouched()
      ensures err == ERR_FULL ==> sect == old(sect) || sect < geo.dataSect
      ensures err == ERR_FULL ==> dev.faults == old(dev.faults) && Choose(old(Fats()), prev, old(lastUsed)).Full?
      ensures err == ERR_FULL ==> Full(prev) && old(Full(prev)) && Untouched()
      ensures prev != 0 && err == ERR_NONE ==> !old(Full(prev))
      ensures prev != 0 && err == ERR_NONE ==>
                && dev.faults == old(dev.faults) && Choose(old(Fats()), prev, old(lastUsed)).Found?
                && old(Fats())[clust] == 0
      ensures err == ERR_NONE && dev.faults > old(dev.faults) ==> Untouched()
      ensures old(trace) <= trace && (old(Journal()) ==> Journal())
      ensures old(Tame()) ==> Tame()
      ensures if old(Fats())[clust] == 0 then Staged(geo, trace, |old(trace)|, old(Fats()), prev, clust)
              else NewIn(trace, |old(trace)|, {})
    {
      hide Table, Mild, Journal, Scan, Choose, Staged, NewIn, Linked, LinkStage, Geometry.Wf;
      infoDirty := true;
      var found;
      found, err, clust := FindCluster(prev);
      if !found {
        StagedNothing(geo, trace, |old(trace)|, Fats(), prev, clust);
        return;
      }
      ghost var searched := trace;
      err := TakeCluster(prev, clust);
      StagedJoin(geo, searched, trace, |old(trace)|, old(Fats()), prev, clust);
    }

    /** The second half of `stretch_chain`, once a cluster has been found. */
    method TakeCluster(prev: nat, clust: nat) returns (err: int)
      requires Valid() && infoDirty && prev < geo.clustCnt && 2 <= clust < geo.clustCnt
      modifies this, dev, buf
      ensures Valid() && |dev.sectors| == |old(dev.sectors)|
      ensures err == ERR_NONE || err == ERR_IO
      ensures err == ERR_IO ==> dev.faults > old(dev.faults)
      ensures err == ERR_NONE ==> dev.faults == old(dev.faults) && Synced()
      ensures err == ERR_NONE ==> lastUsed == clust && freeCnt == Decremented(old(freeCnt))
      ensures err == ERR_NONE ==> Fats() == Linked(old(Fats()), prev, clust) && Mild(geo, old(view), view)
      ensures Staged(geo, trace, |old(trace)|, old(Fats()), prev, clust)
      ensures old(trace) <= trace && (old(Journal()) ==> Journal())
      ensures old(Tame()) && old(Fats())[clust] == 0 ==> Tame()
    {
      hide Table, Mild, Journal, TameTrace, NoDangling, LinkStage;
      err := LinkCluster(prev, clust);
      if err != ERR_NONE {
        return;
      }
      lastUsed := clust;
      freeCnt := Decremented(freeCnt);
      ghost var n, v := |trace|, view;
      err := SyncFs();
      StagedInfo(geo, trace, n, v, lastUsed, freeCnt, old(Fats()), prev, clust);
      if err == ERR_NONE {
        MildTrans(geo, old(view), v, view);
      }
    }

    /** `clust_clear`: write zeros to every sector of a cluster. The buffer is cleared before it is given its new
        place, so it must be clean by then. */
    method ClustClear(clust: nat) returns (err: int)
      requires Valid() && 2 <= clust
      modifies this`dirty, this`sect, this`trace, this`view, dev, buf
      ensures Valid() && |dev.sectors| == |old(dev.sectors)| && SameCounters()
      ensures err == ERR_NONE || err == ERR_IO
      ensures err == ERR_NONE ==> dev.faults == old(dev.faults) && !dirty
      ensures err == ERR_NONE ==> geo.ClustToSect(clust) + geo.spc <= |view|
      ensures err == ERR_NONE ==> view == Zeroed(old(view), geo.ClustToSect(clust), geo.spc)
      ensures err == ERR_NONE ==> sect == geo.ClustToSect(clust) + geo.spc - 1
      ensures err == ERR_IO ==> dev.faults > old(dev.faults)
      ensures old(trace) <= trace && (old(Journal()) ==> Journal())
      ensures old(Tame()) ==> Tame()
    {
      err := SyncBuf();
      if err != ERR_NONE {
        return;
      }
      var s := geo.ClustToSect(clust);
      SectToClustInverts(geo, clust, 0);
      forall k | 0 <= k < SECTOR_SIZE {
        buf[k] := 0;
      }
      assert buf[..] == ZeroSector();
      err := ZeroSectors(s, geo.spc);
    }

    /** The loop of `clust_clear`. */
    method ZeroSectors(s: nat, n: nat) returns (err: int)
      requires geo.Wf(|dev.sectors|) && 2 <= lastUsed < geo.clustCnt && 0 < s && 0 < n
      requires buf[..] == ZeroSector() && !dirty && view == dev.sectors
      modifies this`dirty, this`sect, this`trace, this`view, dev
      ensures Valid() && |dev.sectors| == |old(dev.sectors)| && SameCounters()
      ensures err == ERR_NONE || err == ERR_IO
      ensures err == ERR_NONE ==> dev.faults == old(dev.faults) && !dirty && sect == s + n - 1
      ensures err == ERR_NONE ==> s + n <= |view| && view == Zeroed(old(view), s, n)
      ensures err == ERR_IO ==> dev.faults > old(dev.faults)
      ensures old(trace) <= trace && (old(Journal()) ==> Journal())
      ensures old(Tame()) && geo.dataSect <= s ==> Tame()
    {
      err := ERR_NONE;
      for i := 0 to n
        invariant buf[..] == ZeroSector() && !dirty && view == dev.sectors
        invariant geo.Wf(|dev.sectors|) && |dev.sectors| == |old(dev.sectors)| && SameCounters()
        invariant dev.faults == old(dev.faults) && err == ERR_NONE
        invariant i > 0 ==> sect == s + i - 1 && s + i <= |view|
        invariant if i == 0 then view == old(view) else view == Zeroed(old(view), s, i)
        invariant old(trace) <= trace && (old(Journal()) ==> Journal())
        invariant old(Tame()) && geo.dataSect <= s ==> Tame()
      {
        err := ZeroSectorAt(s + i);
        if err != ERR_NONE {
          return;
        }
      }
    }

    /** One round of the loop of `clust_clear`: the zeros in the buffer go to sector `s`. */
    method ZeroSectorAt(s: nat) returns (err: int)
      requires geo.Wf(|dev.sectors|) && 2 <= lastUsed < geo.clustCnt && 0 < s
      requires buf[..] == ZeroSector() && !dirty && view == dev.sectors
      modifies this`dirty, this`sect, this`trace, this`view, dev
      ensures Valid() && |dev.sectors| == |old(dev.sectors)| && SameCounters()
      ensures err == ERR_NONE || err == ERR_IO
      ensures err == ERR_NONE ==> dev.faults == old(dev.faults) && !dirty && sect == s && s < |view|
      ensures err == ERR_NONE ==> view == old(view)[s := ZeroSector()] && dev.sectors == view
      ensures err == ERR_IO ==> dev.faults > old(dev.faults)
      ensures old(trace) <= trace && (old(Journal()) ==> Journal())
      ensures old(Tame()) && geo.dataSect <= s ==> Tame()
    {
      hide Run, Flushed, Current, TameTrace, NoDangling, Table;
      dirty := true;
      sect := s;
      if s < |view| {
        if Tame() && geo.dataSect <= s {
          TouchTame(view[s := ZeroSector()]);
        }
        TouchJournal(view[s := ZeroSector()]);
        view := view[s := ZeroSector()];
        trace := trace + [Logical(view)];
      }
      err := SyncBuf();
    }

    /** The device is up to date, and FSInfo with it. */
    ghost predicate Synced()
      requires geo.Wf(|view|)
      reads this, dev
    {
      && !dirty && !infoDirty && sect == geo.infoSect
      && dev.sectors == view
      && Word(view[geo.infoSect], INFO_NEXT_FREE) == lastUsed
      && Word(view[geo.infoSect], INFO_FREE_CNT) == freeCnt
    }
  }

  /** Every logical disk from step `from` on has a table that is a stage of `stretch_chain`. */
  ghost predicate Staged(g: Geometry, tr: seq<Step>, from: nat, t0: FatTable, prev: nat, c: nat) {
    forall i :: from <= i < |tr| ==>
      !tr[i].Direct? && (tr[i].Logical? ==> g.Wf(|tr[i].img|) && LinkStage(Table(g, tr[i].img), t0, prev, c))
  }

  /** Every logical disk from step `from` on has one of two tables. */
  ghost predicate Either(g: Geometry, tr: seq<Step>, from: nat, t: FatTable, t': FatTable) {
    forall i :: from <= i < |tr| ==>
      !tr[i].Direct? &&
      (tr[i].Logical? ==> g.Wf(|tr[i].img|) && (Table(g, tr[i].img) == t || Table(g, tr[i].img) == t'))
  }

  lemma StagedNothing(g: Geometry, tr: seq<Step>, from: nat, t0: FatTable, prev: nat, c: nat)
    requires NewIn(tr, from, {})
    ensures Staged(g, tr, from, t0, prev, c)
  {
  }

  lemma StagedJoin(g: Geometry, tr: seq<Step>, tr': seq<Step>, from: nat, t0: FatTable, prev: nat, c: nat)
    requires NewIn(tr, from, {}) && tr <= tr' && Staged(g, tr', |tr|, t0, prev, c)
    ensures Staged(g, tr', from, t0, prev, c)
  {
  }

  lemma StagedEither(g: Geometry, tr: seq<Step>, from: nat, t: FatTable, t': FatTable, t0: FatTable, prev: nat, c: nat)
    requires Either(g, tr, from, t, t') && LinkStage(t, t0, prev, c) && LinkStage(t', t0, prev, c)
    ensures Staged(g, tr, from, t0, prev, c)
  {
  }

  /** Whatever `put_fat` makes of the logical disk on the way, its table is the old or the new one. */
  lemma PutFatStages(g: Geometry, img: Image, tr: seq<Step>, from: nat, c: nat, v: nat)
    requires g.Wf(|img|) && c < g.clustCnt && v < TWO_28 && NewIn(tr, from, PutFatSteps(g, img, c, v))
    ensures Either(g, tr, from, Table(g, img), Table(g, img)[c := v])
  {
    assert v % TWO_28 == v;
    PutFatTable(g, img, c, v);
    if g.fat1 != 0 {
      TableFrame(g, img, PutWord(img, g.fat1, c, v));
    }
  }

  lemma StagedInfo(g: Geometry, tr: seq<Step>, from: nat, img: Image, nextFree: uint32, freeCnt: uint32,
                   t0: FatTable, prev: nat, c: nat)
    requires g.Wf(|img|) && NewIn(tr, from, {PutInfo(g, img, nextFree, freeCnt)})
    requires LinkStage(Table(g, img), t0, prev, c)
    ensures Staged(g, tr, from, t0, prev, c)
  {
    PutInfoReads(g, img, nextFree, freeCnt);
  }

  /** Stages without dangling links in the logical disk are stages without dangling links on the device. */
  lemma NeverDangles(g: Geometry, tr0: seq<Step>, tr: seq<Step>, t0: FatTable, prev: nat, c: nat)
    requires tr0 <= tr && g.IsCluster(c) && |t0| == g.clustCnt && prev < g.clustCnt
    requires if t0[c] == 0 then Staged(g, tr, |tr0|, t0, prev, c) else NewIn(tr, |tr0|, {})
    requires g.Wf(|Current(tr0)|) && t0 == Table(g, Current(tr0)) && NoDangling(t0)
    ensures Flushed(tr0) <= Flushed(tr)
    ensures forall i :: |Flushed(tr0)| <= i < |Flushed(tr)| ==>
              g.Wf(|Flushed(tr)[i]|) && NoDangling(Table(g, Flushed(tr)[i]))
  {
    var imgs := set i | |tr0| <= i < |tr| && tr[i].Logical? :: tr[i].img;
    FlushedSince(tr0, tr, imgs);
    forall i | |Flushed(tr0)| <= i < |Flushed(tr)|
      ensures g.Wf(|Flushed(tr)[i]|) && NoDangling(Table(g, Flushed(tr)[i]))
    {
      if t0[c] == 0 {
        StagesNeverDangle(Table(g, Flushed(tr)[i]), t0, prev, c);
      }
    }
  }

  lemma DataKept(g: Geometry, a: Image, b: Image)
    requires g.Wf(|a|) && Mild(g, a, b)
    ensures |b| == |a| && forall s :: g.dataSect <= s < |a| ==> b[s] == a[s]
  {
  }

  lemma MildTrans(g: Geometry, a: Image, b: Image, c: Image)
    requires g.Wf(|a|) && Mild(g, a, b) && Mild(g, b, c)
    ensures Mild(g, a, c)
  {
  }

  /** `put_fat` refines an update of the table, and is mild. */
  lemma PutFatMild(g: Geometry, img: Image, c: nat, v: nat)
    requires g.Wf(|img|) && c < g.clustCnt && v < TWO_28
    ensures Mild(g, img, Layout.PutFat(g, img, c, v))
    ensures Table(g, Layout.PutFat(g, img, c, v)) == Table(g, img)[c := v]
  {
    assert v % TWO_28 == v;
    PutFatTable(g, img, c, v);
    if Mirrored(g, img) {
      PutFatMirrored(g, img, c, v);
    }
  }
}
