/** Directories as the driver walks and edits them: a cursor over the slots of a cluster chain. */
module Directory {
  import opened Bytes
  import opened Layout
  import opened Chains
  import opened Clusters
  import opened Volume
  import opened Names
  import opened LongNames
  import opened Listing

  /** The buffer that long names are parsed into. */
  class NameBuffer {
    const buf: array<byte>
    var len: nat
    var crc: byte

    constructor ()
      ensures buf.Length == SECTOR_SIZE && fresh(buf)
    {
      buf := new byte[SECTOR_SIZE](_ => 0);
      len, crc := 0, 0;
    }

    ghost function Contents(): Name
      requires len <= buf.Length
      reads this, buf
    {
      buf[..len]
    }
  }

  /** The place of an entry's first slot. */
  datatype Loc = Loc(sect: nat, idx: nat)

  class Dir {
    const fat: Fat
    const names: NameBuffer
    var sclust: nat
    var clust: nat
    var sect: nat
    var idx: nat

    // The chain of the directory, and the number of the current sector in it.
    ghost var chain: seq<nat>
    ghost var q: nat

    /** The directory is a chain on the device, found from its first cluster. */
    ghost predicate Open()
      reads this, names, fat, fat.dev, fat.buf
    {
      && fat.Valid() && names.buf.Length == SECTOR_SIZE && names.buf != fat.buf
      && IsDirectory(fat.geo, fat.view, chain) && chain[0] == sclust
    }

    /** The cursor stands on a slot of the directory. */
    ghost predicate Valid()
      reads this, names, fat, fat.dev, fat.buf
    {
      Open() && Stands(fat.geo, chain, q, clust, sect, idx)
    }

    /** The number of the slot the cursor stands on. */
    ghost function Pos(): nat
      reads this
    {
      16 * q + idx / 32
    }

    /** The slots of the directory. */
    ghost function Slots(): seq<Slot>
      requires Open()
      reads this, names, fat, fat.dev, fat.buf
    {
      SlotsOf(fat.geo, fat.view, chain)
    }

    constructor (f: Fat, n: NameBuffer)
      ensures fat == f && names == n
    {
      fat, names := f, n;
      sclust, clust, sect, idx := 0, 0, 0, 0;
    }

    /** `dir_at_clust`. */
    method AtClust(c: nat)
      requires Open() && c == sclust
      modifies this`clust, this`sect, this`idx, this`q
      ensures Valid() && Pos() == 0
    {
      hide IsDirectory, Stands;
      StandsAtStart(fat.geo, fat.view, chain);
      clust := c;
      sect := fat.geo.ClustToSect(c);
      idx := 0;
      q := 0;
    }

    /** `dir_next`. On a chain, in an aligned data region, it visits one slot after the other and ends with EOF after
        the last one. */
    method Next() returns (err: int)
      requires Valid()
      modifies this`clust, this`sect, this`idx, this`q, fat`dirty, fat`sect, fat`trace, fat.dev, fat.buf
      ensures Open() && fat.Idle() && |fat.dev.sectors| == |old(fat.dev.sectors)|
      ensures err == ERR_NONE || err == ERR_EOF || err == ERR_IO
      ensures err == ERR_IO <==> fat.dev.faults > old(fat.dev.faults)
      ensures fat.dev.faults >= old(fat.dev.faults)
      ensures err == ERR_NONE ==> Valid() && Pos() == old(Pos()) + 1
      ensures err == ERR_EOF ==> old(Pos()) + 1 == |Slots()| && clust == chain[|chain| - 1]
      ensures old(fat.Journal()) ==> fat.Journal()
      ensures old(fat.Tame()) ==> fat.Tame()
    {
      hide IsDirectory, Fat.Valid, Fat.Journal, Fat.Tame, SlotsOf, SlotCount, Row, Col;
      StandsInRange(fat.geo, fat.view, chain, q, clust, sect, idx);
      StandsNext(fat.geo, fat.view, chain, q, clust, sect, idx);
      idx := idx + 32;
      if idx < SECTOR_SIZE {
        return ERR_NONE;
      }
      idx := 0;
      sect := sect + 1;
      if sect % fat.geo.spc != 0 {
        q := q + 1;
        return ERR_NONE;
      }
      err := NextCluster();
    }

    /** The end of `dir_next`: go on with the next cluster, if there is one. */
    method NextCluster() returns (err: int)
      requires Open() && Row(fat.geo, q) < |chain| && Col(fat.geo, q) + 1 == fat.geo.spc
      requires clust == chain[Row(fat.geo, q)] && 2 <= clust < fat.geo.clustCnt && idx == 0
      modifies this`clust, this`sect, this`idx, this`q, fat`dirty, fat`sect, fat`trace, fat.dev, fat.buf
      ensures Open() && fat.Idle() && |fat.dev.sectors| == |old(fat.dev.sectors)|
      ensures err == ERR_NONE || err == ERR_EOF || err == ERR_IO
      ensures err == ERR_IO <==> fat.dev.faults > old(fat.dev.faults)
      ensures fat.dev.faults >= old(fat.dev.faults)
      ensures err == ERR_NONE ==> Valid() && q == old(q) + 1 && idx == 0
      ensures err == ERR_EOF ==> clust == chain[|chain| - 1] && 16 * (old(q) + 1) == |Slots()|
      ensures old(fat.Journal()) ==> fat.Journal()
      ensures old(fat.Tame()) ==> fat.Tame()
    {
      hide IsDirectory, Fat.Valid, Fat.Journal, Fat.Tame, SlotsOf, SlotCount, Row, Col, Stands;
      StandsLink(fat.geo, fat.view, chain, q, clust);
      var next;
      err, next := NextLink();
      if err != ERR_NONE {
        return;
      }
      clust := next;
      sect := fat.geo.ClustToSect(next);
      idx := 0;
      q := q + 1;
    }

    /** The link of the cursor's cluster, in any table: a cluster number is followed, an end mark is the end of the
        directory, and everything else is broken. */
    method NextLink() returns (err: int, next: nat)
      requires fat.Valid() && clust < fat.geo.clustCnt
      modifies fat`dirty, fat`sect, fat`trace, fat.dev, fat.buf
      ensures fat.Valid() && fat.Idle() && |fat.dev.sectors| == |old(fat.dev.sectors)|
      ensures err == ERR_IO <==> fat.dev.faults > old(fat.dev.faults)
      ensures fat.dev.faults >= old(fat.dev.faults)
      ensures err != ERR_IO ==>
                var v := fat.Fats()[clust];
                && (err == ERR_NONE <==> 2 <= v < fat.geo.clustCnt) && (err == ERR_NONE ==> next == v)
                && (err == ERR_EOF <==> 0x0fff_fff8 <= v)
                && (err == ERR_BROKEN <==> v < 2 || fat.geo.clustCnt <= v < 0x0fff_fff8)
      ensures old(fat.Journal()) ==> fat.Journal()
      ensures old(fat.Tame()) ==> fat.Tame()
    {
      hide Fat.Valid, Fat.Journal, Fat.Tame;
      fat.Facts();
      var kind;
      err, next, kind := fat.GetFat(clust);
      if err != ERR_NONE {
        return;
      }
      if kind == Bad || kind == Free {
        return ERR_BROKEN, next;
      }
      if kind == Last {
        return ERR_EOF, next;
      }
    }

    /** `dir_enter`: the root stands in for cluster 0. */
    method Enter(c: nat, ghost ch: seq<nat>)
      requires fat.Valid() && names.buf.Length == SECTOR_SIZE && names.buf != fat.buf
      requires IsDirectory(fat.geo, fat.view, ch) && ch[0] == (if c == 0 then fat.geo.rootClust else c)
      modifies this
      ensures Valid() && Pos() == 0 && chain == ch
    {
      hide IsDirectory, Stands;
      sclust := if c == 0 then fat.geo.rootClust else c;
      chain := ch;
      AtClust(sclust);
    }

    /** `dir_enter` for a cluster that may not be a directory after all. */
    method Reset(c: nat, ghost ch: seq<nat>)
      requires 2 <= c
      modifies this
      ensures sclust == clust == c && sect == fat.geo.ClustToSect(c) && idx == 0 && chain == ch && q == 0
    {
      sclust, clust, sect, idx := c, c, fat.geo.ClustToSect(c), 0;
      chain, q := ch, 0;
    }

    // ---------- reading slots ----------

    /** The buffer holds the sector the cursor stands in. */
    ghost predicate Loaded()
      reads this, names, fat, fat.dev, fat.buf
    {
      Valid() && fat.sect == sect && Pos() < |Slots()| && fat.buf[idx..idx + 32] == Slots()[Pos()]
    }

    method Load() returns (err: int)
      requires Valid()
      modifies fat`dirty, fat`sect, fat`trace, fat.dev, fat.buf
      ensures Valid() && fat.Idle() && |fat.dev.sectors| == |old(fat.dev.sectors)|
      ensures err == ERR_NONE || err == ERR_IO
      ensures err == ERR_NONE ==> fat.dev.faults == old(fat.dev.faults) && Loaded()
      ensures err == ERR_IO ==> fat.dev.faults > old(fat.dev.faults)
      ensures old(fat.Journal()) ==> fat.Journal()
      ensures old(fat.Tame()) ==> fat.Tame()
    {
      hide IsDirectory, Stands, Fat.Valid, Fat.Journal, Fat.Tame, SlotsOf, SlotCount;
      StandsInRange(fat.geo, fat.view, chain, q, clust, sect, idx);
      err := fat.UpdateBuf(sect);
      IdxBounds(fat.geo, chain, q, clust, sect, idx);
    }

    static lemma IdxBounds(g: Geometry, chain: seq<nat>, q: nat, clust: nat, sect: nat, idx: nat)
      requires Stands(g, chain, q, clust, sect, idx)
      ensures idx + 32 <= SECTOR_SIZE && idx == 32 * (idx / 32) && idx / 32 < 16
    {
    }

    /** `dir_ptr`. */
    method Ptr() returns (s: Slot)
      requires Loaded()
      ensures s == Slots()[Pos()]
    {
      hide IsDirectory, SlotsOf, SlotCount, Row, Col;
      s := fat.buf[idx..idx + 32];
    }

    // ---------- long names ----------

    /** Of the long-name group at `p`, fragments `cnt` and up have been read, and the cursor is at the next one. */
    ghost predicate Reading(p: nat, cnt: nat)
      reads this, names, names.buf, fat, fat.dev, fat.buf
    {
      && Loaded() && GroupOk(Slots(), p)
      && var n := GroupLen(Slots()[p]);
         && cnt <= n && Pos() == p + (n - cnt)
         && names.crc == Slots()[p][CRC_AT]
         && Filled(names.buf[..], names.len, GroupName(Slots(), p, n), cnt)
    }

    /** `parse_lfn_name`. On a well-formed group it delivers the name and stops at the 8.3 slot. */
    method ParseLfnName() returns (err: int)
      requires Valid()
      modifies this`clust, this`sect, this`idx, this`q, fat`dirty, fat`sect, fat`trace, fat.dev, fat.buf
      modifies names, names.buf
      ensures Open() && fat.Idle() && |fat.dev.sectors| == |old(fat.dev.sectors)|
      ensures err == ERR_IO <==> fat.dev.faults > old(fat.dev.faults)
      ensures fat.dev.faults >= old(fat.dev.faults)
      ensures err == ERR_NONE ==> Loaded() && Pos() >= old(Pos()) && names.len <= MAX_NAME
      ensures fat.dev.faults == old(fat.dev.faults) && GroupOk(Slots(), old(Pos())) ==>
                && err == ERR_NONE && Pos() == old(Pos()) + GroupLen(Slots()[old(Pos())])
                && names.Contents() == GroupName(Slots(), old(Pos()), GroupLen(Slots()[old(Pos())]))
                && names.crc == Slots()[old(Pos())][CRC_AT]
      ensures fat.dev.faults == old(fat.dev.faults) && old(Pos()) < |Slots()| ==>
                && (err == ERR_NONE || err == ERR_EOF || err == ERR_BROKEN)
                && (err == ERR_NONE <==> GroupParses(Slots(), old(Pos())))
                && (err == ERR_EOF <==> GroupBreaksOff(Slots(), old(Pos())))
                && (err == ERR_NONE ==>
                      && Pos() == old(Pos()) + Slots()[old(Pos())][0] % 32
                      && names.crc == Slots()[old(Pos())][13])
      ensures old(fat.Journal()) ==> fat.Journal()
      ensures old(fat.Tame()) ==> fat.Tame()
    {
      hide IsDirectory, Stands, Fat.Valid, Fat.Journal, Fat.Tame, SlotsOf, SlotCount, GroupName, FragEnd, Frag, FragOk,
           Filled, Checksum, Joins, FragTotal, IsHead, GroupLen;
      ghost var p := Pos();
      err := Load();
      if err != ERR_NONE {
        return;
      }
      var lfn := Ptr();
      HeadNumbers(lfn);
      names.crc := lfn[CRC_AT];
      names.len := 0;
      if !IsHead(lfn) {
        return ERR_BROKEN;
      }
      var cnt := GroupLen(lfn);
      if cnt > 20 {
        return ERR_BROKEN;
      }
      if GroupOk(Slots(), p) {
        StartFilled(Slots(), p, names.buf[..]);
      }
      err := ReadFragments(cnt);
      if err != ERR_NONE {
        return;
      }
      if GroupOk(Slots(), p) {
        FilledAll(names.buf[..], names.len, GroupName(Slots(), p, cnt));
      }
      if names.len > MAX_NAME {
        return ERR_BROKEN;
      }
    }

    /** The loop of `parse_lfn_name`. */
    method ReadFragments(count: nat) returns (err: int)
      requires Loaded() && count <= 20
      modifies this`clust, this`sect, this`idx, this`q, fat`dirty, fat`sect, fat`trace, fat.dev, fat.buf
      modifies names`len, names.buf
      ensures Open() && fat.Idle() && |fat.dev.sectors| == |old(fat.dev.sectors)|
      ensures err == ERR_IO <==> fat.dev.faults > old(fat.dev.faults)
      ensures fat.dev.faults >= old(fat.dev.faults)
      ensures err == ERR_NONE ==> Loaded() && Pos() >= old(Pos())
      ensures fat.dev.faults == old(fat.dev.faults) && old(Reading(Pos(), count)) ==>
                err == ERR_NONE && Reading(old(Pos()), 0)
      ensures fat.dev.faults == old(fat.dev.faults) ==>
                && (err == ERR_NONE || err == ERR_EOF || err == ERR_BROKEN)
                && (err == ERR_NONE ==>
                      && Pos() == old(Pos()) + count && JoinsTo(Slots(), old(Pos()), Pos(), names.crc)
                      && names.len == old(names.len) + FragTotal(Slots(), old(Pos()), Pos()))
                && (err == ERR_EOF ==>
                      |Slots()| <= old(Pos()) + count && JoinsTo(Slots(), old(Pos()), |Slots()|, names.crc))
                && (err == ERR_BROKEN ==>
                      exists i :: old(Pos()) <= i < old(Pos()) + count && i < |Slots()|
                                  && !Joins(Slots()[i], names.crc))
      ensures old(fat.Journal()) ==> fat.Journal()
      ensures old(fat.Tame()) ==> fat.Tame()
    {
      hide IsDirectory, Stands, Fat.Valid, Fat.Journal, Fat.Tame, SlotsOf, SlotCount, Reading, GroupOk, Joins;
      ghost var p, slots, len := Pos(), Slots(), names.len;
      ghost var ok := Reading(p, count);
      var cnt := count;
      err := ERR_NONE;
      while cnt > 0
        invariant 0 <= cnt <= count && Loaded() && fat.Idle() && |fat.dev.sectors| == |old(fat.dev.sectors)|
        invariant err == ERR_NONE && fat.dev.faults == old(fat.dev.faults) && Pos() >= p
        invariant ok ==> Reading(p, cnt)
        invariant Slots() == slots && names.crc == old(names.crc) && Pos() == p + (count - cnt)
        invariant JoinsTo(slots, p, Pos(), names.crc) && names.len == len + FragTotal(slots, p, Pos())
        invariant old(fat.Journal()) ==> fat.Journal()
        invariant old(fat.Tame()) ==> fat.Tame()
      {
        cnt := cnt - 1;
        err := ReadOne(p, cnt);
        if err != ERR_NONE {
          return;
        }
      }
    }

    /** One round of the loop of `parse_lfn_name`, for the group at `p`. */
    method ReadOne(ghost p: nat, cnt: nat) returns (err: int)
      requires Loaded() && cnt < 20
      modifies this`clust, this`sect, this`idx, this`q, fat`dirty, fat`sect, fat`trace, fat.dev, fat.buf
      modifies names`len, names.buf
      ensures Open() && fat.Idle() && |fat.dev.sectors| == |old(fat.dev.sectors)|
      ensures err == ERR_IO <==> fat.dev.faults > old(fat.dev.faults)
      ensures fat.dev.faults >= old(fat.dev.faults)
      ensures err == ERR_NONE ==> Loaded() && Pos() == old(Pos()) + 1
      ensures fat.dev.faults == old(fat.dev.faults) && old(Reading(p, cnt + 1)) ==>
                err == ERR_NONE && Reading(p, cnt)
      ensures fat.dev.faults == old(fat.dev.faults) ==>
                && (err == ERR_NONE || err == ERR_EOF || err == ERR_BROKEN)
                && (err == ERR_BROKEN <==> !Joins(Slots()[old(Pos())], names.crc))
                && (err == ERR_NONE ==> names.len == old(names.len) + FragEnd(Slots()[old(Pos())], 0))
                && (err == ERR_EOF ==> old(Pos()) + 1 == |Slots()|)
      ensures old(fat.Journal()) ==> fat.Journal()
      ensures old(fat.Tame()) ==> fat.Tame()
    {
      hide IsDirectory, Stands, Fat.Valid, Fat.Journal, Fat.Tame, SlotsOf, SlotCount, GroupName, FragEnd, Frag, FragOk,
           Filled;
      var lfn := Ptr();
      if !IsLfn(lfn) || lfn[CRC_AT] != names.crc {
        return ERR_BROKEN;
      }
      var ok;
      ghost var before, len := names.buf[..], names.len;
      ok, names.len := ReadFragment(lfn, names.buf, cnt, names.len);
      if !ok {
        return ERR_BROKEN;
      }
      if old(Reading(p, cnt + 1)) {
        var n := GroupLen(Slots()[p]);
        FilledStep(Slots(), p, n, n - 1 - cnt, before, len, names.buf[..], names.len);
      }
      err := Next();
      if err != ERR_NONE {
        return;
      }
      err := Load();
    }

    // ---------- searching ----------

    /** The part of `dir_search` that looks at one live slot: whether the item there matches. The cursor ends on the
        item's 8.3 slot. */
    method Examine(name: Name, sfnName: Name) returns (err: int, hit: bool)
      requires Loaded() && !IsFree(Slots()[Pos()]) && sfnName == SfnName(name)
      modifies this`clust, this`sect, this`idx, this`q, fat`dirty, fat`sect, fat`trace, fat.dev, fat.buf
      modifies names, names.buf
      ensures Open() && fat.Idle() && |fat.dev.sectors| == |old(fat.dev.sectors)|
      ensures err == ERR_IO <==> fat.dev.faults > old(fat.dev.faults)
      ensures fat.dev.faults >= old(fat.dev.faults)
      ensures err == ERR_NONE ==> Loaded() && Pos() >= old(Pos())
      ensures fat.dev.faults == old(fat.dev.faults) && Parses(Slots(), old(Pos())) ==>
                var item := ItemAt(Slots(), old(Pos()));
                err == ERR_NONE && Pos() == item.at && hit == item.Matches(name)
      ensures fat.dev.faults == old(fat.dev.faults) ==> Examined(Slots(), old(Pos()), name, err, Pos(), hit)
      ensures old(fat.Journal()) ==> fat.Journal()
      ensures old(fat.Tame()) ==> fat.Tame()
    {
      hide IsDirectory, Stands, Fat.Valid, Fat.Journal, Fat.Tame, SlotsOf, SlotCount, GroupName, FragEnd, Frag, FragOk,
           SfnName, Checksum, GroupParses, GroupBreaksOff;
      err, hit := ERR_NONE, false;
      var sfn := Ptr();
      if IsLfn(sfn) {
        err := ParseLfnName();
        if err != ERR_NONE {
          return;
        }
        sfn := Ptr();
        var crc := GetCrc(sfn[..11]);
        if IsFree(sfn) || IsLfn(sfn) || names.crc != crc {
          return ERR_BROKEN, false;
        }
        hit := names.len == |name| && names.buf[..names.len] == name;
      } else {
        hit := sfnName == sfn[..11];
      }
    }

    /** `dir_search`. On a well-formed directory it stops at the first item that matches the name, and reports EOF
        if there is none. */
    method Search(name: Name) returns (err: int, loc: Loc)
      requires Open()
      modifies this`clust, this`sect, this`idx, this`q, fat`dirty, fat`sect, fat`trace, fat.dev, fat.buf
      modifies names, names.buf
      ensures Open() && fat.Idle() && |fat.dev.sectors| == |old(fat.dev.sectors)|
      ensures err == ERR_IO <==> fat.dev.faults > old(fat.dev.faults)
      ensures fat.dev.faults >= old(fat.dev.faults)
      ensures err == ERR_NONE ==> Loaded()
      ensures fat.dev.faults == old(fat.dev.faults) && WellFormed(Slots(), 0) ==>
                Found(name, err, loc)
      ensures fat.dev.faults == old(fat.dev.faults) ==> Concluded(Slots(), name, err, loc)
      ensures old(fat.Journal()) ==> fat.Journal()
      ensures old(fat.Tame()) ==> fat.Tame()
    {
      hide IsDirectory, Stands, Fat.Valid, Fat.Journal, Fat.Tame, SlotsOf, SlotCount, WellFormed, Items, Reaches,
           Before, Parses, Find, IsPlace, Examined;
      var sfn := new byte[11];
      PutSfnName(sfn, name);
      var sfnName := sfn[..];
      err, loc := ERR_NONE, Loc(0, 0);
      AtClust(sclust);
      ghost var slots := Slots();
      ghost var wf := WellFormed(slots, 0);
      if wf {
        StartSearch(slots, name);
      }
      var done := false;
      while !done
        invariant Open() && Slots() == slots && fat.Idle() && |fat.dev.sectors| == |old(fat.dev.sectors)|
        invariant err == ERR_IO <==> fat.dev.faults > old(fat.dev.faults)
        invariant fat.dev.faults >= old(fat.dev.faults)
        invariant !done ==>
                    && Valid() && Pos() <= |slots| && fat.dev.faults == old(fat.dev.faults)
                    && (wf ==> Searched(slots, Pos(), name))
        invariant done && err == ERR_NONE ==> Loaded()
        invariant done && fat.dev.faults == old(fat.dev.faults) ==> Concluded(slots, name, err, loc)
        invariant done && wf && fat.dev.faults == old(fat.dev.faults) ==> Found(name, err, loc)
        invariant old(fat.Journal()) ==> fat.Journal()
        invariant old(fat.Tame()) ==> fat.Tame()
        decreases !done, if done then 0 else |slots| - Pos()
      {
        err, loc, done := SearchStep(name, sfnName, loc);
        if !done {
          StandsInRange(fat.geo, fat.view, chain, q, clust, sect, idx);
        }
      }
    }

    /** How a search ends, whatever the directory is like: on an item with the name, at the end, or at a long-name group
        that cannot be read. */
    ghost predicate Concluded(slots: seq<Slot>, name: Name, err: int, loc: Loc)
      requires Open()
      reads this, names, fat, fat.dev, fat.buf
    {
      && (err == ERR_NONE || err == ERR_EOF || err == ERR_BROKEN)
      && (err == ERR_NONE ==>
            exists p :: 0 <= p < |slots| && IsPlace(fat.geo, chain, p, loc.sect, loc.idx)
                        && Examined(slots, p, name, ERR_NONE, Pos(), true))
      && (err == ERR_BROKEN ==>
            exists p :: 0 <= p < |slots| && Examined(slots, p, name, ERR_BROKEN, Pos(), false))
    }

    /** What a search has found. */
    ghost predicate Found(name: Name, err: int, loc: Loc)
      requires Open() && WellFormed(Slots(), 0)
      reads this, names, fat, fat.dev, fat.buf
    {
      match Find(Items(Slots(), 0), name)
      case Missing => err == ERR_EOF
      case Hit(item) => err == ERR_NONE && Pos() == item.at && IsPlace(fat.geo, chain, item.start, loc.sect, loc.idx)
    }

    /** One round of the loop of `dir_search`. */
    method SearchStep(name: Name, sfnName: Name, place: Loc) returns (err: int, loc: Loc, done: bool)
      requires Valid() && sfnName == SfnName(name)
      modifies this`clust, this`sect, this`idx, this`q, fat`dirty, fat`sect, fat`trace, fat.dev, fat.buf
      modifies names, names.buf
      ensures Open() && fat.Idle() && |fat.dev.sectors| == |old(fat.dev.sectors)|
      ensures err == ERR_IO <==> fat.dev.faults > old(fat.dev.faults)
      ensures fat.dev.faults >= old(fat.dev.faults)
      ensures !done ==> Valid() && err == ERR_NONE && Pos() > old(Pos())
      ensures done && err == ERR_NONE ==> Loaded()
      ensures fat.dev.faults == old(fat.dev.faults) && Searched(Slots(), old(Pos()), name) ==>
                && WellFormed(Slots(), 0)
                && if done then Found(name, err, loc) else Searched(Slots(), Pos(), name)
      ensures done && fat.dev.faults == old(fat.dev.faults) ==> Concluded(Slots(), name, err, loc)
      ensures old(fat.Journal()) ==> fat.Journal()
      ensures old(fat.Tame()) ==> fat.Tame()
    {
      hide IsDirectory, Stands, Fat.Valid, Fat.Journal, Fat.Tame, SlotsOf, SlotCount, IsPlace, Searched, WellFormed,
           Items, Find, Parses, ItemAt, CanStep, Examined;
      loc, done := place, true;
      ghost var p, slots := Pos(), Slots();
      ghost var on := Searched(slots, p, name);
      err := Load();
      if err != ERR_NONE {
        return;
      }
      var sfn := Ptr();
      if on {
        SearchedStep(slots, p, name);
      }
      if IsLast(sfn) {
        return ERR_EOF, loc, true;
      }
      if !IsFree(sfn) {
        loc := Loc(sect, idx);
        StandsAtPlace(fat.geo, chain, q, clust, sect, idx);
        var hit;
        err, hit := Examine(name, sfnName);
        if fat.dev.faults == old(fat.dev.faults) {
          ExaminedEnds(slots, p, name, err, Pos(), hit);
        }
        if err != ERR_NONE || hit {
          return err, loc, true;
        }
      }
      err := Next();
      done := err != ERR_NONE;
    }

    // ---------- editing slots ----------

    /** An edit of the slot under the cursor has stored `s` there; nothing else has changed on the logical disk. */
    twostate predicate Stored(s: Slot)
      requires old(Loaded()) && Loaded()
      reads this, names, fat, fat.dev, fat.buf
    {
      && Slots() == old(Slots())[old(Pos()) := s]
      && SameTables(fat.geo, old(fat.view), fat.view)
      && SameOthers(fat.geo, old(fat.view), fat.view, chain)
      && fat.SameCounters()
    }

    /** The end of an edit: the buffer has been changed in the slot under the cursor, to `s`. */
    method Edited(ghost was: Sector, ghost s: Slot)
      requires fat.buf.Length == SECTOR_SIZE && names.buf.Length == SECTOR_SIZE && names.buf != fat.buf
      requires fat.geo.Wf(|fat.dev.sectors|) && 2 <= fat.lastUsed < fat.geo.clustCnt
      requires fat.sect == sect && 0 < sect < |fat.dev.sectors| == |fat.view|
      requires fat.view == fat.dev.sectors[sect := was] && chain != [] && chain[0] == sclust
      requires IsDirectory(fat.geo, fat.view, chain) && Stands(fat.geo, chain, q, clust, sect, idx)
      requires fat.buf[..] == WithSlot(was, idx / 32, s)
      modifies fat`dirty, fat`view, fat`trace
      ensures Loaded() && fat.SameCounters()
      ensures Slots() == SlotsOf(fat.geo, old(fat.view), chain)[Pos() := s]
      ensures SameTables(fat.geo, old(fat.view), fat.view) && SameOthers(fat.geo, old(fat.view), fat.view, chain)
      ensures old(fat.Journal()) ==> fat.Journal()
      ensures old(fat.Tame()) ==> fat.Tame()
    {
      hide Fat.Valid, Fat.Journal, Fat.Tame, WithSlot, SlotsOf, SlotCount, SameTables, SameOthers, IsDirectory, SlotAt;
      StoreHere(fat.geo, fat.view, chain, q, clust, sect, idx, s);
      WithSlotReads(was, idx / 32, s, idx / 32);
      IdxBounds(fat.geo, chain, q, clust, sect, idx);
      StandsInRange(fat.geo, fat.view, chain, q, clust, sect, idx);
      fat.Touch();
      AtSlot(fat.buf[..], idx, s);
    }

    static lemma AtSlot(sector: Sector, idx: nat, s: Slot)
      requires idx < SECTOR_SIZE && idx % 32 == 0 && SlotAt(sector, idx / 32) == s
      ensures idx + 32 <= SECTOR_SIZE && sector[idx..idx + 32] == s
    {
    }

    /** Change the first byte of the slot under the cursor: marks it free, or the end of the directory. */
    method SetFirst(b: byte)
      requires Loaded()
      modifies fat`dirty, fat`view, fat`trace, fat.buf
      ensures Loaded() && Stored(old(Slots()[Pos()])[0 := b])
      ensures old(fat.Journal()) ==> fat.Journal()
      ensures old(fat.Tame()) ==> fat.Tame()
    {
      hide IsDirectory, Fat.Journal, Fat.Tame, WithSlot, SlotsOf, SlotCount, SameTables, SameOthers, SlotAt, Row,
           SectAt;
      ghost var was := fat.buf[..];
      StandsInRange(fat.geo, fat.view, chain, q, clust, sect, idx);
      IdxBounds(fat.geo, chain, q, clust, sect, idx);
      WithSlotByte(was, idx / 32, 0, b);
      fat.buf[idx] := b;
      assert fat.buf[..] == was[idx := b];
      Edited(was, SlotAt(was, idx / 32)[0 := b]);
    }

    // ---------- growing ----------

    /** `dir_next_stretch`: go to the next slot, in a new cleared cluster if the directory ends. */
    method NextStretch() returns (err: int)
      requires Valid()
      modifies this`clust, this`sect, this`idx, this`q, this`chain, fat, fat.dev, fat.buf
      ensures fat.Valid() && |fat.dev.sectors| == |old(fat.dev.sectors)|
      ensures fat.dev.faults >= old(fat.dev.faults)
      ensures err == ERR_NONE || err == ERR_FULL ==>
                fat.dev.faults == old(fat.dev.faults) && Open() && sclust == old(sclust)
      ensures err == ERR_NONE || err == ERR_FULL ==>
                Extends(fat.geo, old(fat.view), old(fat.freeCnt), old(chain), fat.view, fat.freeCnt, chain)
      ensures err == ERR_NONE ==> Valid() && Pos() == old(Pos()) + 1
      ensures err == ERR_FULL ==>
                && fat.Full(chain[|chain| - 1]) && Slots() == old(Slots()) && old(Pos()) + 1 == |Slots()|
      ensures fat.dev.faults == old(fat.dev.faults) && NoneBroken(old(fat.Fats())) ==>
                err == ERR_NONE || err == ERR_FULL
      ensures old(fat.Journal()) ==> fat.Journal()
      ensures old(fat.Tame()) ==> fat.Tame()
    {
      hide IsDirectory, Stands, Fat.Valid, Fat.Journal, Fat.Tame, Fat.Full, Unmissed, FirstRoom, HasRoom, SlotsOf,
           SlotCount, Extends, Row, Col;
      ExtendsRefl(fat.geo, fat.view, fat.freeCnt, chain);
      err := Next();
      if err != ERR_EOF {
        return;
      }
      err := Stretch();
    }

    /** The second half of `dir_next_stretch`. */
    method Stretch() returns (err: int)
      requires Open() && clust == chain[|chain| - 1]
      modifies this`clust, this`sect, this`idx, this`q, this`chain, fat, fat.dev, fat.buf
      ensures fat.Valid() && |fat.dev.sectors| == |old(fat.dev.sectors)|
      ensures fat.dev.faults >= old(fat.dev.faults)
      ensures err == ERR_NONE || err == ERR_FULL ==>
                fat.dev.faults == old(fat.dev.faults) && Open() && sclust == old(sclust)
      ensures err == ERR_NONE || err == ERR_FULL ==>
                Extends(fat.geo, old(fat.view), old(fat.freeCnt), old(chain), fat.view, fat.freeCnt, chain)
      ensures err == ERR_NONE ==> Valid() && Pos() == |old(Slots())|
      ensures err == ERR_FULL ==> fat.Full(chain[|chain| - 1]) && Slots() == old(Slots())
      ensures fat.dev.faults == old(fat.dev.faults) && NoneBroken(old(fat.Fats())) ==>
                err == ERR_NONE || err == ERR_FULL
      ensures old(fat.Journal()) ==> fat.Journal()
      ensures old(fat.Tame()) ==> fat.Tame()
    {
      hide IsDirectory, Stands, Fat.Valid, Fat.Journal, Fat.Tame, Fat.Full, Unmissed, FirstRoom, HasRoom, SlotsOf,
           SlotCount, Extends, Row, Col, Span, Mild, Table, Scan, NoneBroken;
      fat.Facts();
      LastInUse(fat.geo, fat.view, chain);
      ExtendsRefl(fat.geo, fat.view, fat.freeCnt, chain);
      if NoneBroken(fat.Fats()) {
        ChooseSpec(fat.Fats(), clust, fat.lastUsed);
      }
      var next;
      err, next := fat.StretchChain(clust);
      if err != ERR_NONE {
        return;
      }
      err := EnterNew(next, old(fat.view), old(fat.freeCnt));
    }

    /** The end of `dir_next_stretch`: move to the new cluster and clear it. */
    method EnterNew(next: nat, ghost v0: Image, ghost f0: uint32) returns (err: int)
      requires fat.Valid() && names.buf.Length == SECTOR_SIZE && names.buf != fat.buf && chain != []
      requires chain[0] == sclust
      requires IsDirectory(fat.geo, v0, chain) && fat.geo.IsCluster(next) && Mild(fat.geo, v0, fat.view)
      requires clust == chain[|chain| - 1] && clust < fat.geo.clustCnt
      requires Table(fat.geo, v0)[next] == 0 && Table(fat.geo, v0)[clust] != 0
      requires fat.Fats() == Linked(Table(fat.geo, v0), clust, next) && fat.freeCnt == Decremented(f0)
      modifies this`clust, this`sect, this`idx, this`q, this`chain
      modifies fat`dirty, fat`sect, fat`trace, fat`view, fat.dev, fat.buf
      ensures fat.Valid() && |fat.dev.sectors| == |old(fat.dev.sectors)|
      ensures fat.dev.faults >= old(fat.dev.faults)
      ensures err == ERR_NONE || err == ERR_IO
      ensures err == ERR_IO ==> fat.dev.faults > old(fat.dev.faults)
      ensures err == ERR_NONE ==> fat.dev.faults == old(fat.dev.faults) && Valid() && sclust == old(sclust)
      ensures err == ERR_NONE ==> Extends(fat.geo, v0, f0, old(chain), fat.view, fat.freeCnt, chain)
      ensures err == ERR_NONE ==> Pos() == |SlotsOf(fat.geo, v0, old(chain))|
      ensures old(fat.Journal()) ==> fat.Journal()
      ensures old(fat.Tame()) ==> fat.Tame()
    {
      hide IsDirectory, Stands, Fat.Valid, Fat.Journal, Fat.Tame, SlotsOf, SlotCount, Extends, Row, Col, Span, Mild,
           Table, Geometry.ClustToSect, Linked, Geometry.Wf;
      ghost var v1, ch := fat.view, chain;
      fat.Facts();
      LastInUse(fat.geo, v0, ch);
      DataKept(fat.geo, v0, v1);
      clust := next;
      sect := fat.geo.ClustToSect(next);
      idx := 0;
      err := fat.ClustClear(clust);
      if err == ERR_NONE {
        chain := ch + [next];
        q := Span(fat.geo, |ch|);
        GrowExtends(fat.geo, v0, f0, v1, fat.view, ch, next);
        ExtendsFacts(fat.geo, v0, f0, ch, fat.view, fat.freeCnt, chain);
        assert Stands(fat.geo, chain, q, clust, sect, idx);
      }
    }

    // ---------- adding an entry ----------

    /** The start of `dir_add`, which re-enters the directory, and its first loop: find `need` consecutive slots
        that can be used, stretching the directory when it ends. The cursor stops behind them; `place` is where they
        start. */
    method FindRoom(need: nat) returns (err: int, eod: bool, place: Loc)
      requires Open() && need > 0
      modifies this`clust, this`sect, this`idx, this`q, this`chain, fat, fat.dev, fat.buf
      ensures fat.Valid() && |fat.dev.sectors| == |old(fat.dev.sectors)|
      ensures fat.dev.faults >= old(fat.dev.faults)
      ensures err == ERR_NONE || err == ERR_FULL ==>
                fat.dev.faults == old(fat.dev.faults) && Open() && sclust == old(sclust)
      ensures err == ERR_NONE || err == ERR_FULL ==>
                Extends(fat.geo, old(fat.view), old(fat.freeCnt), old(chain), fat.view, fat.freeCnt, chain)
      ensures err == ERR_NONE ==>
                && Valid() && need <= Pos() && Scanned(Slots(), Pos(), need, eod)
                && IsPlace(fat.geo, chain, Pos() - need, place.sect, place.idx)
                && FirstRoom(Slots(), Pos(), need)
      ensures err == ERR_FULL ==> Crowded(fat.geo, fat.view, fat.lastUsed, chain, need)
      ensures fat.dev.faults == old(fat.dev.faults) && NoneBroken(old(fat.Fats())) ==>
                err == ERR_NONE || err == ERR_FULL
      ensures old(fat.Journal()) ==> fat.Journal()
      ensures old(fat.Tame()) ==> fat.Tame()
    {
      hide IsDirectory, Stands, Fat.Valid, Fat.Journal, Fat.Tame, Fat.Full, Crowded, Unmissed, FirstRoom, SlotsOf,
           SlotCount, Extends, Scanned, IsPlace, NoneBroken, Table;
      fat.Facts();
      AtClust(sclust);
      ghost var slots, v0, f0, ch0 := Slots(), fat.view, fat.freeCnt, chain;
      var cnt := 0;
      eod, place, err := false, Loc(0, 0), ERR_NONE;
      ScanStart(slots);
      UnmissedStart(slots, need);
      ExtendsRefl(fat.geo, fat.view, fat.freeCnt, chain);
      while cnt < need
        invariant Valid() && |fat.dev.sectors| == |old(fat.dev.sectors)| && err == ERR_NONE
        invariant fat.dev.faults == old(fat.dev.faults) && sclust == old(sclust)
        invariant Extends(fat.geo, v0, f0, ch0, fat.view, fat.freeCnt, chain)
        invariant 0 <= cnt <= need && RoomSoFar(cnt, eod, place, need)
        invariant !eod ==> Pos() <= |slots|
        invariant fat.geo.Wf(|fat.view|)
        invariant NoneBroken(Table(fat.geo, v0)) ==> NoneBroken(Table(fat.geo, fat.view))
        invariant old(fat.Journal()) ==> fat.Journal()
        invariant old(fat.Tame()) ==> fat.Tame()
        decreases !eod, if eod then need - cnt else |slots| - Pos()
      {
        ghost var v, f, ch := fat.view, fat.freeCnt, chain;
        ExtendsEnd(fat.geo, v0, f0, ch0, v, f, ch, Pos());
        err, cnt, eod, place := RoomStep(cnt, eod, place, need);
        if err == ERR_NONE || err == ERR_FULL {
          ExtendsTrans(fat.geo, v0, f0, ch0, v, f, ch, fat.view, fat.freeCnt, chain);
          ExtendsFacts(fat.geo, v0, f0, ch0, fat.view, fat.freeCnt, chain);
        }
        if err != ERR_NONE {
          return;
        }
      }
      ScannedFirst(Slots(), Pos(), need, eod);
    }

    /** The last `cnt` slots before the cursor can be used, `place` is where they start, and no room has been missed. */
    ghost predicate RoomSoFar(cnt: nat, eod: bool, place: Loc, need: nat)
      requires Open()
      reads this, names, fat, fat.dev, fat.buf
    {
      && cnt <= Pos() && Scanned(Slots(), Pos(), cnt, eod) && Unmissed(Slots(), Pos(), cnt, need)
      && (cnt > 0 ==> IsPlace(fat.geo, chain, Pos() - cnt, place.sect, place.idx))
    }

    lemma NoRoom(need: nat)
      requires Open() && fat.Full(chain[|chain| - 1]) && !HasRoom(Slots(), need)
      ensures Crowded(fat.geo, fat.view, fat.lastUsed, chain, need)
    {
      hide Fat.Valid, NoneLeft, HasRoom, SlotsOf;
    }

    /** One round of that loop. */
    method RoomStep(count: nat, behind: bool, from: Loc,
                    ghost need: nat) returns (err: int, cnt: nat, eod: bool, place: Loc)
      requires Valid() && RoomSoFar(count, behind, from, need) && count < need
      modifies this`clust, this`sect, this`idx, this`q, this`chain, fat, fat.dev, fat.buf
      ensures fat.Valid() && |fat.dev.sectors| == |old(fat.dev.sectors)|
      ensures fat.dev.faults >= old(fat.dev.faults)
      ensures err == ERR_NONE || err == ERR_FULL ==>
                fat.dev.faults == old(fat.dev.faults) && Open() && sclust == old(sclust)
      ensures err == ERR_NONE || err == ERR_FULL ==>
                Extends(fat.geo, old(fat.view), old(fat.freeCnt), old(chain), fat.view, fat.freeCnt, chain)
      ensures err == ERR_FULL ==> Crowded(fat.geo, fat.view, fat.lastUsed, chain, need)
      ensures err == ERR_NONE ==> Valid() && RoomSoFar(cnt, eod, place, need) && Pos() == old(Pos()) + 1
      ensures err == ERR_NONE ==>
                && old(Pos()) < |old(Slots())|
                && eod == (behind || IsLast(old(Slots())[old(Pos())]))
                && (behind ==> cnt == count + 1) && cnt <= count + 1 <= need
      ensures fat.dev.faults == old(fat.dev.faults) && NoneBroken(old(fat.Fats())) ==>
                err == ERR_NONE || err == ERR_FULL
      ensures old(fat.Journal()) ==> fat.Journal()
      ensures old(fat.Tame()) ==> fat.Tame()
    {
      hide IsDirectory, Stands, Fat.Valid, Fat.Journal, Fat.Tame, Fat.Full, Crowded, Unmissed, FirstRoom, HasRoom,
           SlotsOf, SlotCount, Extends, Scanned, IsPlace, NoneBroken, Table;
      cnt, eod, place := count, behind, from;
      err := Load();
      if err != ERR_NONE {
        return;
      }
      var sfn := Ptr();
      ghost var slots, p, ch := Slots(), Pos(), chain;
      ScanStep(slots, p, count, behind);
      UnmissedStep(slots, p, count, behind, need);
      if eod || IsFree(sfn) {
        if cnt == 0 {
          place := Loc(sect, idx);
          StandsAtPlace(fat.geo, chain, q, clust, sect, idx);
        }
        cnt := cnt + 1;
      } else {
        cnt := 0;
      }
      if IsLast(sfn) {
        eod := true;
      }
      assert Scanned(slots, p + 1, cnt, eod) && Unmissed(slots, p + 1, cnt, need);
      if p + 1 == |slots| {
        NoRoomSeen(slots, cnt, need);
      }
      err := NextStretch();
      if err == ERR_NONE {
        ExtendsFacts(fat.geo, old(fat.view), old(fat.freeCnt), ch, fat.view, fat.freeCnt, chain);
        ScanExtend(slots, Slots(), p + 1, cnt, eod);
        UnmissedExtend(slots, Slots(), p + 1, cnt, need);
        if cnt > 0 {
          PlaceExtend(fat.geo, ch, chain, p + 1 - cnt, place.sect, place.idx);
        }
      } else if err == ERR_FULL {
        NoRoom(need);
      }
    }

    /** Go back to a place. */
    method MoveTo(place: Loc, ghost p: nat)
      requires Open() && IsPlace(fat.geo, chain, p, place.sect, place.idx)
      modifies this`clust, this`sect, this`idx, this`q
      ensures Valid() && Pos() == p
    {
      hide IsDirectory, Stands, Fat.Valid, IsPlace, Row, Col;
      fat.Facts();
      ghost var at := StandsAtRewind(fat.geo, fat.view, chain, p, place.sect, place.idx);
      clust := fat.geo.SectToClust(place.sect);
      sect := place.sect;
      idx := place.idx;
      q := at;
    }

    /** The body of the second loop of `dir_add`: store one long-name slot. */
    method PutLfn(frag: Name, i: nat, head: bool, crc: byte)
      requires Loaded() && |frag| <= CHARS && 1 <= i <= 20
      modifies fat`dirty, fat`view, fat`trace, fat.buf
      ensures Loaded() && Stored(LfnSlot(frag, i, head, crc))
      ensures old(fat.Journal()) ==> fat.Journal()
      ensures old(fat.Tame()) ==> fat.Tame()
    {
      hide IsDirectory, Fat.Journal, Fat.Tame, WithSlot, SlotsOf, SlotCount, SameTables, SameOthers, Row, SectAt,
           LfnSlot;
      ghost var was := fat.buf[..];
      StandsInRange(fat.geo, fat.view, chain, q, clust, sect, idx);
      IdxBounds(fat.geo, chain, q, clust, sect, idx);
      FillLfn(fat.buf, idx, frag, i, head, crc);
      WithSlotElsewhere(was, fat.buf[..], idx / 32);
      Edited(was, LfnSlot(frag, i, head, crc));
    }

    /** The end of `dir_add`: store the 8.3 slot. */
    method PutSfn(s: Slot)
      requires Loaded()
      modifies fat`dirty, fat`view, fat`trace, fat.buf
      ensures Loaded() && Stored(s)
      ensures old(fat.Journal()) ==> fat.Journal()
      ensures old(fat.Tame()) ==> fat.Tame()
    {
      hide IsDirectory, Fat.Journal, Fat.Tame, WithSlot, SlotsOf, SlotCount, SameTables, SameOthers, Row, SectAt;
      ghost var was := fat.buf[..];
      StandsInRange(fat.geo, fat.view, chain, q, clust, sect, idx);
      IdxBounds(fat.geo, chain, q, clust, sect, idx);
      CopyInto(fat.buf, idx, s);
      WithSlotElsewhere(was, fat.buf[..], idx / 32);
      Edited(was, s);
    }

    /** The second loop of `dir_add`: store the long-name slots, the last fragment first. */
    method WriteGroup(name: Name, n: nat, crc: byte) returns (err: int)
      requires Valid() && 1 <= n <= 20 && 13 * (n - 1) <= |name| && crc == Checksum(SfnName(name))
      requires Pos() + n < |Slots()|
      modifies this`clust, this`sect, this`idx, this`q, fat`dirty, fat`sect, fat`trace, fat`view, fat.dev, fat.buf
      ensures Open() && |fat.dev.sectors| == |old(fat.dev.sectors)| && fat.SameCounters()
      ensures err == ERR_NONE || err == ERR_IO
      ensures err == ERR_IO ==> fat.dev.faults > old(fat.dev.faults)
      ensures err == ERR_NONE ==> fat.dev.faults == old(fat.dev.faults) && Valid() && Pos() == old(Pos()) + n
      ensures err == ERR_NONE ==> Slots() == Overlaid(old(Slots()), old(Pos()), NameSlots(name, n))
      ensures OnlyEdited(fat.geo, old(fat.view), fat.view, chain)
      ensures old(fat.Journal()) ==> fat.Journal()
      ensures old(fat.Tame()) ==> fat.Tame()
    {
      hide IsDirectory, Stands, Fat.Valid, Fat.Journal, Fat.Tame, SlotsOf, SlotCount, OnlyEdited, NameSlot, Checksum,
           Overlaid, LfnSlot, Chunk;
      ghost var s, slots, v, group := Pos(), Slots(), fat.view, NameSlots(name, n);
      OnlyEditedRefl(fat.geo, v, chain);
      OverlaidNone(slots, s);
      err := ERR_NONE;
      var k := 0;
      while k < n
        invariant 0 <= k <= n && Valid() && |fat.dev.sectors| == |old(fat.dev.sectors)| && fat.SameCounters()
        invariant fat.dev.faults == old(fat.dev.faults) && err == ERR_NONE
        invariant Pos() == s + k && |Slots()| == |slots|
        invariant Slots() == Overlaid(slots, s, group[..k])
        invariant OnlyEdited(fat.geo, v, fat.view, chain)
        invariant old(fat.Journal()) ==> fat.Journal()
        invariant old(fat.Tame()) ==> fat.Tame()
      {
        ghost var v1 := fat.view;
        OverlaidStep(slots, s, group, k);
        NameSlotOf(name, n, k);
        err := WriteOne(Chunk(name, n - k), n - k, k == 0, crc);
        OnlyEditedTrans(fat.geo, v, v1, fat.view, chain);
        if err != ERR_NONE {
          return;
        }
        k := k + 1;
      }
      assert group[..n] == group;
    }

    /** One round of that loop. */
    method WriteOne(frag: Name, i: nat, head: bool, crc: byte) returns (err: int)
      requires Valid() && |frag| <= CHARS && 1 <= i <= 20 && Pos() + 1 < |Slots()|
      modifies this`clust, this`sect, this`idx, this`q, fat`dirty, fat`sect, fat`trace, fat`view, fat.dev, fat.buf
      ensures Open() && |fat.dev.sectors| == |old(fat.dev.sectors)| && fat.SameCounters()
      ensures err == ERR_NONE || err == ERR_IO
      ensures err == ERR_IO ==> fat.dev.faults > old(fat.dev.faults)
      ensures err == ERR_NONE ==> fat.dev.faults == old(fat.dev.faults) && Valid() && Pos() == old(Pos()) + 1
      ensures err == ERR_NONE ==> Slots() == old(Slots())[old(Pos()) := LfnSlot(frag, i, head, crc)]
      ensures OnlyEdited(fat.geo, old(fat.view), fat.view, chain)
      ensures old(fat.Journal()) ==> fat.Journal()
      ensures old(fat.Tame()) ==> fat.Tame()
    {
      hide IsDirectory, Stands, Fat.Valid, Fat.Journal, Fat.Tame, SlotsOf, SlotCount, LfnSlot, SameTables, SameOthers;
      OnlyEditedRefl(fat.geo, fat.view, chain);
      err := Load();
      if err != ERR_NONE {
        return;
      }
      PutLfn(frag, i, head, crc);
      err := Next();
    }

    /** The rest of `dir_add`, once there is room from slot number `s` to the cursor: set the new end mark if the old
        one was passed, store the long-name slots and the 8.3 slot. */
    method FillRoom(name: Name, n: nat, sfn: Slot, eod: bool, place: Loc, ghost s: nat) returns (err: int)
      requires Valid() && 1 <= |name| <= MAX_NAME && n == LfnCount(|name|) && sfn[..11] == SfnName(name)
      requires Pos() == s + n + 1 && IsPlace(fat.geo, chain, s, place.sect, place.idx)
      modifies this`clust, this`sect, this`idx, this`q, fat`dirty, fat`sect, fat`trace, fat`view, fat.dev, fat.buf
      ensures fat.Valid() && |fat.dev.sectors| == |old(fat.dev.sectors)| && fat.SameCounters()
      ensures err == ERR_NONE || err == ERR_IO
      ensures err == ERR_IO ==> fat.dev.faults > old(fat.dev.faults)
      ensures err == ERR_NONE ==> fat.dev.faults == old(fat.dev.faults) && Loaded() && Pos() == s + n
      ensures err == ERR_NONE ==> s + n + 1 < |old(Slots())| && Slots() == WithEntry(old(Slots()), s, name, n, sfn, eod)
      ensures OnlyEdited(fat.geo, old(fat.view), fat.view, chain)
      ensures old(fat.Journal()) ==> fat.Journal()
      ensures old(fat.Tame()) ==> fat.Tame()
    {
      hide IsDirectory, Stands, Fat.Valid, Fat.Journal, Fat.Tame, SlotsOf, SlotCount, OnlyEdited, NameSlots, Checksum,
           SfnName, Overlaid, IsPlace, WithEntry;
      ghost var v, slots := fat.view, Slots();
      StandsInRange(fat.geo, fat.view, chain, q, clust, sect, idx);
      err := MarkEnd(eod);
      if err != ERR_NONE {
        return;
      }
      ghost var v1, slots1 := fat.view, Slots();
      MoveTo(place, s);
      var crc := GetCrc(sfn[..11]);
      err := WriteGroup(name, n, crc);
      ghost var v2 := fat.view;
      OnlyEditedTrans(fat.geo, v, v1, v2, chain);
      if err != ERR_NONE {
        return;
      }
      err := PutLast(sfn);
      OnlyEditedTrans(fat.geo, v, v2, fat.view, chain);
      WithEntryIs(slots, s, name, n, sfn, eod);
    }

    /** The store of the 8.3 slot. */
    method PutLast(sfn: Slot) returns (err: int)
      requires Valid()
      modifies fat`dirty, fat`sect, fat`trace, fat`view, fat.dev, fat.buf
      ensures Open() && |fat.dev.sectors| == |old(fat.dev.sectors)| && fat.SameCounters()
      ensures err == ERR_NONE || err == ERR_IO
      ensures err == ERR_IO ==> fat.dev.faults > old(fat.dev.faults)
      ensures err == ERR_NONE ==> fat.dev.faults == old(fat.dev.faults) && Loaded()
      ensures err == ERR_NONE ==> Slots() == old(Slots())[old(Pos()) := sfn]
      ensures OnlyEdited(fat.geo, old(fat.view), fat.view, chain)
      ensures old(fat.Journal()) ==> fat.Journal()
      ensures old(fat.Tame()) ==> fat.Tame()
    {
      hide IsDirectory, Stands, Fat.Valid, Fat.Journal, Fat.Tame, SlotsOf, SlotCount, SameTables, SameOthers;
      OnlyEditedRefl(fat.geo, fat.view, chain);
      StandsInRange(fat.geo, fat.view, chain, q, clust, sect, idx);
      err := Load();
      if err == ERR_NONE {
        PutSfn(sfn);
      }
    }

    /** The new end mark of `dir_add`. */
    method MarkEnd(eod: bool) returns (err: int)
      requires Valid()
      modifies fat`dirty, fat`sect, fat`trace, fat`view, fat.dev, fat.buf
      ensures Valid() && |fat.dev.sectors| == |old(fat.dev.sectors)| && fat.SameCounters()
      ensures err == ERR_NONE || err == ERR_IO
      ensures err == ERR_IO ==> fat.dev.faults > old(fat.dev.faults)
      ensures err == ERR_NONE ==> fat.dev.faults == old(fat.dev.faults)
      ensures err == ERR_NONE ==> old(Pos()) < |old(Slots())| && Slots() == Ended(old(Slots()), old(Pos()), eod)
      ensures OnlyEdited(fat.geo, old(fat.view), fat.view, chain)
      ensures old(fat.Journal()) ==> fat.Journal()
      ensures old(fat.Tame()) ==> fat.Tame()
    {
      hide IsDirectory, Stands, Fat.Valid, Fat.Journal, Fat.Tame, SlotsOf, SlotCount, SameTables, SameOthers;
      OnlyEditedRefl(fat.geo, fat.view, chain);
      StandsInRange(fat.geo, fat.view, chain, q, clust, sect, idx);
      err := ERR_NONE;
      if eod {
        err := Load();
        if err == ERR_NONE {
          SetFirst(SFN_LAST);
        }
      }
    }

    /** `dir_add`: an entry with a long name, its folded 8.3 name, and size 0. On success `room` tells where it went,
        which is the first place with room, and what the directory was before the stores, stretched if need be. It is
        refused only when the directory, stretched as far as the volume allows, has no room. */
    method Add(name: Name, attr: byte, cluster: nat, stamp: Stamp) returns (err: int, ghost room: Room)
      requires Open() && attr != ATTR_LFN
      modifies this`clust, this`sect, this`idx, this`q, this`chain, fat, fat.dev, fat.buf
      ensures fat.Valid() && |fat.dev.sectors| == |old(fat.dev.sectors)|
      ensures fat.dev.faults >= old(fat.dev.faults)
      ensures |name| == 0 || |name| > 255 ==>
                && err == ERR_PARAM && fat.dev.faults == old(fat.dev.faults)
                && fat.view == old(fat.view) && fat.freeCnt == old(fat.freeCnt) && chain == old(chain)
      ensures err == ERR_FULL ==> fat.dev.faults == old(fat.dev.faults) && Open() && sclust == old(sclust)
      ensures err == ERR_FULL ==>
                Extends(fat.geo, old(fat.view), old(fat.freeCnt), old(chain), fat.view, fat.freeCnt, chain)
      ensures err == ERR_FULL ==> Crowded(fat.geo, fat.view, fat.lastUsed, chain, LfnCount(|name|) + 1)
      ensures err == ERR_NONE ==>
                && fat.dev.faults == old(fat.dev.faults) && Loaded() && sclust == old(sclust)
                && Extends(fat.geo, old(fat.view), old(fat.freeCnt), old(chain), room.img, fat.freeCnt, chain)
                && OnlyEdited(fat.geo, room.img, fat.view, chain)
      ensures err == ERR_NONE ==>
                var slots := SlotsOf(fat.geo, room.img, chain); var n := LfnCount(|name|);
                && 1 <= |name| <= 255
                && room.start + n + 1 < |slots| && Scanned(slots, room.start + n + 1, n + 1, room.eod)
                && FirstRoom(slots, room.start + n + 1, n + 1)
                && Slots() ==
                     WithEntry(slots, room.start, name, n, SfnSlot(SfnName(name), attr, cluster, stamp), room.eod)
                && Pos() == room.start + n && Slots()[Pos()] == SfnSlot(SfnName(name), attr, cluster, stamp)
      ensures 1 <= |name| <= 255 && fat.dev.faults == old(fat.dev.faults) && NoneBroken(old(fat.Fats())) ==>
                err == ERR_NONE || err == ERR_FULL
      ensures old(fat.Journal()) ==> fat.Journal()
      ensures old(fat.Tame()) ==> fat.Tame()
    {
      hide IsDirectory, Stands, Fat.Valid, Fat.Journal, Fat.Tame, Fat.Full, Crowded, Unmissed, FirstRoom, SlotsOf,
           SlotCount, Extends, OnlyEdited, Scanned, IsPlace, WithEntry, SfnSlot, SfnName, NoneBroken, Table;
      fat.Facts();
      room := Room(fat.view, 0, false);
      if |name| <= 0 || |name| > MAX_NAME {
        return ERR_PARAM, room;
      }
      var n := LfnCount(|name|);
      var eod, place;
      err, eod, place := FindRoom(n + 1);
      if err != ERR_NONE {
        return;
      }
      room := Room(fat.view, Pos() - (n + 1), eod);
      ExtendsFacts(fat.geo, old(fat.view), old(fat.freeCnt), old(chain), fat.view, fat.freeCnt, chain);
      StandsInRange(fat.geo, fat.view, chain, q, clust, sect, idx);
      var sfnName := new byte[11];
      PutSfnName(sfnName, name);
      var sfn := SfnSlot(sfnName[..], attr, cluster, stamp);
      SfnSlotName(sfnName[..], attr, cluster, stamp);
      ghost var slots := Slots();
      err := FillRoom(name, n, sfn, eod, place, room.start);
      if err == ERR_NONE {
        WithEntryAt(slots, room.start, name, n, sfn, eod);
      }
    }

    // ---------- removing an entry ----------

    /** `remove_entries`: mark the slots from `loc` to the cursor as free. */
    method RemoveEntries(loc: Loc, ghost start: nat) returns (err: int)
      requires Valid() && start <= Pos() && IsPlace(fat.geo, chain, start, loc.sect, loc.idx)
      modifies this`clust, this`sect, this`idx, this`q, fat`dirty, fat`sect, fat`trace, fat`view, fat.dev, fat.buf
      ensures Open() && |fat.dev.sectors| == |old(fat.dev.sectors)| && fat.SameCounters()
      ensures err == ERR_NONE || err == ERR_IO
      ensures err == ERR_IO <==> fat.dev.faults > old(fat.dev.faults)
      ensures fat.dev.faults >= old(fat.dev.faults)
      ensures err == ERR_NONE ==> Valid() && Pos() == old(Pos()) && MarkedFree(old(Slots()), Slots(), start, Pos() + 1)
      ensures OnlyEdited(fat.geo, old(fat.view), fat.view, chain)
      ensures old(fat.Journal()) ==> fat.Journal()
      ensures old(fat.Tame()) ==> fat.Tame()
    {
      hide IsDirectory, Stands, Fat.Valid, Fat.Journal, Fat.Tame, SlotsOf, SlotCount, OnlyEdited, IsPlace, MarkedFree,
           MarkedTo;
      ghost var v, slots, q0, clust0, end := fat.view, Slots(), q, clust, Pos();
      var lastSect, lastIdx := sect, idx;
      OnlyEditedRefl(fat.geo, v, chain);
      StandsInRange(fat.geo, fat.view, chain, q, clust, sect, idx);
      MoveTo(loc, start);
      StartMarking(slots, start);
      while true
        invariant Valid() && |fat.dev.sectors| == |old(fat.dev.sectors)| && fat.SameCounters()
        invariant fat.dev.faults == old(fat.dev.faults)
        invariant start <= Pos() <= end < |slots| && MarkedTo(slots, Slots(), start, Pos())
        invariant Stands(fat.geo, chain, q0, clust0, lastSect, lastIdx)
        invariant OnlyEdited(fat.geo, v, fat.view, chain)
        invariant old(fat.Journal()) ==> fat.Journal()
        invariant old(fat.Tame()) ==> fat.Tame()
        decreases end - Pos()
      {
        ghost var v1 := fat.view;
        err := MarkHere(slots, start);
        OnlyEditedTrans(fat.geo, v, v1, fat.view, chain);
        if err != ERR_NONE {
          return;
        }
        if sect == lastSect && idx == lastIdx {
          StandsUnique(fat.geo, fat.view, chain, q, clust, sect, idx, q0, clust0);
          return;
        }
        if Pos() == end {
          SlotNamesPlace(fat.geo, chain, q, clust, sect, idx, q0, clust0, lastSect, lastIdx);
        }
        err := Next();
        if err != ERR_NONE {
          return;
        }
      }
    }

    /** One store of `remove_entries`. */
    method MarkHere(ghost slots: seq<Slot>, ghost start: nat) returns (err: int)
      requires Valid() && MarkedTo(slots, Slots(), start, Pos())
      modifies fat`dirty, fat`sect, fat`trace, fat`view, fat.dev, fat.buf
      ensures Valid() && |fat.dev.sectors| == |old(fat.dev.sectors)| && fat.SameCounters()
      ensures err == ERR_NONE || err == ERR_IO
      ensures err == ERR_IO <==> fat.dev.faults > old(fat.dev.faults)
      ensures fat.dev.faults >= old(fat.dev.faults)
      ensures err == ERR_NONE ==>
                MarkedTo(slots, Slots(), start, Pos() + 1) && MarkedFree(slots, Slots(), start, Pos() + 1)
      ensures OnlyEdited(fat.geo, old(fat.view), fat.view, chain)
      ensures old(fat.Journal()) ==> fat.Journal()
      ensures old(fat.Tame()) ==> fat.Tame()
    {
      hide IsDirectory, Stands, Fat.Valid, Fat.Journal, Fat.Tame, SlotsOf, SlotCount, SameTables, SameOthers;
      OnlyEditedRefl(fat.geo, fat.view, chain);
      StandsInRange(fat.geo, fat.view, chain, q, clust, sect, idx);
      err := Load();
      if err == ERR_NONE {
        MarkOne(slots, Slots(), start, Pos());
        SetFirst(SFN_FREE);
      }
    }
  }

  /** What looking at the live slot at `p` comes to: an 8.3 entry has the name if its eleven bytes are those of the
      folded name; at a long-name slot, a group that is accepted is read to its 8.3 slot, and any other is an error. */
  ghost predicate Examined(slots: seq<Slot>, p: nat, name: Name, err: int, q: nat, hit: bool) {
    && p < |slots| && slots[p][0] != 0 && slots[p][0] != 0xe5
    && if slots[p][11] != 0x0f then err == ERR_NONE && q == p && (hit <==> slots[p][..11] == SfnName(name)) else
         && (err == ERR_NONE || err == ERR_EOF || err == ERR_BROKEN)
         && (err == ERR_NONE <==> GroupAccepted(slots, p))
         && (err == ERR_EOF <==> GroupBreaksOff(slots, p))
         && (err == ERR_NONE ==> q == p + slots[p][0] % 32)
         && (hit ==> err == ERR_NONE)
  }

  lemma ExaminedEnds(slots: seq<Slot>, p: nat, name: Name, err: int, q: nat, hit: bool)
    requires Examined(slots, p, name, err, q, hit)
    ensures err == ERR_NONE || err == ERR_EOF || err == ERR_BROKEN
    ensures err == ERR_BROKEN ==> !hit
  {
    hide GroupAccepted, GroupBreaksOff, SfnName;
  }

  /** Where an entry went: the logical disk before the stores, the first slot, and whether the end mark was passed. */
  datatype Room = Room(img: Image, start: nat, eod: bool)

  /** Slots of the directory's own clusters may differ, everything else is the same. */
  ghost predicate OnlyEdited(g: Geometry, a: Image, b: Image, chain: seq<nat>) {
    SameTables(g, a, b) && SameOthers(g, a, b, chain)
  }

  lemma OnlyEditedRefl(g: Geometry, a: Image, chain: seq<nat>)
    requires IsDirectory(g, a, chain)
    ensures OnlyEdited(g, a, a, chain)
  {
  }

  lemma OnlyEditedTrans(g: Geometry, a: Image, b: Image, c: Image, chain: seq<nat>)
    requires OnlyEdited(g, a, b, chain) && OnlyEdited(g, b, c, chain)
    ensures OnlyEdited(g, a, c, chain)
  {
  }

  /** The directory cannot be stretched, and has no room for `need` more slots in a row. */
  ghost predicate Crowded(g: Geometry, img: Image, lastUsed: nat, chain: seq<nat>, need: nat) {
    && IsDirectory(g, img, chain) && 0 < g.spc && g.Wf(|img|) && NoneLeft(Table(g, img), lastUsed, chain[|chain| - 1])
    && !HasRoom(SlotsOf(g, img, chain), need)
  }

  /** The directory has been extended by clusters that were free and now hold cleared slots; the rest of the volume
      is as it was. */
  ghost predicate Extends(g: Geometry, v0: Image, f0: uint32, ch0: seq<nat>, v1: Image, f1: uint32, ch1: seq<nat>) {
    && IsDirectory(g, v0, ch0) && IsDirectory(g, v1, ch1) && |v0| == |v1|
    && Grown(Table(g, v0), Table(g, v1), ch0, ch1)
    && SameOthers(g, v0, v1, ch1)
    && SlotsOf(g, v0, ch0) <= SlotsOf(g, v1, ch1)
    && (forall p :: |SlotsOf(g, v0, ch0)| <= p < |SlotsOf(g, v1, ch1)| ==> AllZero(SlotsOf(g, v1, ch1)[p]))
    && Upkeep(g, v0, f0, v1, f1)
  }

  lemma ExtendsRefl(g: Geometry, img: Image, freeCnt: uint32, ch: seq<nat>)
    requires IsDirectory(g, img, ch)
    ensures Extends(g, img, freeCnt, ch, img, freeCnt, ch)
  {
    hide Table, SlotsOf, Mirrored, Drift, NoneBroken;
  }

  lemma ExtendsFacts(g: Geometry, v0: Image, f0: uint32, ch0: seq<nat>, v1: Image, f1: uint32, ch1: seq<nat>)
    requires Extends(g, v0, f0, ch0, v1, f1, ch1)
    ensures IsDirectory(g, v0, ch0) && IsDirectory(g, v1, ch1)
    ensures ch0 <= ch1 && SlotsOf(g, v0, ch0) <= SlotsOf(g, v1, ch1)
    ensures g.Wf(|v0|) && |v0| == |v1| && (NoneBroken(Table(g, v0)) ==> NoneBroken(Table(g, v1)))
  {
    hide Table, SlotsOf, Mirrored, Drift, NoneBroken, AllZero, SameOthers;
  }

  /** What has been added lists as the end of the directory. */
  lemma ExtendsEnd(g: Geometry, v0: Image, f0: uint32, ch0: seq<nat>, v1: Image, f1: uint32, ch1: seq<nat>, p: nat)
    requires Extends(g, v0, f0, ch0, v1, f1, ch1)
    ensures |SlotsOf(g, v0, ch0)| <= p < |SlotsOf(g, v1, ch1)| ==> IsLast(SlotsOf(g, v1, ch1)[p])
  {
    hide Table, SlotsOf, Mirrored, Drift, NoneBroken, SameOthers, IsChain, Grown;
    if |SlotsOf(g, v0, ch0)| <= p < |SlotsOf(g, v1, ch1)| {
      assert AllZero(SlotsOf(g, v1, ch1)[p]);
    }
  }

  /** Stretching by a cleared cluster is such an extension. */
  lemma GrowExtends(g: Geometry, v0: Image, f0: uint32, v1: Image, v2: Image, chain: seq<nat>, c: nat)
    requires IsDirectory(g, v0, chain) && g.IsCluster(c) && g.Wf(|v0|) && Mild(g, v0, v1) && |v1| == |v0|
    requires g.ClustToSect(c) + g.spc <= |v1| && Table(g, v0)[c] == 0
    requires Table(g, v1) == Linked(Table(g, v0), chain[|chain| - 1], c)
    requires v2 == Zeroed(v1, g.ClustToSect(c), g.spc)
    ensures Extends(g, v0, f0, chain, v2, Decremented(f0), chain + [c])
    ensures Stands(g, chain + [c], Span(g, |chain|), c, g.ClustToSect(c), 0)
    ensures 16 * Span(g, |chain|) == |SlotsOf(g, v0, chain)|
  {
    hide Table, SlotsOf, IsDirectory, Grown, Upkeep, AllZero, SameOthers, Stands, Span, Linked, Zeroed, Mild;
    LastInUse(g, v0, chain);
    UpkeepLinked(g, v0, f0, v1, chain[|chain| - 1], c);
    DataKept(g, v0, v1);
    GrowDirectory(g, v0, v1, v2, chain, c);
    UpkeepTables(g, v1, Decremented(f0), v2);
    UpkeepTrans(g, v0, f0, v1, Decremented(f0), v2, Decremented(f0));
  }

  lemma ExtendsTrans(g: Geometry, v0: Image, f0: uint32, ch0: seq<nat>, v1: Image, f1: uint32, ch1: seq<nat>,
                     v2: Image, f2: uint32, ch2: seq<nat>)
    requires Extends(g, v0, f0, ch0, v1, f1, ch1) && Extends(g, v1, f1, ch1, v2, f2, ch2)
    ensures Extends(g, v0, f0, ch0, v2, f2, ch2)
  {
    hide Table, SlotsOf, IsChain, Grown, Upkeep, AllZero, SameOthers;
    ExtendsFacts(g, v0, f0, ch0, v1, f1, ch1);
    ExtendsFacts(g, v1, f1, ch1, v2, f2, ch2);
    GrownTrans(Table(g, v0), Table(g, v1), Table(g, v2), ch0, ch1, ch2);
    SameOthersTrans(g, v0, v1, v2, ch1, ch2);
    UpkeepTrans(g, v0, f0, v1, f1, v2, f2);
    var a, b, c := SlotsOf(g, v0, ch0), SlotsOf(g, v1, ch1), SlotsOf(g, v2, ch2);
    assert forall p :: |a| <= p < |b| ==> c[p] == b[p];
  }
}
