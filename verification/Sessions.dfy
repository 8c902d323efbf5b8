/** Whole runs on an open file, which are runs on a sequence of bytes and a position. */
module Sessions {
  import opened Bytes
  import opened Layout
  import opened Chains
  import opened Names
  import opened Listing
  import opened Clusters
  import opened Volume
  import opened Tree
  import opened FileData
  import opened Files
  import opened FileSystem
  import opened OpenFiles

  datatype Op = SeekTo(delta: int, whence: Whence) | ReadBytes(len: nat) | WriteBytes(data: seq<byte>)

  /** A file without a disk. */
  datatype Abstract = Abstract(contents: seq<byte>, pos: nat, canRead: bool, canWrite: bool)

  function Target(s: Abstract, delta: int, whence: Whence): int {
    delta + match whence case FromStart => 0 case FromCurrent => s.pos case FromEnd => |s.contents|
  }

  /** Where a seek goes: counted from the start, from the position or from the end, if there is such an offset. */
  lemma SeekLands(s: Abstract, delta: int)
    ensures 0 <= delta < TWO_32 ==> Step(s, SeekTo(delta, FromStart)).pos == delta
    ensures 0 <= s.pos + delta < TWO_32 ==> Step(s, SeekTo(delta, FromCurrent)).pos == s.pos + delta
    ensures 0 <= |s.contents| + delta < TWO_32 ==> Step(s, SeekTo(delta, FromEnd)).pos == |s.contents| + delta
    ensures delta < 0 || TWO_32 <= delta ==> Step(s, SeekTo(delta, FromStart)) == s
  {
  }

  /** What an operation delivers to its caller. */
  function Delivered(s: Abstract, op: Op): seq<byte> {
    match op
    case ReadBytes(len) =>
      if s.canRead && s.pos < |s.contents| then s.contents[s.pos..Min(s.pos + len, |s.contents|)] else []
    case _ => []
  }

  /** The file after an operation. */
  function Step(s: Abstract, op: Op): Abstract {
    match op
    case SeekTo(delta, whence) =>
      var off := Target(s, delta, whence);
      if 0 <= off < TWO_32 then s.(pos := off) else s
    case ReadBytes(_) => s.(pos := s.pos + |Delivered(s, op)|)
    case WriteBytes(data) =>
      if s.canWrite && s.pos <= |s.contents| then s.(contents := Splice(s.contents, s.pos, data), pos := s.pos + |data|)
        else s
  }

  /** Where the code behaves like this: it compares sizes as signed numbers when it reads, and it does not clear what
      lies between the end of a file and a cursor beyond it before it writes there. */
  predicate InDomain(s: Abstract, op: Op) {
    match op
    case SeekTo(_, _) => true
    case ReadBytes(_) => |s.contents| < 0x8000_0000
    case WriteBytes(_) => s.canWrite ==> s.pos <= |s.contents|
  }

  /** A write that would go on past the largest offset there is. */
  predicate TooLong(s: Abstract, op: Op) {
    op.WriteBytes? && s.pos + |op.data| >= TWO_32
  }

  function After(s: Abstract, ops: seq<Op>): Abstract {
    if ops == [] then s else Step(After(s, ops[..|ops| - 1]), ops[|ops| - 1])
  }

  function Outputs(s: Abstract, ops: seq<Op>): (r: seq<seq<byte>>)
    ensures |r| == |ops|
  {
    if ops == [] then [] else
      var n := |ops| - 1;
      Outputs(s, ops[..n]) + [Delivered(After(s, ops[..n]), ops[n])]
  }

  /** One more operation. */
  lemma RunOn(s: Abstract, ops: seq<Op>, n: nat)
    requires n < |ops|
    ensures After(s, ops[..n + 1]) == Step(After(s, ops[..n]), ops[n])
    ensures Outputs(s, ops[..n + 1]) == Outputs(s, ops[..n]) + [Delivered(After(s, ops[..n]), ops[n])]
  {
    assert ops[..n + 1][..n] == ops[..n];
  }

  lemma {:induction false} ReadingKeeps(s: Abstract, ops: seq<Op>)
    requires forall op :: op in ops ==> !op.WriteBytes?
    ensures var t := After(s, ops); t.contents == s.contents && t.canRead == s.canRead
  {
    if ops != [] {
      ReadingKeeps(s, ops[..|ops| - 1]);
    }
  }

  /** Reading back: whatever is read in between, a read from the position of a write delivers what has been written. */
  lemma ReadBack(s: Abstract, data: seq<byte>, between: seq<Op>)
    requires s.canRead && s.canWrite && s.pos <= |s.contents| && s.pos < TWO_32
    requires forall op :: op in between ==> !op.WriteBytes?
    ensures var t := After(Step(s, WriteBytes(data)), between);
            Delivered(Step(t, SeekTo(s.pos, FromStart)), ReadBytes(|data|)) == data
  {
    ReadingKeeps(Step(s, WriteBytes(data)), between);
  }

  /** An open file as such a file. */
  ghost function Seen(file: File): Abstract
    requires file.Intact()
    reads file, file.fat, file.fat.dev, file.fat.buf, file.buf
  {
    Abstract(file.Contents(), file.offset, file.canRead, file.canWrite)
  }

  lemma SeenFacts(file: File)
    requires file.Intact()
    ensures !file.Unreachable() && file.buf.Length == SECTOR_SIZE && file.buf != file.fat.buf && file.chain != []
    ensures |file.Contents()| == file.size
  {
    hide Fat.Valid, NoneBroken, FreeOnDevice, Apart, Holds, Table, Capacity, Content, SectAt, Distinct;
    file.Grounded();
  }

  /** The file is open in the tree and ready for use. */
  ghost predicate Usable(fs: FileSystem, file: File, c: nat)
    reads fs, fs.names, file, fs.fat, fs.fat.dev, fs.fat.buf, file.fat, file.fat.dev, file.fat.buf, file.buf
  {
    fs.Consistent() && On(fs, file, c) && file.Valid()
  }

  /** What using the file means for the volume: its chain may have grown, and the other files are as they were. */
  twostate predicate Aside(fs: FileSystem, file: File, c: nat)
    reads fs, fs.names, file, fs.fat, fs.fat.dev, fs.fat.buf
  {
    && fs.Consistent() && On(fs, file, c) && Lengthened(old(fs.tree), fs.tree, c, file.chain)
    && fs.fat.geo.Wf(|old(fs.fat.view)|) && |fs.fat.view| == |old(fs.fat.view)|
    && Upkeep(fs.fat.geo, old(fs.fat.view), old(fs.fat.freeCnt), fs.fat.view, fs.fat.freeCnt)
    && SameFiles(fs.fat.geo, old(fs.fat.view), old(fs.tree), fs.fat.view, fs.tree, c)
  }

  /** A file that has changed its size knows that it was modified. */
  ghost predicate SizeTold(size: uint32, modified: bool, file: File)
    reads file`size, file`modified
  {
    (modified ==> file.modified) && (!file.modified ==> file.size == size)
  }

  /** What is left in the file by an operation that is not completed: of a write, `k` bytes have been stored, and the
      file ends where it did or behind the cursor. */
  function Left(s: Abstract, op: Op, k: nat, size: nat): seq<byte> {
    match op
    case WriteBytes(data) =>
      if s.pos <= |s.contents| && k <= |data| && size <= |Splice(s.contents, s.pos, data[..k])|
      then Splice(s.contents, s.pos, data[..k])[..size] else []
    case _ => s.contents
  }

  /** The operation has been stopped, because it would have moved the cursor beyond the clusters of the file, of which
      there can be no more, or beyond the largest offset. A read has delivered everything nevertheless. */
  ghost predicate Stopped(file: File, s: Abstract, op: Op, out: seq<byte>, k: nat)
    reads file, file.fat, file.fat.dev, file.fat.buf, file.buf
  {
    && file.Intact() && file.sect != NO_SECT && out == Delivered(s, op)
    && (TooLong(s, op) ||
          (Capacity(file.fat.geo, |file.chain|) <= Step(s, op).pos && file.fat.Full(file.chain[|file.chain| - 1])))
    && (op.WriteBytes? ==> file.CutShort(s.pos, k) && file.size == Max(|s.contents|, file.offset))
    && file.Contents() == Left(s, op, k, file.size)
  }

  /** How an operation has ended. */
  ghost predicate Performed(file: File, s: Abstract, op: Op, ok: bool, out: seq<byte>, k: nat)
    reads file, file.fat, file.fat.dev, file.fat.buf, file.buf
  {
    if ok then
      && file.Valid() && Seen(file) == Step(s, op) && out == Delivered(s, op)
      && file.offset < Capacity(file.fat.geo, |file.chain|)
    else Stopped(file, s, op, out, k)
  }

  lemma SeekEnded(file: File, s: Abstract, delta: int, whence: Whence, ok: bool)
    requires s.canRead == file.canRead && s.canWrite == file.canWrite
    requires file.sect != NO_SECT && file.Intact() && file.Contents() == s.contents
    requires var off := Target(s, delta, whence);
             if ok then file.Valid() && file.offset == (if 0 <= off < TWO_32 then off else s.pos)
             else 0 <= off < TWO_32 && file.Refused(off)
    ensures Performed(file, s, SeekTo(delta, whence), ok, [], 0)
  {
    hide File.Intact, File.Ready, File.Refused, Capacity, NoneLeft;
    file.Reach(if ok then 0 else Target(s, delta, whence));
  }

  lemma ReadEnded(file: File, s: Abstract, len: nat, ok: bool)
    requires s.canRead == file.canRead && s.canWrite == file.canWrite
    requires file.Valid() && file.Contents() == s.contents && |s.contents| == file.size
    requires if ok then file.offset == s.pos + |Delivered(s, ReadBytes(len))|
             else s.canRead && s.pos < |s.contents| <= s.pos + len && Brim(file.fat, file.chain, file.size)
    ensures Performed(file, s, ReadBytes(len), ok, Delivered(s, ReadBytes(len)), 0)
  {
    hide File.Intact, File.Ready, Capacity, NoneLeft;
    file.Reach(0);
  }

  lemma WriteEnded(file: File, s: Abstract, data: seq<byte>, ok: bool, k: nat)
    requires s.canRead == file.canRead && s.canWrite == file.canWrite && (s.canWrite ==> s.pos <= |s.contents|)
    requires k <= |data|
    requires file.Valid() && |file.Contents()| == file.size
    requires if !s.canWrite then ok && file.Contents() == s.contents && file.offset == s.pos else
               && file.size == Max(|s.contents|, file.offset) && file.size <= |Splice(s.contents, s.pos, data[..k])|
               && file.Contents() == Splice(s.contents, s.pos, data[..k])[..file.size]
               && if ok then k == |data| && file.offset == s.pos + k else file.CutShort(s.pos, k)
    ensures Performed(file, s, WriteBytes(data), ok, [], k)
  {
    hide File.Intact, File.Ready, Capacity, NoneLeft;
    WholeData(data);
    file.Reach(0);
    if ok && s.canWrite {
      assert |Splice(s.contents, s.pos, data)| == file.size;
    }
  }

  lemma AheadDelivered(file: File, len: nat)
    requires file.Intact()
    ensures var s, op := Seen(file), ReadBytes(len);
            && (if file.canRead then file.Ahead(len) == Delivered(s, op) else Delivered(s, op) == [])
            && (s.pos >= |s.contents| ==> Delivered(s, op) == [])
  {
    hide File.Intact, Capacity;
    SeenFacts(file);
  }

  method PerformSeek(fs: FileSystem, file: File, delta: int, whence: Whence, ghost c: nat) returns (ok: bool)
    requires Usable(fs, file, c)
    modifies fs`tree, file`clust, file`sect, file`size, file`offset, file`dirty, file`chain
    modifies file`modified, file`accessed, file.buf, fs.fat, fs.fat.dev, fs.fat.buf
    ensures fs.fat.dev.faults == old(fs.fat.dev.faults) ==>
              && Aside(fs, file, c)
              && Performed(file, old(Seen(file)), SeekTo(delta, whence), ok, [], 0)
    ensures SizeTold(old(file.size), old(file.modified), file)
    ensures old(fs.fat.Journal()) ==> fs.fat.Journal()
    ensures old(fs.fat.Tame()) ==> fs.fat.Tame()
  {
    hide Fat.Valid, Fat.Journal, Fat.Tame, NoneLeft, Sound, Holds, File.Intact, File.CutShort, FileSystem.Consistent,
         Splice, Capacity, Performed, Upkeep, Lengthened, SameFiles;
    SeenFacts(file);
    ghost var s := Seen(file);
    var err := FileSeek(fs, file, delta, whence, c);
    ok := err == ERR_NONE || err == ERR_EOF;
    if fs.fat.dev.faults == old(fs.fat.dev.faults) {
      SeekEnded(file, s, delta, whence, ok);
    }
  }

  method PerformRead(fs: FileSystem, file: File, len: nat, ghost c: nat) returns (ok: bool, out: seq<byte>)
    requires Usable(fs, file, c) && InDomain(Seen(file), ReadBytes(len))
    modifies fs`tree, file`clust, file`sect, file`size, file`offset, file`dirty, file`chain
    modifies file`modified, file`accessed, file.buf, fs.fat, fs.fat.dev, fs.fat.buf
    ensures fs.fat.dev.faults == old(fs.fat.dev.faults) ==>
              && Aside(fs, file, c) && Performed(file, old(Seen(file)), ReadBytes(len), ok, out, 0)
    ensures SizeTold(old(file.size), old(file.modified), file)
    ensures old(fs.fat.Journal()) ==> fs.fat.Journal()
    ensures old(fs.fat.Tame()) ==> fs.fat.Tame()
  {
    hide Fat.Valid, Fat.Journal, Fat.Tame, NoneLeft, Sound, Holds, File.Intact, File.CutShort, FileSystem.Consistent,
         Splice, Capacity, Performed, Upkeep, Lengthened, SameFiles, File.Ahead, Delivered;
    SeenFacts(file);
    ghost var s := Seen(file);
    AheadDelivered(file, len);
    var err;
    err, out := FileRead(fs, file, len, c);
    ok := err == ERR_NONE || !file.canRead;
    if fs.fat.dev.faults == old(fs.fat.dev.faults) {
      ReadEnded(file, s, len, ok);
    }
  }

  method PerformWrite(fs: FileSystem, file: File, data: seq<byte>, ghost c: nat) returns (ok: bool, k: nat)
    requires Usable(fs, file, c)
    modifies fs`tree, file`clust, file`sect, file`size, file`offset, file`dirty, file`chain
    modifies file`modified, file`accessed, file.buf, fs.fat, fs.fat.dev, fs.fat.buf
    ensures fs.fat.dev.faults == old(fs.fat.dev.faults) ==>
              && Aside(fs, file, c) && file.Valid()
              && (old(InDomain(Seen(file), WriteBytes(data))) ==>
                    Performed(file, old(Seen(file)), WriteBytes(data), ok, [], k))
    ensures SizeTold(old(file.size), old(file.modified), file)
    ensures old(fs.fat.Journal()) ==> fs.fat.Journal()
    ensures old(fs.fat.Tame()) ==> fs.fat.Tame()
  {
    hide Fat.Valid, Fat.Journal, Fat.Tame, NoneLeft, Sound, Holds, File.Intact, File.CutShort, FileSystem.Consistent,
         Splice, Capacity, Performed, Upkeep, Lengthened, SameFiles;
    SeenFacts(file);
    ghost var s := Seen(file);
    var pos := file.offset;
    var err;
    err, k := FileWrite(fs, file, data, c);
    ok := !file.canWrite || file.offset == pos + |data|;
    if fs.fat.dev.faults == old(fs.fat.dev.faults) && InDomain(s, WriteBytes(data)) {
      WriteEnded(file, s, data, ok, k);
    }
  }

  /** One operation on any file of less than 2 GiB, if it is a read. Without device faults, and where the code
      behaves as described, it is completed if and only if there is, or can be, a cluster for the position that it
      ends at. */
  method Perform(fs: FileSystem, file: File, op: Op, ghost c: nat) returns (ok: bool, out: seq<byte>, ghost k: nat)
    requires Usable(fs, file, c) && (op.ReadBytes? ==> file.size < 0x8000_0000)
    modifies fs`tree, file`clust, file`sect, file`size, file`offset, file`dirty, file`chain
    modifies file`modified, file`accessed, file.buf, fs.fat, fs.fat.dev, fs.fat.buf
    ensures fs.fat.dev.faults == old(fs.fat.dev.faults) ==>
              && Aside(fs, file, c) && file.Intact() && file.sect != NO_SECT && (ok ==> file.Valid())
              && (old(InDomain(Seen(file), op)) ==> Performed(file, old(Seen(file)), op, ok, out, k))
    ensures SizeTold(old(file.size), old(file.modified), file)
    ensures old(fs.fat.Journal()) ==> fs.fat.Journal()
    ensures old(fs.fat.Tame()) ==> fs.fat.Tame()
  {
    hide Fat.Valid, Fat.Journal, Fat.Tame, NoneLeft, Sound, Holds, File.Intact, File.CutShort, FileSystem.Consistent,
         Splice, Capacity, Performed, Upkeep, Lengthened, Attached, SameFiles;
    SeenFacts(file);
    ghost var s := Seen(file);
    out, k := [], 0;
    match op {
      case SeekTo(delta, whence) => ok := PerformSeek(fs, file, delta, whence, c);
      case ReadBytes(len) => ok, out := PerformRead(fs, file, len, c);
      case WriteBytes(data) => ok, k := PerformWrite(fs, file, data, c);
    }
    if fs.fat.dev.faults == old(fs.fat.dev.faults) {
      EndsIntact(file, s, op, ok, out, k);
    }
  }

  lemma EndsIntact(file: File, s: Abstract, op: Op, ok: bool, out: seq<byte>, k: nat)
    requires Performed(file, s, op, ok, out, k) || file.Valid()
    ensures file.Intact() && file.sect != NO_SECT && (Performed(file, s, op, ok, out, k) && ok ==> file.Valid())
  {
    hide Fat.Valid, Holds, Capacity, NoneLeft;
  }

  lemma WholeData(data: seq<byte>)
    ensures data[..|data|] == data
  {
  }

  /** Every operation is met where the code behaves as described. */
  predicate AllInDomain(s: Abstract, ops: seq<Op>) {
    forall n :: 0 <= n < |ops| ==> InDomain(After(s, ops[..n]), ops[n])
  }

  /** Any run of operations, up to one that is stopped, or a read of a file of 2 GiB. Without device faults, and where
      the code behaves as described, what the operations up to `done` have delivered and done is what they do to a
      sequence of bytes and a position; `last` is what one that was stopped has delivered. */
  method Run(fs: FileSystem, file: File, ops: seq<Op>, ghost c: nat)
    returns (done: nat, outs: seq<seq<byte>>, last: seq<byte>, ghost k: nat)
    requires Usable(fs, file, c)
    modifies fs`tree, file`clust, file`sect, file`size, file`offset, file`dirty, file`chain, file`modified
    modifies file`accessed
    modifies file.buf, fs.fat, fs.fat.dev, fs.fat.buf
    ensures done <= |ops|
    ensures fs.fat.dev.faults == old(fs.fat.dev.faults) ==>
              && Aside(fs, file, c) && file.Intact() && file.sect != NO_SECT
              && (old(AllInDomain(Seen(file), ops)) ==>
                    && outs == Outputs(old(Seen(file)), ops[..done])
                    && if done == |ops| then file.Valid() && Seen(file) == After(old(Seen(file)), ops)
                       else Stopped(file, After(old(Seen(file)), ops[..done]), ops[done], last, k))
    ensures SizeTold(old(file.size), old(file.modified), file)
    ensures old(fs.fat.Journal()) ==> fs.fat.Journal()
    ensures old(fs.fat.Tame()) ==> fs.fat.Tame()
  {
    hide Fat.Valid, Fat.Journal, Fat.Tame, NoneLeft, Sound, File.Intact, Holds, FileSystem.Consistent, Step, Delivered,
         InDomain, After, Outputs, Stopped, SameFiles, Upkeep, Lengthened;
    var faults := fs.fat.dev.faults;
    ghost var s := Seen(file);
    done, outs, last, k := 0, [], [], 0;
    StartsAt(s, ops);
    AsideNow(fs, file, c);
    while done < |ops|
      invariant done <= |ops| && fs.fat.dev.faults == old(fs.fat.dev.faults)
      invariant Usable(fs, file, c) && Aside(fs, file, c)
      invariant AllInDomain(s, ops) ==> Seen(file) == After(s, ops[..done]) && outs == Outputs(s, ops[..done])
      invariant SizeTold(old(file.size), old(file.modified), file)
      invariant old(fs.fat.Journal()) ==> fs.fat.Journal()
      invariant old(fs.fat.Tame()) ==> fs.fat.Tame()
    {
      SeenFacts(file);
      DomainIs(Seen(file), ops[done]);
      if ops[done].ReadBytes? && file.size >= 0x8000_0000 {
        return;
      }
      ghost var v, f, t, ch := fs.fat.view, fs.fat.freeCnt, fs.tree, file.chain;
      var ok, out;
      ok, out, k := Perform(fs, file, ops[done], c);
      if fs.fat.dev.faults != faults {
        return;
      }
      AsideOn(fs.fat.geo, old(fs.fat.view), old(fs.fat.freeCnt), old(fs.tree), v, f, t, ch,
              fs.fat.view, fs.fat.freeCnt, fs.tree, file.chain, c);
      if !ok {
        last := out;
        return;
      }
      RunOn(s, ops, done);
      done, outs := done + 1, outs + [out];
    }
    assert ops[..done] == ops;
  }

  /** The domain in numbers: every seek, reads of less than 2 GiB, and writes that start no later than the end. */
  lemma DomainIs(s: Abstract, op: Op)
    ensures op.SeekTo? ==> InDomain(s, op)
    ensures op.ReadBytes? ==> (InDomain(s, op) <==> |s.contents| < 0x8000_0000)
    ensures op.WriteBytes? ==> (InDomain(s, op) <==> !s.canWrite || s.pos <= |s.contents|)
    ensures TooLong(s, op) <==> op.WriteBytes? && s.pos + |op.data| >= 0x1_0000_0000
  {
  }

  lemma AsideNow(fs: FileSystem, file: File, c: nat)
    requires Usable(fs, file, c)
    ensures Lengthened(fs.tree, fs.tree, c, file.chain) && fs.fat.geo.Wf(|fs.fat.view|)
    ensures Upkeep(fs.fat.geo, fs.fat.view, fs.fat.freeCnt, fs.fat.view, fs.fat.freeCnt)
    ensures SameFiles(fs.fat.geo, fs.fat.view, fs.tree, fs.fat.view, fs.tree, c)
  {
    hide Fat.Valid, Sound, Upkeep, Lengthened, SameFiles, Holds, File.Intact;
    TreeFacts(fs.fat.geo, fs.fat.view, fs.tree);
    SameChain(fs.tree, c, file.chain);
    UpkeepTables(fs.fat.geo, fs.fat.view, fs.fat.freeCnt, fs.fat.view);
    SameFilesRefl(fs.fat.geo, fs.fat.view, fs.tree, c);
  }

  lemma AsideOn(g: Geometry, v0: Image, f0: uint32, t0: Tree, v1: Image, f1: uint32, t1: Tree, ch1: seq<nat>, v2: Image,
                f2: uint32, t2: Tree, ch2: seq<nat>, c: nat)
    requires Lengthened(t0, t1, c, ch1) && Lengthened(t1, t2, c, ch2)
    requires g.Wf(|v0|) && |v1| == |v0| && |v2| == |v1| && Upkeep(g, v0, f0, v1, f1) && Upkeep(g, v1, f1, v2, f2)
    requires SameFiles(g, v0, t0, v1, t1, c) && SameFiles(g, v1, t1, v2, t2, c)
    ensures Lengthened(t0, t2, c, ch2) && Upkeep(g, v0, f0, v2, f2) && SameFiles(g, v0, t0, v2, t2, c)
  {
    hide Upkeep, SameBytes;
    LengthenedOn(t0, t1, ch1, t2, c, ch2);
    UpkeepTrans(g, v0, f0, v1, f1, v2, f2);
    SameFilesTrans(g, v0, t0, v1, t1, v2, t2, c);
  }

  lemma StartsAt(s: Abstract, ops: seq<Op>)
    ensures After(s, ops[..0]) == s && Outputs(s, ops[..0]) == []
  {
  }

  lemma LengthenedOn(t0: Tree, t1: Tree, ch1: seq<nat>, t2: Tree, c: nat, ch2: seq<nat>)
    requires Lengthened(t0, t1, c, ch1) && Lengthened(t1, t2, c, ch2)
    ensures Lengthened(t0, t2, c, ch2)
  {
    assert t0.chains[c := ch1][c := ch2] == t0.chains[c := ch2];
  }

  // ---------- the end of a run ----------

  /** What a run has made of the file, whether or not it came to its end. */
  function Result(s: Abstract, ops: seq<Op>, done: nat, k: nat, size: nat): seq<byte>
    requires done <= |ops|
  {
    if done == |ops| then After(s, ops).contents else Left(After(s, ops[..done]), ops[done], k, size)
  }

  /** Any run on an open file, and closing it. Whether or not the run came to its end, the device holds what it has
      made of the contents: the entry in the tree has their length, and its chain on the device has them. */
  method UseAndClose(fs: FileSystem, file: File, ops: seq<Op>, stamp: Stamp, ghost c: nat, ghost d: nat,
                     ghost item: Item)
    returns (err: int, done: nat, outs: seq<seq<byte>>, last: seq<byte>, ghost k: nat, ghost entry: Item,
             ghost contents: seq<byte>)
    requires Usable(fs, file, c)
    requires d in fs.tree.items && d in fs.tree.chains && item in fs.tree.items[d] && !IsDot(item) && Head(item) == c
    requires IsPlace(fs.fat.geo, fs.tree.chains[d], item.at, file.dirSect, file.dirIdx)
    requires !file.modified ==> SizeOf(item.sfn) == file.size
    modifies fs`tree, file`clust, file`sect, file`size, file`offset, file`dirty, file`chain, file`modified
    modifies file`accessed
    modifies file.buf, fs.fat, fs.fat.dev, fs.fat.buf
    ensures done <= |ops|
    ensures fs.fat.dev.faults == old(fs.fat.dev.faults) ==>
              && err == ERR_NONE && fs.Consistent() && fs.fat.dev.sectors == fs.fat.view
              && Worked(old(fs.tree), fs.tree, c, d, item, entry)
              && SizeOf(entry.sfn) == file.size
              && Holding(fs.fat.geo, fs.fat.dev.sectors, fs.tree, c, file.size, contents)
              && fs.fat.geo.Wf(|old(fs.fat.view)|) && |fs.fat.view| == |old(fs.fat.view)|
              && Upkeep(fs.fat.geo, old(fs.fat.view), old(fs.fat.freeCnt), fs.fat.view, fs.fat.freeCnt)
              && SameFiles(fs.fat.geo, old(fs.fat.view), old(fs.tree), fs.fat.view, fs.tree, c)
    ensures fs.fat.dev.faults == old(fs.fat.dev.faults) && old(AllInDomain(Seen(file), ops)) ==>
              && Outcome(fs.fat.geo, fs.fat.view, fs.tree, fs.fat.lastUsed, c, old(Seen(file)), ops, done, outs, last)
              && contents == Result(old(Seen(file)), ops, done, k, file.size)
    ensures old(fs.fat.Journal()) ==> fs.fat.Journal()
    ensures old(fs.fat.Tame()) ==> fs.fat.Tame()
  {
    hide Fat.Valid, Fat.Journal, Fat.Tame, NoneLeft, Sound, Upkeep, File.Intact, Holds, FileSystem.Consistent, TooLong,
         Step, Delivered, InDomain, After, Outputs, Exchanged, Holding, IsPlace, IsDot, SizeOf, Updated, Left,
         File.CutShort, SameFiles, Capacity;
    var faults := fs.fat.dev.faults;
    entry, contents := item, [];
    ghost var v0, f0, t0 := fs.fat.view, fs.fat.freeCnt, fs.tree;
    done, outs, last, k := Run(fs, file, ops, c);
    if fs.fat.dev.faults != faults {
      return ERR_IO, done, outs, last, k, entry, contents;
    }
    SeenFacts(file);
    ghost var v1, f1, t1 := fs.fat.view, fs.fat.freeCnt, fs.tree;
    ghost var accessed, modified := file.accessed, file.modified;
    contents := file.Contents();
    UpdatedFields(item.sfn, file.size, accessed, modified, stamp);
    err := FileClose(fs, file, stamp, c, d, item);
    entry := item.(sfn := EntryAfter(item.sfn, file.size, accessed, modified, stamp));
    if err == ERR_NONE {
      UpkeepTrans(fs.fat.geo, v0, f0, v1, f1, fs.fat.view, fs.fat.freeCnt);
      WorkedThen(fs.fat.geo, v0, t0, v1, t1, file.chain, fs.fat.view, fs.tree, c, d, item, entry);
    }
  }

  /** The entry in directory `d` is up to date: it keeps its name. */
  ghost predicate Reentered(tree: Tree, tree': Tree, d: nat, item: Item, entry: Item) {
    && d in tree.items && d in tree'.items && tree' == tree.(items := tree.items[d := tree'.items[d]])
    && Exchanged(tree.items[d], item, entry, tree'.items[d])
    && entry == item.(sfn := entry.sfn) && entry.sfn[..11] == item.sfn[..11]
  }

  /** The chain of `c` has grown, and the entry in directory `d` is up to date. */
  ghost predicate Worked(tree: Tree, tree': Tree, c: nat, d: nat, item: Item, entry: Item) {
    && c in tree.chains && c in tree'.chains && tree.chains[c] <= tree'.chains[c]
    && Reentered(tree.(chains := tree.chains[c := tree'.chains[c]]), tree', d, item, entry)
  }

  lemma WorkedThen(g: Geometry, v0: Image, t0: Tree, v1: Image, t1: Tree, ch: seq<nat>, v2: Image, t2: Tree, c: nat,
                   d: nat, item: Item, entry: Item)
    requires Lengthened(t0, t1, c, ch) && d in t1.items && d in t2.items
    requires t2 == t1.(items := t1.items[d := t2.items[d]])
    requires Exchanged(t1.items[d], item, entry, t2.items[d])
    requires entry == item.(sfn := entry.sfn) && entry.sfn[..11] == item.sfn[..11]
    requires SameFiles(g, v0, t0, v1, t1, c) && SameFiles(g, v1, t1, v2, t2, c)
    ensures Worked(t0, t2, c, d, item, entry) && SameFiles(g, v0, t0, v2, t2, c)
  {
    hide Exchanged, SameBytes;
    SameFilesTrans(g, v0, t0, v1, t1, v2, t2, c);
  }

  /** How far a run has come: to its end, or to an operation for which there is no cluster, or that goes on past the
      largest offset. */
  ghost predicate Outcome(g: Geometry, img: Image, tree: Tree, lastUsed: nat, c: nat, s: Abstract, ops: seq<Op>,
                          done: nat, outs: seq<seq<byte>>, last: seq<byte>)
  {
    && done <= |ops| && outs == Outputs(s, ops[..done])
    && (done < |ops| ==>
          var t := After(s, ops[..done]);
          && last == Delivered(t, ops[done])
          && (TooLong(t, ops[done]) ||
                (c in tree.chains && tree.chains[c] != [] && g.Wf(|img|)
                 && Capacity(g, |tree.chains[c]|) <= Step(t, ops[done]).pos
                 && NoneLeft(Table(g, img), lastUsed, tree.chains[c][|tree.chains[c]| - 1]))))
  }
}
