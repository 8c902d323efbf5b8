/** Two-level page tables in physical memory, and the pages they map. */
module Paging {
  import opened Bytes
  import opened Frames

  const ENTRIES := 1024
  const PAGE := 4096
  const PAGES := 0x10_0000
  const MAPPED := 0x1_0000

  /** A page of memory seen as 1024 words: a directory or a table. */
  type Table = t: seq<uint32> | |t| == ENTRIES witness seq(ENTRIES, _ => 0)

  /** Memory, by page address. */
  type Memory = map<nat, Table>

  function Cleared(): Table {
    seq(ENTRIES, _ => 0)
  }

  /** `x & 0xFFFFF000`. */
  function Base(x: uint32): (r: uint32)
    ensures r % PAGE == 0
  {
    x / PAGE * PAGE
  }

  /** It clears the low twelve bits and no others. */
  lemma BaseRange(x: uint32)
    ensures Base(x) <= x < Base(x) + 4096
  {
  }

  predicate Present(x: uint32) {
    x % 2 == 1
  }

  /** `flags | PAGE_PRESENT | PAGE_RW` for flags within a page offset. */
  function TableFlags(flags: nat): (r: nat)
    requires flags < PAGE
    ensures r < PAGE && Present(r) && r / 2 % 2 == 1 && flags <= r
  {
    flags + (if flags % 2 == 0 then 1 else 0) + (if flags / 2 % 2 == 0 then 2 else 0)
  }

  /** An entry of a directory that says that its table is there and can be written to: bits 0 and 1 are set, and all the
      others below the address are those of the flags. */
  ghost predicate NamesTable(e: uint32, flags: nat) {
    e % 4 == 3 && e % 4096 / 4 == flags / 4
  }

  lemma TableNamed(a: uint32, flags: nat)
    requires a % PAGE == 0 && flags < PAGE
    ensures a + TableFlags(flags) < TWO_32 && NamesTable(a + TableFlags(flags), flags)
    ensures (a + TableFlags(flags)) / PAGE == a / PAGE
  {
    var k, f := a / PAGE, TableFlags(flags);
    assert a == k * PAGE && f % 4 == 3 && f / 4 == flags / 4;
    assert (a + f) / PAGE == k && (a + f) % PAGE == f;
  }

  /** An aligned address and flags that fit below it, or-ed together. */
  lemma BaseAndFlags(a: uint32, flags: nat)
    requires a % PAGE == 0 && flags < PAGE
    ensures a + flags < TWO_32 && Base(a + flags) == a && (Present(a + flags) <==> flags % 2 == 1)
  {
    var k := a / PAGE;
    assert a == k * PAGE;
    assert (a + flags) / PAGE == k;
  }

  /** What the tables of a directory say about page `p`: its entry, or 0 if there is no table for it. */
  function Lookup(mem: Memory, dir: nat, p: nat): uint32
    requires p < PAGES
  {
    if dir !in mem then 0 else
    var e := mem[dir][p / ENTRIES];
    if Present(e) && Base(e) in mem then mem[Base(e)][p % ENTRIES] else 0
  }

  /** How the processor walks the tables: ten bits of the address choose an entry of the directory, the next ten an
      entry of the table that it names, if it is present. */
  lemma PageWalk(mem: Memory, dir: nat, virt: uint32)
    requires dir in mem && virt / 0x1000 < PAGES && virt / 0x40_0000 < 1024
    ensures var e := mem[dir][virt / 0x40_0000]; var a := e / 4096 * 4096;
            Lookup(mem, dir, virt / 0x1000) == if e % 2 == 1 && a in mem then mem[a][virt / 0x1000 % 1024] else 0
  {
    assert virt / 0x1000 / ENTRIES == virt / 0x40_0000;
  }

  /** The tables of a directory are in memory, apart from it and from each other. */
  ghost predicate Sound(mem: Memory, dir: nat) {
    && dir in mem
    && (forall i :: 0 <= i < ENTRIES && Present(mem[dir][i]) ==> Base(mem[dir][i]) in mem && Base(mem[dir][i]) != dir)
    && (forall i, j :: 0 <= i < j < ENTRIES && Present(mem[dir][i]) && Present(mem[dir][j]) ==>
           Base(mem[dir][i]) != Base(mem[dir][j]))
  }

  /** A page that the directory does not use. */
  ghost predicate Unused(mem: Memory, dir: nat, a: nat)
    requires dir in mem
  {
    a != dir && forall i :: 0 <= i < ENTRIES && Present(mem[dir][i]) ==> Base(mem[dir][i]) != a
  }

  /** Memory after `vmm_map` has asked for a table if it needed one, and got `frame`. */
  function WithTable(mem: Memory, dir: nat, pd: nat, frame: uint32, flags: nat): Memory
    requires dir in mem && pd < ENTRIES && frame % PAGE == 0 && flags < PAGE
  {
    if Present(mem[dir][pd]) then mem else
    BaseAndFlags(frame, TableFlags(flags));
    var cleared := mem[frame := Cleared()];
    cleared[dir := cleared[dir][pd := frame + TableFlags(flags)]]
  }

  /** A new table in an unused page keeps the directory sound and maps nothing. */
  lemma NewTable(mem: Memory, dir: nat, pd: nat, frame: uint32, flags: nat)
    requires Sound(mem, dir) && pd < ENTRIES && frame % PAGE == 0 && flags < PAGE
    requires Present(mem[dir][pd]) || Unused(mem, dir, frame)
    ensures var m := WithTable(mem, dir, pd, frame, flags);
            && Sound(m, dir) && Present(m[dir][pd])
            && forall p :: 0 <= p < PAGES ==> Lookup(m, dir, p) == Lookup(mem, dir, p)
  {
    BaseAndFlags(frame, TableFlags(flags));
    var m := WithTable(mem, dir, pd, frame, flags);
    forall p | 0 <= p < PAGES
      ensures Lookup(m, dir, p) == Lookup(mem, dir, p)
    {
      assert p / ENTRIES < ENTRIES;
      if p / ENTRIES == pd && !Present(mem[dir][pd]) {
        assert m[frame] == Cleared();
      }
    }
  }

  /** Storing an entry of a table changes what is said about its page, and about no other. */
  lemma EntryStored(mem: Memory, dir: nat, p: nat, v: uint32)
    requires Sound(mem, dir) && p < PAGES && p / ENTRIES < ENTRIES && Present(mem[dir][p / ENTRIES])
    ensures var a := Base(mem[dir][p / ENTRIES]);
            && a in mem
            && var m := mem[a := mem[a][p % ENTRIES := v]];
               && Sound(m, dir) && Lookup(m, dir, p) == v
               && forall q :: 0 <= q < PAGES && q != p ==> Lookup(m, dir, q) == Lookup(mem, dir, q)
  {
    var pd, a := p / ENTRIES, Base(mem[dir][p / ENTRIES]);
    var m := mem[a := mem[a][p % ENTRIES := v]];
    forall q | 0 <= q < PAGES && q != p
      ensures Lookup(m, dir, q) == Lookup(mem, dir, q)
    {
      assert q / ENTRIES < ENTRIES;
      if q / ENTRIES == pd {
        assert q % ENTRIES != p % ENTRIES;
      }
    }
  }

  /** If the frame for a new table is the table of another slot already, as the null frame is from the second time on,
      the pages of both slots share their entries from then on. */
  lemma SharedTable(mem: Memory, dir: nat, pd: nat, frame: uint32, flags: nat, j: nat, k: nat)
    requires Sound(mem, dir) && pd < ENTRIES && frame % PAGE == 0 && flags < PAGE && !Present(mem[dir][pd])
    requires j < ENTRIES && j != pd && k < ENTRIES && Present(mem[dir][j]) && Base(mem[dir][j]) == frame
    ensures var m := WithTable(mem, dir, pd, frame, flags);
            Lookup(m, dir, j * ENTRIES + k) == Lookup(m, dir, pd * ENTRIES + k) == 0
    ensures !Sound(WithTable(mem, dir, pd, frame, flags), dir)
  {
    BaseAndFlags(frame, TableFlags(flags));
    var m := WithTable(mem, dir, pd, frame, flags);
    assert (j * ENTRIES + k) / ENTRIES == j && (pd * ENTRIES + k) / ENTRIES == pd;
    assert m[frame] == Cleared();
    assert Present(m[dir][j]) && Present(m[dir][pd]) && Base(m[dir][j]) == Base(m[dir][pd]);
  }

  /** Page `p`, and no other, has got this entry. */
  ghost predicate OnePage(mem: Memory, m: Memory, dir: nat, p: nat, v: uint32) {
    && p < PAGES && Lookup(m, dir, p) == v
    && forall q :: 0 <= q < PAGES && q != p ==> Lookup(m, dir, q) == Lookup(mem, dir, q)
  }

  /** The null frame is the table of another slot. */
  ghost predicate NullTaken(mem: Memory, dir: nat, pd: nat)
    requires dir in mem
  {
    exists j :: 0 <= j < ENTRIES && j != pd && Present(mem[dir][j]) && Base(mem[dir][j]) == 0
  }

  /** Mapping a page with the null frame for its table changes exactly that page if and only if no other slot has that
      frame already, or its table says just what the new one is to say. */
  lemma NullFrameIff(mem: Memory, dir: nat, p: nat, flags: nat, v: uint32)
    requires Sound(mem, dir) && dir != 0 && p < PAGES && flags < PAGE && p / ENTRIES < ENTRIES
    requires !Present(mem[dir][p / ENTRIES])
    ensures NullTaken(mem, dir, p / ENTRIES) ==> 0 in mem
    ensures var m := WithTable(mem, dir, p / ENTRIES, 0, flags);
            && 0 in m
            && (OnePage(mem, m[0 := m[0][p % ENTRIES := v]], dir, p, v) <==>
                  !NullTaken(mem, dir, p / ENTRIES) || mem[0] == Cleared()[p % ENTRIES := v])
  {
    hide TableFlags;
    BaseAndFlags(0, TableFlags(flags));
    var pd, pt := p / ENTRIES, p % ENTRIES;
    var m := WithTable(mem, dir, pd, 0, flags);
    var after := m[0 := m[0][pt := v]];
    assert after[0] == Cleared()[pt := v];
    if NullTaken(mem, dir, pd) {
      var j :| 0 <= j < ENTRIES && j != pd && Present(mem[dir][j]) && Base(mem[dir][j]) == 0;
      NullShared(mem, after, dir, j, pd, pt, p, v);
    } else {
      forall q | 0 <= q < PAGES && q != p
        ensures Lookup(after, dir, q) == Lookup(mem, dir, q)
      {
        assert q / ENTRIES < ENTRIES;
        if q / ENTRIES == pd {
          assert q % ENTRIES != pt;
        }
      }
    }
  }

  /** With slot `j` sharing the table, nothing changes but page `p` if and only if the table stays as it was. */
  lemma NullShared(mem: Memory, after: Memory, dir: nat, j: nat, pd: nat, pt: nat, p: nat, v: uint32)
    requires p < PAGES && pd == p / ENTRIES < ENTRIES && pt == p % ENTRIES
    requires Sound(mem, dir) && dir != 0 && dir in after && 0 in after && after[0] == Cleared()[pt := v]
    requires j < ENTRIES && j != pd && Present(mem[dir][j]) && Base(mem[dir][j]) == 0
    requires !Present(mem[dir][pd]) && Present(after[dir][pd]) && Base(after[dir][pd]) == 0
    requires forall i :: 0 <= i < ENTRIES && i != pd ==> after[dir][i] == mem[dir][i]
    requires forall a :: a in mem && a != 0 && a != dir ==> a in after && after[a] == mem[a]
    ensures OnePage(mem, after, dir, p, v) <==> mem[0] == after[0]
  {
    forall k | 0 <= k < ENTRIES
      ensures (j * ENTRIES + k) / ENTRIES == j && (j * ENTRIES + k) % ENTRIES == k && j * ENTRIES + k < PAGES
      ensures Lookup(mem, dir, j * ENTRIES + k) == mem[0][k] && Lookup(after, dir, j * ENTRIES + k) == after[0][k]
    {
    }
    if OnePage(mem, after, dir, p, v) {
      forall k | 0 <= k < ENTRIES
        ensures mem[0][k] == after[0][k]
      {
        assert j * ENTRIES + k != p;
      }
      assert mem[0] == after[0];
    } else if mem[0] == after[0] {
      forall q | 0 <= q < PAGES && q != p
        ensures Lookup(after, dir, q) == Lookup(mem, dir, q)
      {
        assert q / ENTRIES < ENTRIES;
        if q / ENTRIES == pd {
          assert q % ENTRIES != pt;
        }
      }
    }
  }

  // ---------- the code ----------

  class Vmm {
    const pmm: Pmm
    var mem: Memory

    /** The directory is sound, and the frame allocator will not hand out its pages. */
    ghost predicate Valid(dir: nat)
      reads this, pmm, pmm.bitmap
    {
      pmm.Valid() && Sound(mem, dir) && AllHeld(pmm.bitmap[..], mem, dir)
    }

    /** `vmm_init`: the first 256 MiB are mapped to themselves. */
    constructor Init(p: Pmm, kernelDir: nat, kernelTables: nat)
      requires p.Valid() && kernelDir % PAGE == 0 && kernelTables % PAGE == 0
      requires kernelDir / PAGE < p.first && kernelTables + 256 * PAGE <= p.first * PAGE
      requires kernelDir < kernelTables || kernelTables + 256 * PAGE <= kernelDir
      requires forall f :: 0 <= f < p.first ==> Held(p.bitmap[..], f)
      ensures pmm == p && Valid(kernelDir)
      ensures forall q :: 0 <= q < PAGES ==>
                Lookup(mem, kernelDir, q) == if q < 0x1_0000 then q * 4096 + 3 else 0
      ensures forall a :: a in mem ==> a == kernelDir || exists i :: 0 <= i < 256 && a == TableAt(kernelTables, i)
    {
      pmm := p;
      mem := map[kernelDir := Cleared()];
      new;
      ClearTables(kernelDir, kernelTables);
      FillDirectory(kernelDir, kernelTables);
      FillTables(kernelDir, kernelTables);
      KernelMap(mem, kernelDir, kernelTables, pmm.bitmap[..], pmm.first);
    }

    /** The second `memset` of `vmm_init`. */
    method ClearTables(kernelDir: nat, kernelTables: nat)
      requires kernelDir in mem && mem[kernelDir] == Cleared()
      requires kernelDir < kernelTables || kernelTables + 256 * PAGE <= kernelDir
      modifies this
      ensures kernelDir in mem && mem[kernelDir] == Cleared()
      ensures forall i :: 0 <= i < 256 ==> TableAt(kernelTables, i) in mem && mem[TableAt(kernelTables, i)] == Cleared()
      ensures forall a :: a in mem ==> a in old(mem) || exists i :: 0 <= i < 256 && a == TableAt(kernelTables, i)
    {
      for n := 0 to 256
        invariant kernelDir in mem && mem[kernelDir] == Cleared()
        invariant forall a :: a in mem ==> a in old(mem) || exists i :: 0 <= i < 256 && a == TableAt(kernelTables, i)
        invariant forall i :: 0 <= i < n ==>
                    TableAt(kernelTables, i) in mem && mem[TableAt(kernelTables, i)] == Cleared()
      {
        mem := mem[TableAt(kernelTables, n) := Cleared()];
      }
    }

    /** The first loop of `vmm_init`. */
    method FillDirectory(kernelDir: nat, kernelTables: nat)
      requires kernelDir in mem && mem[kernelDir] == Cleared() && kernelTables + 256 * PAGE <= TWO_32
      requires kernelDir < kernelTables || kernelTables + 256 * PAGE <= kernelDir
      requires forall i :: 0 <= i < 256 ==>
                 TableAt(kernelTables, i) in mem && mem[TableAt(kernelTables, i)] == Cleared()
      modifies this
      ensures kernelDir in mem && DirectoryFilled(mem[kernelDir], kernelTables, 256)
      ensures forall i :: 0 <= i < 256 ==> TableAt(kernelTables, i) in mem && mem[TableAt(kernelTables, i)] == Cleared()
      ensures mem.Keys == old(mem.Keys)
    {
      for n := 0 to 256
        invariant mem.Keys == old(mem.Keys)
        invariant kernelDir in mem && DirectoryFilled(mem[kernelDir], kernelTables, n)
        invariant forall i :: 0 <= i < 256 ==>
                    TableAt(kernelTables, i) in mem && mem[TableAt(kernelTables, i)] == Cleared()
      {
        mem := mem[kernelDir := mem[kernelDir][n := TableAt(kernelTables, n) + TableFlags(0)]];
      }
    }

    /** The second loop of `vmm_init`. */
    method FillTables(kernelDir: nat, kernelTables: nat)
      requires kernelDir in mem && DirectoryFilled(mem[kernelDir], kernelTables, 256)
      requires kernelDir < kernelTables || kernelTables + 256 * PAGE <= kernelDir
      requires forall i :: 0 <= i < 256 ==>
                 TableAt(kernelTables, i) in mem && mem[TableAt(kernelTables, i)] == Cleared()
      modifies this
      ensures kernelDir in mem && DirectoryFilled(mem[kernelDir], kernelTables, 256)
      ensures TablesFilled(mem, kernelTables, MAPPED)
      ensures mem.Keys == old(mem.Keys)
    {
      var i := 0;
      ghost var n := 0;
      while i < 256 * 1024 * 1024
        invariant mem.Keys == old(mem.Keys)
        invariant i == n * PAGE && n <= MAPPED
        invariant kernelDir in mem && DirectoryFilled(mem[kernelDir], kernelTables, 256)
        invariant TablesFilled(mem, kernelTables, n)
        decreases MAPPED - n
      {
        var pd := i / 0x40_0000 % 0x400;
        var pt := i / 0x1000 % 0x400;
        assert pd == n / ENTRIES && pt == n % ENTRIES;
        FillOne(mem, kernelTables, n);
        var a := TableAt(kernelTables, pd);
        mem := mem[a := mem[a][pt := i + TableFlags(0)]];
        i := i + PAGE;
        n := n + 1;
      }
    }

    /** `vmm_map`. Exactly one page is mapped anew, even if a table had to be made. If there is no frame for the table,
        page 0 is cleared and taken for it: then that is so if and only if page 0 was no other slot's table, or one
        that said just what the new one says. */
    method Map(dir: nat, virt: uint32, phys: uint32, flags: nat)
      requires Valid(dir) && flags < PAGE
      modifies this, pmm`free, pmm.bitmap
      ensures pmm.Valid() && pmm.first == old(pmm.first) && pmm.total == old(pmm.total)
      ensures Present(old(mem[dir][virt / PAGE / ENTRIES])) || pmm.bitmap[..] != old(pmm.bitmap[..]) ==>
                && Valid(dir)
                && Lookup(mem, dir, virt / PAGE) == Base(phys) + flags
                && forall q :: 0 <= q < PAGES && q != virt / PAGE ==> Lookup(mem, dir, q) == Lookup(old(mem), dir, q)
      ensures Present(old(mem[dir][virt / PAGE / ENTRIES])) || pmm.bitmap[..] != old(pmm.bitmap[..]) ==>
                forall a :: a in old(mem) && a != dir && a != Base(mem[dir][virt / PAGE / ENTRIES]) ==>
                  a in mem && mem[a] == old(mem)[a]
      ensures Present(old(mem[dir][virt / PAGE / ENTRIES])) ==> pmm.bitmap[..] == old(pmm.bitmap[..])
      ensures pmm.bitmap[..] != old(pmm.bitmap[..]) ==>
                && dir in mem && NamesTable(mem[dir][virt / PAGE / ENTRIES], flags)
                && var f := mem[dir][virt / PAGE / ENTRIES] / PAGE;
                   && f < FRAMES && pmm.Managed(f) && !Held(old(pmm.bitmap[..]), f)
                   && pmm.bitmap[..] == WithHeld(old(pmm.bitmap[..]), f)
      ensures !Present(old(mem[dir][virt / PAGE / ENTRIES])) ==>
                (pmm.bitmap[..] == old(pmm.bitmap[..]) <==> forall f :: pmm.Managed(f) ==> Held(old(pmm.bitmap[..]), f))
      ensures !Present(old(mem[dir][virt / PAGE / ENTRIES])) && pmm.bitmap[..] == old(pmm.bitmap[..]) ==>
                var m := WithTable(old(mem), dir, virt / PAGE / ENTRIES, 0, flags);
                0 in m && mem == m[0 := m[0][virt / PAGE % ENTRIES := Base(phys) + flags]]
      ensures !Present(old(mem[dir][virt / PAGE / ENTRIES])) && pmm.bitmap[..] == old(pmm.bitmap[..]) && dir != 0 ==>
                (OnePage(old(mem), mem, dir, virt / PAGE, Base(phys) + flags) <==>
                   || !NullTaken(old(mem), dir, virt / PAGE / ENTRIES)
                   || (0 in old(mem) && old(mem)[0] == Cleared()[virt / PAGE % ENTRIES := Base(phys) + flags]))
    {
      hide Sound, Lookup, Base, Present, TableFlags, OnePage, NullTaken, NamesTable, WithHeld, Held;
      ghost var p, before, bits := virt / PAGE, mem, pmm.bitmap[..];
      var pd := virt / 0x40_0000 % 0x400;
      var pt := virt / 0x1000 % 0x400;
      assert pd == p / ENTRIES && pt == p % ENTRIES && p < PAGES && pd < ENTRIES;
      InMemory(mem, dir, pd);
      BaseAndFlags(Base(phys), flags);
      var table := Base(mem[dir][pd]);
      if !Present(mem[dir][pd]) {
        table := pmm.Alloc();
        FrameFits(table);
        BaseAndFlags(table, TableFlags(flags));
        TableNamed(table, flags);
        if table != 0 {
          NewTableHeld(before, dir, pd, table, flags, bits, pmm.bitmap[..]);
        }
        mem := mem[table := Cleared()];
        mem := mem[dir := mem[dir][pd := table + TableFlags(flags)]];
      }
      if Present(before[dir][pd]) || table != 0 {
        EntryStored(mem, dir, p, Base(phys) + flags);
      }
      mem := mem[table := mem[table][pt := Base(phys) + flags]];
      if !Present(before[dir][pd]) && dir != 0 {
        NullFrameIff(before, dir, p, flags, Base(phys) + flags);
      }
    }

    /** `vmm_unmap`: at most the one page is no longer mapped. */
    method Unmap(dir: nat, virt: uint32)
      requires Valid(dir)
      modifies this
      ensures Valid(dir) && Lookup(mem, dir, virt / PAGE) == 0
      ensures forall q :: 0 <= q < PAGES && q != virt / PAGE ==> Lookup(mem, dir, q) == Lookup(old(mem), dir, q)
    {
      ghost var p := virt / PAGE;
      var pd := virt / 0x40_0000 % 0x400;
      var pt := virt / 0x1000 % 0x400;
      assert pd == p / ENTRIES && pt == p % ENTRIES && p < PAGES && pd < ENTRIES;
      if !Present(mem[dir][pd]) {
        return;
      }
      EntryStored(mem, dir, p, 0);
      var table := Base(mem[dir][pd]);
      mem := mem[table := mem[table][pt := 0]];
    }
  }

  /** The page at this address is held. */
  ghost predicate HeldPage(m: Bitmap, a: nat) {
    a % PAGE == 0 && a / PAGE < FRAMES && Held(m, a / PAGE)
  }

  /** The pages of a directory and of its tables are held. */
  ghost predicate AllHeld(m: Bitmap, mem: Memory, dir: nat)
    requires dir in mem
  {
    && HeldPage(m, dir)
    && forall i :: 0 <= i < ENTRIES && Present(mem[dir][i]) ==> HeldPage(m, Base(mem[dir][i]))
  }

  lemma InMemory(mem: Memory, dir: nat, pd: nat)
    requires Sound(mem, dir) && pd < ENTRIES
    ensures dir in mem && (Present(mem[dir][pd]) ==> Base(mem[dir][pd]) in mem && Base(mem[dir][pd]) != dir)
  {
  }

  /** A frame that was not held is unused, so it can become a table; afterwards it is held. */
  lemma NewTableHeld(mem: Memory, dir: nat, pd: nat, frame: uint32, flags: nat, m: Bitmap, m': Bitmap)
    requires Sound(mem, dir) && AllHeld(m, mem, dir) && pd < ENTRIES && flags < PAGE && !Present(mem[dir][pd])
    requires frame % PAGE == 0 && frame / PAGE < FRAMES && !Held(m, frame / PAGE)
    requires forall k :: 0 <= k < FRAMES ==> (Held(m', k) <==> k == frame / PAGE || Held(m, k))
    ensures var after := WithTable(mem, dir, pd, frame, flags);
            && Sound(after, dir) && Present(after[dir][pd]) && Base(after[dir][pd]) == frame && AllHeld(m', after, dir)
            && forall p :: 0 <= p < PAGES ==> Lookup(after, dir, p) == Lookup(mem, dir, p)
    ensures m' != m
  {
    hide Held, Lookup;
    assert Unused(mem, dir, frame);
    NewTable(mem, dir, pd, frame, flags);
    BaseAndFlags(frame, TableFlags(flags));
  }

  lemma FrameFits(a: nat)
    requires a % PAGE == 0 && a / PAGE < FRAMES
    ensures a < TWO_32
  {
  }

  function TableAt(kernelTables: nat, i: nat): nat {
    kernelTables + i * PAGE
  }

  /** The first `n` slots of the kernel's directory hold its tables, the others nothing. */
  ghost predicate DirectoryFilled(t: Table, kernelTables: nat, n: nat) {
    forall i :: 0 <= i < ENTRIES ==> t[i] == if i < n then kernelTables + i * PAGE + TableFlags(0) else 0
  }

  /** The first `n` pages are mapped to themselves, and the rest of the 256 tables is clear. */
  ghost predicate TablesFilled(mem: Memory, kernelTables: nat, n: nat) {
    forall i :: 0 <= i < 256 ==> TableFilled(mem, kernelTables, i, n)
  }

  ghost predicate TableFilled(mem: Memory, kernelTables: nat, i: nat, n: nat) {
    && TableAt(kernelTables, i) in mem
    && forall k :: 0 <= k < ENTRIES ==>
         mem[TableAt(kernelTables, i)][k] == if i * ENTRIES + k < n then (i * ENTRIES + k) * PAGE + TableFlags(0) else 0
  }

  lemma FillOne(mem: Memory, kernelTables: nat, n: nat)
    requires TablesFilled(mem, kernelTables, n) && n < MAPPED
    ensures var a := TableAt(kernelTables, n / ENTRIES);
            a in mem && TablesFilled(mem[a := mem[a][n % ENTRIES := n * PAGE + TableFlags(0)]], kernelTables, n + 1)
  {
    var pd, a := n / ENTRIES, TableAt(kernelTables, n / ENTRIES);
    assert pd < 256 && TableFilled(mem, kernelTables, pd, n);
    var after := mem[a := mem[a][n % ENTRIES := n * PAGE + TableFlags(0)]];
    var next := n + 1;
    forall i | 0 <= i < 256
      ensures TableFilled(after, kernelTables, i, next)
    {
      assert TableFilled(mem, kernelTables, i, n);
      forall k | 0 <= k < ENTRIES
        ensures after[TableAt(kernelTables, i)][k] ==
                if i * ENTRIES + k < next then (i * ENTRIES + k) * PAGE + TableFlags(0) else 0
      {
        assert i * ENTRIES + k == n <==> i == pd && k == n % ENTRIES;
      }
    }
  }

  /** The kernel's directory maps the pages of the first 256 MiB to themselves and nothing else. */
  lemma KernelMap(mem: Memory, kernelDir: nat, kernelTables: nat, m: Bitmap, first: nat)
    requires kernelDir in mem && DirectoryFilled(mem[kernelDir], kernelTables, 256)
    requires TablesFilled(mem, kernelTables, MAPPED)
    requires kernelDir % PAGE == 0 && kernelTables % PAGE == 0 && first <= FRAMES
    requires kernelDir / PAGE < first && kernelTables + 256 * PAGE <= first * PAGE
    requires kernelDir < kernelTables || kernelTables + 256 * PAGE <= kernelDir
    requires forall f :: 0 <= f < first ==> Held(m, f)
    ensures Sound(mem, kernelDir) && AllHeld(m, mem, kernelDir)
    ensures forall q :: 0 <= q < PAGES ==>
              Lookup(mem, kernelDir, q) == if q < MAPPED then q * PAGE + TableFlags(0) else 0
  {
    hide Held;
    var t := mem[kernelDir];
    forall i | 0 <= i < ENTRIES
      ensures Present(t[i]) <==> i < 256
      ensures i < 256 ==> Base(t[i]) == TableAt(kernelTables, i) && TableFilled(mem, kernelTables, i, MAPPED)
    {
      if i < 256 {
        BaseAndFlags(TableAt(kernelTables, i), TableFlags(0));
      }
    }
    forall q | 0 <= q < PAGES
      ensures Lookup(mem, kernelDir, q) == if q < MAPPED then q * PAGE + TableFlags(0) else 0
    {
      assert q / ENTRIES < ENTRIES && q == q / ENTRIES * ENTRIES + q % ENTRIES;
      assert q / ENTRIES < 256 ==> TableFilled(mem, kernelTables, q / ENTRIES, MAPPED);
    }
  }
}
