/** The kernel heap: a first-fit allocator over a linked list of block headers that lie in the heap itself. */
module Heap {
  import opened Bytes

  const HEAP_START := 0x0020_0000
  const HEAP_SIZE := 0x0010_0000
  const HEADER := 12
  const NULL := 0

  /** A block header in memory. The next block is named by its address. */
  datatype Header = Header(size: nat, isFree: bool, next: nat)

  /** A block of the list: where its header is, and the size of the region behind it. */
  datatype Block = Block(addr: nat, size: nat, isFree: bool) {
    function End(): nat {
      addr + HEADER + size
    }
  }

  const WHOLE := Block(HEAP_START, HEAP_SIZE - HEADER, true)

  // ---------- the list ----------

  /** The blocks cover the heap without gaps or overlaps. */
  ghost predicate Tiles(blocks: seq<Block>) {
    && blocks != [] && blocks[0].addr == HEAP_START && blocks[|blocks| - 1].End() == HEAP_START + HEAP_SIZE
    && forall i :: 0 <= i < |blocks| - 1 ==> blocks[i + 1].addr == blocks[i].End()
  }

  /** No two neighbours are free. */
  ghost predicate Coalesced(blocks: seq<Block>) {
    forall i :: 0 <= i < |blocks| - 1 ==> !(blocks[i].isFree && blocks[i + 1].isFree)
  }

  function NextAddr(blocks: seq<Block>, i: nat): nat {
    if i + 1 < |blocks| then blocks[i + 1].addr else NULL
  }

  /** The headers in memory link these blocks, in this order. */
  ghost predicate Linked(mem: map<nat, Header>, head: nat, blocks: seq<Block>) {
    && blocks != [] && head == blocks[0].addr
    && forall i :: 0 <= i < |blocks| ==>
         && blocks[i].addr in mem
         && mem[blocks[i].addr] == Header(blocks[i].size, blocks[i].isFree, NextAddr(blocks, i))
  }

  /** The header of block `i`. */
  lemma HeaderOf(mem: map<nat, Header>, head: nat, blocks: seq<Block>, i: nat)
    requires Linked(mem, head, blocks) && Tiles(blocks) && i < |blocks|
    ensures blocks[i].addr in mem && blocks[i].addr != NULL
    ensures mem[blocks[i].addr] == Header(blocks[i].size, blocks[i].isFree, NextAddr(blocks, i))
    ensures i + 1 < |blocks| ==> NextAddr(blocks, i) == blocks[i + 1].addr != NULL && blocks[i + 1].addr in mem
    ensures head == blocks[0].addr != NULL
  {
    BlocksDisjoint(blocks, i, i);
    if i + 1 < |blocks| {
      BlocksDisjoint(blocks, i + 1, i + 1);
    }
  }

  lemma FirstBlock(mem: map<nat, Header>, head: nat, blocks: seq<Block>)
    requires Linked(mem, head, blocks) && Tiles(blocks)
    ensures blocks != [] && head == blocks[0].addr != NULL
  {
  }

  lemma {:induction false} InOrder(blocks: seq<Block>, i: nat, j: nat)
    requires Tiles(blocks) && i < j < |blocks|
    ensures blocks[i].End() <= blocks[j].addr
    decreases j - i
  {
    if i + 1 < j {
      InOrder(blocks, i, j - 1);
    }
  }

  /** Every block lies in the heap, and different blocks, headers included, are disjoint. */
  lemma BlocksDisjoint(blocks: seq<Block>, i: nat, j: nat)
    requires Tiles(blocks) && i < |blocks| && j < |blocks|
    ensures HEAP_START <= blocks[i].addr && blocks[i].End() <= HEAP_START + HEAP_SIZE
    ensures i != j ==> blocks[i].End() <= blocks[j].addr || blocks[j].End() <= blocks[i].addr
  {
    if i > 0 {
      InOrder(blocks, 0, i);
    }
    if i < |blocks| - 1 {
      InOrder(blocks, i, |blocks| - 1);
    }
    if i < j {
      InOrder(blocks, i, j);
    } else if j < i {
      InOrder(blocks, j, i);
    }
  }

  // ---------- allocating ----------

  /** The rounding of a request, in 32 bits: it wraps to 0 for the seven largest requests. */
  function Rounded(size: uint32): (r: uint32) {
    (size + 7) % TWO_32 / 8 * 8
  }

  /** The rounded request is large enough exactly if the rounding does not wrap. */
  lemma RoundedEnough(size: uint32)
    ensures Rounded(size) >= size <==> size <= TWO_32 - 8
    ensures size <= TWO_32 - 8 ==> Rounded(size) < size + 8
    ensures Rounded(size) % 8 == 0
  {
  }

  predicate CanHold(b: Block, s: nat) {
    b.isFree && b.size >= s
  }

  /** The first block from `i` on that can hold `s` bytes, or the end of the list. */
  function FirstFit(blocks: seq<Block>, s: nat, i: nat): (r: nat)
    requires i <= |blocks|
    ensures i <= r <= |blocks|
    ensures forall j :: i <= j < r ==> !CanHold(blocks[j], s)
    ensures r < |blocks| ==> CanHold(blocks[r], s)
    decreases |blocks| - i
  {
    if i == |blocks| || CanHold(blocks[i], s) then i else FirstFit(blocks, s, i + 1)
  }

  /** Whether what is left of a block is worth a block of its own. */
  predicate Splits(b: Block, s: nat) {
    b.size >= s + HEADER + 8
  }

  /** The list with block `i` cut after `s` bytes. */
  function Cut(blocks: seq<Block>, i: nat, s: nat): (r: seq<Block>)
    requires i < |blocks| && s + HEADER <= blocks[i].size
    ensures |r| == |blocks| + 1
    ensures forall k :: 0 <= k < |r| ==>
              r[k] == if k < i then blocks[k]
                      else if k == i then blocks[i].(size := s)
                      else if k == i + 1 then Block(blocks[i].addr + HEADER + s, blocks[i].size - s - HEADER, true)
                      else blocks[k - 1]
  {
    var b := blocks[i];
    blocks[..i] + [b.(size := s), Block(b.addr + HEADER + s, b.size - s - HEADER, true)] + blocks[i + 1..]
  }

  /** The list with block `i` marked. */
  function Marked(blocks: seq<Block>, i: nat, free: bool): seq<Block>
    requires i < |blocks|
  {
    blocks[i := blocks[i].(isFree := free)]
  }

  /** The list after block `i` has been given out for `s` bytes. */
  function Taken(blocks: seq<Block>, i: nat, s: nat): (r: seq<Block>)
    requires i < |blocks| && s <= blocks[i].size
    ensures |r| > i
  {
    Marked(if Splits(blocks[i], s) then Cut(blocks, i, s) else blocks, i, false)
  }

  /** Giving out a free block keeps the list a tiling without free neighbours. */
  lemma TakenValid(blocks: seq<Block>, i: nat, s: nat)
    requires Tiles(blocks) && Coalesced(blocks) && i < |blocks| && blocks[i].isFree && s <= blocks[i].size
    ensures Tiles(Taken(blocks, i, s)) && Coalesced(Taken(blocks, i, s))
  {
    if Splits(blocks[i], s) {
      CutTiles(blocks, i, s);
    }
  }

  lemma CutTiles(blocks: seq<Block>, i: nat, s: nat)
    requires Tiles(blocks) && i < |blocks| && s + HEADER <= blocks[i].size
    ensures Tiles(Cut(blocks, i, s))
  {
  }

  /** The block that is given out is the only one that is live afterwards and was not before. */
  lemma TakenLive(blocks: seq<Block>, i: nat, s: nat, b: Block)
    requires i < |blocks| && blocks[i].isFree && s <= blocks[i].size && !b.isFree
    ensures Taken(blocks, i, s)[i].addr == blocks[i].addr && Taken(blocks, i, s)[i].size >= s
    ensures !Taken(blocks, i, s)[i].isFree
    ensures b in Taken(blocks, i, s) <==> b in blocks || b == Taken(blocks, i, s)[i]
  {
    var r := Taken(blocks, i, s);
    if b in blocks {
      var k :| 0 <= k < |blocks| && blocks[k] == b;
      assert r[if k < i || !Splits(blocks[i], s) then k else k + 1] == b;
    }
  }

  /** What is given out is less than 20 bytes more than what was asked for: if more was left over, that is cut off,
      and is a free block that ends where the whole one did. */
  lemma TakenBound(blocks: seq<Block>, i: nat, s: nat)
    requires i < |blocks| && s <= blocks[i].size
    ensures var r := Taken(blocks, i, s);
            && s <= r[i].size < s + 20
            && (|r| == |blocks| <==> blocks[i].size < s + 20)
            && (|r| == |blocks| ==> r == blocks[i := blocks[i].(isFree := false)])
            && (|r| != |blocks| ==>
                  && |r| == |blocks| + 1 && r[i] == Block(blocks[i].addr, s, false)
                  && r[i + 1] == Block(blocks[i].addr + 12 + s, blocks[i].size - s - 12, true)
                  && r[i + 1].End() == blocks[i].End() && r[i + 1].size >= 8
                  && r[..i] == blocks[..i] && r[i + 2..] == blocks[i + 1..])
  {
  }

  /** The bytes in free blocks. */
  function FreeBytes(blocks: seq<Block>): nat {
    if blocks == [] then 0 else (if blocks[0].isFree then blocks[0].size else 0) + FreeBytes(blocks[1..])
  }

  /** All the bytes that the blocks cover, headers included. */
  function Covered(blocks: seq<Block>): nat {
    if blocks == [] then 0 else blocks[0].size + 12 + Covered(blocks[1..])
  }

  lemma {:induction false} FreeBytesJoin(a: seq<Block>, b: seq<Block>)
    ensures FreeBytes(a + b) == FreeBytes(a) + FreeBytes(b)
  {
    if a == [] {
      assert a + b == b;
    } else {
      assert (a + b)[1..] == a[1..] + b;
      FreeBytesJoin(a[1..], b);
    }
  }

  /** A request takes from the free bytes what it was rounded to, and less than 20 more. */
  lemma TakenFreeBytes(blocks: seq<Block>, i: nat, s: nat)
    requires i < |blocks| && blocks[i].isFree && s <= blocks[i].size
    ensures s <= FreeBytes(blocks) - FreeBytes(Taken(blocks, i, s)) < s + 20
  {
    hide Taken;
    var b, r := blocks[i], Taken(blocks, i, s);
    TakenBound(blocks, i, s);
    assert blocks == blocks[..i] + ([b] + blocks[i + 1..]);
    FreeBytesJoin(blocks[..i], [b] + blocks[i + 1..]);
    if |r| == |blocks| {
      assert r == blocks[..i] + ([r[i]] + blocks[i + 1..]);
      FreeBytesJoin(blocks[..i], [r[i]] + blocks[i + 1..]);
    } else {
      assert r == blocks[..i] + ([r[i]] + ([r[i + 1]] + blocks[i + 1..]));
      FreeBytesJoin(blocks[..i], [r[i]] + ([r[i + 1]] + blocks[i + 1..]));
    }
  }

  /** The heap never loses a byte: its blocks and their headers add up to all of it. */
  lemma {:induction false} NothingLost(blocks: seq<Block>)
    requires blocks != [] && forall i :: 0 <= i < |blocks| - 1 ==> blocks[i + 1].addr == blocks[i].End()
    ensures Covered(blocks) == blocks[|blocks| - 1].End() - blocks[0].addr
    ensures Tiles(blocks) ==> Covered(blocks) == 0x10_0000
  {
    if |blocks| > 1 {
      NothingLost(blocks[1..]);
    }
  }

  // ---------- freeing ----------

  /** Merging free neighbours, from the front. */
  function Merged(blocks: seq<Block>): (r: seq<Block>)
    ensures |r| <= |blocks| && (r == [] <==> blocks == [])
    decreases |blocks|
  {
    if |blocks| < 2 then blocks
    else if blocks[0].isFree && blocks[1].isFree then Merged([Join(blocks[0], blocks[1])] + blocks[2..])
    else [blocks[0]] + Merged(blocks[1..])
  }

  function Join(a: Block, b: Block): Block {
    Block(a.addr, a.size + HEADER + b.size, true)
  }

  /** Merging leaves no free neighbours, whatever the list was like, and the first block stays where and what it was. */
  lemma {:induction false} MergedCoalesced(blocks: seq<Block>)
    requires blocks != []
    ensures Coalesced(Merged(blocks))
    ensures Merged(blocks)[0].addr == blocks[0].addr && Merged(blocks)[0].isFree == blocks[0].isFree
    decreases |blocks|
  {
    if |blocks| >= 2 {
      if blocks[0].isFree && blocks[1].isFree {
        MergedCoalesced([Join(blocks[0], blocks[1])] + blocks[2..]);
      } else {
        MergedCoalesced(blocks[1..]);
      }
    }
  }

  /** A stretch of blocks without gaps. */
  ghost predicate Abut(blocks: seq<Block>) {
    forall i :: 0 <= i < |blocks| - 1 ==> blocks[i + 1].addr == blocks[i].End()
  }

  lemma JoinedAbut(blocks: seq<Block>)
    requires |blocks| >= 2 && Abut(blocks)
    ensures Abut(blocks[1..]) && blocks[1].addr == blocks[0].End()
    ensures var next := [Join(blocks[0], blocks[1])] + blocks[2..];
            Abut(next) && next[|next| - 1].End() == blocks[|blocks| - 1].End()
  {
  }

  lemma PushedAbut(b: Block, blocks: seq<Block>)
    requires blocks != [] && Abut(blocks) && blocks[0].addr == b.End()
    ensures Abut([b] + blocks)
  {
  }

  lemma {:induction false} MergedAbut(blocks: seq<Block>)
    requires blocks != [] && Abut(blocks)
    ensures Abut(Merged(blocks)) && Merged(blocks)[|Merged(blocks)| - 1].End() == blocks[|blocks| - 1].End()
    decreases |blocks|
  {
    hide Abut, Coalesced;
    if |blocks| >= 2 {
      JoinedAbut(blocks);
      if blocks[0].isFree && blocks[1].isFree {
        MergedAbut([Join(blocks[0], blocks[1])] + blocks[2..]);
      } else {
        MergedAbut(blocks[1..]);
        MergedCoalesced(blocks[1..]);
        PushedAbut(blocks[0], Merged(blocks[1..]));
      }
    }
  }

  /** Merging does not touch live blocks. */
  lemma {:induction false} MergedLive(blocks: seq<Block>, b: Block)
    requires !b.isFree
    ensures b in Merged(blocks) <==> b in blocks
    decreases |blocks|
  {
    if |blocks| >= 2 {
      if blocks[0].isFree && blocks[1].isFree {
        assert blocks == [blocks[0], blocks[1]] + blocks[2..];
        MergedLive([Join(blocks[0], blocks[1])] + blocks[2..], b);
      } else {
        assert blocks == [blocks[0]] + blocks[1..];
        MergedLive(blocks[1..], b);
      }
    }
  }

  /** The list after block `i` has been freed. */
  function Freed(blocks: seq<Block>, i: nat): seq<Block>
    requires i < |blocks|
  {
    Merged(Marked(blocks, i, true))
  }

  lemma MarkedTiles(blocks: seq<Block>, i: nat, free: bool)
    requires Tiles(blocks) && i < |blocks|
    ensures Tiles(Marked(blocks, i, free))
  {
  }

  /** Freeing any block keeps the list a tiling without free neighbours. */
  lemma FreedValid(blocks: seq<Block>, i: nat)
    requires Tiles(blocks) && i < |blocks|
    ensures Tiles(Freed(blocks, i)) && Coalesced(Freed(blocks, i))
  {
    var marked := Marked(blocks, i, true);
    MergedAbut(marked);
    MergedCoalesced(marked);
  }

  /** Exactly the freed block is no longer live. */
  lemma FreedLive(blocks: seq<Block>, i: nat, b: Block)
    requires Tiles(blocks) && i < |blocks| && !b.isFree
    ensures b in Freed(blocks, i) <==> b in blocks && b != blocks[i]
  {
    var marked := Marked(blocks, i, true);
    MergedLive(marked, b);
    if b in blocks && b != blocks[i] {
      var k :| 0 <= k < |blocks| && blocks[k] == b;
      assert marked[k] == b;
    }
    if b in marked {
      var k :| 0 <= k < |marked| && marked[k] == b;
      BlocksDisjoint(blocks, i, k);
    }
  }

  /** When nothing is live, the heap is back in its initial state. */
  lemma NothingLive(blocks: seq<Block>)
    requires Tiles(blocks) && Coalesced(blocks)
    ensures (forall b :: b in blocks ==> b.isFree) <==> blocks == [WHOLE]
  {
    if |blocks| > 1 {
      assert blocks[0] in blocks && blocks[1] in blocks;
      assert !(blocks[0].isFree && blocks[0 + 1].isFree);
    } else {
      assert blocks == [blocks[0]];
    }
  }

  /** Without free neighbours, free space is not split up: a stretch of the heap that no live block meets lies within
      one free block. */
  lemma {:induction false} FreeSpace(blocks: seq<Block>, a: nat, len: nat, i: nat) returns (k: nat)
    requires Tiles(blocks) && Coalesced(blocks) && 0 < len && i < |blocks|
    requires blocks[i].addr <= a && a + len <= HEAP_START + HEAP_SIZE
    requires forall b :: b in blocks && !b.isFree ==> b.End() <= a || a + len <= b.addr
    ensures k < |blocks| && blocks[k].isFree && blocks[k].addr <= a && a + len <= blocks[k].End()
    decreases |blocks| - i
  {
    assert blocks[i] in blocks && (i + 1 < |blocks| ==> blocks[i + 1] in blocks);
    if blocks[i].End() <= a {
      k := FreeSpace(blocks, a, len, i + 1);
    } else {
      k := i;
    }
  }

  // ---------- the code ----------

  class Heap {
    var head: nat
    // The headers that have been written to the heap, by address.
    var mem: map<nat, Header>

    ghost var blocks: seq<Block>

    ghost predicate Valid()
      reads this
    {
      Linked(mem, head, blocks) && Tiles(blocks) && Coalesced(blocks)
    }

    /** A pointer that has been given out and not been freed. */
    ghost predicate IsLive(ptr: nat)
      reads this
    {
      exists i :: 0 <= i < |blocks| && !blocks[i].isFree && blocks[i].addr + HEADER == ptr
    }

    /** `kheap_init`. */
    constructor Init()
      ensures Valid() && blocks == [WHOLE] && WHOLE == Block(0x20_0000, 0x0f_fff4, true)
    {
      head := HEAP_START;
      mem := map[HEAP_START := Header(HEAP_SIZE - HEADER, true, NULL)];
      blocks := [WHOLE];
    }

    /** `kmalloc`: the first free block that can hold the rounded request, split if it is much larger. */
    method Malloc(request: uint32) returns (ptr: nat)
      requires Valid()
      modifies this
      ensures Valid()
      ensures var s := Rounded(request); var i := FirstFit(old(blocks), s, 0);
              if request == 0 || i == |old(blocks)| then ptr == 0 && blocks == old(blocks)
              else ptr == old(blocks)[i].addr + HEADER && blocks == Taken(old(blocks), i, s)
      ensures blocks == Step(old(blocks), Alloc(request))
      ensures ptr != 0 ==>
                exists i :: 0 <= i < |blocks| && GivenOut(old(blocks), blocks, i, ptr, Rounded(request))
    {
      hide Linked, Tiles, Coalesced, Taken, FreeBytes;
      if request == 0 {
        return NULL;
      }
      var size := Rounded(request);
      var current := head;
      ghost var i := 0;
      FirstBlock(mem, head, blocks);
      while current != NULL
        invariant Valid() && blocks == old(blocks) && 0 <= i <= |blocks|
        invariant i < |blocks| ==> blocks[i].addr == current != NULL
        invariant i == |blocks| ==> current == NULL
        invariant FirstFit(blocks, size, 0) == FirstFit(blocks, size, i)
        decreases |blocks| - i
      {
        HeaderOf(mem, head, blocks, i);
        var h := mem[current];
        if h.isFree && h.size >= size {
          TakenBound(blocks, i, size);
          TakenFreeBytes(blocks, i, size);
          Take(current, size, i);
          ptr := current + HEADER;
          assert i < |blocks| && GivenOut(old(blocks), blocks, i, ptr, Rounded(request));
          return;
        }
        current := h.next;
        i := i + 1;
      }
      return NULL;
    }

    /** The part of `kmalloc` that gives out the block at `current`. */
    method Take(current: nat, size: nat, ghost i: nat)
      requires Valid() && i < |blocks| && current == blocks[i].addr && blocks[i].isFree && size <= blocks[i].size
      modifies this
      ensures Valid() && blocks == Taken(old(blocks), i, size)
    {
      hide Linked, Tiles, Coalesced;
      TakenValid(blocks, i, size);
      HeaderOf(mem, head, blocks, i);
      var h := mem[current];
      if h.size >= size + HEADER + 8 {
        LinkedCut(mem, head, blocks, i, size);
        CutTiles(blocks, i, size);
        var new_ := current + HEADER + size;
        mem := mem[new_ := Header(h.size - size - HEADER, true, h.next)];
        mem := mem[current := Header(size, h.isFree, new_)];
        blocks := Cut(blocks, i, size);
      }
      LinkedMarked(mem, head, blocks, i, false);
      mem := mem[current := mem[current].(isFree := false)];
      blocks := Marked(blocks, i, false);
    }

    /** `kfree` of a live pointer: mark the block free, then merge free neighbours all along the list. */
    method Free(ptr: nat)
      requires Valid() && (ptr == 0 || IsLive(ptr))
      modifies this
      ensures Valid()
      ensures ptr == 0 ==> blocks == old(blocks)
      ensures ptr != 0 ==>
                exists i :: 0 <= i < |old(blocks)| && old(blocks)[i].addr + HEADER == ptr && !old(blocks)[i].isFree
                            && blocks == Freed(old(blocks), i) == Step(old(blocks), Release(i))
    {
      if ptr == NULL {
        return;
      }
      ghost var i :| 0 <= i < |blocks| && !blocks[i].isFree && blocks[i].addr + HEADER == ptr;
      FreeBlock(ptr - HEADER, i);
    }

    /** `kfree` of block `i`. */
    method FreeBlock(block: nat, ghost i: nat)
      requires Valid() && i < |blocks| && block == blocks[i].addr
      modifies this
      ensures Valid() && blocks == Freed(old(blocks), i)
    {
      hide Linked, Tiles, Coalesced, Merged;
      HeaderOf(mem, head, blocks, i);
      LinkedMarked(mem, head, blocks, i, true);
      FreedValid(blocks, i);
      MarkedTiles(blocks, i, true);
      mem := mem[block := mem[block].(isFree := true)];
      blocks := Marked(blocks, i, true);
      MergeAll();
    }

    /** The loop of `kfree`. */
    method MergeAll()
      requires Linked(mem, head, blocks) && Tiles(blocks)
      modifies this
      ensures Linked(mem, head, blocks) && blocks == Merged(old(blocks))
    {
      hide Linked, Tiles, Merged;
      var current := head;
      ghost var i := 0;
      FirstBlock(mem, head, blocks);
      MergedStart(blocks);
      while current != NULL
        invariant Linked(mem, head, blocks) && Tiles(blocks) && 0 <= i <= |blocks|
        invariant i < |blocks| ==> blocks[i].addr == current != NULL
        invariant i == |blocks| ==> current == NULL
        invariant Merged(old(blocks)) == blocks[..i] + Merged(blocks[i..])
        decreases |blocks| - i
      {
        HeaderOf(mem, head, blocks, i);
        var h := mem[current];
        if i + 1 < |blocks| {
          HeaderOf(mem, head, blocks, i + 1);
        }
        if h.isFree && h.next != NULL && mem[h.next].isFree {
          MergedJoin(blocks, i);
          LinkedJoined(mem, head, blocks, i);
          mem := mem[current := Header(h.size + HEADER + mem[h.next].size, h.isFree, mem[h.next].next)];
          blocks := Joined(blocks, i);
        } else {
          MergedSkip(blocks, i);
          current := h.next;
          i := i + 1;
        }
      }
      MergedEnd(blocks);
    }
  }

  /** Block `i` has been given out for `s` bytes. It is less than 20 bytes larger, and so is what the free blocks have
      lost; what was cut off of it is a free block that ends where it ended. */
  ghost predicate GivenOut(blocks: seq<Block>, blocks': seq<Block>, i: nat, ptr: nat, s: nat) {
    && i < |blocks| && i < |blocks'| && blocks[i].isFree && !blocks'[i].isFree && s <= blocks'[i].size < s + 20
    && blocks'[i].addr == blocks[i].addr == ptr - 12
    && s <= FreeBytes(blocks) - FreeBytes(blocks') < s + 20
    && (blocks'[i].size == blocks[i].size ||
          (i + 1 < |blocks'| && blocks'[i + 1].isFree && blocks'[i + 1].addr == blocks'[i].End()
           && blocks'[i + 1].End() == blocks[i].End()))
  }

  // ---------- the stores ----------

  /** A header of the list is in memory. */
  ghost predicate Stored(mem: map<nat, Header>, blocks: seq<Block>, k: nat)
    requires k < |blocks|
  {
    blocks[k].addr in mem && mem[blocks[k].addr] == Header(blocks[k].size, blocks[k].isFree, NextAddr(blocks, k))
  }

  lemma LinkedAll(mem: map<nat, Header>, head: nat, blocks: seq<Block>)
    requires blocks != [] && head == blocks[0].addr && forall k :: 0 <= k < |blocks| ==> Stored(mem, blocks, k)
    ensures Linked(mem, head, blocks)
  {
    forall k | 0 <= k < |blocks|
      ensures blocks[k].addr in mem
      ensures mem[blocks[k].addr] == Header(blocks[k].size, blocks[k].isFree, NextAddr(blocks, k))
    {
      assert Stored(mem, blocks, k);
    }
  }

  lemma LinkedMarked(mem: map<nat, Header>, head: nat, blocks: seq<Block>, i: nat, free: bool)
    requires Linked(mem, head, blocks) && Tiles(blocks) && i < |blocks|
    ensures var a := blocks[i].addr;
            a in mem && Linked(mem[a := mem[a].(isFree := free)], head, Marked(blocks, i, free))
  {
    hide Linked, Tiles;
    Apart(blocks, i);
    HeaderOf(mem, head, blocks, i);
    var a, marked := blocks[i].addr, Marked(blocks, i, free);
    var mem' := mem[a := mem[a].(isFree := free)];
    forall k | 0 <= k < |marked|
      ensures Stored(mem', marked, k)
    {
      HeaderOf(mem, head, blocks, k);
    }
    LinkedAll(mem', head, marked);
  }

  lemma LinkedCut(mem: map<nat, Header>, head: nat, blocks: seq<Block>, i: nat, s: nat)
    requires Linked(mem, head, blocks) && Tiles(blocks) && i < |blocks| && s + HEADER <= blocks[i].size
    ensures var b := blocks[i]; var new_ := b.addr + HEADER + s;
            Linked(mem[new_ := Header(b.size - s - HEADER, true, NextAddr(blocks, i))]
                   [b.addr := Header(s, b.isFree, new_)],
                   head, Cut(blocks, i, s))
  {
    hide Linked, Tiles;
    var b, cut := blocks[i], Cut(blocks, i, s);
    var new_ := b.addr + HEADER + s;
    Apart(blocks, i);
    FirstBlock(mem, head, blocks);
    var mem' := mem[new_ := Header(b.size - s - HEADER, true, NextAddr(blocks, i))]
      [b.addr := Header(s, b.isFree, new_)];
    forall k | 0 <= k < |cut|
      ensures Stored(mem', cut, k)
    {
      HeaderOf(mem, head, blocks, if k <= i then k else k - 1);
    }
    LinkedAll(mem', head, cut);
  }

  /** The list with block `i` and the next one made one. */
  function Joined(blocks: seq<Block>, i: nat): (r: seq<Block>)
    requires i + 1 < |blocks|
    ensures |r| == |blocks| - 1 && r[..i] == blocks[..i]
    ensures forall k :: 0 <= k < |r| ==>
              r[k] == if k < i then blocks[k] else if k == i then Join(blocks[i], blocks[i + 1]) else blocks[k + 1]
  {
    blocks[..i] + [Join(blocks[i], blocks[i + 1])] + blocks[i + 2..]
  }

  lemma LinkedJoined(mem: map<nat, Header>, head: nat, blocks: seq<Block>, i: nat)
    requires Linked(mem, head, blocks) && Tiles(blocks) && i + 1 < |blocks| && blocks[i].isFree
    ensures var a, b := blocks[i], blocks[i + 1];
            Linked(mem[a.addr := Header(a.size + HEADER + b.size, a.isFree, NextAddr(blocks, i + 1))],
                   head, Joined(blocks, i))
    ensures Tiles(Joined(blocks, i)) && Joined(blocks, i)[i].addr == blocks[i].addr
  {
    hide Linked, Tiles;
    Apart(blocks, i);
    FirstBlock(mem, head, blocks);
    JoinedTiles(blocks, i);
    var a, b, joined := blocks[i], blocks[i + 1], Joined(blocks, i);
    var mem' := mem[a.addr := Header(a.size + HEADER + b.size, a.isFree, NextAddr(blocks, i + 1))];
    forall k | 0 <= k < |joined|
      ensures Stored(mem', joined, k)
    {
      HeaderOf(mem, head, blocks, if k <= i then k else k + 1);
    }
    LinkedAll(mem', head, joined);
  }

  lemma JoinedTiles(blocks: seq<Block>, i: nat)
    requires Tiles(blocks) && i + 1 < |blocks|
    ensures Tiles(Joined(blocks, i))
  {
  }

  lemma MergedStart(blocks: seq<Block>)
    ensures Merged(blocks) == blocks[..0] + Merged(blocks[0..])
  {
    assert blocks[0..] == blocks;
  }

  lemma MergedEnd(blocks: seq<Block>)
    ensures blocks[..|blocks|] + Merged(blocks[|blocks|..]) == blocks
  {
  }

  lemma MergedJoin(blocks: seq<Block>, i: nat)
    requires i + 1 < |blocks| && blocks[i].isFree && blocks[i + 1].isFree
    ensures blocks[..i] + Merged(blocks[i..]) == Joined(blocks, i)[..i] + Merged(Joined(blocks, i)[i..])
  {
    var rest := blocks[i..];
    assert rest[2..] == blocks[i + 2..];
    assert Joined(blocks, i)[i..] == [Join(rest[0], rest[1])] + rest[2..];
  }

  /** A block's address is the address of no other block, and not null. */
  lemma Apart(blocks: seq<Block>, i: nat)
    requires Tiles(blocks) && i < |blocks|
    ensures blocks[i].addr >= HEAP_START
    ensures forall k :: 0 <= k < |blocks| && k != i ==>
              && blocks[k].addr != blocks[i].addr
              && !(blocks[i].addr <= blocks[k].addr < blocks[i].End())
              && blocks[k].addr >= HEAP_START
  {
    BlocksDisjoint(blocks, i, i);
    forall k | 0 <= k < |blocks| && k != i
      ensures blocks[k].addr != blocks[i].addr && !(blocks[i].addr <= blocks[k].addr < blocks[i].End())
      ensures blocks[k].addr >= HEAP_START
    {
      BlocksDisjoint(blocks, k, i);
    }
  }

  lemma MergedSkip(blocks: seq<Block>, i: nat)
    requires i < |blocks| && !(i + 1 < |blocks| && blocks[i].isFree && blocks[i + 1].isFree)
    ensures blocks[..i] + Merged(blocks[i..]) == blocks[..i + 1] + Merged(blocks[i + 1..])
  {
    var rest := blocks[i..];
    if i + 1 < |blocks| {
      assert rest[0] == blocks[i] && rest[1] == blocks[i + 1] && rest[1..] == blocks[i + 1..];
      assert Merged(rest) == [blocks[i]] + Merged(blocks[i + 1..]);
    } else {
      assert rest == [blocks[i]] && blocks[i + 1..] == [];
    }
    assert blocks[..i + 1] == blocks[..i] + [blocks[i]];
  }

  // ---------- what the allocator promises ----------

  /** A request fails exactly if it is for nothing, or if no free block is large enough. */
  lemma NullIff(blocks: seq<Block>, request: uint32)
    ensures FirstFit(blocks, Rounded(request), 0) == |blocks| <==> forall b :: b in blocks && b.isFree ==>
              b.size < Rounded(request)
  {
    var i := FirstFit(blocks, Rounded(request), 0);
    if i < |blocks| {
      assert blocks[i] in blocks;
    }
  }

  /** If some stretch of the heap that meets no live block has room for a header and the rounded request, the request
      succeeds. */
  lemma RoomMeansSuccess(blocks: seq<Block>, request: uint32, a: nat)
    requires Tiles(blocks) && Coalesced(blocks)
    requires HEAP_START <= a && a + HEADER + Rounded(request) <= HEAP_START + HEAP_SIZE
    requires forall b :: b in blocks && !b.isFree ==> b.End() <= a || a + HEADER + Rounded(request) <= b.addr
    ensures FirstFit(blocks, Rounded(request), 0) < |blocks|
  {
    var k := FreeSpace(blocks, a, HEADER + Rounded(request), 0);
    assert CanHold(blocks[k], Rounded(request));
  }

  /** A step of a run: a request that may fail, or the freeing of the block at an index. */
  datatype Op = Alloc(request: uint32) | Release(i: nat)

  function Step(blocks: seq<Block>, op: Op): seq<Block> {
    match op
    case Alloc(request) =>
      var i := FirstFit(blocks, Rounded(request), 0);
      if request == 0 || i == |blocks| then blocks else Taken(blocks, i, Rounded(request))
    case Release(i) => if i < |blocks| && !blocks[i].isFree then Freed(blocks, i) else blocks
  }

  function After(ops: seq<Op>): seq<Block> {
    if ops == [] then [WHOLE] else Step(After(ops[..|ops| - 1]), ops[|ops| - 1])
  }

  /** A block that starts and ends at multiples of four bytes. */
  predicate OnWord(b: Block) {
    b.addr % 4 == 0 && b.size % 4 == 0
  }

  ghost predicate OnWords(blocks: seq<Block>) {
    forall i :: 0 <= i < |blocks| ==> OnWord(blocks[i])
  }

  lemma {:induction false} MergedOnWords(blocks: seq<Block>)
    requires OnWords(blocks)
    ensures OnWords(Merged(blocks))
    decreases |blocks|
  {
    hide OnWord, Join;
    if |blocks| >= 2 {
      if blocks[0].isFree && blocks[1].isFree {
        JoinOnWord(blocks[0], blocks[1]);
        MergedOnWords([Join(blocks[0], blocks[1])] + blocks[2..]);
      } else {
        MergedOnWords(blocks[1..]);
      }
    }
  }

  lemma JoinOnWord(a: Block, b: Block)
    requires OnWord(a) && OnWord(b)
    ensures OnWord(Join(a, b))
  {
  }

  lemma EightOnFour(n: nat)
    requires n % 8 == 0
    ensures n % 4 == 0
  {
    var k := n / 8;
    assert n == 4 * (2 * k);
  }

  lemma PartsOnWord(b: Block, s: nat)
    requires OnWord(b) && s % 4 == 0 && s + HEADER <= b.size
    ensures OnWord(b.(size := s)) && OnWord(Block(b.addr + HEADER + s, b.size - s - HEADER, true))
  {
  }

  lemma MarkedOnWords(blocks: seq<Block>, i: nat, free: bool)
    requires OnWords(blocks) && i < |blocks|
    ensures OnWords(Marked(blocks, i, free))
  {
    assert OnWord(blocks[i]);
  }

  lemma TakenOnWords(blocks: seq<Block>, i: nat, request: uint32)
    requires OnWords(blocks) && i < |blocks| && Rounded(request) <= blocks[i].size
    ensures OnWords(Taken(blocks, i, Rounded(request)))
  {
    hide Rounded, OnWord, Marked;
    var s := Rounded(request);
    if Splits(blocks[i], s) {
      RoundedEnough(request);
      EightOnFour(s);
      PartsOnWord(blocks[i], s);
      MarkedOnWords(Cut(blocks, i, s), i, false);
    } else {
      MarkedOnWords(blocks, i, false);
    }
  }

  /** Every run keeps the list a tiling of the heap without free neighbours, on words; and a run that leaves nothing
      live ends in the initial state. */
  lemma {:induction false} EveryRun(ops: seq<Op>)
    ensures Tiles(After(ops)) && Coalesced(After(ops)) && OnWords(After(ops))
    ensures (forall b :: b in After(ops) ==> b.isFree) <==> After(ops) == [WHOLE]
    decreases |ops|
  {
    if ops != [] {
      var before, op := After(ops[..|ops| - 1]), ops[|ops| - 1];
      EveryRun(ops[..|ops| - 1]);
      match op {
        case Alloc(request) =>
          var i := FirstFit(before, Rounded(request), 0);
          if i < |before| {
            TakenValid(before, i, Rounded(request));
            TakenOnWords(before, i, request);
          }
        case Release(i) =>
          if i < |before| {
            FreedValid(before, i);
            MergedOnWords(Marked(before, i, true));
          }
      }
    }
    NothingLive(After(ops));
  }
}
