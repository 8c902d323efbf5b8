/** The physical frame allocator: a bitmap with one bit a frame, set while the frame is held. */
module Frames {

  const FRAME_SIZE := 4096
  const BITMAP_SIZE := 32768
  const FRAMES := 0x4_0000

  type Bitmap = s: seq<bv8> | |s| == BITMAP_SIZE witness seq(BITMAP_SIZE, _ => 0)

  /** `1 << off`. */
  function Mask(off: nat): (m: bv8)
    requires off < 8
    ensures m == 1 << off
  {
    match off
    case 0 => 0x01
    case 1 => 0x02
    case 2 => 0x04
    case 3 => 0x08
    case 4 => 0x10
    case 5 => 0x20
    case 6 => 0x40
    case _ => 0x80
  }

  function SetBit(b: bv8, i: nat): bv8
    requires i < 8
  {
    b | Mask(i)
  }

  function ClearBit(b: bv8, i: nat): bv8
    requires i < 8
  {
    b & !Mask(i)
  }

  predicate TestBit(b: bv8, i: nat)
    requires i < 8
  {
    b & Mask(i) != 0
  }

  /** Setting and clearing a bit changes that bit only, and each undoes the other. */
  lemma Bits(b: bv8, i: nat, j: nat)
    requires i < 8 && j < 8
    ensures TestBit(SetBit(b, i), j) <==> i == j || TestBit(b, j)
    ensures TestBit(ClearBit(b, i), j) <==> i != j && TestBit(b, j)
    ensures !TestBit(b, i) ==> ClearBit(SetBit(b, i), i) == b && ClearBit(b, i) == b
    ensures TestBit(b, i) ==> SetBit(ClearBit(b, i), i) == b
  {
    hide SetBit, ClearBit, TestBit;
    ThisBit(b, i);
    if i != j {
      OtherBit(b, i, j);
    }
  }

  lemma ThisBit(b: bv8, i: nat)
    requires i < 8
    ensures TestBit(SetBit(b, i), i) && !TestBit(ClearBit(b, i), i)
    ensures !TestBit(b, i) ==> ClearBit(SetBit(b, i), i) == b && ClearBit(b, i) == b
    ensures TestBit(b, i) ==> SetBit(ClearBit(b, i), i) == b
  {
    match i
    case 0 =>
    case 1 =>
    case 2 =>
    case 3 =>
    case 4 =>
    case 5 =>
    case 6 =>
    case _ =>
  }

  lemma OtherBit(b: bv8, i: nat, j: nat)
    requires i < 8 && j < 8 && i != j
    ensures TestBit(SetBit(b, i), j) <==> TestBit(b, j)
    ensures TestBit(ClearBit(b, i), j) <==> TestBit(b, j)
  {
    hide Mask;
    MasksApart(i, j);
    OtherMask(b, Mask(i), Mask(j));
  }

  lemma MasksApart(i: nat, j: nat)
    requires i < 8 && j < 8
    ensures i != j ==> Mask(i) & Mask(j) == 0
  {
  }

  lemma OtherMask(b: bv8, x: bv8, y: bv8)
    requires x & y == 0
    ensures (b | x) & y == b & y && (b & !x) & y == b & y
  {
  }

  /** The frame with number `f` is held. */
  predicate Held(m: Bitmap, f: nat)
    requires f < FRAMES
  {
    TestBit(m[f / 8], f % 8)
  }

  function WithHeld(m: Bitmap, f: nat): Bitmap
    requires f < FRAMES
  {
    m[f / 8 := SetBit(m[f / 8], f % 8)]
  }

  function WithFree(m: Bitmap, f: nat): Bitmap
    requires f < FRAMES
  {
    m[f / 8 := ClearBit(m[f / 8], f % 8)]
  }

  /** Setting and clearing the bit of a frame changes that frame only. */
  lemma BitUpdates(m: Bitmap, f: nat, k: nat)
    requires f < FRAMES && k < FRAMES
    ensures Held(WithHeld(m, f), k) <==> k == f || Held(m, k)
    ensures Held(WithFree(m, f), k) <==> k != f && Held(m, k)
  {
    hide SetBit, ClearBit, TestBit;
    if k / 8 == f / 8 {
      Bits(m[f / 8], f % 8, k % 8);
      assert k % 8 == f % 8 ==> k == f;
    }
  }

  /** What a free frame was allocated from is restored by freeing it, byte for byte. */
  lemma AllocThenFree(m: Bitmap, f: nat)
    requires f < FRAMES
    ensures !Held(m, f) ==> WithFree(WithHeld(m, f), f) == m
    ensures Held(m, f) ==> WithHeld(WithFree(m, f), f) == m
  {
    hide SetBit, ClearBit, TestBit;
    Bits(m[f / 8], f % 8, f % 8);
  }

  /** The number of frames in `[lo, hi)` that are not held. */
  function FreeIn(m: Bitmap, lo: nat, hi: nat): (n: nat)
    requires lo <= hi <= FRAMES
    ensures n <= hi - lo
    decreases hi - lo
  {
    if lo == hi then 0 else (if Held(m, lo) then 0 else 1) + FreeIn(m, lo + 1, hi)
  }

  lemma {:induction false} FreeInNone(m: Bitmap, lo: nat, hi: nat)
    requires lo <= hi <= FRAMES
    ensures FreeIn(m, lo, hi) == 0 <==> forall f :: lo <= f < hi ==> Held(m, f)
    decreases hi - lo
  {
    if lo < hi {
      FreeInNone(m, lo + 1, hi);
    }
  }

  lemma {:induction false} FreeInAll(m: Bitmap, lo: nat, hi: nat)
    requires lo <= hi <= FRAMES && forall f :: lo <= f < hi ==> !Held(m, f)
    ensures FreeIn(m, lo, hi) == hi - lo
    decreases hi - lo
  {
    if lo < hi {
      FreeInAll(m, lo + 1, hi);
    }
  }

  /** A change of one frame changes the count by one if the frame is in the range, and not otherwise. */
  lemma {:induction false} FreeInUpdate(m: Bitmap, m': Bitmap, lo: nat, hi: nat, f: nat)
    requires lo <= hi <= FRAMES && f < FRAMES
    requires forall k :: 0 <= k < FRAMES && k != f ==> Held(m', k) == Held(m, k)
    ensures FreeIn(m', lo, hi) == FreeIn(m, lo, hi)
              + (if lo <= f < hi && Held(m, f) && !Held(m', f) then 1 else 0)
              - (if lo <= f < hi && !Held(m, f) && Held(m', f) then 1 else 0)
    decreases hi - lo
  {
    if lo < hi {
      FreeInUpdate(m, m', lo + 1, hi, f);
    }
  }

  function RoundUp(a: nat): nat {
    (a + FRAME_SIZE - 1) / FRAME_SIZE
  }

  /** The number of frames that `pmm_init` arrives at: the difference, which wraps if there is no memory between the
      bounds, is clipped to the size of the bitmap. */
  function Clipped(memLow: nat, memHigh: nat): (n: nat)
    ensures n <= FRAMES
  {
    var n := (memHigh / FRAME_SIZE - RoundUp(memLow)) % 0x1_0000_0000;
    if n > FRAMES then FRAMES else n
  }

  /** It clips their number, but not the frames themselves: every managed frame has a bit exactly if there is memory
      between the bounds, or none but from address 0, and it ends within the first GiB. */
  lemma ClipIff(memLow: nat, memHigh: nat)
    requires memLow <= FRAMES * FRAME_SIZE && memHigh < 0x1_0000_0000
    ensures var first := RoundUp(memLow);
            first + Clipped(memLow, memHigh) <= FRAMES <==>
              first == 0 || (first <= memHigh / FRAME_SIZE <= FRAMES)
  {
  }

  class Pmm {
    const bitmap: array<bv8>
    var total: nat
    var free: nat
    var first: nat

    ghost predicate Valid()
      reads this, bitmap
    {
      && bitmap.Length == BITMAP_SIZE
      && 0 < first && first + total <= FRAMES
      && free == FreeIn(bitmap[..], first, first + total)
    }

    /** A frame number that the allocator manages. */
    predicate Managed(f: nat)
      reads this
    {
      first <= f < first + total
    }

    /** `pmm_init`: below `memLow` everything is held, above it nothing. The allocator is fit for use if and only if
        memory starts above address 0, is not empty and ends within the first GiB. */
    constructor Init(memLow: nat, memHigh: nat)
      requires memLow <= FRAMES * FRAME_SIZE && memHigh < 0x1_0000_0000
      ensures first == RoundUp(memLow) && free == total == Clipped(memLow, memHigh)
      ensures memLow <= 4096 * first < memLow + 4096
      ensures bitmap.Length == BITMAP_SIZE && forall f :: 0 <= f < FRAMES ==> (Held(bitmap[..], f) <==> f < first)
      ensures Valid() <==> 0 < first <= memHigh / 4096 <= 0x4_0000
      ensures fresh(bitmap)
    {
      bitmap := new bv8[BITMAP_SIZE](_ => 0);
      var fst := RoundUp(memLow);
      var tot := (memHigh / FRAME_SIZE - fst) % 0x1_0000_0000;
      if tot > BITMAP_SIZE * 8 {
        tot := BITMAP_SIZE * 8;
      }
      first, total, free := fst, tot, tot;
      new;
      ClipIff(memLow, memHigh);
      var i := 0;
      ghost var n := 0;
      while i < memLow
        invariant i == n * FRAME_SIZE && n <= RoundUp(memLow) && first == RoundUp(memLow)
        invariant free == total == Clipped(memLow, memHigh)
        invariant bitmap.Length == BITMAP_SIZE
        invariant forall f :: 0 <= f < FRAMES ==> (Held(bitmap[..], f) <==> f < n)
        decreases memLow - i
      {
        SetFrame(i);
        i := i + FRAME_SIZE;
        n := n + 1;
      }
      if first + total <= FRAMES {
        FreeInAll(bitmap[..], first, first + total);
      }
    }

    /** `set_frame`. */
    method SetFrame(addr: nat)
      requires bitmap.Length == BITMAP_SIZE && addr < FRAMES * FRAME_SIZE
      modifies bitmap
      ensures bitmap[..] == WithHeld(old(bitmap[..]), addr / FRAME_SIZE)
      ensures forall k :: 0 <= k < FRAMES ==>
                (Held(bitmap[..], k) <==> k == addr / FRAME_SIZE || Held(old(bitmap[..]), k))
    {
      hide SetBit, ClearBit, TestBit;
      var frame := addr / FRAME_SIZE;
      ghost var m := bitmap[..];
      bitmap[frame / 8] := SetBit(bitmap[frame / 8], frame % 8);
      forall k | 0 <= k < FRAMES
        ensures Held(bitmap[..], k) <==> k == frame || Held(m, k)
      {
        BitUpdates(m, frame, k);
      }
    }

    /** `clear_frame`. */
    method ClearFrame(addr: nat)
      requires bitmap.Length == BITMAP_SIZE && addr < FRAMES * FRAME_SIZE
      modifies bitmap
      ensures bitmap[..] == WithFree(old(bitmap[..]), addr / FRAME_SIZE)
      ensures forall k :: 0 <= k < FRAMES ==>
                (Held(bitmap[..], k) <==> k != addr / FRAME_SIZE && Held(old(bitmap[..]), k))
    {
      hide SetBit, ClearBit, TestBit;
      var frame := addr / FRAME_SIZE;
      ghost var m := bitmap[..];
      bitmap[frame / 8] := ClearBit(bitmap[frame / 8], frame % 8);
      forall k | 0 <= k < FRAMES
        ensures Held(bitmap[..], k) <==> k != frame && Held(m, k)
      {
        BitUpdates(m, frame, k);
      }
    }

    /** `test_frame`. */
    method TestFrame(addr: nat) returns (held: bool)
      requires bitmap.Length == BITMAP_SIZE && addr < FRAMES * FRAME_SIZE
      ensures held <==> Held(bitmap[..], addr / FRAME_SIZE)
    {
      hide SetBit, ClearBit, TestBit;
      var frame := addr / FRAME_SIZE;
      held := TestBit(bitmap[frame / 8], frame % 8);
    }

    /** `find_free_frame`: the lowest managed frame that is not held, or 0. */
    method FindFreeFrame() returns (addr: nat)
      requires Valid()
      ensures if forall f :: Managed(f) ==> Held(bitmap[..], f) then addr == 0 else
                && addr % FRAME_SIZE == 0 && Managed(addr / FRAME_SIZE) && !Held(bitmap[..], addr / FRAME_SIZE)
                && forall f :: first <= f < addr / FRAME_SIZE ==> Held(bitmap[..], f)
    {
      var i := 0;
      while i < total
        invariant i <= total && forall f :: first <= f < first + i ==> Held(bitmap[..], f)
      {
        addr := (first + i) * FRAME_SIZE;
        var held := TestFrame(addr);
        if !held {
          assert Managed(addr / FRAME_SIZE);
          return;
        }
        i := i + 1;
      }
      addr := 0;
    }

    /** `pmm_alloc_frame`: the lowest managed frame that is not held, which becomes held. It fails exactly when every
        managed frame is held. */
    method Alloc() returns (addr: nat)
      requires Valid()
      modifies this`free, bitmap
      ensures Valid() && first == old(first) && total == old(total)
      ensures addr == 0 <==> forall f :: Managed(f) ==> Held(old(bitmap[..]), f)
      ensures addr == 0 ==> bitmap[..] == old(bitmap[..]) && free == old(free) == 0
      ensures addr != 0 ==>
                var n := addr / 4096;
                && addr == n * 4096 && Managed(n) && !Held(old(bitmap[..]), n)
                && (forall f :: first <= f < n ==> Held(old(bitmap[..]), f))
                && bitmap[..] == WithHeld(old(bitmap[..]), n) && free == old(free) - 1
                && forall k :: 0 <= k < FRAMES ==> (Held(bitmap[..], k) <==> k == n || Held(old(bitmap[..]), k))
    {
      hide Held;
      ghost var m := bitmap[..];
      FreeInNone(m, first, first + total);
      if free == 0 {
        return 0;
      }
      addr := FindFreeFrame();
      if addr == 0 {
        return;
      }
      SetFrame(addr);
      free := free - 1;
      FreeInUpdate(m, bitmap[..], first, first + total, addr / FRAME_SIZE);
    }

    /** `pmm_free_frame`, of any frame that has a bit. The counter stays right if and only if the frame was a
        managed one or was not held. */
    method Free(addr: nat)
      requires bitmap.Length == BITMAP_SIZE && addr < FRAMES * FRAME_SIZE
      modifies this`free, bitmap
      ensures first == old(first) && total == old(total)
      ensures var n := addr / FRAME_SIZE;
              && bitmap[..] == WithFree(old(bitmap[..]), n)
              && free == (if Held(old(bitmap[..]), n) then old(free) + 1 else old(free))
              && (forall k :: 0 <= k < FRAMES ==> (Held(bitmap[..], k) <==> k != n && Held(old(bitmap[..]), k)))
              && (old(Valid()) ==> (Valid() <==> Managed(n) || !Held(old(bitmap[..]), n)))
    {
      ghost var m := bitmap[..];
      var held := TestFrame(addr);
      if !held {
        NotHeld(m, addr / FRAME_SIZE);
        return;
      }
      ClearFrame(addr);
      free := free + 1;
      if old(Valid()) {
        FreeKeepsCountIff(m, first, total, old(free), addr / FRAME_SIZE);
      }
    }
  }

  lemma NotHeld(m: Bitmap, f: nat)
    requires f < FRAMES && !Held(m, f)
    ensures WithFree(m, f) == m
  {
    hide SetBit, ClearBit, TestBit;
    Bits(m[f / 8], f % 8, f % 8);
  }

  /** Freeing a held frame keeps the counter in step exactly if the frame is one of the managed ones. */
  lemma FreeKeepsCountIff(m: Bitmap, first: nat, total: nat, free: nat, f: nat)
    requires first + total <= FRAMES && f < FRAMES && Held(m, f) && free == FreeIn(m, first, first + total)
    ensures free + 1 == FreeIn(WithFree(m, f), first, first + total) <==> first <= f < first + total
  {
    hide Held, WithFree;
    forall k | 0 <= k < FRAMES
      ensures Held(WithFree(m, f), k) <==> k != f && Held(m, k)
    {
      BitUpdates(m, f, k);
    }
    FreeInUpdate(m, WithFree(m, f), first, first + total, f);
  }
}
