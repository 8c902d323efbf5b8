/** Bytes, 512-byte sectors and the little-endian words stored in them. */
module Bytes {

  type byte = b: int | 0 <= b < 256

  const SECTOR_SIZE := 512

  type Sector = s: seq<byte> | |s| == SECTOR_SIZE witness seq(SECTOR_SIZE, _ => 0)

  /** The contents of a whole device, one element a sector. */
  type Image = seq<Sector>

  function ZeroSector(): (s: Sector)
    ensures forall i :: 0 <= i < SECTOR_SIZE ==> s[i] == 0
  {
    seq(SECTOR_SIZE, _ => 0)
  }

  const TWO_28 := 0x1000_0000
  const TWO_32 := 0x1_0000_0000

  type uint32 = w: int | 0 <= w < TWO_32

  /** The 32-bit word with index `i` in `s`, least significant byte first. */
  function Word(s: seq<byte>, i: nat): uint32
    requires 4 * i + 4 <= |s|
  {
    var b0: int, b1: int, b2: int, b3: int := s[4 * i], s[4 * i + 1], s[4 * i + 2], s[4 * i + 3];
    b0 + 0x100 * b1 + 0x1_0000 * b2 + 0x100_0000 * b3
  }

  /** The sector after storing the word `w` at word index `i`. */
  function WithWord(s: seq<byte>, i: nat, w: uint32): (r: seq<byte>)
    requires 4 * i + 4 <= |s|
    ensures |r| == |s|
  {
    s[4 * i := w % 0x100]
    [4 * i + 1 := w / 0x100 % 0x100]
    [4 * i + 2 := w / 0x1_0000 % 0x100]
    [4 * i + 3 := w / 0x100_0000]
  }

  /** Storing a word is read back by that index and seen by no other. */
  lemma WithWordReads(s: seq<byte>, i: nat, w: uint32, j: nat)
    requires 4 * i + 4 <= |s| && 4 * j + 4 <= |s|
    ensures Word(WithWord(s, i, w), j) == if i == j then w else Word(s, j)
  {
    WordBytes(w);
  }

  lemma WordBytes(w: uint32)
    ensures w ==
              w % 0x100 + 0x100 * (w / 0x100 % 0x100) + 0x1_0000 * (w / 0x1_0000 % 0x100)
              + 0x100_0000 * (w / 0x100_0000)
    ensures w / 0x100_0000 < 0x100
  {
    var a, b := w / 0x100, w / 0x1_0000;
    assert b == a / 0x100 && w / 0x100_0000 == b / 0x100;
  }

  /** The number that a run of bytes stands for, least significant byte first. */
  function Number(s: seq<byte>): nat {
    if s == [] then 0 else s[0] + 0x100 * Number(s[1..])
  }

  lemma NumberOfTwo(s: seq<byte>, t: seq<byte>)
    requires |s| == 2
    ensures var b0: int, b1: int := s[0], s[1]; Number(s) == b0 + 0x100 * b1
    ensures Number(s + t) == Number(s) + 0x1_0000 * Number(t)
  {
    assert s[1..] == [s[1]] && Number([s[1]]) == s[1];
    assert (s + t)[1..] == [s[1]] + t && ([s[1]] + t)[1..] == t;
  }

  lemma NumberOfFour(s: seq<byte>)
    requires |s| == 4
    ensures var b0: int, b1: int, b2: int, b3: int := s[0], s[1], s[2], s[3];
            Number(s) == b0 + 0x100 * b1 + 0x1_0000 * b2 + 0x100_0000 * b3
  {
    assert s[2..] == [s[2], s[3]] && s[..2] + s[2..] == s;
    NumberOfTwo(s[..2], s[2..]);
    NumberOfTwo(s[2..], []);
  }

  /** A word is four bytes of its sector. */
  lemma WordNumber(s: seq<byte>, i: nat)
    requires 4 * i + 4 <= |s|
    ensures Word(s, i) == Number(s[4 * i..4 * i + 4])
  {
    NumberOfFour(s[4 * i..4 * i + 4]);
  }

  /** The low 28 bits of a FAT word: the entry proper. */
  function Low28(w: uint32): (r: nat) {
    w % TWO_28
  }

  /** The reserved upper nibble of a FAT word. */
  function HighNibble(w: uint32): (r: nat)
    ensures r < 16
  {
    w / TWO_28
  }

  /** The word `old` with its low 28 bits replaced by those of `v`. */
  function ReplaceLow28(old_: uint32, v: nat): (r: uint32)
    ensures Low28(r) == v % TWO_28 && HighNibble(r) == HighNibble(old_)
  {
    HighNibble(old_) * TWO_28 + v % TWO_28
  }

  /** `++` and `--` on an unsigned 32-bit counter. */
  function Incremented(w: uint32): uint32 {
    if w == TWO_32 - 1 then 0 else w + 1
  }

  function Decremented(w: uint32): uint32 {
    if w == 0 then TWO_32 - 1 else w - 1
  }

  /** The counter after `n` increments. */
  function IncrementedBy(w: uint32, n: nat): uint32 {
    if n == 0 then w else Incremented(IncrementedBy(w, n - 1))
  }

  lemma {:induction false} IncrementedByIsSum(w: uint32, n: nat)
    ensures IncrementedBy(w, n) == (w + n) % TWO_32
  {
    if n > 0 {
      IncrementedByIsSum(w, n - 1);
      var q := (w + (n - 1)) / TWO_32;
      assert w + (n - 1) == q * TWO_32 + IncrementedBy(w, n - 1);
    }
  }

  /** Bit `k` of a byte. */
  predicate HasBit(b: byte, k: nat)
    requires k < 8
  {
    b / [1, 2, 4, 8, 16, 32, 64, 128][k] % 2 == 1
  }

  /** A byte is the sum of its bits, each with its power of two. */
  lemma BitsSum(b: byte)
    ensures b == Bit(b, 0) + 2 * Bit(b, 1) + 4 * Bit(b, 2) + 8 * Bit(b, 3)
              + 16 * Bit(b, 4) + 32 * Bit(b, 5) + 64 * Bit(b, 6) + 128 * Bit(b, 7)
  {
    hide HasBit;
    var b1, b2, b3, b4, b5, b6, b7 := b / 2, b / 4, b / 8, b / 16, b / 32, b / 64, b / 128;
    assert b2 == b1 / 2 && b3 == b2 / 2 && b4 == b3 / 2 && b5 == b4 / 2 && b6 == b5 / 2 && b7 == b6 / 2;
    LowBits(b);
    HighBits(b);
  }

  lemma LowBits(b: byte)
    ensures Bit(b, 0) == b % 2 && Bit(b, 1) == b / 2 % 2 && Bit(b, 2) == b / 4 % 2 && Bit(b, 3) == b / 8 % 2
  {
  }

  lemma HighBits(b: byte)
    ensures Bit(b, 4) == b / 16 % 2 && Bit(b, 5) == b / 32 % 2 && Bit(b, 6) == b / 64 % 2 && Bit(b, 7) == b / 128 % 2
  {
  }

  function Bit(b: byte, k: nat): int
    requires k < 8
  {
    if HasBit(b, k) then 1 else 0
  }

  method StoreWord(a: array<byte>, i: nat, w: uint32)
    requires 4 * i + 4 <= a.Length
    modifies a
    ensures a[..] == WithWord(old(a[..]), i, w)
  {
    a[4 * i] := w % 0x100;
    a[4 * i + 1] := w / 0x100 % 0x100;
    a[4 * i + 2] := w / 0x1_0000 % 0x100;
    a[4 * i + 3] := w / 0x100_0000;
  }
}
