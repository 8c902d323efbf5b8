/** Directory slots and the two kinds of names in them: 8.3 names with their checksum, and long-name fragments. */
module Names {
  import opened Bytes

  type Name = seq<byte>

  type Slot = s: seq<byte> | |s| == 32 witness seq(32, _ => 0)

  const SLOTS_PER_SECTOR := 16

  const SFN_FREE: byte := 0xe5
  const SFN_LAST: byte := 0x00
  const SFN_PAD: byte := 0x20
  const ATTR_LFN: byte := 0x0f
  const ATTR_DIR: byte := 0x10
  const ATTR_ARCHIVE: byte := 0x20
  const DOT: byte := 0x2e
  const SLASH: byte := 0x2f
  const UNDERSCORE: byte := 0x5f

  const ATTR_AT := 11
  const CRC_AT := 13

  predicate IsLast(s: Slot) {
    s[0] == SFN_LAST
  }

  predicate IsFree(s: Slot) {
    s[0] == SFN_LAST || s[0] == SFN_FREE
  }

  predicate IsLfn(s: Slot) {
    s[ATTR_AT] == ATTR_LFN
  }

  function ClusterOf(s: Slot): nat {
    var b0: int, b1: int, b2: int, b3: int := s[26], s[27], s[20], s[21];
    b0 + 0x100 * b1 + 0x1_0000 * b2 + 0x100_0000 * b3
  }

  function SizeOf(s: Slot): uint32 {
    Word(s, 7)
  }

  /** In numbers: byte 0 says whether a slot is free or the last one, byte 11 whether it is part of a long name; the
      cluster has its low half in bytes 26 and 27 and its high half in bytes 20 and 21, and the size is in the last
      four. */
  lemma SlotNumbers(s: Slot)
    ensures (IsLast(s) <==> s[0] == 0) && (IsFree(s) <==> s[0] == 0 || s[0] == 0xe5) && (IsLfn(s) <==> s[11] == 0x0f)
    ensures ClusterOf(s) == Number(s[26..28]) + 0x1_0000 * Number(s[20..22])
    ensures SizeOf(s) == Number(s[28..32])
  {
    NumberOfTwo(s[26..28], []);
    NumberOfTwo(s[20..22], []);
    WordNumber(s, 7);
  }

  // ---------- slots of a sector ----------

  function SlotAt(sector: Sector, k: nat): Slot
    requires k < SLOTS_PER_SECTOR
  {
    sector[32 * k..32 * k + 32]
  }

  function WithSlot(sector: Sector, k: nat, s: Slot): (r: Sector)
    requires k < SLOTS_PER_SECTOR
  {
    sector[..32 * k] + s + sector[32 * k + 32..]
  }

  /** Storing a slot is read back at that slot and seen at no other. */
  lemma WithSlotReads(sector: Sector, k: nat, s: Slot, j: nat)
    requires k < SLOTS_PER_SECTOR && j < SLOTS_PER_SECTOR
    ensures SlotAt(WithSlot(sector, k, s), j) == if j == k then s else SlotAt(sector, j)
  {
    var r := WithSlot(sector, k, s);
    assert forall i :: 0 <= i < 32 * k ==> r[i] == sector[i];
    assert forall i :: 32 * k <= i < 32 * k + 32 ==> r[i] == s[i - 32 * k];
    assert forall i :: 32 * k + 32 <= i < SECTOR_SIZE ==> r[i] == sector[i];
    if j == k {
      assert SlotAt(r, j) == s;
    } else {
      assert SlotAt(r, j) == SlotAt(sector, j);
    }
  }

  /** Changing one byte of a slot in its sector. */
  lemma WithSlotByte(sector: Sector, k: nat, i: nat, b: byte)
    requires k < SLOTS_PER_SECTOR && i < 32
    ensures sector[32 * k + i := b] == WithSlot(sector, k, SlotAt(sector, k)[i := b])
  {
  }

  /** A sector that differs in one slot only. */
  lemma WithSlotElsewhere(a: Sector, b: Sector, k: nat)
    requires k < SLOTS_PER_SECTOR
    requires forall i :: 0 <= i < SECTOR_SIZE && !(32 * k <= i < 32 * k + 32) ==> b[i] == a[i]
    ensures b == WithSlot(a, k, SlotAt(b, k))
  {
  }

  // ---------- 8.3 names ----------

  function ToUpper(c: byte): byte {
    if 0x61 <= c <= 0x7a then c - 0x20 else c
  }

  /** The special characters that an 8.3 name may contain: those of `!#$%&'()-@^_` followed by a backquote,
      curly braces, the tilde and the space. */
  const SPECIAL: seq<byte> :=
    [0x21, 0x23, 0x24, 0x25, 0x26, 0x27, 0x28, 0x29, 0x2d, 0x40, 0x5e, 0x5f, 0x60, 0x7b, 0x7d, 0x7e, 0x20]

  /** Letters are folded to upper case, allowed characters are kept, and everything else, digits included, becomes
      an underscore. */
  function SfnChar(c: byte): (r: byte)
    ensures r != SFN_LAST && r != SFN_FREE && r != DOT
  {
    var u := ToUpper(c);
    if 0x41 <= u <= 0x5a then u else if u in SPECIAL then u else UNDERSCORE
  }

  /** In numbers: capital letters and the special characters stay, small letters lose their bit 5, and all else,
      digits and other bytes alike, becomes 0x5f. */
  lemma SfnCharRanges(c: byte)
    ensures 0x41 <= c <= 0x5a ==> SfnChar(c) == c
    ensures 0x61 <= c <= 0x7a ==> SfnChar(c) == c - 0x20 && 0x41 <= SfnChar(c) <= 0x5a
    ensures 0x20 <= c <= 0x21 || 0x23 <= c <= 0x29 || c == 0x2d || c == 0x40 || 0x5e <= c <= 0x60 ==> SfnChar(c) == c
    ensures c == 0x7b || 0x7d <= c <= 0x7e ==> SfnChar(c) == c
    ensures c < 0x20 || c == 0x22 || 0x2a <= c <= 0x2c || 0x2e <= c <= 0x3f || 0x5b <= c <= 0x5d ==> SfnChar(c) == 0x5f
    ensures c == 0x7c || 0x7f <= c ==> SfnChar(c) == 0x5f
  {
    assert SPECIAL[0] == 0x21 && SPECIAL[1] == 0x23 && SPECIAL[2] == 0x24 && SPECIAL[3] == 0x25 && SPECIAL[4] == 0x26;
    assert SPECIAL[5] == 0x27 && SPECIAL[6] == 0x28 && SPECIAL[7] == 0x29 && SPECIAL[8] == 0x2d && SPECIAL[9] == 0x40;
    assert SPECIAL[10] == 0x5e && SPECIAL[11] == 0x5f && SPECIAL[12] == 0x60 && SPECIAL[13] == 0x7b;
    assert SPECIAL[14] == 0x7d && SPECIAL[15] == 0x7e && SPECIAL[16] == 0x20;
  }

  /** The index of the first dot from `i` on, or the length if there is none. */
  function DotFrom(name: Name, i: nat): (d: nat)
    requires i <= |name|
    ensures i <= d <= |name| && (d < |name| ==> name[d] == DOT)
    ensures forall k :: i <= k < d ==> name[k] != DOT
    decreases |name| - i
  {
    if i == |name| || name[i] == DOT then i else DotFrom(name, i + 1)
  }

  /** The 8.3 name of a long name: up to eight characters before the first dot and up to three after it, folded,
      padded with spaces. */
  function SfnName(name: Name): (r: Name)
    ensures |r| == 11
  {
    var d := DotFrom(name, 0);
    seq(11, k requires 0 <= k < 11 =>
      if k < 8 then (if k < d then SfnChar(name[k]) else SFN_PAD)
      else if d + 1 + (k - 8) < |name| then SfnChar(name[d + 1 + (k - 8)])
      else SFN_PAD)
  }

  /** The 8.3 name of a name with a dot: eight characters for what is before its first dot, three for what is behind
      it, each of them folded, cut off or padded with 0x20. */
  lemma SfnNameParts(base: Name, ext: Name)
    requires forall k :: 0 <= k < |base| ==> base[k] != 0x2e
    ensures var r := SfnName(base + [0x2e] + ext);
            && (forall k :: 0 <= k < 8 ==> r[k] == if k < |base| then SfnChar(base[k]) else 0x20)
            && (forall k :: 0 <= k < 3 ==> r[8 + k] == if k < |ext| then SfnChar(ext[k]) else 0x20)
    ensures var r := SfnName(base);
            && (forall k :: 0 <= k < 8 ==> r[k] == if k < |base| then SfnChar(base[k]) else 0x20)
            && (forall k :: 8 <= k < 11 ==> r[k] == 0x20)
  {
    var name := base + [0x2e] + ext;
    assert forall k :: 0 <= k < |base| ==> name[k] == base[k];
    assert name[|base|] == 0x2e;
    assert DotFrom(name, 0) == |base| && DotFrom(base, 0) == |base|;
    assert forall k :: 0 <= k < |ext| ==> name[|base| + 1 + k] == ext[k];
  }

  /** An 8.3 name made by folding never marks its slot as free or last, and is no dot entry. */
  lemma SfnNameLive(name: Name)
    ensures SfnName(name)[0] != SFN_LAST && SfnName(name)[0] != SFN_FREE && SfnName(name)[0] != DOT
  {
  }

  /** `put_sfn_name`. */
  method PutSfnName(a: array<byte>, name: Name)
    requires a.Length == 11
    modifies a
    ensures a[..] == SfnName(name)
  {
    var i := PutBase(a, name);
    i := SkipDot(name, i);
    PutExtension(a, name, i);
    assert forall k :: 0 <= k < 11 ==> a[k] == SfnName(name)[k];
  }

  /** The first two loops of `put_sfn_name`. */
  method PutBase(a: array<byte>, name: Name) returns (i: nat)
    requires a.Length == 11
    modifies a
    ensures i <= 8 && i <= DotFrom(name, 0) && (i == 8 || i == DotFrom(name, 0))
    ensures forall k :: 0 <= k < 8 ==> a[k] == SfnName(name)[k]
  {
    ghost var r := SfnName(name);
    i := 0;
    while i < |name| && i < 8 && name[i] != DOT
      invariant i <= 8 && i <= DotFrom(name, 0)
      invariant forall k :: 0 <= k < i ==> a[k] == r[k]
    {
      a[i] := SfnChar(name[i]);
      i := i + 1;
    }
    for j := i to 8
      invariant forall k :: 0 <= k < j ==> a[k] == r[k]
    {
      a[j] := SFN_PAD;
    }
  }

  /** The third loop of `put_sfn_name`. */
  method SkipDot(name: Name, from: nat) returns (i: nat)
    requires from <= DotFrom(name, 0)
    ensures i == if DotFrom(name, 0) < |name| then DotFrom(name, 0) + 1 else |name|
  {
    i := from;
    while i < |name|
      invariant i <= DotFrom(name, 0)
    {
      i := i + 1;
      if name[i - 1] == DOT {
        break;
      }
    }
  }

  /** The last two loops of `put_sfn_name`. */
  method PutExtension(a: array<byte>, name: Name, from: nat)
    requires a.Length == 11
    requires from == if DotFrom(name, 0) < |name| then DotFrom(name, 0) + 1 else |name|
    modifies a
    ensures forall k :: 0 <= k < 8 ==> a[k] == old(a[k])
    ensures forall k :: 8 <= k < 11 ==> a[k] == SfnName(name)[k]
  {
    ghost var r := SfnName(name);
    var i, j := from, 0;
    while j < 3 && i < |name|
      invariant 0 <= j <= 3 && i == from + j <= |name|
      invariant forall k :: 0 <= k < 8 ==> a[k] == old(a[k])
      invariant forall k :: 8 <= k < 8 + j ==> a[k] == r[k]
    {
      a[8 + j] := SfnChar(name[i]);
      i, j := i + 1, j + 1;
    }
    while j < 3
      invariant 0 <= j <= 3
      invariant forall k :: 0 <= k < 8 ==> a[k] == old(a[k])
      invariant i == |name| || j == 3
      invariant from + j >= i
      invariant forall k :: 8 <= k < 8 + j ==> a[k] == r[k]
    {
      a[8 + j] := SFN_PAD;
      j := j + 1;
    }
  }

  /** The checksum over the first `n` bytes of an 8.3 name: rotate right by one bit and add the next byte. */
  function Crc(name: Name, n: nat): byte
    requires n <= |name|
  {
    if n == 0 then 0 else
    var sum := Crc(name, n - 1);
    (sum % 2 * 0x80 + sum / 2 + name[n - 1]) % 0x100
  }

  /** The checksum that ties the slots of a long name to their 8.3 slot. */
  function Checksum(name: Name): byte {
    Crc(name, |name|)
  }

  function Rotated(sum: byte): byte {
    sum % 2 * 0x80 + sum / 2
  }

  lemma CrcStart(name: Name)
    ensures Crc(name, 0) == 0
  {
  }

  lemma CrcStep(name: Name, n: nat)
    requires 0 < n <= |name|
    ensures Crc(name, n) == (Rotated(Crc(name, n - 1)) + name[n - 1]) % 0x100
  {
  }

  lemma RotatedDiffers(x: byte, y: byte, b: byte)
    requires x != y
    ensures (Rotated(x) + b) % 0x100 != (Rotated(y) + b) % 0x100
  {
    RotatedBack(x);
    RotatedBack(y);
    SumDiffers(b, Rotated(x), Rotated(y));
  }

  lemma RotatedBack(x: byte)
    ensures Rotated(x) * 2 % 0x100 + Rotated(x) / 0x80 == x
  {
  }

  lemma SumDiffers(s: byte, x: byte, y: byte)
    requires x != y
    ensures (s + x) % 0x100 != (s + y) % 0x100
  {
  }

  /** A step of the checksum is a rotation and a sum, so that it can be undone: take the byte off again, and rotate
      left. */
  lemma CrcInverse(name: Name, n: nat)
    requires 0 < n <= |name|
    ensures var r := (Crc(name, n) - name[n - 1]) % 0x100;
            Crc(name, n - 1) == r * 2 % 0x100 + r / 0x80
    ensures Crc(name, 0) == 0
  {
    hide Crc, Rotated;
    var sum, b := Crc(name, n - 1), name[n - 1];
    CrcStep(name, n);
    RotatedBack(sum);
    assert ((Rotated(sum) + b) % 0x100 - b) % 0x100 == Rotated(sum);
    CrcStart(name);
  }

  /** So names that differ in one byte have different checksums. */
  lemma {:induction false} CrcDiffers(a: Name, b: Name, k: nat, n: nat)
    requires |a| == |b| && k < n <= |a| && a[k] != b[k] && forall i :: 0 <= i < |a| && i != k ==> a[i] == b[i]
    ensures Crc(a, n) != Crc(b, n)
    decreases n
  {
    hide Crc;
    CrcStep(a, n);
    CrcStep(b, n);
    if k < n - 1 {
      CrcDiffers(a, b, k, n - 1);
      RotatedDiffers(Crc(a, n - 1), Crc(b, n - 1), a[n - 1]);
    } else {
      CrcPrefix(a, b, k);
      SumDiffers(Rotated(Crc(a, k)), a[k], b[k]);
    }
  }

  lemma {:induction false} CrcPrefix(a: Name, b: Name, n: nat)
    requires n <= |a| && n <= |b| && a[..n] == b[..n]
    ensures Crc(a, n) == Crc(b, n)
  {
    if n > 0 {
      assert a[n - 1] == a[..n][n - 1] == b[..n][n - 1] == b[n - 1];
      assert a[..n - 1] == a[..n][..n - 1] == b[..n][..n - 1] == b[..n - 1];
      CrcPrefix(a, b, n - 1);
    }
  }

  lemma ChecksumDiffers(a: Name, b: Name, k: nat)
    requires |a| == |b| && k < |a| && a[k] != b[k] && forall i :: 0 <= i < |a| && i != k ==> a[i] == b[i]
    ensures Checksum(a) != Checksum(b)
  {
    CrcDiffers(a, b, k, |a|);
  }

  /** `get_crc`. */
  method GetCrc(name: Name) returns (sum: byte)
    requires |name| == 11
    ensures sum == Checksum(name)
  {
    sum := 0;
    for i := 0 to 11
      invariant sum == Crc(name, i)
    {
      sum := (sum % 2 * 0x80 + sum / 2 + name[i]) % 0x100;
    }
  }

  // ---------- 8.3 slots ----------

  /** A date and a time as they are stored. Where they come from is not modelled. */
  datatype Stamp = Stamp(date: nat, time: nat)

  function Le16(w: nat): (r: seq<byte>)
    ensures |r| == 2
  {
    [w % 0x100, w / 0x100 % 0x100]
  }

  /** The 8.3 slot of a new entry of size 0. */
  function SfnSlot(name: Name, attr: byte, clust: nat, stamp: Stamp): (s: Slot)
    requires |name| == 11
  {
    name + [attr, 0, 0] + Le16(stamp.time) + Le16(stamp.date) + Le16(stamp.date)
    + Le16(clust / 0x1_0000) + Le16(stamp.time) + Le16(stamp.date) + Le16(clust) + [0, 0, 0, 0]
  }

  lemma SfnSlotFields(name: Name, attr: byte, clust: nat, stamp: Stamp)
    requires |name| == 11 && clust < TWO_32
    ensures var s := SfnSlot(name, attr, clust, stamp);
            s[..11] == name && s[ATTR_AT] == attr && ClusterOf(s) == clust && SizeOf(s) == 0
  {
    var s := SfnSlot(name, attr, clust, stamp);
    assert s[26] == clust % 0x100 && s[27] == clust / 0x100 % 0x100;
    assert s[20] == clust / 0x1_0000 % 0x100 && s[21] == clust / 0x1_0000 / 0x100 % 0x100;
    WordBytes(clust);
    assert clust / 0x1_0000 / 0x100 == clust / 0x100_0000;
  }

  lemma Le16Number(w: nat)
    ensures Number(Le16(w)) == w % 0x1_0000
  {
    NumberOfTwo(Le16(w), []);
    var q, hi, lo := w / 0x1_0000, w % 0x1_0000 / 0x100, w % 0x100;
    assert w == 0x100 * (0x100 * q + hi) + lo;
    assert w / 0x100 == 0x100 * q + hi;
  }

  /** All the 32 bytes of a new entry's slot: the name, the attributes, two zeros, the time and the date of
      creation, the date of the last access, the high half of the cluster, the time and the date of the last change,
      the low half, and no size. */
  lemma SfnSlotBytes(name: Name, attr: byte, clust: nat, stamp: Stamp)
    requires |name| == 11 && clust < TWO_32
    ensures var s := SfnSlot(name, attr, clust, stamp);
            && s[..11] == name && s[11] == attr && s[12] == s[13] == 0
            && Number(s[14..16]) == stamp.time % 0x1_0000 && Number(s[16..18]) == stamp.date % 0x1_0000
            && Number(s[18..20]) == stamp.date % 0x1_0000 && Number(s[20..22]) == clust / 0x1_0000
            && Number(s[22..24]) == stamp.time % 0x1_0000 && Number(s[24..26]) == stamp.date % 0x1_0000
            && Number(s[26..28]) == clust % 0x1_0000 && s[28..] == [0, 0, 0, 0]
  {
    var s := SfnSlot(name, attr, clust, stamp);
    assert s[14..16] == Le16(stamp.time) && s[16..18] == Le16(stamp.date) && s[18..20] == Le16(stamp.date);
    assert s[20..22] == Le16(clust / 0x1_0000) && s[22..24] == Le16(stamp.time) && s[24..26] == Le16(stamp.date);
    assert s[26..28] == Le16(clust);
    Le16Number(stamp.time);
    Le16Number(stamp.date);
    Le16Number(clust / 0x1_0000);
    Le16Number(clust);
  }

  lemma SfnSlotName(name: Name, attr: byte, clust: nat, stamp: Stamp)
    requires |name| == 11
    ensures SfnSlot(name, attr, clust, stamp)[..11] == name && SfnSlot(name, attr, clust, stamp)[ATTR_AT] == attr
  {
  }

  /** `memcpy` into an array. */
  method CopyInto(a: array<byte>, at: nat, s: seq<byte>)
    requires at + |s| <= a.Length
    modifies a
    ensures a[at..at + |s|] == s
    ensures forall i :: 0 <= i < a.Length && !(at <= i < at + |s|) ==> a[i] == old(a[i])
  {
    forall i | 0 <= i < |s| {
      a[at + i] := s[i];
    }
  }

  // ---------- updating an entry ----------

  function WithArchive(attr: byte): byte {
    if HasBit(attr, 5) then attr else if attr < 0xe0 then attr + 0x20 else attr
  }

  /** The 8.3 slot after `fat_file_sync`. */
  function Updated(s: Slot, size: uint32, accessed: bool, modified: bool, stamp: Stamp): Slot {
    var d, t := Le16(stamp.date), Le16(stamp.time);
    var s1 := if accessed then s[18 := d[0]][19 := d[1]] else s;
    if modified then
      s1[ATTR_AT := WithArchive(s[ATTR_AT])]
      [28 := size % 0x100][29 := size / 0x100 % 0x100][30 := size / 0x1_0000 % 0x100][31 := size / 0x100_0000]
      [24 := d[0]][25 := d[1]][22 := t[0]][23 := t[1]]
    else s1
  }

  /** What closing a file changes, byte by byte: an access sets the date in bytes 18 and 19; a modification sets the
      time and the date in bytes 22 to 25, the size in the last four, and bit 5 of the attributes. */
  lemma UpdatedBytes(s: Slot, size: uint32, accessed: bool, modified: bool, stamp: Stamp)
    ensures var r := Updated(s, size, accessed, modified, stamp);
            && (if accessed then Number(r[18..20]) == stamp.date % 0x1_0000 else r[18..20] == s[18..20])
            && (if modified then
                  && Number(r[22..24]) == stamp.time % 0x1_0000 && Number(r[24..26]) == stamp.date % 0x1_0000
                  && Number(r[28..32]) == size && r[11] == (if s[11] / 32 % 2 == 1 then s[11] else s[11] + 32)
                else r[22..26] == s[22..26] && r[28..32] == s[28..32] && r[11] == s[11])
            && r[..11] == s[..11] && r[12..18] == s[12..18] && r[20..22] == s[20..22] && r[26..28] == s[26..28]
  {
    var r := Updated(s, size, accessed, modified, stamp);
    Le16Number(stamp.time);
    Le16Number(stamp.date);
    if accessed {
      assert r[18..20] == Le16(stamp.date);
    }
    if modified {
      assert r[22..24] == Le16(stamp.time) && r[24..26] == Le16(stamp.date);
      WordNumber(r, 7);
      WordBytes(size);
    }
  }

  /** The entry keeps its name and its cluster, and gets the new size if the file was modified. */
  lemma UpdatedFields(s: Slot, size: uint32, accessed: bool, modified: bool, stamp: Stamp)
    ensures var r := Updated(s, size, accessed, modified, stamp);
            && r[..11] == s[..11] && ClusterOf(r) == ClusterOf(s)
            && (HasBit(r[ATTR_AT], 4) <==> HasBit(s[ATTR_AT], 4)) && (r[ATTR_AT] == ATTR_LFN ==> s[ATTR_AT] == ATTR_LFN)
            && (modified ==> SizeOf(r) == size) && (!modified ==> SizeOf(r) == SizeOf(s) && r[ATTR_AT] == s[ATTR_AT])
  {
    WordBytes(size);
  }
}
