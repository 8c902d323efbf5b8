/** Long names as groups of slots: writing a name into fragments and reading it back. */
module LongNames {
  import opened Bytes
  import opened Names

  const CHARS := 13
  const MAX_NAME := 255

  /** The index of the low byte of a fragment's character `j`; the high byte is next to it. The fields of the slot
      split the characters into runs of five, six and two: 1 to 9, 14 to 24, 28 and 30. */
  function CharIndex(j: nat): (i: nat)
    requires j < CHARS
    ensures i < 31
  {
    if j < 5 then 2 * j + 1 else if j < 11 then 2 * j + 4 else 2 * j + 6
  }

  function CharAt(s: Slot, j: nat): byte
    requires j < CHARS
  {
    s[CharIndex(j)]
  }

  /** The low byte that `put_lfn_name_frag` stores for character `j`: the name, then one zero, then 0xff. */
  function LowByte(frag: Name, j: nat): byte {
    if j < |frag| then frag[j] else if j == |frag| then 0 else 0xff
  }

  function HighByte(frag: Name, j: nat): byte {
    if j <= |frag| then 0 else 0xff
  }

  /** Byte `k` of a pair of characters' bytes, the first of which is character `j`. */
  function PairByte(frag: Name, j: nat, k: nat): byte {
    if k % 2 == 0 then LowByte(frag, j + k / 2) else HighByte(frag, j + k / 2)
  }

  /** The slot that `dir_add` writes for fragment number `i` (counted from 1); the last fragment comes first and
      is marked as the head of the group. */
  function LfnSlot(frag: Name, i: nat, head: bool, crc: byte): (s: Slot)
    requires |frag| <= CHARS && 1 <= i <= 20
  {
    seq(32, k requires 0 <= k < 32 =>
      if k == 0 then (if head then 0x40 else 0) + i
      else if k < 11 then PairByte(frag, 0, k - 1)
      else if k == ATTR_AT then ATTR_LFN
      else if k == 12 then 0
      else if k == CRC_AT then crc
      else if k < 26 then PairByte(frag, 5, k - 14)
      else if k < 28 then 0
      else PairByte(frag, 11, k - 28))
  }

  lemma LfnSlotFields(frag: Name, i: nat, head: bool, crc: byte)
    requires |frag| <= CHARS && 1 <= i <= 20
    ensures var s := LfnSlot(frag, i, head, crc);
            && s[0] == (if head then 0x40 else 0) + i && s[ATTR_AT] == ATTR_LFN && s[CRC_AT] == crc
            && IsLfn(s) && !IsFree(s) && GroupLen(s) == i && (IsHead(s) <==> head)
  {
    assert (0x40 + i) / 64 == 1 && i / 64 == 0;
  }

  lemma LfnSlotChar(frag: Name, i: nat, head: bool, crc: byte, j: nat)
    requires |frag| <= CHARS && 1 <= i <= 20 && j < CHARS
    ensures CharAt(LfnSlot(frag, i, head, crc), j) == LowByte(frag, j)
  {
    var k := CharIndex(j);
    if j < 5 {
      assert (k - 1) % 2 == 0 && (k - 1) / 2 == j;
    } else if j < 11 {
      assert (k - 14) % 2 == 0 && (k - 14) / 2 == j - 5;
    } else {
      assert (k - 28) % 2 == 0 && (k - 28) / 2 == j - 11;
    }
  }

  /** The thirteen places of a slot for the characters of a fragment. */
  lemma CharPlaces(j: nat)
    requires j < 13
    ensures CharIndex(j) == [1, 3, 5, 7, 9, 14, 16, 18, 20, 22, 24, 28, 30][j]
  {
  }

  /** In bytes: the characters of a fragment are at these places, one zero follows them, and then 0xff; next to each of
      them is a byte that is 0 up to the zero and 0xff behind it. */
  lemma LfnSlotBytes(frag: Name, i: nat, head: bool, crc: byte, j: nat)
    requires |frag| <= 13 && 1 <= i <= 20 && j < 13
    ensures var s := LfnSlot(frag, i, head, crc);
            && s[CharIndex(j)] == (if j < |frag| then frag[j] else if j == |frag| then 0 else 0xff)
            && s[CharIndex(j) + 1] == (if j <= |frag| then 0 else 0xff)
            && s[0] == (if head then 0x40 + i else i) && s[11] == 0x0f && s[12] == 0 && s[13] == crc
            && s[26] == 0 && s[27] == 0
  {
    LfnSlotChar(frag, i, head, crc, j);
    LfnSlotHigh(frag, i, head, crc, j);
  }

  lemma LfnSlotHigh(frag: Name, i: nat, head: bool, crc: byte, j: nat)
    requires |frag| <= CHARS && 1 <= i <= 20 && j < CHARS
    ensures LfnSlot(frag, i, head, crc)[CharIndex(j) + 1] == HighByte(frag, j)
  {
    var k := CharIndex(j) + 1;
    if j < 5 {
      assert (k - 1) % 2 == 1 && (k - 1) / 2 == j;
    } else if j < 11 {
      assert (k - 14) % 2 == 1 && (k - 14) / 2 == j - 5;
    } else {
      assert (k - 28) % 2 == 1 && (k - 28) / 2 == j - 11;
    }
  }

  /** A slot is determined by its fields. */
  lemma LfnSlotFromFields(s: Slot, frag: Name, i: nat, head: bool, crc: byte)
    requires |frag| <= CHARS && 1 <= i <= 20
    requires s[0] == (if head then 0x40 else 0) + i && s[ATTR_AT] == ATTR_LFN && s[12] == 0 && s[CRC_AT] == crc
    requires s[26] == 0 && s[27] == 0
    requires forall j :: 0 <= j < CHARS ==>
               s[CharIndex(j)] == LowByte(frag, j) && s[CharIndex(j) + 1] == HighByte(frag, j)
    ensures s == LfnSlot(frag, i, head, crc)
  {
    forall k | 0 <= k < 32
      ensures s[k] == LfnSlot(frag, i, head, crc)[k]
    {
      if 1 <= k < 11 {
        PairField(s, frag, 0, 1, k);
      } else if 14 <= k < 26 {
        PairField(s, frag, 5, 14, k);
      } else if 28 <= k {
        PairField(s, frag, 11, 28, k);
      }
    }
  }

  lemma PairField(s: Slot, frag: Name, first: nat, at: nat, k: nat)
    requires || (first == 0 && at == 1 && 1 <= k < 11)
             || (first == 5 && at == 14 && 14 <= k < 26)
             || (first == 11 && at == 28 && 28 <= k < 32)
    requires forall j :: 0 <= j < CHARS ==>
               s[CharIndex(j)] == LowByte(frag, j) && s[CharIndex(j) + 1] == HighByte(frag, j)
    ensures s[k] == PairByte(frag, first, k - at)
  {
    var j := first + (k - at) / 2;
    assert CharIndex(j) == at + 2 * ((k - at) / 2);
    assert s[CharIndex(j)] == LowByte(frag, j) && s[CharIndex(j) + 1] == HighByte(frag, j);
  }

  // ---------- reading a fragment ----------

  /** Where reading a fragment stops: at the first zero from character `j` on, or after all thirteen. */
  function FragEnd(s: Slot, j: nat): (e: nat)
    requires j <= CHARS
    ensures j <= e <= CHARS && (e < CHARS ==> CharAt(s, e) == 0)
    ensures forall k :: j <= k < e ==> CharAt(s, k) != 0
    decreases CHARS - j
  {
    if j == CHARS || CharAt(s, j) == 0 then j else FragEnd(s, j + 1)
  }

  /** Reading the fragment meets no 0xff, which the parser rejects. */
  predicate FragOk(s: Slot) {
    forall k :: 0 <= k < FragEnd(s, 0) ==> CharAt(s, k) != 0xff
  }

  function Frag(s: Slot): (r: Name)
    ensures |r| == FragEnd(s, 0)
  {
    seq(FragEnd(s, 0), k requires 0 <= k < FragEnd(s, 0) => CharAt(s, k))
  }

  /** A name that can be stored: one to 255 bytes, none of them 0x00 or 0xff. */
  predicate Storable(name: Name) {
    1 <= |name| <= MAX_NAME && PlainBytes(name)
  }

  predicate PlainBytes(name: Name) {
    forall k :: 0 <= k < |name| ==> name[k] != 0 && name[k] != 0xff
  }

  lemma FragRoundTrip(frag: Name, i: nat, head: bool, crc: byte)
    requires |frag| <= CHARS && 1 <= i <= 20 && PlainBytes(frag)
    ensures var s := LfnSlot(frag, i, head, crc); Frag(s) == frag && FragOk(s)
  {
    var s := LfnSlot(frag, i, head, crc);
    forall j | 0 <= j < CHARS
      ensures CharAt(s, j) == LowByte(frag, j)
    {
      LfnSlotChar(frag, i, head, crc, j);
    }
    assert FragEnd(s, 0) == |frag|;
  }

  // ---------- groups ----------

  function GroupLen(head: Slot): nat {
    head[0] % 0x20
  }

  predicate IsHead(s: Slot) {
    HasBit(s[0], 6)
  }

  /** In numbers: bit 6 of the first byte marks the head of a group, and its low five bits are how many slots it has. */
  lemma HeadNumbers(s: Slot)
    ensures IsHead(s) <==> s[0] / 64 % 2 == 1
    ensures GroupLen(s) == s[0] % 32
  {
  }

  /** What the parser asks of every slot of a group with this checksum. */
  ghost predicate Joins(s: Slot, crc: byte) {
    s[11] == 0x0f && s[13] == crc && FragOk(s)
  }

  ghost predicate JoinsTo(slots: seq<Slot>, p: nat, q: nat, crc: byte) {
    p <= q <= |slots| && forall i :: p <= i < q ==> Joins(slots[i], crc)
  }

  /** The characters in the slots from `p` to `q`. */
  ghost function FragTotal(slots: seq<Slot>, p: nat, q: nat): nat
    requires p <= q <= |slots|
  {
    if p == q then 0 else FragTotal(slots, p, q - 1) + FragEnd(slots[q - 1], 0)
  }

  /** The parser gets through the group at `p`, whose slots need not be full. */
  ghost predicate GroupParses(slots: seq<Slot>, p: nat) {
    && p < |slots|
    && var n, crc := slots[p][0] % 32, slots[p][13];
       && slots[p][0] / 64 % 2 == 1 && n <= 20 && p + n < |slots|
       && JoinsTo(slots, p, p + n, crc) && FragTotal(slots, p, p + n) <= 255
  }

  /** It comes to the end of the directory in the middle of the group. */
  ghost predicate GroupBreaksOff(slots: seq<Slot>, p: nat) {
    && p < |slots|
    && var n, crc := slots[p][0] % 32, slots[p][13];
       slots[p][0] / 64 % 2 == 1 && n <= 20 && |slots| <= p + n && JoinsTo(slots, p, |slots|, crc)
  }

  /** The search takes the group at `p` for an item: the parser gets through it, and a live 8.3 slot with the group's
      checksum is behind it. */
  ghost predicate GroupAccepted(slots: seq<Slot>, p: nat) {
    && GroupParses(slots, p)
    && var sfn := slots[p + slots[p][0] % 32];
       sfn[0] != 0 && sfn[0] != 0xe5 && sfn[11] != 0x0f && Checksum(sfn[..11]) == slots[p][13]
  }

  /** At `p` there is a complete long-name group followed by its 8.3 slot. Fragments other than the first slot's are
      full, so that they abut in the parser's buffer. */
  ghost predicate GroupOk(slots: seq<Slot>, p: nat) {
    && p < |slots|
    && IsHead(slots[p])
    && var n := GroupLen(slots[p]);
       && 1 <= n <= 20 && p + n < |slots|
       && (forall i :: p <= i < p + n ==>
             IsLfn(slots[i]) && !IsFree(slots[i]) && slots[i][CRC_AT] == slots[p][CRC_AT] && FragOk(slots[i]))
       && (forall i :: p < i < p + n ==> FragEnd(slots[i], 0) == CHARS)
       && CHARS * (n - 1) + FragEnd(slots[p], 0) <= MAX_NAME
       && !IsFree(slots[p + n]) && !IsLfn(slots[p + n])
       && Checksum(slots[p + n][..11]) == slots[p][CRC_AT]
  }

  /** The name spread over the `n` slots from `p` on, the last fragment first. */
  function GroupName(slots: seq<Slot>, p: nat, n: nat): Name
    requires p + n <= |slots|
    decreases n
  {
    if n == 0 then [] else GroupName(slots, p + 1, n - 1) + Frag(slots[p])
  }

  lemma {:induction false} GroupNameLen(slots: seq<Slot>, p: nat, n: nat)
    requires p + n <= |slots|
    requires forall i :: p <= i < p + n ==> FragEnd(slots[i], 0) == CHARS
    ensures |GroupName(slots, p, n)| == CHARS * n
    decreases n
  {
    if n > 0 {
      GroupNameLen(slots, p + 1, n - 1);
    }
  }

  /** Fragment by fragment, where a group's slots end up in its name. */
  lemma {:induction false} FragInName(slots: seq<Slot>, p: nat, n: nat, k: nat)
    requires p + n <= |slots| && k < n
    requires forall i :: p < i < p + n ==> FragEnd(slots[i], 0) == CHARS
    ensures |GroupName(slots, p, n)| == CHARS * (n - 1) + |Frag(slots[p])|
    ensures CHARS * (n - 1 - k) + |Frag(slots[p + k])| <= |GroupName(slots, p, n)|
    ensures GroupName(slots, p, n)[CHARS * (n - 1 - k)..CHARS * (n - 1 - k) + |Frag(slots[p + k])|] ==
              Frag(slots[p + k])
    decreases n
  {
    hide Frag, FragEnd;
    var rest := GroupName(slots, p + 1, n - 1);
    GroupNameLen(slots, p + 1, n - 1);
    if k == 0 {
      assert GroupName(slots, p, n) == rest + Frag(slots[p]);
    } else {
      FragInName(slots, p + 1, n - 1, k - 1);
      InPrefix(rest, Frag(slots[p]), CHARS * (n - 1 - k), CHARS * (n - 1 - k) + |Frag(slots[p + k])|);
    }
  }

  lemma InPrefix(a: Name, b: Name, i: nat, j: nat)
    requires i <= j <= |a|
    ensures (a + b)[i..j] == a[i..j]
  {
  }

  lemma {:induction false} GroupNameFrame(a: seq<Slot>, p: nat, b: seq<Slot>, q: nat, n: nat)
    requires p + n <= |a| && q + n <= |b|
    requires a[p..p + n] == b[q..q + n]
    ensures GroupName(a, p, n) == GroupName(b, q, n)
    decreases n
  {
    if n > 0 {
      var s, t := a[p..p + n], b[q..q + n];
      assert s[1..] == a[p + 1..p + n] && t[1..] == b[q + 1..q + n];
      assert s[0] == a[p] && t[0] == b[q];
      GroupNameFrame(a, p + 1, b, q + 1, n - 1);
    }
  }

  // ---------- writing a name ----------

  /** How many long-name slots a name needs. */
  function LfnCount(len: nat): (n: nat)
    ensures len <= 13 * n < len + 13
  {
    (len + 12) / 13
  }

  /** Fragment number `i` of a name, counted from 1. */
  function Chunk(name: Name, i: nat): (c: Name)
    requires 1 <= i && 13 * (i - 1) <= |name|
    ensures |c| == if 13 * i <= |name| then CHARS else |name| - 13 * (i - 1)
  {
    if 13 * i <= |name| then name[13 * (i - 1)..13 * i] else name[13 * (i - 1)..]
  }

  /** The slot `dir_add` writes as number `k` of the `n` slots for a name. */
  function NameSlot(name: Name, n: nat, k: nat): Slot
    requires k < n <= 20 && 13 * (n - 1) <= |name|
  {
    LfnSlot(Chunk(name, n - k), n - k, k == 0, Checksum(SfnName(name)))
  }

  /** All the long-name slots `dir_add` writes for a name. */
  function NameSlots(name: Name, n: nat): (r: seq<Slot>)
    requires 1 <= n <= 20 && 13 * (n - 1) <= |name|
    ensures |r| == n
  {
    seq(n, k requires 0 <= k < n => NameSlot(name, n, k))
  }

  /** The group of `name` starts at `p` and is followed by an 8.3 slot with the folded name. */
  ghost predicate HoldsName(slots: seq<Slot>, p: nat, name: Name, n: nat) {
    && 1 <= |name| <= MAX_NAME && n == LfnCount(|name|) && 1 <= n <= 20
    && p + n < |slots|
    && slots[p..p + n] == NameSlots(name, n)
    && slots[p + n][..11] == SfnName(name) && !IsLfn(slots[p + n])
  }

  /** What the parser makes of a slot: fragment `frag`, number `i`, with this checksum. */
  ghost predicate ReadsAs(s: Slot, frag: Name, i: nat, head: bool, crc: byte) {
    && IsLfn(s) && !IsFree(s) && s[CRC_AT] == crc && FragOk(s) && Frag(s) == frag
    && GroupLen(s) == i && (IsHead(s) <==> head)
  }

  lemma LfnSlotReads(frag: Name, i: nat, head: bool, crc: byte)
    requires |frag| <= CHARS && 1 <= i <= 20 && PlainBytes(frag)
    ensures ReadsAs(LfnSlot(frag, i, head, crc), frag, i, head, crc)
  {
    LfnSlotFields(frag, i, head, crc);
    FragRoundTrip(frag, i, head, crc);
  }

  lemma ChunkPlain(name: Name, i: nat)
    requires PlainBytes(name) && 1 <= i && 13 * (i - 1) <= |name|
    ensures PlainBytes(Chunk(name, i))
  {
    var c := Chunk(name, i);
    forall j | 0 <= j < |c|
      ensures c[j] != 0 && c[j] != 0xff
    {
      assert c[j] == name[13 * (i - 1) + j];
    }
  }

  /** The group of `hello.txt`, byte by byte: one slot, number 1 and head, with the checksum of its 8.3 name. */
  lemma GroupExample(name: Name)
    requires name == [0x68, 0x65, 0x6c, 0x6c, 0x6f, 0x2e, 0x74, 0x78, 0x74]
    ensures SfnName(name) == [0x48, 0x45, 0x4c, 0x4c, 0x4f, 0x20, 0x20, 0x20, 0x54, 0x58, 0x54]
    ensures LfnCount(|name|) == 1
    ensures NameSlots(name, 1)[0] ==
              [0x41, 0x68, 0, 0x65, 0, 0x6c, 0, 0x6c, 0, 0x6f, 0, 0x0f, 0, 0xf1, 0x2e, 0, 0x74, 0, 0x78, 0, 0x74, 0,
               0, 0, 0xff, 0xff, 0, 0, 0xff, 0xff, 0xff, 0xff]
  {
    hide LfnSlot, SfnName, Checksum;
    SfnExample(name);
    ChecksumExample(SfnName(name));
    SlotExample(name);
    assert Chunk(name, 1) == name;
  }

  lemma SfnExample(name: Name)
    requires name == [0x68, 0x65, 0x6c, 0x6c, 0x6f, 0x2e, 0x74, 0x78, 0x74]
    ensures SfnName(name) == [0x48, 0x45, 0x4c, 0x4c, 0x4f, 0x20, 0x20, 0x20, 0x54, 0x58, 0x54]
  {
    hide SfnName, SfnChar;
    SfnNameParts(name[..5], name[6..]);
    assert name == name[..5] + [0x2e] + name[6..];
    forall c: byte | 0x61 <= c <= 0x7a
      ensures SfnChar(c) == c - 0x20
    {
      SfnCharRanges(c);
    }
    var base, ext, r := name[..5], name[6..], SfnName(name);
    assert r[0] == SfnChar(base[0]) && r[1] == SfnChar(base[1]) && r[2] == SfnChar(base[2]) && r[3] == SfnChar(base[3]);
    assert r[4] == SfnChar(base[4]) && r[5] == r[6] == r[7] == 0x20;
    assert r[8 + 0] == SfnChar(ext[0]) && r[8 + 1] == SfnChar(ext[1]) && r[8 + 2] == SfnChar(ext[2]);
  }

  lemma SlotExample(name: Name)
    requires name == [0x68, 0x65, 0x6c, 0x6c, 0x6f, 0x2e, 0x74, 0x78, 0x74]
    ensures LfnSlot(name, 1, true, 0xf1) ==
              [0x41, 0x68, 0, 0x65, 0, 0x6c, 0, 0x6c, 0, 0x6f, 0, 0x0f, 0, 0xf1, 0x2e, 0, 0x74, 0, 0x78, 0, 0x74, 0,
               0, 0, 0xff, 0xff, 0, 0, 0xff, 0xff, 0xff, 0xff]
  {
  }

  lemma ChecksumExample(sfn: Name)
    requires sfn == [0x48, 0x45, 0x4c, 0x4c, 0x4f, 0x20, 0x20, 0x20, 0x54, 0x58, 0x54]
    ensures Checksum(sfn) == 0xf1
  {
    assert Crc(sfn, 0) == 0 && Crc(sfn, 1) == 0x48 && Crc(sfn, 2) == 0x69;
    assert Crc(sfn, 3) == 0x00 && Crc(sfn, 4) == 0x4c && Crc(sfn, 5) == 0x75;
    assert Crc(sfn, 6) == 0xda && Crc(sfn, 7) == 0x8d && Crc(sfn, 8) == 0xe6;
    assert Crc(sfn, 9) == 0xc7 && Crc(sfn, 10) == 0x3b && Crc(sfn, 11) == 0xf1;
  }

  /** The first `m` fragments of a name. */
  function Fragments(name: Name, m: nat): Name {
    if 13 * m <= |name| then name[..13 * m] else name
  }

  lemma FragmentsStep(name: Name, m: nat)
    requires 1 <= m && 13 * (m - 1) <= |name|
    ensures Fragments(name, m) == Fragments(name, m - 1) + Chunk(name, m)
  {
  }

  /** Slot `i` from the end of the group holds fragment `i`. */
  ghost predicate HoldsFragment(slots: seq<Slot>, end: nat, name: Name, i: nat) {
    1 <= i <= end <= |slots| && 13 * (i - 1) <= |name| && Frag(slots[end - i]) == Chunk(name, i)
  }

  /** Reading the last `m` slots of a written group gives the first `m` fragments of the name. */
  lemma {:induction false} GroupPrefix(slots: seq<Slot>, end: nat, name: Name, m: nat)
    requires m <= end <= |slots|
    requires forall i :: 1 <= i <= m ==> HoldsFragment(slots, end, name, i)
    ensures GroupName(slots, end - m, m) == Fragments(name, m)
    decreases m
  {
    if m > 0 {
      hide Frag, Chunk, Fragments;
      GroupPrefix(slots, end, name, m - 1);
      assert HoldsFragment(slots, end, name, m);
      FragmentsStep(name, m);
    }
  }

  lemma NameSlotReads(name: Name, n: nat, k: nat)
    requires Storable(name) && k < n <= 20 && 13 * (n - 1) <= |name|
    ensures ReadsAs(NameSlot(name, n, k), Chunk(name, n - k), n - k, k == 0, Checksum(SfnName(name)))
  {
    ChunkPlain(name, n - k);
    LfnSlotReads(Chunk(name, n - k), n - k, k == 0, Checksum(SfnName(name)));
  }

  lemma HeldSlot(slots: seq<Slot>, p: nat, name: Name, n: nat, k: nat)
    requires Storable(name) && HoldsName(slots, p, name, n) && k < n
    ensures ReadsAs(slots[p + k], Chunk(name, n - k), n - k, k == 0, Checksum(SfnName(name)))
  {
    NameSlotReads(name, n, k);
    assert slots[p + k] == slots[p..p + n][k] == NameSlots(name, n)[k];
  }

  lemma HeldFragment(slots: seq<Slot>, end: nat, name: Name, n: nat, i: nat)
    requires Storable(name) && n <= end && HoldsName(slots, end - n, name, n) && 1 <= i <= n
    ensures HoldsFragment(slots, end, name, i)
  {
    hide FragEnd, Frag, FragOk, Checksum, SfnName, NameSlots, Chunk;
    HeldSlot(slots, end - n, name, n, n - i);
  }

  lemma HeldName(slots: seq<Slot>, p: nat, name: Name, n: nat)
    requires Storable(name) && HoldsName(slots, p, name, n)
    ensures GroupName(slots, p, n) == name
  {
    var end := p + n;
    forall i: nat | 1 <= i <= n
      ensures HoldsFragment(slots, end, name, i)
    {
      HeldFragment(slots, end, name, n, i);
    }
    GroupPrefix(slots, end, name, n);
  }

  lemma HeldSlots(slots: seq<Slot>, p: nat, name: Name, n: nat)
    requires Storable(name) && HoldsName(slots, p, name, n)
    ensures forall i :: p <= i < p + n ==>
              IsLfn(slots[i]) && !IsFree(slots[i]) && slots[i][CRC_AT] == slots[p][CRC_AT] && FragOk(slots[i])
    ensures forall i :: p < i < p + n ==> FragEnd(slots[i], 0) == CHARS
  {
    HeldSlot(slots, p, name, n, 0);
    forall i | p <= i < p + n
      ensures IsLfn(slots[i]) && !IsFree(slots[i]) && slots[i][CRC_AT] == slots[p][CRC_AT] && FragOk(slots[i])
      ensures i > p ==> FragEnd(slots[i], 0) == CHARS
    {
      HeldSlot(slots, p, name, n, i - p);
    }
  }

  /** The 8.3 slot after a written group is live and carries its checksum. */
  lemma HeldSfn(slots: seq<Slot>, p: nat, name: Name, n: nat)
    requires Storable(name) && HoldsName(slots, p, name, n)
    ensures !IsFree(slots[p + n]) && Checksum(slots[p + n][..11]) == slots[p][CRC_AT]
  {
    HeldSlot(slots, p, name, n, 0);
    SfnNameLive(name);
    assert slots[p + n][..11][0] == slots[p + n][0];
  }

  /** The first slot holds what the full fragments leave over. */
  lemma LengthOfGroup(slots: seq<Slot>, p: nat, name: Name, n: nat)
    requires Storable(name) && HoldsName(slots, p, name, n)
    ensures CHARS * (n - 1) + FragEnd(slots[p], 0) == |name|
  {
    hide FragEnd, Checksum, NameSlots, SfnName;
    HeldSlot(slots, p, name, n, 0);
  }

  /** Long-name round trip: what `dir_add` writes for a name is a well-formed group that reads back as this name,
      and none of its slots looks free or last. */
  lemma NameRoundTrip(slots: seq<Slot>, p: nat, name: Name, n: nat)
    requires Storable(name) && HoldsName(slots, p, name, n)
    ensures GroupOk(slots, p) && GroupLen(slots[p]) == n
    ensures GroupName(slots, p, n) == name
    ensures forall k :: p <= k <= p + n ==> !IsFree(slots[k])
  {
    hide FragEnd, Frag, GroupName, Checksum, NameSlots, SfnName, Chunk, FragOk;
    LengthOfGroup(slots, p, name, n);
    HeldName(slots, p, name, n);
    HeldSlot(slots, p, name, n, 0);
    HeldSlots(slots, p, name, n);
    HeldSfn(slots, p, name, n);
  }

  /** The parser rejects a fragment with a 0xff before its end. */
  lemma BadFragment(frag: Name, i: nat, head: bool, crc: byte, j: nat)
    requires |frag| <= CHARS && 1 <= i <= 20 && j < |frag| && frag[j] == 0xff
    requires forall k :: 0 <= k < |frag| ==> frag[k] != 0
    ensures !FragOk(LfnSlot(frag, i, head, crc))
  {
    hide LfnSlot;
    var s := LfnSlot(frag, i, head, crc);
    forall k | 0 <= k < |frag|
      ensures CharAt(s, k) == frag[k]
    {
      LfnSlotChar(frag, i, head, crc, k);
    }
    assert FragEnd(s, 0) > j && CharAt(s, j) == 0xff;
  }

  /** The group that `dir_add` writes for a name can be read back exactly if the name has no byte 0xff. */
  lemma ReadableIff(slots: seq<Slot>, p: nat, name: Name, n: nat)
    requires HoldsName(slots, p, name, n) && forall k :: 0 <= k < |name| ==> name[k] != 0
    ensures GroupOk(slots, p) <==> forall k :: 0 <= k < |name| ==> name[k] != 0xff
  {
    hide FragEnd, Frag, Checksum, SfnName, LfnSlot, FragOk, Chunk, HoldsName;
    HeldLength(slots, p, name, n);
    if forall k :: 0 <= k < |name| ==> name[k] != 0xff {
      NameRoundTrip(slots, p, name, n);
    } else {
      var k :| 0 <= k < |name| && name[k] == 0xff;
      var q := BadSlot(slots, p, name, n, k);
      GroupSize(slots, p, name, n);
    }
  }

  lemma HeldLength(slots: seq<Slot>, p: nat, name: Name, n: nat)
    requires HoldsName(slots, p, name, n)
    ensures 1 <= |name| <= MAX_NAME && 1 <= n && p + n < |slots|
  {
    hide NameSlots, SfnName;
  }

  lemma ByteInChunk(name: Name, k: nat, i: nat)
    requires k < |name| && i == k / CHARS + 1
    ensures 13 * (i - 1) <= |name| && k % CHARS < |Chunk(name, i)| && Chunk(name, i)[k % CHARS] == name[k]
    ensures forall x :: 0 <= x < |Chunk(name, i)| ==> Chunk(name, i)[x] in name
  {
  }

  /** A byte 0xff of the name makes one of its slots unreadable. */
  lemma BadSlot(slots: seq<Slot>, p: nat, name: Name, n: nat, k: nat) returns (q: nat)
    requires HoldsName(slots, p, name, n) && forall k :: 0 <= k < |name| ==> name[k] != 0
    requires k < |name| && name[k] == 0xff
    ensures p <= q < p + n < |slots| && !FragOk(slots[q])
  {
    hide FragEnd, Frag, Checksum, SfnName, LfnSlot, FragOk, Chunk;
    var i, j := k / CHARS + 1, k % CHARS;
    ByteInChunk(name, k, i);
    assert 1 <= i <= n;
    var frag := Chunk(name, i);
    BadFragment(frag, i, n - i == 0, Checksum(SfnName(name)), j);
    q := p + (n - i);
    assert slots[q] == slots[p..p + n][n - i] == NameSlots(name, n)[n - i];
  }

  /** A written group says how many slots it has. */
  lemma GroupSize(slots: seq<Slot>, p: nat, name: Name, n: nat)
    requires HoldsName(slots, p, name, n)
    ensures GroupLen(slots[p]) == n
  {
    hide Checksum, SfnName, LfnSlot, Chunk;
    assert slots[p] == slots[p..p + n][0] == NameSlots(name, n)[0];
    LfnSlotFields(Chunk(name, n), n, true, Checksum(SfnName(name)));
  }

  // ---------- the array code ----------

  /** `put_lfn_name_frag` on the slot at `off`: the thirteen characters are stored, nothing else changes. */
  method PutLfnNameFrag(a: array<byte>, off: nat, frag: Name)
    requires off + 32 <= a.Length && |frag| <= CHARS
    modifies a
    ensures forall j :: 0 <= j < CHARS ==>
              a[off + CharIndex(j)] == LowByte(frag, j) && a[off + CharIndex(j) + 1] == HighByte(frag, j)
    ensures forall i :: 0 <= i < a.Length && !(off <= i < off + 32) ==> a[i] == old(a[i])
  {
    var i := 0;
    while i < CHARS
      invariant 0 <= i <= CHARS
      invariant forall j :: 0 <= j < i ==>
                  a[off + CharIndex(j)] == LowByte(frag, j) && a[off + CharIndex(j) + 1] == HighByte(frag, j)
      invariant forall i :: 0 <= i < a.Length && !(off <= i < off + 32) ==> a[i] == old(a[i])
    {
      var at := CharIndex(i);
      if i < |frag| {
        a[off + at], a[off + at + 1] := frag[i], 0;
      } else if i == |frag| {
        a[off + at], a[off + at + 1] := 0, 0;
      } else {
        a[off + at], a[off + at + 1] := 0xff, 0xff;
      }
      i := i + 1;
    }
  }

  /** The parser's buffer when fragments below number `cnt` (counted from 0) are still to be read. */
  ghost predicate Filled(a: seq<byte>, len: nat, name: Name, cnt: nat) {
    && |name| <= |a|
    && len == (if CHARS * cnt <= |name| then |name| - CHARS * cnt else 0)
    && forall j :: CHARS * cnt <= j < |name| ==> a[j] == name[j]
  }

  /** Reading slot `k` of a group fills in its fragment. */
  lemma FilledStep(slots: seq<Slot>, p: nat, n: nat, k: nat, a: seq<byte>, len: nat, b: seq<byte>, len': nat)
    requires p + n <= |slots| && k < n && |a| == |b|
    requires forall i :: p < i < p + n ==> FragEnd(slots[i], 0) == CHARS
    requires Filled(a, len, GroupName(slots, p, n), n - k)
    requires len' == len + |Frag(slots[p + k])| && CHARS * (n - k) <= |b|
    requires b[CHARS * (n - 1 - k)..CHARS * (n - 1 - k) + |Frag(slots[p + k])|] == Frag(slots[p + k])
    requires forall i :: 0 <= i < |a| && !(CHARS * (n - 1 - k) <= i < CHARS * (n - k)) ==> b[i] == a[i]
    ensures Filled(b, len', GroupName(slots, p, n), n - (k + 1))
  {
    hide GroupName, FragEnd, Frag;
    FragInName(slots, p, n, k);
    var name, f, at := GroupName(slots, p, n), Frag(slots[p + k]), CHARS * (n - 1 - k);
    forall j | at <= j < |name|
      ensures b[j] == name[j]
    {
      if j < at + |f| {
        assert b[j] == b[at..at + |f|][j - at] == name[at..at + |f|][j - at];
      }
    }
  }

  lemma StartFilled(slots: seq<Slot>, p: nat, a: seq<byte>)
    requires GroupOk(slots, p) && |a| == SECTOR_SIZE
    ensures Filled(a, 0, GroupName(slots, p, GroupLen(slots[p])), GroupLen(slots[p]))
    ensures |GroupName(slots, p, GroupLen(slots[p]))| <= MAX_NAME
  {
    hide FragEnd, Frag, FragOk, GroupName, Checksum;
    FragInName(slots, p, GroupLen(slots[p]), 0);
  }

  lemma FilledAll(a: seq<byte>, len: nat, name: Name)
    requires Filled(a, len, name, 0)
    ensures len == |name| && a[..len] == name
  {
  }

  /** The inner loop of `parse_lfn_name`: the characters of fragment number `cnt` (counted from 0) go to their place
      in the buffer, and are counted. */
  method ReadFragment(slot: Slot, a: array<byte>, cnt: nat, len: nat) returns (ok: bool, newLen: nat)
    requires a.Length == SECTOR_SIZE && cnt < 32
    modifies a
    ensures ok <==> FragOk(slot)
    ensures ok ==> newLen == len + |Frag(slot)| && a[CHARS * cnt..CHARS * cnt + |Frag(slot)|] == Frag(slot)
    ensures forall i :: 0 <= i < SECTOR_SIZE && !(CHARS * cnt <= i < CHARS * (cnt + 1)) ==> a[i] == old(a[i])
  {
    newLen := len;
    var i := 0;
    while i < CHARS
      invariant 0 <= i <= CHARS && i <= FragEnd(slot, 0) && newLen == len + i
      invariant forall j :: 0 <= j < i ==> CharAt(slot, j) != 0xff
      invariant forall j :: CHARS * cnt <= j < CHARS * cnt + i ==> a[j] == CharAt(slot, j - CHARS * cnt)
      invariant forall i :: 0 <= i < SECTOR_SIZE && !(CHARS * cnt <= i < CHARS * (cnt + 1)) ==> a[i] == old(a[i])
    {
      var c := slot[CharIndex(i)];
      assert c == CharAt(slot, i);
      if c == 0xff {
        return false, newLen;
      }
      if c == 0 {
        break;
      }
      a[CHARS * cnt + i] := c;
      newLen := newLen + 1;
      i := i + 1;
    }
    ok := true;
  }

  /** The stores of `dir_add` for one long-name slot: the fragment and then the other fields. */
  method FillLfn(a: array<byte>, off: nat, frag: Name, i: nat, head: bool, crc: byte)
    requires off + 32 <= a.Length && |frag| <= CHARS && 1 <= i <= 20
    modifies a
    ensures a[off..off + 32] == LfnSlot(frag, i, head, crc)
    ensures forall i :: 0 <= i < a.Length && !(off <= i < off + 32) ==> a[i] == old(a[i])
  {
    hide LfnSlot, LowByte, HighByte;
    PutLfnNameFrag(a, off, frag);
    label chars:
    a[off + ATTR_AT] := ATTR_LFN;
    a[off] := (if head then 0x40 else 0) + i;
    a[off + CRC_AT] := crc;
    a[off + 12] := 0;
    a[off + 26], a[off + 27] := 0, 0;
    ghost var s: Slot := a[off..off + 32];
    forall j | 0 <= j < CHARS
      ensures s[CharIndex(j)] == LowByte(frag, j) && s[CharIndex(j) + 1] == HighByte(frag, j)
    {
      assert a[off + CharIndex(j)] == old@chars(a[off + CharIndex(j)]);
      assert a[off + CharIndex(j) + 1] == old@chars(a[off + CharIndex(j) + 1]);
    }
    LfnSlotFromFields(s, frag, i, head, crc);
  }
}
