/** Where things are on a FAT32 volume, and what updating a FAT word or FSInfo does to the logical disk. */
module Layout {
  import opened Bytes

  /** The boot-sector fields that fix the geometry. */
  datatype Bpb = Bpb(
    sectPerClust: nat,
    resSectCnt: nat,
    fatCnt: nat,
    sectPerFat: nat,
    extFlags: nat,
    rootClust: nat,
    infoSect: nat,
    sectCnt: nat)

  /** The geometry of a mounted volume. `fat0` is the active FAT; `fat1` is the mirror, or 0 if there is none.
      Shifts by `clust_shift` and masks with `clust_msk` are products, quotients and remainders by `spc`. */
  datatype Geometry = Geometry(
    spc: nat,
    clustCnt: nat,
    infoSect: nat,
    fat0: nat,
    fat1: nat,
    dataSect: nat,
    rootClust: nat)
  {
    function FatLen(): nat {
      clustCnt / 128
    }

    /** The volume lies within `n` sectors: FSInfo, the FATs and the data region in this order, without overlap. */
    ghost predicate Wf(n: nat) {
      && spc in {1, 2, 4, 8, 16, 32, 64, 128}
      && clustCnt % 128 == 0 && 128 <= clustCnt <= 0x0fff_fff7
      && 0 < infoSect < fat0
      && fat0 + FatLen() <= dataSect <= n
      && (fat1 != 0 ==>
            && infoSect < fat1
            && fat1 + FatLen() <= dataSect
            && (fat0 + FatLen() <= fat1 || fat1 + FatLen() <= fat0))
      && 2 <= rootClust < clustCnt
    }

    /** Whether clusters start at sector numbers that are multiples of the cluster size. */
    predicate Aligned()
      requires spc > 0
    {
      dataSect % spc == 0
    }

    predicate InFat(s: nat) {
      fat0 <= s < fat0 + FatLen() || (fat1 != 0 && fat1 <= s < fat1 + FatLen())
    }

    /** A cluster number that the allocator may hand out. */
    predicate IsCluster(c: nat) {
      2 <= c < clustCnt
    }

    function ClustToSect(c: nat): (s: nat)
      requires 2 <= c
    {
      (c - 2) * spc + dataSect
    }

    /** The sector with index `j` in cluster `c`. */
    function SectorIn(c: nat, j: nat): (s: nat)
      requires 2 <= c
    {
      ClustToSect(c) + j
    }

    function SectToClust(s: nat): (c: nat)
      requires dataSect <= s && 0 < spc
    {
      (s - dataSect) / spc + 2
    }
  }

  /** The geometry that mounting computes. `ctz` of a power of two and its use as a shift are exact, so the
      cluster size is kept as it is. */
  function MountGeometry(b: Bpb, lba: nat): Geometry {
    var mirror := b.extFlags / 0x80 % 2 == 1;
    var useFirst := b.extFlags % 2 == 0;
    var first := lba + b.resSectCnt;
    var second := lba + b.resSectCnt + b.sectPerFat;
    Geometry(
      b.sectPerClust,
      b.sectPerFat * 128,
      lba + b.infoSect,
      if useFirst then first else second,
      if !mirror then 0 else if useFirst then second else first,
      lba + b.resSectCnt + b.fatCnt * b.sectPerFat,
      b.rootClust)
  }

  /** The tests of `check_fat` on these fields. The count of clusters is computed from the number of sectors that the
      boot sector gives, which nothing compares with the device, and not from the length of the FATs. */
  predicate Probed(b: Bpb) {
    && b.fatCnt == 2 && b.infoSect == 1
    && (b.extFlags / 0x80 % 2 == 1 || b.extFlags % 16 <= 1)
    && 0 < b.sectPerClust
    && (b.sectCnt - (b.resSectCnt + b.fatCnt * b.sectPerFat)) % TWO_32 / b.sectPerClust >= 65525
  }

  /** A boot sector that passes the probe, on a device with `n` sectors that is large enough for its tables. */
  ghost predicate Mountable(b: Bpb, lba: nat, n: nat) {
    && Probed(b) && b.resSectCnt >= 2
    && b.sectPerClust in {1, 2, 4, 8, 16, 32, 64, 128}
    && 1 <= b.sectPerFat && b.sectPerFat * 128 <= 0x0fff_fff7
    && lba + b.resSectCnt + 2 * b.sectPerFat <= n
    && 2 <= b.rootClust < b.sectPerFat * 128
  }

  /** Mounting yields disjoint tables, FSInfo and data, whichever FAT is active. */
  lemma MountGeometryWf(b: Bpb, lba: nat, n: nat)
    requires Mountable(b, lba, n)
    ensures MountGeometry(b, lba).Wf(n)
    ensures MountGeometry(b, lba).FatLen() == b.sectPerFat
    ensures MountGeometry(b, lba).dataSect == lba + b.resSectCnt + 2 * b.sectPerFat
  {
    assert b.sectPerFat * 128 / 128 == b.sectPerFat;
  }

  /** Which FAT is active, and which one is its mirror: the low bit of the flags chooses, bit 7 asks for a mirror. */
  lemma ActiveFat(b: Bpb, lba: nat)
    ensures var g := MountGeometry(b, lba); var first := lba + b.resSectCnt; var second := first + b.sectPerFat;
            && (b.extFlags % 2 == 0 ==> g.fat0 == first) && (b.extFlags % 2 == 1 ==> g.fat0 == second)
            && (b.extFlags / 128 % 2 == 0 ==> g.fat1 == 0)
            && (b.extFlags / 128 % 2 == 0 && Probed(b) ==> g.fat0 == first + b.extFlags % 16 * b.sectPerFat)
            && (b.extFlags / 128 % 2 == 1 ==> g.fat1 + g.fat0 == first + second)
            && g.infoSect == lba + b.infoSect && g.dataSect == second + b.fatCnt * b.sectPerFat - b.sectPerFat
            && g.spc == b.sectPerClust && g.clustCnt == 128 * b.sectPerFat && g.rootClust == b.rootClust
  {
  }

  // ---------- sectors and clusters ----------

  /** Cluster 2 starts the data region, and the others follow without gaps. */
  lemma ClustersAbut(g: Geometry, c: nat)
    requires 2 <= c
    ensures g.ClustToSect(2) == g.dataSect && g.ClustToSect(c + 1) == g.ClustToSect(c) + g.spc
  {
  }

  /** `SectToClust` inverts `ClustToSect` on every sector of a cluster. */
  lemma SectToClustInverts(g: Geometry, c: nat, j: nat)
    requires 2 <= c && j < g.spc
    ensures g.SectToClust(g.ClustToSect(c) + j) == c
    ensures g.ClustToSect(c) >= g.dataSect
  {
    MulNonNeg(c - 2, g.spc);
    DivOfMulAdd(c - 2, g.spc, j);
  }

  lemma MulNonNeg(a: nat, k: nat)
    ensures a * k >= 0
  {
  }

  lemma MulAtLeast(d: int, k: nat)
    ensures d >= 1 ==> d * k >= k
    ensures d <= -1 ==> d * k + k <= 0
  {
    if d >= 1 {
      MulNonNeg(d - 1, k);
    } else if d <= -1 {
      MulNonNeg(-d - 1, k);
    }
  }

  lemma MultipleBelow(d: int, k: nat, r: nat, j: nat)
    requires r < k && j < k && d * k + r == j
    ensures d == 0 && r == j
  {
    MulAtLeast(d, k);
  }

  lemma DivOfMulAdd(a: nat, k: nat, j: nat)
    requires j < k
    ensures a * k + j >= 0 && (a * k + j) / k == a && (a * k + j) % k == j
  {
    MulNonNeg(a, k);
    var n := a * k + j;
    assert n == n / k * k + n % k;
    assert (n / k - a) * k == n / k * k - a * k;
    MultipleBelow(n / k - a, k, n % k, j);
  }

  /** No sector belongs to two clusters. */
  lemma ClustersDisjoint(g: Geometry, c: nat, j: nat, d: nat, k: nat)
    requires 2 <= c && 2 <= d && j < g.spc && k < g.spc
    requires g.ClustToSect(c) + j == g.ClustToSect(d) + k
    ensures c == d && j == k
  {
    SectToClustInverts(g, c, j);
    SectToClustInverts(g, d, k);
  }

  /** The remainder that `dir_next` tests counts sectors within the cluster exactly when the data region is aligned. */
  lemma BoundaryTestExact(g: Geometry)
    requires g.spc > 0
    ensures g.Aligned() <==> forall c: nat, j: nat :: 2 <= c && j < g.spc ==> g.SectorIn(c, j) % g.spc == j
  {
    if g.Aligned() {
      forall c: nat, j: nat | 2 <= c && j < g.spc
        ensures g.SectorIn(c, j) % g.spc == j
      {
        AlignedRemainder(g, c, j);
      }
    } else {
      assert g.SectorIn(2, 0) == g.dataSect;
    }
  }

  lemma AlignedRemainder(g: Geometry, c: nat, j: nat)
    requires g.spc > 0 && g.Aligned() && 2 <= c && j < g.spc
    ensures (g.ClustToSect(c) + j) % g.spc == j
  {
    var d := g.dataSect / g.spc;
    assert g.dataSect == d * g.spc;
    assert g.ClustToSect(c) == (c - 2 + d) * g.spc;
    DivOfMulAdd(c - 2 + d, g.spc, j);
  }

  // ---------- FAT words ----------

  /** The word of cluster `c` in the FAT that starts at sector `base`. */
  function FatWord(img: Image, base: nat, c: nat): uint32
    requires base + c / 128 < |img|
  {
    Word(img[base + c / 128], c % 128)
  }

  /** The image after `put_fat2`: the low 28 bits of one word replaced. */
  function PutWord(img: Image, base: nat, c: nat, v: nat): (r: Image)
    requires base + c / 128 < |img|
    ensures |r| == |img|
  {
    var s := base + c / 128;
    img[s := WithWord(img[s], c % 128, ReplaceLow28(Word(img[s], c % 128), v))]
  }

  /** The image after `put_fat`: the mirror first, then the active FAT. */
  function PutFat(g: Geometry, img: Image, c: nat, v: nat): (r: Image)
    requires g.Wf(|img|) && c < g.clustCnt
    ensures |r| == |img|
  {
    var m := if g.fat1 != 0 then PutWord(img, g.fat1, c, v) else img;
    PutWord(m, g.fat0, c, v)
  }

  /** The entry of cluster `c` in the active FAT. */
  function Entry(g: Geometry, img: Image, c: nat): nat
    requires g.Wf(|img|) && c < g.clustCnt
  {
    Low28(FatWord(img, g.fat0, c))
  }

  /** All the entries of the active FAT. */
  function Table(g: Geometry, img: Image): (t: seq<nat>)
    requires g.Wf(|img|)
    ensures |t| == g.clustCnt
    ensures forall c :: 0 <= c < g.clustCnt ==> t[c] == Entry(g, img, c)
  {
    seq(g.clustCnt, c requires 0 <= c < g.clustCnt => Entry(g, img, c))
  }

  /** In bytes: the entry of a cluster is the low 28 bits of four bytes of the active FAT, 128 entries a sector. */
  lemma EntryBytes(g: Geometry, img: Image, c: nat)
    requires g.Wf(|img|) && c < g.clustCnt
    ensures g.fat0 + c / 128 < |img|
    ensures Entry(g, img, c) == Number(img[g.fat0 + c / 128][4 * (c % 128)..4 * (c % 128) + 4]) % 0x1000_0000
  {
    WordNumber(img[g.fat0 + c / 128], c % 128);
  }

  /** Updating one word of one FAT changes the low 28 bits of that word, and no other word of any FAT. */
  lemma PutWordReads(img: Image, base: nat, c: nat, v: nat, base': nat, d: nat)
    requires base + c / 128 < |img| && base' + d / 128 < |img|
    ensures var w := FatWord(img, base', d); var w' := FatWord(PutWord(img, base, c, v), base', d);
            if base + c / 128 == base' + d / 128 && c % 128 == d % 128
            then Low28(w') == v % TWO_28 && HighNibble(w') == HighNibble(w)
            else w' == w
  {
    var s := base + c / 128;
    WithWordReads(img[s], c % 128, ReplaceLow28(Word(img[s], c % 128), v), d % 128);
  }

  /** Words of distinct clusters, and words of the two FATs, never alias. */
  lemma WordsDistinct(g: Geometry, n: nat, c: nat, d: nat)
    requires g.Wf(n) && c < g.clustCnt && d < g.clustCnt
    ensures g.fat0 + c / 128 == g.fat0 + d / 128 && c % 128 == d % 128 ==> c == d
    ensures g.fat1 != 0 ==> g.fat0 + c / 128 != g.fat1 + d / 128
    ensures g.InFat(g.fat0 + c / 128) && g.fat0 + c / 128 < n
    ensures g.fat1 != 0 ==> g.InFat(g.fat1 + c / 128) && g.fat1 + c / 128 < n
  {
  }

  /** What `put_fat` means: in both FATs exactly one entry changes, upper nibbles are kept. */
  lemma PutFatWords(g: Geometry, img: Image, c: nat, v: nat, d: nat)
    requires g.Wf(|img|) && c < g.clustCnt && d < g.clustCnt
    ensures var w := FatWord(img, g.fat0, d); var w' := FatWord(PutFat(g, img, c, v), g.fat0, d);
            && (c == d ==> Low28(w') == v % TWO_28) && (c != d ==> w' == w)
            && HighNibble(w') == HighNibble(w)
    ensures g.fat1 != 0 ==>
              (var w := FatWord(img, g.fat1, d); var w' := FatWord(PutFat(g, img, c, v), g.fat1, d);
               && (c == d ==> Low28(w') == v % TWO_28) && (c != d ==> w' == w)
               && HighNibble(w') == HighNibble(w))
  {
    WordsDistinct(g, |img|, c, d);
    if g.fat1 != 0 {
      var m := PutWord(img, g.fat1, c, v);
      WordsDistinct(g, |img|, d, c);
      PutWordReads(img, g.fat1, c, v, g.fat1, d);
      PutWordReads(img, g.fat1, c, v, g.fat0, d);
      PutWordReads(m, g.fat0, c, v, g.fat0, d);
      PutWordReads(m, g.fat0, c, v, g.fat1, d);
    } else {
      PutWordReads(img, g.fat0, c, v, g.fat0, d);
    }
  }

  /** `put_fat` refines a single update of the table of entries. */
  lemma PutFatTable(g: Geometry, img: Image, c: nat, v: nat)
    requires g.Wf(|img|) && c < g.clustCnt
    ensures Table(g, PutFat(g, img, c, v)) == Table(g, img)[c := v % TWO_28]
  {
    var t, t' := Table(g, img), Table(g, PutFat(g, img, c, v));
    forall d | 0 <= d < g.clustCnt
      ensures t'[d] == if d == c then v % TWO_28 else t[d]
    {
      PutFatWords(g, img, c, v, d);
    }
  }

  /** Sectors outside the FATs are untouched by `put_fat`. */
  lemma PutFatElsewhere(g: Geometry, img: Image, c: nat, v: nat, s: nat)
    requires g.Wf(|img|) && c < g.clustCnt && s < |img| && !g.InFat(s)
    ensures PutFat(g, img, c, v)[s] == img[s]
  {
  }

  /** The two FATs agree on every entry. */
  ghost predicate Mirrored(g: Geometry, img: Image)
    requires g.Wf(|img|)
  {
    g.fat1 != 0 ==>
      forall c :: 0 <= c < g.clustCnt ==> Low28(FatWord(img, g.fat0, c)) == Low28(FatWord(img, g.fat1, c))
  }

  lemma PutFatMirrored(g: Geometry, img: Image, c: nat, v: nat)
    requires g.Wf(|img|) && c < g.clustCnt && Mirrored(g, img)
    ensures Mirrored(g, PutFat(g, img, c, v))
  {
    forall d | 0 <= d < g.clustCnt && g.fat1 != 0
      ensures Low28(FatWord(PutFat(g, img, c, v), g.fat0, d)) == Low28(FatWord(PutFat(g, img, c, v), g.fat1, d))
    {
      PutFatWords(g, img, c, v, d);
    }
  }

  /** A change outside the FATs keeps the mirror. */
  lemma MirroredFrame(g: Geometry, img: Image, img': Image)
    requires g.Wf(|img|) && |img'| == |img|
    requires forall s :: 0 <= s < |img| && g.InFat(s) ==> img'[s] == img[s]
    ensures Mirrored(g, img) ==> Mirrored(g, img')
  {
    if Mirrored(g, img) && g.fat1 != 0 {
      forall c | 0 <= c < g.clustCnt
        ensures Low28(FatWord(img', g.fat0, c)) == Low28(FatWord(img', g.fat1, c))
      {
        WordsDistinct(g, |img|, c, c);
        assert FatWord(img', g.fat0, c) == FatWord(img, g.fat0, c);
        assert FatWord(img', g.fat1, c) == FatWord(img, g.fat1, c);
      }
    }
  }

  // ---------- FSInfo ----------

  const INFO_FREE_CNT := 122
  const INFO_NEXT_FREE := 123

  /** The image after `sync_fs` has stored its counters. */
  function PutInfo(g: Geometry, img: Image, nextFree: uint32, freeCnt: uint32): (r: Image)
    requires g.Wf(|img|)
    ensures |r| == |img|
  {
    img[g.infoSect := WithWord(WithWord(img[g.infoSect], INFO_NEXT_FREE, nextFree), INFO_FREE_CNT, freeCnt)]
  }

  /** FSInfo holds the two counters, and nothing else has changed. */
  lemma PutInfoReads(g: Geometry, img: Image, nextFree: uint32, freeCnt: uint32)
    requires g.Wf(|img|)
    ensures var r := PutInfo(g, img, nextFree, freeCnt);
            && Word(r[g.infoSect], INFO_NEXT_FREE) == nextFree
            && Word(r[g.infoSect], INFO_FREE_CNT) == freeCnt
            && Number(r[g.infoSect][488..492]) == freeCnt && Number(r[g.infoSect][492..496]) == nextFree
            && Table(g, r) == Table(g, img)
            && (forall s :: 0 <= s < |img| && s != g.infoSect ==> r[s] == img[s])
            && (Mirrored(g, img) ==> Mirrored(g, r))
  {
    var s := img[g.infoSect];
    WithWordReads(s, INFO_NEXT_FREE, nextFree, INFO_NEXT_FREE);
    WithWordReads(WithWord(s, INFO_NEXT_FREE, nextFree), INFO_FREE_CNT, freeCnt, INFO_NEXT_FREE);
    WithWordReads(WithWord(s, INFO_NEXT_FREE, nextFree), INFO_FREE_CNT, freeCnt, INFO_FREE_CNT);
    MirroredFrame(g, img, PutInfo(g, img, nextFree, freeCnt));
    InfoBytes(PutInfo(g, img, nextFree, freeCnt)[g.infoSect]);
  }

  /** Where the counters are in the sector of FSInfo. */
  lemma InfoBytes(s: Sector)
    ensures Word(s, INFO_FREE_CNT) == Number(s[488..492]) && Word(s, INFO_NEXT_FREE) == Number(s[492..496])
  {
    WordNumber(s, INFO_FREE_CNT);
    WordNumber(s, INFO_NEXT_FREE);
  }

  /** A change outside the active FAT leaves every entry as it was. */
  lemma TableFrame(g: Geometry, img: Image, img': Image)
    requires g.Wf(|img|) && |img'| == |img|
    requires forall s :: g.fat0 <= s < g.fat0 + g.FatLen() ==> img'[s] == img[s]
    ensures Table(g, img') == Table(g, img)
  {
    forall c | 0 <= c < g.clustCnt
      ensures Entry(g, img', c) == Entry(g, img, c)
    {
      WordsDistinct(g, |img|, c, c);
    }
  }

  /** The tables and FSInfo, and everything else before the data region, are the same in both images. */
  ghost predicate SameTables(g: Geometry, a: Image, b: Image) {
    |a| == |b| && forall s :: 0 <= s < g.dataSect && s < |a| ==> a[s] == b[s]
  }

  lemma SameTablesFrame(g: Geometry, a: Image, b: Image)
    requires g.Wf(|a|) && SameTables(g, a, b)
    ensures Table(g, a) == Table(g, b)
    ensures Mirrored(g, a) ==> Mirrored(g, b)
  {
    TableFrame(g, a, b);
    MirroredFrame(g, a, b);
  }

  /** The image with `n` sectors from `s` on filled with zeros. */
  function Zeroed(img: Image, s: nat, n: nat): (r: Image)
    requires s + n <= |img|
    ensures |r| == |img|
    ensures forall k :: s <= k < s + n ==> r[k] == ZeroSector()
    ensures forall k :: 0 <= k < |img| && !(s <= k < s + n) ==> r[k] == img[k]
  {
    if n == 0 then img else Zeroed(img, s, n - 1)[s + n - 1 := ZeroSector()]
  }
}
