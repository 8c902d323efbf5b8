/** The active FAT as a sequence of 28-bit entries: chains, who owns them, releasing and allocating. */
module Chains {
  import opened Bytes

  type FatTable = seq<nat>

  const EOC := 0x0fff_ffff
  const BAD_MARK := 0x0fff_fff7

  /** How `get_fat` reads an entry. `Broken` is its error exit. */
  datatype Kind = Free | Used | Last | Bad | Broken

  function Classify(v: nat, cnt: nat): (k: Kind) {
    if v == 0 then Free
    else if v == BAD_MARK then Bad
    else if v > BAD_MARK then Last
    else if 2 <= v < cnt then Used
    else Broken
  }

  function KindAt(t: FatTable, c: nat): Kind
    requires c < |t|
  {
    Classify(t[c], |t|)
  }

  /** Every entry of a cluster can be read. */
  ghost predicate NoneBroken(t: FatTable) {
    forall c :: 2 <= c < |t| ==> Classify(t[c], |t|) != Broken
  }

  // ---------- counting ----------

  /** The number of free entries from index `lo` on; `free_cnt` tracks `CountFree(t, 2)`. */
  function CountFree(t: FatTable, lo: nat): (n: nat)
    requires lo <= |t|
    ensures n <= |t| - lo
    decreases |t| - lo
  {
    if lo == |t| then 0 else (if t[lo] == 0 then 1 else 0) + CountFree(t, lo + 1)
  }

  lemma {:induction false} CountFreeUpdate(t: FatTable, lo: nat, c: nat, v: nat)
    requires lo <= |t| && c < |t|
    ensures CountFree(t[c := v], lo) ==
            if c < lo then CountFree(t, lo)
            else CountFree(t, lo) - (if t[c] == 0 then 1 else 0) + (if v == 0 then 1 else 0)
    decreases |t| - lo
  {
    if lo < |t| {
      CountFreeUpdate(t, lo + 1, c, v);
    }
  }

  // ---------- chains ----------

  /** `ch` is what following links from `ch[0]` visits, ending in an end-of-chain entry. */
  ghost predicate IsChain(t: FatTable, ch: seq<nat>) {
    && |ch| > 0
    && (forall i :: 0 <= i < |ch| ==> ch[i] < |t|)
    && (forall i :: 0 <= i < |ch| - 1 ==> KindAt(t, ch[i]) == Used && t[ch[i]] == ch[i + 1])
    && KindAt(t, ch[|ch| - 1]) == Last
  }

  ghost predicate Distinct(s: seq<nat>) {
    forall i, j :: 0 <= i < j < |s| ==> s[i] != s[j]
  }

  lemma ChainTail(t: FatTable, ch: seq<nat>, i: nat)
    requires IsChain(t, ch) && i < |ch|
    ensures IsChain(t, ch[i..])
  {
  }

  /** There is only one chain from a given cluster. */
  lemma {:induction false} ChainUnique(t: FatTable, a: seq<nat>, b: seq<nat>)
    requires IsChain(t, a) && IsChain(t, b) && a[0] == b[0]
    ensures a == b
    decreases |a|
  {
    if |a| > 1 && |b| > 1 {
      ChainTail(t, a, 1);
      ChainTail(t, b, 1);
      ChainUnique(t, a[1..], b[1..]);
      assert a == [a[0]] + a[1..] && b == [b[0]] + b[1..];
    } else {
      assert |a| == |b| == 1;
    }
  }

  /** A chain that ends never visits a cluster twice. */
  lemma ChainDistinct(t: FatTable, ch: seq<nat>)
    requires IsChain(t, ch)
    ensures Distinct(ch)
  {
    forall i, j | 0 <= i < j < |ch|
      ensures ch[i] != ch[j]
    {
      if ch[i] == ch[j] {
        ChainTail(t, ch, i);
        ChainTail(t, ch, j);
        ChainUnique(t, ch[i..], ch[j..]);
      }
    }
  }

  /** Chains that share a cluster share everything after it. */
  lemma ChainsMerge(t: FatTable, a: seq<nat>, i: nat, b: seq<nat>, j: nat)
    requires IsChain(t, a) && IsChain(t, b) && i < |a| && j < |b| && a[i] == b[j]
    ensures a[i..] == b[j..]
  {
    ChainTail(t, a, i);
    ChainTail(t, b, j);
    ChainUnique(t, a[i..], b[j..]);
  }

  lemma ChainFrame(t: FatTable, t': FatTable, ch: seq<nat>)
    requires IsChain(t, ch) && |t'| == |t|
    requires forall i :: 0 <= i < |ch| ==> t'[ch[i]] == t[ch[i]]
    ensures IsChain(t', ch)
  {
  }

  // ---------- releasing ----------

  datatype Released = Released(table: FatTable, ok: bool, freed: nat)

  /** The meaning of `remove_chain` on the table: entries are cleared one by one until an end-of-chain entry, or
      until the walk arrives at an entry that is free, bad or broken. */
  function Release(t: FatTable, c: nat): (r: Released)
    requires c < |t|
    ensures |r.table| == |t|
    decreases |t| - CountFree(t, 0)
  {
    match KindAt(t, c)
    case Last => Released(t[c := 0], true, 1)
    case Used =>
      CountFreeUpdate(t, 0, c, 0);
      var r := Release(t[c := 0], t[c]);
      Released(r.table, r.ok, r.freed + 1)
    case _ => Released(t, false, 0)
  }

  /** The outcome of a release of which `n` entries were cleared before. */
  function Continued(r: Released, n: nat): Released {
    r.(freed := r.freed + n)
  }

  /** One round of the walk: the rest of the release starts from the table with this entry cleared. */
  lemma ReleaseRound(t: FatTable, c: nat)
    requires c < |t|
    ensures KindAt(t, c) == Last ==> Release(t, c) == Released(t[c := 0], true, 1)
    ensures KindAt(t, c) == Used ==>
              && CountFree(t[c := 0], 0) == CountFree(t, 0) + 1
              && Release(t, c) == Continued(Release(t[c := 0], t[c]), 1)
    ensures KindAt(t, c) != Last && KindAt(t, c) != Used ==> Release(t, c) == Released(t, false, 0)
  {
    CountFreeUpdate(t, 0, c, 0);
  }

  /** `t` with every entry in `cs` cleared. */
  function Cleared(t: FatTable, cs: seq<nat>): (r: FatTable)
    ensures |r| == |t|
    ensures forall c :: 0 <= c < |t| ==> r[c] == if c in cs then 0 else t[c]
  {
    seq(|t|, c requires 0 <= c < |t| => if c in cs then 0 else t[c])
  }

  /** Releasing a chain clears exactly its clusters and succeeds. */
  lemma {:induction false} ReleaseChain(t: FatTable, ch: seq<nat>)
    requires IsChain(t, ch)
    ensures Release(t, ch[0]) == Released(Cleared(t, ch), true, |ch|)
    decreases |ch|
  {
    ChainDistinct(t, ch);
    var t1 := t[ch[0] := 0];
    if |ch| > 1 {
      var rest := ch[1..];
      ChainTail(t, ch, 1);
      ChainFrame(t, t1, rest);
      ReleaseChain(t1, rest);
      assert ch == [ch[0]] + rest;
      assert Cleared(t1, rest) == Cleared(t, ch);
    } else {
      assert t1 == Cleared(t, ch);
    }
  }

  /** What the values of an entry mean. */
  lemma KindNumbers(v: nat, cnt: nat)
    requires cnt <= 0x0fff_fff7
    ensures Classify(v, cnt) == Free <==> v == 0
    ensures Classify(v, cnt) == Bad <==> v == 0x0fff_fff7
    ensures Classify(v, cnt) == Last <==> 0x0fff_fff8 <= v
    ensures Classify(v, cnt) == Used <==> 2 <= v < cnt
    ensures Classify(v, cnt) == Broken <==> v == 1 || (0 < v && cnt <= v < 0x0fff_fff7)
  {
  }

  /** Entries that are cluster numbers lead from each of these clusters to the next one. What the last entry is, is
      left open. */
  ghost predicate Leads(t: FatTable, ch: seq<nat>) {
    && ch != [] && (forall i :: 0 <= i < |ch| ==> ch[i] < |t|)
    && (forall i :: 0 <= i < |ch| - 1 ==> 2 <= t[ch[i]] == ch[i + 1])
  }

  lemma LeadsOn(t: FatTable, ch: seq<nat>)
    requires Leads(t, ch) && |ch| > 1 && Distinct(ch)
    ensures ch[0] < |t| && 2 <= t[ch[0]] == ch[1] < |t|
    ensures Leads(t[ch[0] := 0], ch[1..]) && Distinct(ch[1..])
    ensures ch[|ch| - 1] < |t| && t[ch[0] := 0][ch[1..][|ch| - 2]] == t[ch[|ch| - 1]]
  {
  }

  /** The same in numbers: an entry of at least 0x0ffffff8 ends a chain, whichever one it is. */
  lemma ReleaseToMark(t: FatTable, ch: seq<nat>)
    requires Leads(t, ch) && |t| <= 0x0fff_fff7 && 0x0fff_fff8 <= t[ch[|ch| - 1]]
    ensures Release(t, ch[0]) == Released(Cleared(t, ch), true, |ch|)
  {
    hide Release, Classify;
    forall i | 0 <= i < |ch| - 1
      ensures KindAt(t, ch[i]) == Used && t[ch[i]] == ch[i + 1]
    {
      assert ch[i + 1] < |t|;
      KindNumbers(t[ch[i]], |t|);
    }
    KindNumbers(t[ch[|ch| - 1]], |t|);
    ReleaseChain(t, ch);
  }

  /** An entry that is free, that is marked bad by 0x0ffffff7, or that is no cluster number and no mark, stops the
      release: what has been cleared before stays cleared. */
  lemma {:induction false} ReleaseStops(t: FatTable, ch: seq<nat>)
    requires Leads(t, ch) && |t| <= 0x0fff_fff7 && Distinct(ch)
    requires var v := t[ch[|ch| - 1]]; v == 0 || v == 0x0fff_fff7 || v == 1 || |t| <= v < 0x0fff_fff7
    ensures Release(t, ch[0]) == Released(Cleared(t, ch[..|ch| - 1]), false, |ch| - 1)
    decreases |ch|
  {
    hide Classify, Release, Leads, Distinct, Cleared;
    FirstLed(t, ch);
    KindNumbers(t[ch[0]], |t|);
    ReleaseRound(t, ch[0]);
    if |ch| > 1 {
      var t1, rest := t[ch[0] := 0], ch[1..];
      LeadsOn(t, ch);
      ReleaseStops(t1, rest);
      ClearedFirst(t, ch, |ch| - 1);
    } else {
      assert Cleared(t, ch[..0]) == t;
    }
  }

  lemma ClearedFirst(t: FatTable, ch: seq<nat>, n: nat)
    requires 0 < n <= |ch| && ch[0] < |t|
    ensures Cleared(t[ch[0] := 0], ch[1..][..n - 1]) == Cleared(t, ch[..n])
  {
    assert ch[..n] == [ch[0]] + ch[1..][..n - 1];
  }

  lemma FirstLed(t: FatTable, ch: seq<nat>)
    requires Leads(t, ch)
    ensures ch != [] && ch[0] < |t| && ch[|ch| - 1] < |t|
  {
  }

  /** A walk along used entries. */
  ghost predicate IsWalk(t: FatTable, p: seq<nat>) {
    && |p| > 0
    && (forall i :: 0 <= i < |p| ==> p[i] < |t| && KindAt(t, p[i]) == Used)
    && (forall i :: 0 <= i < |p| - 1 ==> t[p[i]] == p[i + 1])
  }

  /** Releasing a walk that runs back into itself clears every cluster reached and reports failure. */
  lemma {:induction false} ReleaseCycle(t: FatTable, p: seq<nat>)
    requires IsWalk(t, p) && Distinct(p) && t[p[|p| - 1]] in p
    ensures Release(t, p[0]) == Released(Cleared(t, p), false, |p|)
  {
    ReleaseWalk(t, p);
    ReleaseRound(Cleared(t, p), t[p[|p| - 1]]);
  }

  lemma WalkTail(t: FatTable, p: seq<nat>)
    requires IsWalk(t, p) && Distinct(p) && |p| > 1
    ensures IsWalk(t[p[0] := 0], p[1..]) && Distinct(p[1..]) && t[p[0]] == p[1]
    ensures t[p[0] := 0][p[|p| - 1]] == t[p[|p| - 1]]
    ensures Cleared(t[p[0] := 0], p[1..]) == Cleared(t, p)
  {
    var t1, rest := t[p[0] := 0], p[1..];
    assert p == [p[0]] + rest;
    forall i | 0 <= i < |rest|
      ensures rest[i] == p[i + 1] && t1[rest[i]] == t[rest[i]]
    {
    }
  }

  /** Releasing from the start of a walk clears it and goes on from where its last link points. */
  lemma {:induction false} ReleaseWalk(t: FatTable, p: seq<nat>)
    requires IsWalk(t, p) && Distinct(p)
    ensures Release(t, p[0]) == Continued(Release(Cleared(t, p), t[p[|p| - 1]]), |p|)
    decreases |p|
  {
    hide Release, CountFree;
    ReleaseRound(t, p[0]);
    if |p| > 1 {
      WalkTail(t, p);
      ReleaseWalk(t[p[0] := 0], p[1..]);
    } else {
      assert Cleared(t, p) == t[p[0] := 0];
    }
  }

  /** `remove_chain` succeeds on exactly the clusters that head a chain. */
  lemma ReleaseSucceedsIff(t: FatTable, c: nat)
    requires c < |t|
    ensures Release(t, c).ok <==> exists ch :: IsChain(t, ch) && ch[0] == c
  {
    if Release(t, c).ok {
      var ch := ReleasedChain(t, c);
    } else if exists ch :: IsChain(t, ch) && ch[0] == c {
      var ch :| IsChain(t, ch) && ch[0] == c;
      ReleaseChain(t, ch);
    }
  }

  lemma {:induction false} ReleasedChain(t: FatTable, c: nat) returns (ch: seq<nat>)
    requires c < |t| && Release(t, c).ok
    ensures IsChain(t, ch) && ch[0] == c
    decreases |t| - CountFree(t, 0)
  {
    if KindAt(t, c) == Last {
      ch := [c];
    } else {
      CountFreeUpdate(t, 0, c, 0);
      var t1 := t[c := 0];
      var rest := ReleasedChain(t1, t[c]);
      ch := [c] + rest;
      forall i | 0 <= i < |rest|
        ensures rest[i] != c
      {
        assert KindAt(t1, rest[i]) != Free;
      }
    }
  }

  /** Each released entry is counted once, so `free_cnt` stays in step even when the walk fails, provided
      the walk starts at a real cluster. Started at a reserved entry, the count is one too high. */
  lemma {:induction false} ReleaseCounts(t: FatTable, c: nat)
    requires c < |t| && 2 <= |t|
    ensures var r := Release(t, c);
            CountFree(r.table, 2) == CountFree(t, 2) + r.freed - (if c < 2 && r.freed > 0 then 1 else 0)
    decreases |t| - CountFree(t, 0)
  {
    CountFreeUpdate(t, 2, c, 0);
    if KindAt(t, c) == Used {
      CountFreeUpdate(t, 0, c, 0);
      ReleaseCounts(t[c := 0], t[c]);
    }
  }

  /** The reserved entries 0 and 1 survive a release exactly when it does not start at one of them in use. */
  lemma {:induction false} ReleaseKeepsReserved(t: FatTable, c: nat)
    requires c < |t| && 2 <= |t|
    ensures var r := Release(t, c);
            (r.table[0] == t[0] && r.table[1] == t[1]) <==> (c >= 2 || KindAt(t, c) !in {Used, Last})
    decreases |t| - CountFree(t, 0)
  {
    if KindAt(t, c) == Used {
      CountFreeUpdate(t, 0, c, 0);
      ReleaseKeepsReserved(t[c := 0], t[c]);
    }
  }

  // ---------- allocating ----------

  /** The successor in the circular order of the clusters. */
  function Next(c: nat, cnt: nat): nat {
    if c + 1 >= cnt then 2 else c + 1
  }

  /** How many steps of `Next` lead from `from` to `to`, when `from` itself is a full circle away. */
  function Steps(from: nat, to: nat, cnt: nat): int {
    if from < to then to - from else cnt - from + to - 2
  }

  datatype Choice = Found(c: nat) | Full | Corrupt

  /** The circular scan of `stretch_chain` from `c` up to `stop`. */
  function Scan(t: FatTable, c: nat, stop: nat): (r: Choice)
    requires 2 <= c < |t| && 2 <= stop < |t|
    decreases Steps(c, stop, |t|)
  {
    var n := Next(c, |t|);
    if n == stop then Full
    else if KindAt(t, n) == Broken then Corrupt
    else if KindAt(t, n) == Free then Found(n)
    else Scan(t, n, stop)
  }

  /** The cluster that `stretch_chain` takes: the neighbour of `prev` if that is free, or else the first free
      cluster after `lastUsed`. There is no predecessor if `prev == 0`. */
  function Choose(t: FatTable, prev: nat, lastUsed: nat): (r: Choice)
    requires prev < |t| && 2 <= lastUsed < |t| && 2 < |t|
  {
    if prev != 0 && KindAt(t, Next(prev, |t|)) == Broken then Corrupt
    else if prev != 0 && KindAt(t, Next(prev, |t|)) == Free then Found(Next(prev, |t|))
    else Scan(t, lastUsed, lastUsed)
  }

  /** `d` comes strictly between `from` and `to` in circular order. */
  predicate Between(from: nat, d: nat, to: nat, cnt: nat) {
    Steps(from, d, cnt) < Steps(from, to, cnt)
  }

  lemma {:induction false} ScanSpec(t: FatTable, c: nat, stop: nat)
    requires 2 <= c < |t| && 2 <= stop < |t|
    requires NoneBroken(t)
    ensures match Scan(t, c, stop)
            case Found(n) => 2 <= n < |t| && n != stop && t[n] == 0 && Steps(c, n, |t|) < Steps(c, stop, |t|) &&
              forall d :: 2 <= d < |t| && Steps(c, d, |t|) < Steps(c, n, |t|) ==> t[d] != 0
            case Full => forall d :: 2 <= d < |t| && Steps(c, d, |t|) < Steps(c, stop, |t|) ==> t[d] != 0
            case Corrupt => false
    decreases Steps(c, stop, |t|)
  {
    var n := Next(c, |t|);
    if n != stop && KindAt(t, n) != Free {
      ScanSpec(t, n, stop);
      forall d | 2 <= d < |t| && d != n
        ensures Steps(n, d, |t|) == Steps(c, d, |t|) - 1 || d == n
      {
      }
    }
  }

  /** The allocator's contract on a table without broken entries: it takes the free neighbour of `prev`, or the
      first free cluster after `lastUsed` in circular order; it fails exactly when no cluster other than
      `lastUsed` is free and the neighbour is not free either. */
  lemma ChooseSpec(t: FatTable, prev: nat, lastUsed: nat)
    requires prev < |t| && 2 <= lastUsed < |t| && 2 < |t|
    requires NoneBroken(t)
    ensures var r := Choose(t, prev, lastUsed);
            && r != Corrupt
            && (r.Found? ==> 2 <= r.c < |t| && t[r.c] == 0)
            && (r.Full? <==>
                 (forall d :: 2 <= d < |t| && d != lastUsed ==> t[d] != 0) &&
                 (prev != 0 ==> t[Next(prev, |t|)] != 0))
            && (prev != 0 && t[Next(prev, |t|)] == 0 ==> r == Found(Next(prev, |t|)))
            && (0 < prev && prev + 1 < |t| && t[prev + 1] == 0 ==> r == Found(prev + 1))
            && (0 < prev && prev + 1 == |t| && t[2] == 0 ==> r == Found(2))
            && (r.Found? && !(prev != 0 && t[Next(prev, |t|)] == 0) ==>
                 r.c != lastUsed &&
                 forall d :: 2 <= d < |t| && Between(lastUsed, d, r.c, |t|) ==> t[d] != 0)
  {
    ScanSpec(t, lastUsed, lastUsed);
    forall d | 2 <= d < |t| && d != lastUsed
      ensures Steps(lastUsed, d, |t|) < Steps(lastUsed, lastUsed, |t|)
    {
    }
  }

  /** In numbers: without a free neighbour, every cluster that comes after `lastUsed` and before the chosen one,
      around the end of the table if need be, is in use. */
  lemma ChosenFirst(t: FatTable, prev: nat, lastUsed: nat, c: nat, d: nat)
    requires prev < |t| && 2 <= lastUsed < |t| && NoneBroken(t) && Choose(t, prev, lastUsed) == Found(c)
    requires prev == 0 || t[if prev + 1 < |t| then prev + 1 else 2] != 0
    requires if lastUsed < c then lastUsed < d < c else lastUsed < d < |t| || 2 <= d < c
    ensures c < |t| && d < |t| && t[d] != 0
  {
    ChooseSpec(t, prev, lastUsed);
    assert Between(lastUsed, d, c, |t|);
  }

  function Iterate(c: nat, cnt: nat, k: nat): nat {
    if k == 0 then c else Next(Iterate(c, cnt, k - 1), cnt)
  }

  lemma {:induction false} IterateInRange(c: nat, cnt: nat, k: nat)
    requires 2 < cnt && k > 0 && c + k >= 2
    ensures 2 <= Iterate(c, cnt, k) < cnt
    decreases k
  {
    if k > 1 && c + k > 2 {
      IterateInRange(c, cnt, k - 1);
    }
  }

  lemma {:induction false} IterateClimbs(c: nat, cnt: nat, k: nat)
    requires c + k < cnt
    ensures Iterate(c, cnt, k) == c + k
    decreases k
  {
    if k > 0 {
      IterateClimbs(c, cnt, k - 1);
    }
  }

  lemma {:induction false} IterateAdd(c: nat, cnt: nat, j: nat, k: nat)
    ensures Iterate(c, cnt, j + k) == Iterate(Iterate(c, cnt, j), cnt, k)
    decreases k
  {
    if k > 0 {
      IterateAdd(c, cnt, j, k - 1);
    }
  }

  /** An entry at which the scan ends. */
  predicate EndsScan(t: FatTable, c: nat): (r: bool)
    requires c < |t|
    ensures r <==> t[c] == 0 || t[c] == 1 || |t| <= t[c] < 0x0fff_fff7
  {
    KindAt(t, c) == Free || KindAt(t, c) == Broken
  }

  /** The scan from `lastUsed`, which can be any number, ends after some steps: back where it started, or at an
      entry. */
  ghost predicate ScanEnds(t: FatTable, lastUsed: nat) {
    exists k: nat :: k > 0 && ScanEndsAt(t, lastUsed, k)
  }

  ghost predicate ScanEndsAt(t: FatTable, lastUsed: nat, k: nat) {
    var c := Iterate(lastUsed, |t|, k);
    c == lastUsed || (c < |t| && EndsScan(t, c))
  }

  /** The scan ends if and only if it starts at a cluster number, to which it comes back, or meets an entry that
      ends it. Mounting takes `last_used` from FSInfo, where it can be anything. */
  lemma ScanEndsIff(t: FatTable, lastUsed: nat)
    requires 2 < |t|
    ensures ScanEnds(t, lastUsed) <==>
              || 2 <= lastUsed < |t|
              || (exists c :: 2 <= c < |t| && EndsScan(t, c))
              || (lastUsed == 0 && EndsScan(t, 1))
  {
    if 2 <= lastUsed < |t| {
      var k := ScanReaches(lastUsed, lastUsed, |t|);
      assert ScanEndsAt(t, lastUsed, k);
    }
    forall c | 2 <= c < |t| && EndsScan(t, c)
      ensures ScanEnds(t, lastUsed)
    {
      var k := ScanReaches(lastUsed, c, |t|);
      assert ScanEndsAt(t, lastUsed, k);
    }
    if lastUsed == 0 && EndsScan(t, 1) {
      IterateClimbs(0, |t|, 1);
      assert ScanEndsAt(t, lastUsed, 1);
    }
    forall k: nat | k > 0 && ScanEndsAt(t, lastUsed, k)
      ensures 2 <= Iterate(lastUsed, |t|, k) < |t| || (lastUsed == 0 && Iterate(lastUsed, |t|, k) == 1)
    {
      if lastUsed + k >= 2 {
        IterateInRange(lastUsed, |t|, k);
      } else {
        IterateClimbs(lastUsed, |t|, k);
      }
    }
  }

  /** The scan of `stretch_chain` answers at the first step at which a scan ends, and by what is there. */
  lemma {:induction false} ScanAnswers(t: FatTable, c: nat, stop: nat, k: nat)
    requires 2 <= c < |t| && 2 <= stop < |t| && k > 0
    requires forall j: nat :: 0 < j < k ==> Iterate(c, |t|, j) != stop && !EndsScan(t, Iterate(c, |t|, j))
    requires var n := Iterate(c, |t|, k); n == stop || EndsScan(t, n)
    ensures var n := Iterate(c, |t|, k);
            Scan(t, c, stop) == if n == stop then Full else if t[n] == 0 then Found(n) else Corrupt
    decreases k
  {
    var n := Next(c, |t|);
    IterateAdd(c, |t|, 1, k - 1);
    assert n == Iterate(c, |t|, 1) == Next(Iterate(c, |t|, 0), |t|);
    if k > 1 {
      forall j: nat | 0 < j < k - 1
        ensures Iterate(n, |t|, j) != stop && !EndsScan(t, Iterate(n, |t|, j))
      {
        IterateAdd(c, |t|, 1, j);
        assert 0 < 1 + j < k;
      }
      ScanAnswers(t, n, stop, k - 1);
    }
  }

  /** Every cluster is reached from everywhere. */
  lemma ScanReaches(from: nat, c: nat, cnt: nat) returns (k: nat)
    requires 2 <= c < cnt
    ensures k > 0 && Iterate(from, cnt, k) == c
  {
    if from < c {
      k := c - from;
      IterateClimbs(from, cnt, k);
    } else {
      var up := if from < cnt then cnt - 1 - from else 0;
      if from < cnt {
        IterateClimbs(from, cnt, up);
      }
      IterateAdd(from, cnt, up, 1);
      assert Iterate(Iterate(from, cnt, up), cnt, 1) == Next(Iterate(Iterate(from, cnt, up), cnt, 0), cnt) == 2;
      IterateClimbs(2, cnt, c - 2);
      IterateAdd(from, cnt, up + 1, c - 2);
      k := up + 1 + (c - 2);
    }
  }

  /** What the scan takes is free, whatever the table is like, and every free cluster is taken from the one before
      it. */
  lemma {:induction false} ScanTakesFree(t: FatTable, c: nat, stop: nat)
    requires 2 <= c < |t| && 2 <= stop < |t|
    ensures Scan(t, c, stop).Found? ==> 2 <= Scan(t, c, stop).c < |t| && t[Scan(t, c, stop).c] == 0
    decreases Steps(c, stop, |t|)
  {
    var n := Next(c, |t|);
    if n != stop && KindAt(t, n) != Broken && KindAt(t, n) != Free {
      ScanTakesFree(t, n, stop);
    }
  }

  lemma TakenFromBefore(t: FatTable, c: nat)
    requires 2 <= c < |t| && 3 < |t| && t[c] == 0
    ensures var p := if c == 2 then |t| - 1 else c - 1; 2 <= p < |t| && Choose(t, 0, p) == Found(c)
  {
  }

  /** The table after `stretch_chain` took cluster `c`: the new end of chain, linked from `prev` if there is one. */
  function Linked(t: FatTable, prev: nat, c: nat): (r: FatTable)
    requires prev < |t| && c < |t|
    ensures |r| == |t|
  {
    var marked := t[c := EOC];
    if prev != 0 then marked[prev := c] else marked
  }

  /** In numbers: the cluster's entry is 0x0fffffff, the predecessor's is the cluster, and no other has changed. */
  lemma LinkedNumbers(t: FatTable, prev: nat, c: nat, d: nat)
    requires prev < |t| && c < |t| && prev != c && d < |t|
    ensures Linked(t, prev, c)[d] == if d == c then 0x0fff_ffff else if d == prev && d != 0 then c else t[d]
  {
  }

  /** The tables that `stretch_chain` goes through, in order: untouched, new end of chain marked, linked. */
  ghost predicate LinkStage(t: FatTable, t0: FatTable, prev: nat, c: nat) {
    && prev < |t0| && c < |t0|
    && (t == t0 || t == t0[c := EOC] || t == Linked(t0, prev, c))
  }

  lemma LinkStages(t: FatTable, prev: nat, c: nat)
    requires prev < |t| && c < |t|
    ensures LinkStage(t, t, prev, c) && LinkStage(t[c := EOC], t, prev, c) && LinkStage(Linked(t, prev, c), t, prev, c)
    ensures prev != 0 ==> Linked(t, prev, c) == t[c := EOC][prev := c]
    ensures prev == 0 ==> Linked(t, prev, c) == t[c := EOC]
  {
  }

  /** No link leads to a free entry. */
  ghost predicate NoDangling(t: FatTable) {
    forall c :: 2 <= c < |t| && KindAt(t, c) == Used ==> t[t[c]] != 0
  }

  /** No table that a release goes through has a link to a free entry. */
  ghost predicate SafeRelease(t: FatTable, c: nat)
    requires c < |t|
    decreases |t| - CountFree(t, 0)
  {
    match KindAt(t, c)
    case Last => NoDangling(t[c := 0])
    case Used =>
      CountFreeUpdate(t, 0, c, 0);
      NoDangling(t[c := 0]) && SafeRelease(t[c := 0], t[c])
    case _ => true
  }

  /** The end of chain is marked before it is linked, so no stage has a link to a free entry. */
  lemma StagesNeverDangle(t: FatTable, t0: FatTable, prev: nat, c: nat)
    requires LinkStage(t, t0, prev, c) && NoDangling(t0) && 2 <= c && t0[c] == 0 && |t0| <= BAD_MARK
    ensures NoDangling(t)
  {
  }

  // ---------- growing ----------

  /** The chain `ch` has been extended to `ch'` by clusters that were free; nothing else in the table has changed. */
  ghost predicate Grown(t: FatTable, t': FatTable, ch: seq<nat>, ch': seq<nat>) {
    && |t'| == |t| && 0 < |ch| && ch <= ch' && IsChain(t', ch')
    && (forall i :: |ch| <= i < |ch'| ==> 2 <= ch'[i] < |t| && t[ch'[i]] == 0)
    && (forall c :: 0 <= c < |t| && c !in ch'[|ch| - 1..] ==> t'[c] == t[c])
  }

  /** What `stretch_chain` does to the chain whose last cluster it is given. */
  lemma GrownByOne(t: FatTable, ch: seq<nat>, c: nat)
    requires IsChain(t, ch) && 2 <= c < |t| <= BAD_MARK && t[c] == 0 && ch[|ch| - 1] != 0
    ensures Grown(t, Linked(t, ch[|ch| - 1], c), ch, ch + [c])
    ensures c !in ch
  {
    ChainDistinct(t, ch);
    var last := ch[|ch| - 1];
    var t', ch' := Linked(t, last, c), ch + [c];
    forall i | 0 <= i < |ch|
      ensures ch[i] != c
    {
      assert KindAt(t, ch[i]) != Free;
    }
    forall i | 0 <= i < |ch'| - 1
      ensures KindAt(t', ch'[i]) == Used && t'[ch'[i]] == ch'[i + 1]
    {
    }
    assert ch'[|ch| - 1..] == [last, c];
  }

  lemma GrownTrans(t: FatTable, t1: FatTable, t2: FatTable, ch: seq<nat>, ch1: seq<nat>, ch2: seq<nat>)
    requires Grown(t, t1, ch, ch1) && Grown(t1, t2, ch1, ch2)
    ensures Grown(t, t2, ch, ch2)
  {
    hide IsChain;
    forall c | 0 <= c < |t| && c !in ch2[|ch| - 1..]
      ensures t2[c] == t[c]
    {
      assert ch2[|ch1| - 1..] == ch2[|ch| - 1..][|ch1| - |ch|..];
    }
    forall i | |ch| <= i < |ch2|
      ensures 2 <= ch2[i] < |t| && t[ch2[i]] == 0
    {
      if i >= |ch1| {
        if ch2[i] in ch1[|ch| - 1..] {
          var j :| |ch| - 1 <= j < |ch1| && ch1[j] == ch2[i];
          GrownInUse(t, t1, ch, ch1, j);
        }
      }
    }
  }

  /** Every cluster of the longer chain is in use. */
  lemma GrownInUse(t: FatTable, t': FatTable, ch: seq<nat>, ch': seq<nat>, i: nat)
    requires Grown(t, t', ch, ch') && i < |ch'|
    ensures t'[ch'[i]] != 0
  {
  }

  lemma LinkedNoneBroken(t: FatTable, prev: nat, c: nat)
    requires NoneBroken(t) && prev < |t| && 2 <= c < |t|
    ensures NoneBroken(Linked(t, prev, c))
  {
  }

  lemma {:induction false} ReleaseNoneBroken(t: FatTable, c: nat)
    requires NoneBroken(t) && c < |t|
    ensures NoneBroken(Release(t, c).table)
    decreases |t| - CountFree(t, 0)
  {
    if KindAt(t, c) == Used {
      CountFreeUpdate(t, 0, c, 0);
      ReleaseNoneBroken(t[c := 0], t[c]);
    }
  }

  // ---------- the free count ----------

  /** How far `free_cnt` is off the number of free entries, modulo 2^32. */
  ghost function Drift(freeCnt: uint32, t: FatTable): int
    requires 2 <= |t|
  {
    (freeCnt - CountFree(t, 2)) % TWO_32
  }

  lemma ModShift(a: int, b: int, n: int)
    requires a % TWO_32 == b % TWO_32
    ensures (a + n) % TWO_32 == (b + n) % TWO_32
  {
    var qa, qb := a / TWO_32, b / TWO_32;
    assert a == qa * TWO_32 + a % TWO_32 && b == qb * TWO_32 + b % TWO_32;
    assert a + n == b + n + (qa - qb) * TWO_32;
  }

  /** Releasing from a cluster, even if it fails, keeps `free_cnt` in step. */
  lemma ReleaseKeepsDrift(t: FatTable, c: nat, freeCnt: uint32)
    requires 2 <= c < |t|
    ensures var r := Release(t, c); Drift(IncrementedBy(freeCnt, r.freed), r.table) == Drift(freeCnt, t)
  {
    var r := Release(t, c);
    ReleaseCounts(t, c);
    IncrementedByIsSum(freeCnt, r.freed);
    assert ((freeCnt + r.freed) % TWO_32) % TWO_32 == (freeCnt + r.freed) % TWO_32;
    ModShift((freeCnt + r.freed) % TWO_32, freeCnt + r.freed, 0 - CountFree(r.table, 2));
  }

  /** Taking a free cluster keeps `free_cnt` in step. The predecessor, if there is one, is in use. */
  lemma LinkedKeepsDrift(t: FatTable, prev: nat, c: nat, freeCnt: uint32)
    requires 2 <= c < |t| && t[c] == 0 && prev < |t| && (prev != 0 ==> t[prev] != 0)
    ensures Drift(Decremented(freeCnt), Linked(t, prev, c)) == Drift(freeCnt, t)
  {
    CountFreeUpdate(t, 2, c, EOC);
    var marked := t[c := EOC];
    if prev != 0 {
      CountFreeUpdate(marked, 2, prev, c);
    }
    assert CountFree(Linked(t, prev, c), 2) == CountFree(t, 2) - 1;
    if freeCnt == 0 {
      ModShift(TWO_32 - 1, -1, 1 - CountFree(t, 2));
    }
  }
}
