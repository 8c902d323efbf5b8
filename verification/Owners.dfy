/** Who owns which cluster: the allocation table as a disjoint union of chains. */
module Owners {
  import opened Chains

  /** Chains by their first cluster. */
  type ChainMap = map<nat, seq<nat>>

  ghost predicate Owned(chains: ChainMap, x: nat) {
    exists h :: h in chains && x in chains[h]
  }

  ghost predicate InUse(t: FatTable, x: nat)
    requires x < |t|
  {
    KindAt(t, x) == Used || KindAt(t, x) == Last
  }

  /** The chains end, do not meet, and together with the lost clusters account for every cluster in use. The reserved
      entry 0, which the format fills with ones above the media byte, does not read as a link. */
  ghost predicate Owns(t: FatTable, chains: ChainMap, lost: set<nat>) {
    && 0 < |t| && KindAt(t, 0) != Used
    && (forall h :: h in chains ==> 2 <= h && IsChain(t, chains[h]) && chains[h][0] == h)
    && Disjoint(chains)
    && (forall x :: x in lost ==> 2 <= x < |t| && t[x] != 0 && !Owned(chains, x))
    && (forall x :: 2 <= x < |t| && InUse(t, x) ==> x in lost || Owned(chains, x))
  }

  ghost predicate Disjoint(chains: ChainMap) {
    forall h, k, x :: h in chains && k in chains && x in chains[h] && x in chains[k] ==> h == k
  }

  lemma ChainClusters(t: FatTable, ch: seq<nat>)
    requires IsChain(t, ch) && 2 <= ch[0]
    ensures forall x :: x in ch ==> 2 <= x < |t| && t[x] != 0
  {
    forall i | 0 <= i < |ch|
      ensures 2 <= ch[i] < |t| && t[ch[i]] != 0
    {
      if i > 0 {
        assert t[ch[i - 1]] == ch[i] && KindAt(t, ch[i - 1]) == Used;
      }
    }
  }

  /** A chain none of whose entries have changed. */
  lemma ChainKept(t: FatTable, t': FatTable, ch: seq<nat>)
    requires IsChain(t, ch) && |t'| == |t|
    requires forall x :: x in ch ==> x < |t| && t'[x] == t[x]
    ensures IsChain(t', ch)
  {
    assert forall i :: 0 <= i < |ch| ==> ch[i] in ch;
  }

  /** A chain of the volume and a cluster that is free have nothing to do with each other. */
  lemma OwnedInUse(t: FatTable, chains: ChainMap, lost: set<nat>, h: nat, x: nat)
    requires Owns(t, chains, lost) && h in chains && x in chains[h]
    ensures 2 <= x < |t| && t[x] != 0 && x !in lost
  {
    ChainClusters(t, chains[h]);
  }

  lemma HeadsOwned(t: FatTable, chains: ChainMap, lost: set<nat>)
    requires Owns(t, chains, lost)
    ensures forall h :: h in chains ==> Owned(chains, h)
  {
    forall h | h in chains
      ensures Owned(chains, h)
    {
      assert chains[h][0] in chains[h];
    }
  }

  /** Extending a chain by free clusters. */
  lemma OwnsGrown(t: FatTable, t': FatTable, chains: ChainMap, lost: set<nat>, h: nat, ch': seq<nat>)
    requires Owns(t, chains, lost) && h in chains && Grown(t, t', chains[h], ch')
    ensures Owns(t', chains[h := ch'], lost)
  {
    hide IsChain, KindAt;
    var ch, after := chains[h], chains[h := ch'];
    forall x | x in ch'
      ensures x in ch || (2 <= x < |t| && t[x] == 0)
    {
    }
    forall x | x in ch'[|ch| - 1..]
      ensures x in ch'
    {
    }
    forall k, x | k in chains && x in chains[k]
      ensures 2 <= x < |t| && (k != h ==> x !in ch' && t'[x] == t[x])
    {
      OwnedInUse(t, chains, lost, k, x);
    }
    forall k | k in chains && k != h
      ensures IsChain(t', chains[k])
    {
      ChainKept(t, t', chains[k]);
    }
    GrownHead(t, t', ch, ch');
    forall x | x in ch'
      ensures Owned(after, x)
    {
      assert h in after;
    }
    forall x | 2 <= x < |t|
      ensures Owned(chains, x) ==> Owned(after, x)
      ensures Owned(after, x) ==> x in ch' || Owned(chains, x)
    {
      if Owned(chains, x) {
        var k :| k in chains && x in chains[k];
        assert k in after && x in after[k];
      }
    }
    KindsKept(t, t', ch'[|ch| - 1..]);
    assert 0 !in chains[h];
    ReservedKept(t, t', ch'[|ch| - 1..]);
  }

  lemma GrownHead(t: FatTable, t': FatTable, ch: seq<nat>, ch': seq<nat>)
    requires Grown(t, t', ch, ch')
    ensures ch'[0] == ch[0] && forall x :: x in ch ==> x in ch'
  {
    forall x | x in ch
      ensures x in ch'
    {
      var i :| 0 <= i < |ch| && ch[i] == x;
      assert ch'[i] == x;
    }
  }

  /** Entries that have not changed read as before. */
  lemma KindsKept(t: FatTable, t': FatTable, cs: seq<nat>)
    requires |t'| == |t| && forall c :: 0 <= c < |t| && c !in cs ==> t'[c] == t[c]
    ensures forall x :: 0 <= x < |t| && x !in cs ==> InUse(t', x) == InUse(t, x)
  {
  }

  lemma ReservedKept(t: FatTable, t': FatTable, cs: seq<nat>)
    requires |t'| == |t| && 0 < |t| && forall c :: 0 <= c < |t| && c !in cs ==> t'[c] == t[c]
    requires 0 !in cs
    ensures KindAt(t', 0) == KindAt(t, 0)
  {
  }

  /** A new end of chain belongs to nobody yet. */
  lemma OwnsTaken(t: FatTable, chains: ChainMap, lost: set<nat>, c: nat)
    requires Owns(t, chains, lost) && 2 <= c < |t| && t[c] == 0
    ensures Owns(Linked(t, 0, c), chains, lost + {c})
  {
    hide IsChain, KindAt;
    var t' := Linked(t, 0, c);
    forall h, x | h in chains && x in chains[h]
      ensures x < |t| && x != c
    {
      OwnedInUse(t, chains, lost, h, x);
    }
    forall h | h in chains
      ensures IsChain(t', chains[h])
    {
      ChainKept(t, t', chains[h]);
    }
    KindsKept(t, t', [c]);
    ReservedKept(t, t', [c]);
  }

  /** A lost cluster that ends its chain becomes a chain of its own. */
  lemma OwnsAdopted(t: FatTable, chains: ChainMap, lost: set<nat>, c: nat)
    requires Owns(t, chains, lost) && c in lost && t[c] == EOC && |t| <= BAD_MARK
    ensures c !in chains && Owns(t, chains[c := [c]], lost - {c})
  {
    hide Disjoint, Owned, InUse;
    HeadsOwned(t, chains, lost);
    var after := chains[c := [c]];
    AdoptedOwned(chains, c);
    AdoptedDisjoint(chains, c);
    forall x | x in lost - {c}
      ensures !Owned(after, x)
    {
      assert Owned(after, x) ==> Owned(chains, x) || x == c;
    }
  }

  lemma AdoptedOwned(chains: ChainMap, c: nat)
    requires c !in chains
    ensures forall x :: Owned(chains[c := [c]], x) <==> Owned(chains, x) || x == c
  {
    var after := chains[c := [c]];
    assert c in after && c in after[c];
    forall x | Owned(chains, x)
      ensures Owned(after, x)
    {
      var k :| k in chains && x in chains[k];
      assert k in after && x in after[k];
    }
  }

  lemma AdoptedDisjoint(chains: ChainMap, c: nat)
    requires Disjoint(chains) && !Owned(chains, c)
    ensures Disjoint(chains[c := [c]])
  {
  }

  /** Releasing a chain. */
  lemma OwnsReleased(t: FatTable, chains: ChainMap, lost: set<nat>, h: nat)
    requires Owns(t, chains, lost) && h in chains
    ensures Owns(Cleared(t, chains[h]), chains - {h}, lost)
  {
    hide IsChain, KindAt;
    var t', after := Cleared(t, chains[h]), chains - {h};
    forall k, x | k in chains && x in chains[k]
      ensures 2 <= x < |t|
    {
      OwnedInUse(t, chains, lost, k, x);
    }
    forall k | k in after
      ensures IsChain(t', chains[k])
    {
      ChainKept(t, t', chains[k]);
    }
    forall x | Owned(chains, x) && x !in chains[h]
      ensures Owned(after, x)
    {
      var k :| k in chains && x in chains[k];
      assert k in after && x in after[k];
    }
    forall x | 2 <= x < |t| && x in chains[h]
      ensures !InUse(t', x)
    {
      assert KindAt(t', x) == Free by {
        ClearedFree(t, chains[h], x);
      }
    }
    KindsKept(t, t', chains[h]);
    ReservedKept(t, t', chains[h]);
    forall x | x in lost
      ensures t'[x] != 0 && !Owned(after, x)
    {
      assert x !in chains[h];
    }
  }

  lemma ClearedFree(t: FatTable, cs: seq<nat>, x: nat)
    requires x < |t| && x in cs
    ensures KindAt(Cleared(t, cs), x) == Free
  {
  }

  /** The reserved entries do not matter. */
  lemma OwnsReserved(t: FatTable, t': FatTable, chains: ChainMap, lost: set<nat>)
    requires Owns(t, chains, lost) && |t'| == |t| && forall c :: 2 <= c < |t| ==> t'[c] == t[c]
    requires KindAt(t', 0) != Used
    ensures Owns(t', chains, lost)
  {
    forall h | h in chains
      ensures IsChain(t', chains[h])
    {
      ChainClusters(t, chains[h]);
      ChainKept(t, t', chains[h]);
    }
    forall x | 2 <= x < |t|
      ensures InUse(t', x) == InUse(t, x)
    {
    }
  }

  // ---------- links ----------

  /** No lost cluster has a link. */
  ghost predicate Tidy(t: FatTable, lost: set<nat>) {
    forall x :: x in lost && x < |t| ==> KindAt(t, x) != Used
  }

  lemma TidyTaken(t: FatTable, lost: set<nat>, c: nat)
    requires Tidy(t, lost) && c < |t| <= BAD_MARK
    ensures Tidy(Linked(t, 0, c), lost + {c})
  {
  }

  lemma TidyLess(t: FatTable, lost: set<nat>, less: set<nat>)
    requires Tidy(t, lost) && less <= lost
    ensures Tidy(t, less)
  {
  }

  lemma TidyCleared(t: FatTable, lost: set<nat>, cs: seq<nat>)
    requires Tidy(t, lost)
    ensures Tidy(Cleared(t, cs), lost)
  {
  }

  lemma TidyGrown(t: FatTable, t': FatTable, chains: ChainMap, lost: set<nat>, h: nat, ch: seq<nat>, ch': seq<nat>)
    requires Tidy(t, lost) && Grown(t, t', ch, ch') && Owns(t', chains, lost) && h in chains && chains[h] == ch'
    ensures Tidy(t', lost)
  {
    forall x | x in lost && x < |t'|
      ensures KindAt(t', x) != Used
    {
      assert !Owned(chains, x);
      assert x !in ch';
      assert t'[x] == t[x] && KindAt(t, x) != Used;
    }
  }

  /** Then a link leads on in a chain, even while a chain is being released: not to a free entry. */
  lemma LinksOwned(t: FatTable, chains: ChainMap, lost: set<nat>, h: nat, k: nat)
    requires Owns(t, chains, lost) && Tidy(t, lost) && h in chains && k <= |chains[h]|
    ensures NoDangling(Cleared(t, chains[h][..k]))
  {
    var ch := chains[h];
    var t' := Cleared(t, ch[..k]);
    ChainDistinct(t, ch);
    forall c | 2 <= c < |t'| && KindAt(t', c) == Used
      ensures t'[t'[c]] != 0
    {
      assert c !in ch[..k] && t'[c] == t[c] && InUse(t, c);
      var h' :| h' in chains && c in chains[h'];
      LinkInChain(t, chains[h'], c);
      var n := t[c];
      assert n in chains[h'];
      ChainClusters(t, chains[h']);
      if h' == h {
        var i: nat :| i < |ch| && ch[i] == c;
        NotBefore(ch, k, i);
      } else {
        assert n !in ch;
      }
    }
  }

  lemma NotBefore(ch: seq<nat>, k: nat, i: nat)
    requires Distinct(ch) && k <= |ch| && i < |ch| && ch[i] !in ch[..k]
    ensures i + 1 < |ch| ==> ch[i + 1] !in ch[..k]
  {
    forall j | 0 <= j < k
      ensures ch[j] in ch[..k]
    {
      assert ch[..k][j] == ch[j];
    }
  }

  /** A cluster of a chain that has a link is not its last one. */
  lemma LinkInChain(t: FatTable, ch: seq<nat>, c: nat)
    requires IsChain(t, ch) && c in ch && KindAt(t, c) == Used
    ensures t[c] in ch && forall i :: 0 <= i < |ch| && ch[i] == c ==> i + 1 < |ch| && ch[i + 1] == t[c]
  {
    var i: nat :| i < |ch| && ch[i] == c;
    assert ch[i + 1] == t[c];
  }

  lemma OwnsNoDangling(t: FatTable, chains: ChainMap, lost: set<nat>)
    requires Owns(t, chains, lost) && Tidy(t, lost)
    ensures NoDangling(t)
  {
    if h :| h in chains {
      LinksOwned(t, chains, lost, h, 0);
      assert Cleared(t, chains[h][..0]) == t;
    }
  }

  /** So no table that a release of a chain goes through has a link to a free entry. */
  lemma {:induction false} ReleaseSafe(t: FatTable, chains: ChainMap, lost: set<nat>, h: nat, k: nat)
    requires Owns(t, chains, lost) && Tidy(t, lost) && h in chains && k < |chains[h]|
    ensures SafeRelease(Cleared(t, chains[h][..k]), chains[h][k])
    decreases |chains[h]| - k
  {
    hide Owns, Tidy, NoDangling;
    var ch := chains[h];
    OwnedChain(t, chains, lost, h);
    ChainDistinct(t, ch);
    LinksOwned(t, chains, lost, h, k + 1);
    ClearedNext(t, ch, k);
    if k + 1 < |ch| {
      ReleaseSafe(t, chains, lost, h, k + 1);
    }
  }

  lemma OwnedChain(t: FatTable, chains: ChainMap, lost: set<nat>, h: nat)
    requires Owns(t, chains, lost) && h in chains
    ensures IsChain(t, chains[h]) && 2 <= h && chains[h][0] == h
  {
  }

  lemma ClearedNext(t: FatTable, ch: seq<nat>, k: nat)
    requires IsChain(t, ch) && Distinct(ch) && k < |ch|
    ensures var c := Cleared(t, ch[..k]);
            && c[ch[k]] == t[ch[k]] && KindAt(c, ch[k]) == KindAt(t, ch[k]) && c[ch[k] := 0] == Cleared(t, ch[..k + 1])
  {
    assert ch[k] !in ch[..k];
    var a, b := Cleared(t, ch[..k])[ch[k] := 0], Cleared(t, ch[..k + 1]);
    assert ch[..k + 1] == ch[..k] + [ch[k]];
    assert forall x :: 0 <= x < |t| ==> a[x] == b[x];
  }

  /** Nor has one that a release of the reserved entry 0 goes through. */
  lemma ZeroSafe(t: FatTable)
    requires 0 < |t| && KindAt(t, 0) != Used && NoDangling(t)
    ensures SafeRelease(t, 0)
  {
  }
}
