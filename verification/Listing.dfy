/** What a directory's slots list: a well-formed slot sequence parsed into items, and how edits of the slots
    change the list. */
module Listing {
  import opened Names
  import opened LongNames

  datatype LongName = NoLong | Long(name: Name)

  /** An entry: its first slot, its 8.3 slot, its long name if it has one, and the contents of the 8.3 slot. */
  datatype Item = Item(start: nat, at: nat, long: LongName, sfn: Slot) {
    /** How `dir_search` compares: the long name if there is one, or else the folded 8.3 name. */
    predicate Matches(name: Name) {
      if long.Long? then long.name == name else sfn[..11] == SfnName(name)
    }
  }

  /** An item can be parsed at `p`. */
  ghost predicate Parses(slots: seq<Slot>, p: nat) {
    && p < |slots| && !IsFree(slots[p])
    && (IsLfn(slots[p]) ==> GroupOk(slots, p))
  }

  ghost function ItemAt(slots: seq<Slot>, p: nat): (r: Item)
    requires Parses(slots, p)
    ensures r.start == p <= r.at < |slots|
  {
    if IsLfn(slots[p]) then
      var n := GroupLen(slots[p]);
      Item(p, p + n, Long(GroupName(slots, p, n)), slots[p + n])
    else Item(p, p, NoLong, slots[p])
  }

  /** Parsing can go on at `p`: no end mark there, and the slot is free or starts an item. */
  ghost predicate CanStep(slots: seq<Slot>, p: nat) {
    p < |slots| && !IsLast(slots[p]) && (IsFree(slots[p]) || Parses(slots, p))
  }

  /** Where parsing continues after `p`. */
  ghost function After(slots: seq<Slot>, p: nat): (q: nat)
    requires CanStep(slots, p)
    ensures p < q <= |slots|
  {
    if IsFree(slots[p]) then p + 1 else ItemAt(slots, p).at + 1
  }

  /** What `p` contributes to the list. */
  ghost function Here(slots: seq<Slot>, p: nat): seq<Item>
    requires CanStep(slots, p)
  {
    if IsFree(slots[p]) then [] else [ItemAt(slots, p)]
  }

  ghost predicate AtEnd(slots: seq<Slot>, p: nat) {
    p >= |slots| || IsLast(slots[p])
  }

  /** From `p` to the end mark or the last slot, everything is free or part of an item. */
  ghost predicate WellFormed(slots: seq<Slot>, p: nat)
    requires p <= |slots|
    decreases |slots| - p
  {
    AtEnd(slots, p) || (CanStep(slots, p) && WellFormed(slots, After(slots, p)))
  }

  /** The items from `p` on. */
  ghost function Items(slots: seq<Slot>, p: nat): seq<Item>
    requires p <= |slots| && WellFormed(slots, p)
    decreases |slots| - p
  {
    if AtEnd(slots, p) then [] else Here(slots, p) + Items(slots, After(slots, p))
  }

  /** Parsing from `p` arrives at `s` without meeting an end mark. */
  ghost predicate Reaches(slots: seq<Slot>, p: nat, s: nat)
    decreases s - p
  {
    p == s || (p < s <= |slots| && CanStep(slots, p) && Reaches(slots, After(slots, p), s))
  }

  /** The items between `p` and `s`. */
  ghost function Before(slots: seq<Slot>, p: nat, s: nat): seq<Item>
    requires Reaches(slots, p, s)
    decreases s - p
  {
    if p == s then [] else Here(slots, p) + Before(slots, After(slots, p), s)
  }

  lemma {:induction false} ItemsSplit(slots: seq<Slot>, p: nat, s: nat)
    requires s <= |slots| && Reaches(slots, p, s) && WellFormed(slots, s)
    ensures WellFormed(slots, p) && Items(slots, p) == Before(slots, p, s) + Items(slots, s)
    decreases s - p
  {
    hide GroupOk;
    if p < s {
      ItemsSplit(slots, After(slots, p), s);
    }
  }

  lemma {:induction false} ReachesTrans(slots: seq<Slot>, p: nat, q: nat, s: nat)
    requires Reaches(slots, p, q) && Reaches(slots, q, s)
    ensures Reaches(slots, p, s) && Before(slots, p, s) == Before(slots, p, q) + Before(slots, q, s)
    decreases q - p
  {
    hide GroupOk;
    if p < q {
      var r := After(slots, p);
      ReachesTrans(slots, r, q, s);
      assert Before(slots, p, s) == Here(slots, p) + Before(slots, r, s);
    }
  }

  /** Parsing reaches every free slot that no end mark precedes, and the very end. */
  lemma {:induction false} ReachesFree(slots: seq<Slot>, p: nat, s: nat)
    requires p <= s <= |slots| && WellFormed(slots, p)
    requires forall i :: p <= i < s ==> !IsLast(slots[i])
    requires s < |slots| ==> IsFree(slots[s])
    ensures Reaches(slots, p, s) && WellFormed(slots, s)
    decreases s - p
  {
    if p < s {
      ItemLive(slots, p);
      ReachesFree(slots, After(slots, p), s);
    }
  }

  /** No slot of an item is free. */
  lemma ItemLive(slots: seq<Slot>, p: nat)
    requires p < |slots|
    ensures Parses(slots, p) ==> forall i :: p <= i <= ItemAt(slots, p).at ==> !IsFree(slots[i])
  {
  }

  // ---------- framing ----------

  lemma GroupOkFrame(a: seq<Slot>, b: seq<Slot>, p: nat)
    requires GroupOk(a, p) && p + GroupLen(a[p]) < |b|
    requires forall i :: p <= i <= p + GroupLen(a[p]) ==> a[i] == b[i]
    ensures GroupOk(b, p)
  {
    hide Checksum, FragOk, FragEnd, GroupLen, IsHead, IsFree, IsLfn;
  }

  /** An item depends on its own slots only. */
  lemma ItemFrame(a: seq<Slot>, b: seq<Slot>, p: nat)
    requires Parses(a, p) && ItemAt(a, p).at < |b|
    requires a[p..ItemAt(a, p).at + 1] == b[p..ItemAt(a, p).at + 1]
    ensures Parses(b, p) && ItemAt(b, p) == ItemAt(a, p)
  {
    hide GroupOk, GroupName, GroupLen, IsFree, IsLfn;
    var e := ItemAt(a, p).at;
    forall i | p <= i <= e
      ensures a[i] == b[i]
    {
      assert a[i] == a[p..e + 1][i - p] && b[i] == b[p..e + 1][i - p];
    }
    if IsLfn(a[p]) {
      var n := GroupLen(a[p]);
      assert a[p..p + n] == b[p..p + n];
      GroupOkFrame(a, b, p);
      GroupNameFrame(a, p, b, p, n);
    }
  }

  /** So does a step. */
  lemma StepFrame(a: seq<Slot>, b: seq<Slot>, p: nat)
    requires CanStep(a, p) && After(a, p) <= |b| && a[p..After(a, p)] == b[p..After(a, p)]
    ensures CanStep(b, p) && After(b, p) == After(a, p) && Here(b, p) == Here(a, p)
  {
    assert a[p] == a[p..After(a, p)][0] && b[p] == b[p..After(a, p)][0];
    if !IsFree(a[p]) {
      ItemFrame(a, b, p);
    }
  }

  lemma {:induction false} BeforeFrame(a: seq<Slot>, b: seq<Slot>, p: nat, s: nat)
    requires s <= |a| && s <= |b| && a[..s] == b[..s] && Reaches(a, p, s)
    ensures Reaches(b, p, s) && Before(b, p, s) == Before(a, p, s)
    decreases s - p
  {
    if p < s {
      ReachesBound(a, After(a, p), s);
      assert a[p..After(a, p)] == a[..s][p..After(a, p)] && b[p..After(a, p)] == b[..s][p..After(a, p)];
      StepFrame(a, b, p);
      BeforeFrame(a, b, After(a, p), s);
    }
  }

  lemma ReachesBound(slots: seq<Slot>, p: nat, s: nat)
    requires Reaches(slots, p, s)
    ensures p <= s
  {
  }

  lemma {:induction false} ItemsFrame(a: seq<Slot>, b: seq<Slot>, p: nat)
    requires p <= |a| == |b| && a[p..] == b[p..] && WellFormed(a, p)
    ensures WellFormed(b, p) && Items(b, p) == Items(a, p)
    decreases |a| - p
  {
    if p < |a| {
      assert a[p] == a[p..][0] && b[p] == b[p..][0];
      if !IsLast(a[p]) {
        var q := After(a, p);
        assert a[p..q] == a[p..][..q - p] && b[p..q] == b[p..][..q - p];
        StepFrame(a, b, p);
        assert a[q..] == a[p..][q - p..] && b[q..] == b[p..][q - p..];
        ItemsFrame(a, b, q);
      }
    }
  }

  /** Appending cleared slots, as stretching a directory does, lists nothing more. */
  lemma {:induction false} ItemsExtend(a: seq<Slot>, b: seq<Slot>, p: nat)
    requires p <= |a| && WellFormed(a, p) && a <= b
    requires |a| < |b| ==> IsLast(b[|a|])
    ensures WellFormed(b, p) && Items(b, p) == Items(a, p)
    decreases |a| - p
  {
    if !AtEnd(a, p) {
      assert a[p..After(a, p)] == b[p..After(a, p)];
      StepFrame(a, b, p);
      ItemsExtend(a, b, After(a, p));
    }
  }

  /** A run of free slots without an end mark lists nothing. */
  lemma {:induction false} FreeRun(slots: seq<Slot>, p: nat, e: nat)
    requires p <= e <= |slots|
    requires forall i :: p <= i < e ==> IsFree(slots[i]) && !IsLast(slots[i])
    ensures Reaches(slots, p, e) && Before(slots, p, e) == []
    decreases e - p
  {
    if p < e {
      FreeRun(slots, p + 1, e);
    }
  }

  /** Listing up to an end mark inside a run of free slots. */
  lemma {:induction false} EndInRun(slots: seq<Slot>, p: nat, q: nat)
    requires p <= q < |slots| && IsLast(slots[q])
    requires forall i :: p <= i < q ==> IsFree(slots[i])
    ensures WellFormed(slots, p) && Items(slots, p) == []
    decreases q - p
  {
    if p < q && !IsLast(slots[p]) {
      EndInRun(slots, p + 1, q);
    }
  }

  /** Where an item of the list comes from. */
  ghost predicate Sits(slots: seq<Slot>, p: nat, item: Item) {
    && p <= item.start && item.at < |slots|
    && Reaches(slots, p, item.start)
    && Parses(slots, item.start) && ItemAt(slots, item.start) == item
    && WellFormed(slots, item.at + 1)
  }

  /** Every listed item sits somewhere in the slots. */
  lemma {:induction false} ItemSits(slots: seq<Slot>, p: nat, item: Item)
    requires p <= |slots| && WellFormed(slots, p) && item in Items(slots, p)
    ensures Sits(slots, p, item)
    decreases |slots| - p
  {
    var q := After(slots, p);
    if item in Items(slots, q) {
      ItemSits(slots, q, item);
    }
  }

  /** An item splits the list. */
  lemma SplitAtItem(slots: seq<Slot>, p: nat, item: Item)
    requires p <= |slots| && Sits(slots, p, item)
    ensures WellFormed(slots, p)
    ensures Items(slots, p) == Before(slots, p, item.start) + [item] + Items(slots, item.at + 1)
  {
    hide GroupOk;
    assert CanStep(slots, item.start) && After(slots, item.start) == item.at + 1;
    assert Items(slots, item.start) == [item] + Items(slots, item.at + 1);
    ItemsSplit(slots, p, item.start);
  }

  /** Items come in the order of their slots. */
  lemma {:induction false} ItemsFrom(slots: seq<Slot>, p: nat)
    requires p <= |slots| && WellFormed(slots, p)
    ensures forall item :: item in Items(slots, p) ==> p <= item.start <= item.at
    decreases |slots| - p
  {
    hide GroupOk, GroupName;
    if !AtEnd(slots, p) {
      ItemsFrom(slots, After(slots, p));
    }
  }

  lemma {:induction false} BeforeTo(slots: seq<Slot>, p: nat, s: nat)
    requires Reaches(slots, p, s)
    ensures forall item :: item in Before(slots, p, s) ==> item.at < s
    decreases s - p
  {
    hide GroupOk, GroupName;
    if p < s {
      ReachesBound(slots, After(slots, p), s);
      BeforeTo(slots, After(slots, p), s);
    }
  }

  // ---------- adding and removing entries ----------

  /** What `dir_add` does to the slots: a group and its 8.3 slot are stored from `s` on, over slots that were free or
      came after the end mark; if the old end mark is passed (`eod`), the next slot becomes the new one. */
  ghost predicate Added(a: seq<Slot>, b: seq<Slot>, s: nat, e: nat, eod: bool) {
    && |a| == |b| && s < e <= |a| && a[..s] == b[..s]
    && (forall i :: 0 <= i < s ==> !IsLast(a[i]))
    && if eod then
         && e < |b| && IsLast(b[e]) && a[e + 1..] == b[e + 1..]
         && exists q :: s <= q < e && IsLast(a[q]) && forall i :: s <= i < q ==> IsFree(a[i])
       else
         && a[e..] == b[e..]
         && forall i :: s <= i < e ==> IsFree(a[i]) && !IsLast(a[i])
  }

  /** A run of free slots without an end mark can be skipped. */
  lemma SkipRun(slots: seq<Slot>, p: nat, e: nat)
    requires p <= e <= |slots|
    requires forall i :: p <= i < e ==> IsFree(slots[i]) && !IsLast(slots[i])
    requires WellFormed(slots, e)
    ensures WellFormed(slots, p) && Items(slots, p) == Items(slots, e)
  {
    hide GroupOk;
    FreeRun(slots, p, e);
    ItemsSplit(slots, p, e);
  }

  lemma RunTail(slots: seq<Slot>, p: nat, e: nat)
    requires p <= e <= |slots| && WellFormed(slots, p)
    requires forall i :: p <= i < e ==> IsFree(slots[i]) && !IsLast(slots[i])
    ensures WellFormed(slots, e)
    decreases e - p
  {
    if p < e {
      RunTail(slots, p + 1, e);
    }
  }

  lemma AddedStart(a: seq<Slot>, b: seq<Slot>, s: nat, e: nat, eod: bool)
    requires WellFormed(a, 0) && Added(a, b, s, e, eod)
    ensures s < e <= |a| == |b| && a[..s] == b[..s]
    ensures Reaches(a, 0, s) && WellFormed(a, s)
  {
    hide GroupOk;
    assert IsFree(a[s]);
    ReachesFree(a, 0, s);
  }

  /** After the new entry, the list goes on as it did from where the entry was put. */
  lemma AddedRest(a: seq<Slot>, b: seq<Slot>, s: nat, e: nat, eod: bool)
    requires Added(a, b, s, e, eod) && WellFormed(a, s)
    ensures WellFormed(b, e) && Items(b, e) == Items(a, s)
  {
    hide GroupOk;
    if eod {
      var q :| s <= q < e && IsLast(a[q]) && forall i :: s <= i < q ==> IsFree(a[i]);
      EndInRun(a, s, q);
    } else {
      RunTail(a, s, e);
      SkipRun(a, s, e);
      ItemsFrame(a, b, e);
    }
  }

  /** Adding an entry inserts exactly its item into the list and keeps every other item in place. */
  lemma AddedItems(a: seq<Slot>, b: seq<Slot>, s: nat, e: nat, eod: bool, item: Item)
    requires WellFormed(a, 0) && Added(a, b, s, e, eod)
    requires Parses(b, s) && ItemAt(b, s) == item && item.at + 1 == e
    ensures WellFormed(b, 0) && Sits(b, 0, item)
    ensures Reaches(a, 0, s) && WellFormed(a, s)
    ensures Items(a, 0) == Before(a, 0, s) + Items(a, s)
    ensures Items(b, 0) == Before(a, 0, s) + [item] + Items(a, s)
  {
    hide GroupOk, Added, Parses, ItemAt, CanStep, After, Here, Items, Before, Reaches, WellFormed;
    AddedStart(a, b, s, e, eod);
    AddedRest(a, b, s, e, eod);
    ItemsSplit(a, 0, s);
    BeforeFrame(a, b, 0, s);
    SplitAtItem(b, 0, item);
  }

  /** What `remove_entries` does to the slots: those from `s` up to `e` are marked free. */
  ghost predicate MarkedFree(a: seq<Slot>, b: seq<Slot>, s: nat, e: nat) {
    && |a| == |b| && s < e <= |a| && a[..s] == b[..s] && a[e..] == b[e..]
    && forall i :: s <= i < e ==> b[i][0] == SFN_FREE
  }

  /** The part of this that is done when the slots before `p` have been marked. */
  ghost predicate MarkedTo(a: seq<Slot>, b: seq<Slot>, s: nat, p: nat) {
    && |a| == |b| && s <= p <= |a| && a[..s] == b[..s] && a[p..] == b[p..]
    && forall i :: s <= i < p ==> b[i][0] == SFN_FREE
  }

  lemma StartMarking(a: seq<Slot>, s: nat)
    requires s <= |a|
    ensures MarkedTo(a, a, s, s)
  {
  }

  lemma MarkOne(a: seq<Slot>, b: seq<Slot>, s: nat, p: nat)
    requires MarkedTo(a, b, s, p) && p < |a|
    ensures MarkedTo(a, b[p := b[p][0 := SFN_FREE]], s, p + 1)
    ensures MarkedFree(a, b[p := b[p][0 := SFN_FREE]], s, p + 1)
  {
    assert a[p + 1..] == a[p..][1..] && b[p + 1..] == b[p..][1..];
  }

  lemma MarkedRest(a: seq<Slot>, b: seq<Slot>, s: nat, e: nat)
    requires MarkedFree(a, b, s, e) && WellFormed(a, e)
    ensures WellFormed(b, s) && Items(b, s) == Items(a, e)
  {
    hide GroupOk;
    ItemsFrame(a, b, e);
    SkipRun(b, s, e);
  }

  /** Removing an entry takes exactly its item out of the list. */
  lemma RemovedItems(a: seq<Slot>, b: seq<Slot>, item: Item)
    requires WellFormed(a, 0) && Sits(a, 0, item) && MarkedFree(a, b, item.start, item.at + 1)
    ensures WellFormed(b, 0)
    ensures Items(a, 0) == Before(a, 0, item.start) + [item] + Items(a, item.at + 1)
    ensures Items(b, 0) == Before(a, 0, item.start) + Items(a, item.at + 1)
  {
    hide GroupOk;
    SplitAtItem(a, 0, item);
    BeforeFrame(a, b, 0, item.start);
    MarkedRest(a, b, item.start, item.at + 1);
    ItemsSplit(b, 0, item.start);
  }

  /** Adding an entry and removing it again restores the list. */
  lemma AddThenRemove(a: seq<Slot>, b: seq<Slot>, c: seq<Slot>, s: nat, e: nat, eod: bool, item: Item)
    requires WellFormed(a, 0) && Added(a, b, s, e, eod)
    requires Parses(b, s) && ItemAt(b, s) == item && item.at + 1 == e
    requires MarkedFree(b, c, s, e)
    ensures WellFormed(c, 0) && Items(c, 0) == Items(a, 0)
  {
    hide GroupOk, Added, Parses, ItemAt, CanStep, After, Here, Items, Before, Reaches, WellFormed;
    AddedItems(a, b, s, e, eod, item);
    AddedStart(a, b, s, e, eod);
    AddedRest(a, b, s, e, eod);
    RemovedItems(b, c, item);
    BeforeFrame(a, b, 0, s);
  }

  /** A listed item's 8.3 slot is where the item says. */
  lemma ListedSlots(slots: seq<Slot>)
    requires WellFormed(slots, 0)
    ensures forall item :: item in Items(slots, 0) ==> item.at < |slots| && slots[item.at] == item.sfn
  {
    hide GroupOk, GroupName, Items, WellFormed, Reaches;
    forall item | item in Items(slots, 0)
      ensures item.at < |slots| && slots[item.at] == item.sfn
    {
      ItemSits(slots, 0, item);
    }
  }

  /** The 8.3 slot of an item is none of a long name. */
  /** No two items are at the same place. */
  lemma OneItemAt(slots: seq<Slot>, x: Item, y: Item)
    requires WellFormed(slots, 0) && x in Items(slots, 0) && y in Items(slots, 0) && x.at == y.at
    ensures x == y
  {
    hide GroupOk, GroupName, Items, WellFormed, Before, Reaches, Parses, ItemAt;
    ItemSits(slots, 0, x);
    SplitAtItem(slots, 0, x);
    BeforeTo(slots, 0, x.start);
    ItemsFrom(slots, x.at + 1);
    ItemsFrom(slots, 0);
  }

  lemma ListedSfn(slots: seq<Slot>, item: Item)
    requires WellFormed(slots, 0) && item in Items(slots, 0)
    ensures !IsLfn(item.sfn)
  {
    hide GroupName, Items, WellFormed, Reaches;
    ItemSits(slots, 0, item);
  }

  // ---------- updating an entry ----------

  /** The 8.3 slot of an item may change in everything but its name and kind. */
  ghost predicate SameName(a: Slot, b: Slot) {
    a[..11] == b[..11] && !IsLfn(b)
  }

  lemma SlotReplaced(a: seq<Slot>, p: nat, s: Slot)
    requires Parses(a, p) && SameName(a[ItemAt(a, p).at], s)
    ensures var at := ItemAt(a, p).at; var b := a[at := s];
            Parses(b, p) && ItemAt(b, p) == ItemAt(a, p).(sfn := s)
  {
    hide GroupName, FragEnd, FragOk, Checksum;
    var at := ItemAt(a, p).at;
    var b := a[at := s];
    assert a[at][..11][0] == a[at][0] && s[..11][0] == s[0];
    if IsLfn(a[p]) {
      var n := GroupLen(a[p]);
      assert a[p..p + n] == b[p..p + n];
      GroupNameFrame(a, p, b, p, n);
    }
  }

  /** Updating an entry changes its item's 8.3 slot in the list and nothing else. */
  lemma ItemReplaced(a: seq<Slot>, item: Item, s: Slot)
    requires WellFormed(a, 0) && item in Items(a, 0) && SameName(item.sfn, s)
    ensures item.at < |a| && a[item.at] == item.sfn
    ensures var b := a[item.at := s]; var item' := item.(sfn := s);
            && WellFormed(b, 0) && Sits(a, 0, item)
            && Items(a, 0) == Before(a, 0, item.start) + [item] + Items(a, item.at + 1)
            && Items(b, 0) == Before(a, 0, item.start) + [item'] + Items(a, item.at + 1)
  {
    hide GroupOk, GroupName, Parses, ItemAt, WellFormed, Items, Before, Reaches, SameName;
    ListedSlots(a);
    ItemSits(a, 0, item);
    var b, item' := a[item.at := s], item.(sfn := s);
    SplitAtItem(a, 0, item);
    SlotReplaced(a, item.start, s);
    BeforeFrame(a, b, 0, item.start);
    ItemsFrame(a, b, item.at + 1);
    SplitAtItem(b, 0, item');
  }

  // ---------- the stores of `dir_add` ----------

  /** `a` with the slots from `s` on replaced by `new_`. */
  ghost function Overlaid(a: seq<Slot>, s: nat, new_: seq<Slot>): (r: seq<Slot>)
    requires s + |new_| <= |a|
    ensures |r| == |a|
  {
    a[..s] + new_ + a[s + |new_|..]
  }

  lemma OverlaidNone(a: seq<Slot>, s: nat)
    requires s <= |a|
    ensures Overlaid(a, s, []) == a
  {
  }

  lemma OverlaidStep(a: seq<Slot>, s: nat, new_: seq<Slot>, k: nat)
    requires s + |new_| <= |a| && k < |new_|
    ensures Overlaid(a, s, new_[..k])[s + k := new_[k]] == Overlaid(a, s, new_[..k + 1])
    ensures new_[..0] == []
  {
  }

  /** The slots with a new end mark at `e`, if the old one was passed. */
  ghost function Ended(a: seq<Slot>, e: nat, eod: bool): (r: seq<Slot>)
    requires e < |a|
    ensures |r| == |a|
  {
    if eod then a[e := a[e][0 := SFN_LAST]] else a
  }

  /** The slots after `dir_add` has used those from `s` on. */
  ghost function WithEntry(a: seq<Slot>, s: nat, name: Name, n: nat, sfn: Slot, eod: bool): (r: seq<Slot>)
    requires s + n + 1 < |a| && 1 <= n <= 20 && 13 * (n - 1) <= |name|
    ensures |r| == |a|
  {
    Overlaid(Ended(a, s + n + 1, eod), s, NameSlots(name, n) + [sfn])
  }

  lemma WithEntryIs(a: seq<Slot>, s: nat, name: Name, n: nat, sfn: Slot, eod: bool)
    requires s + n + 1 < |a| && 1 <= n <= 20 && 13 * (n - 1) <= |name|
    ensures WithEntry(a, s, name, n, sfn, eod) ==
              Overlaid(Ended(a, s + n + 1, eod), s, NameSlots(name, n))[s + n := sfn]
  {
    hide NameSlot;
  }

  lemma WithEntryAt(a: seq<Slot>, s: nat, name: Name, n: nat, sfn: Slot, eod: bool)
    requires s + n + 1 < |a| && 1 <= n <= 20 && 13 * (n - 1) <= |name|
    ensures WithEntry(a, s, name, n, sfn, eod)[s + n] == sfn
  {
    WithEntryIs(a, s, name, n, sfn, eod);
  }

  lemma NameSlotOf(name: Name, n: nat, k: nat)
    requires k < n <= 20 && 13 * (n - 1) <= |name|
    ensures NameSlots(name, n)[k] == LfnSlot(Chunk(name, n - k), n - k, k == 0, Checksum(SfnName(name)))
  {
    hide LfnSlot, Chunk, Checksum, SfnName;
  }

  // ---------- searching ----------

  datatype Hit = Missing | Hit(item: Item)

  /** The first item that matches. */
  ghost function Find(items: seq<Item>, name: Name): (r: Hit)
    ensures r.Missing? <==> forall i :: 0 <= i < |items| ==> !items[i].Matches(name)
    ensures r.Hit? ==> r.item in items && r.item.Matches(name)
  {
    if items == [] then Missing else if items[0].Matches(name) then Hit(items[0]) else Find(items[1..], name)
  }

  lemma {:induction false} FindSkips(a: seq<Item>, b: seq<Item>, name: Name)
    requires Find(a, name).Missing?
    ensures Find(a + b, name) == Find(b, name)
  {
    if a == [] {
      assert a + b == b;
    } else {
      assert (a + b)[1..] == a[1..] + b;
      FindSkips(a[1..], b, name);
    }
  }

  /** After a failed search, the entry added under that name is what a search finds. */
  lemma FindAdded(before: seq<Item>, item: Item, after: seq<Item>, name: Name)
    requires Find(before + after, name).Missing? && item.Matches(name)
    ensures Find(before + [item] + after, name) == Hit(item)
  {
    forall i | 0 <= i < |before|
      ensures !before[i].Matches(name)
    {
      assert before[i] == (before + after)[i];
    }
    FindSkips(before, [item] + after, name);
    assert before + [item] + after == before + ([item] + after);
    assert Find([item] + after, name) == Hit(item);
  }

  /** Taking out an item that a search does not find leaves that search as it was. */
  lemma {:induction false} FindWithout(before: seq<Item>, item: Item, after: seq<Item>, name: Name)
    requires Find(before + [item] + after, name) != Hit(item)
    ensures Find(before + after, name) == Find(before + [item] + after, name)
    decreases |before|
  {
    var all := before + [item] + after;
    if before == [] {
      assert all[1..] == after == before + after;
    } else {
      assert all[1..] == before[1..] + [item] + after;
      assert (before + after)[1..] == before[1..] + after;
      if !before[0].Matches(name) {
        FindWithout(before[1..], item, after, name);
      }
    }
  }

  /** An item that is replaced by one of the same name is found in its place. */
  lemma {:induction false} FindReplaced(before: seq<Item>, item: Item, item': Item, after: seq<Item>, name: Name)
    requires item !in before && (item'.Matches(name) <==> item.Matches(name))
    ensures var r := Find(before + [item] + after, name);
            Find(before + [item'] + after, name) == if r == Hit(item) then Hit(item') else r
    decreases |before|
  {
    var all, all' := before + [item] + after, before + [item'] + after;
    if before == [] {
      assert all[1..] == after == all'[1..];
    } else {
      assert all[1..] == before[1..] + [item] + after;
      assert all'[1..] == before[1..] + [item'] + after;
      if !before[0].Matches(name) {
        FindReplaced(before[1..], item, item', after, name);
      }
    }
  }

  /** A search for any other name is not affected by an addition. */
  lemma {:induction false} FindOther(before: seq<Item>, item: Item, after: seq<Item>, name: Name)
    requires !item.Matches(name)
    ensures Find(before + [item] + after, name) == Find(before + after, name)
    decreases |before|
  {
    var all := before + [item] + after;
    if before == [] {
      assert all[1..] == after == before + after;
    } else {
      assert all[1..] == before[1..] + [item] + after;
      assert (before + after)[1..] == before[1..] + after;
      FindOther(before[1..], item, after, name);
    }
  }

  /** The search has come to slot `p`, and no item before it has the name. */
  ghost predicate Searched(slots: seq<Slot>, p: nat, name: Name) {
    && p <= |slots| && Reaches(slots, 0, p) && WellFormed(slots, p)
    && Find(Before(slots, 0, p), name).Missing?
  }

  lemma SearchedSplit(slots: seq<Slot>, p: nat, name: Name)
    requires Searched(slots, p, name)
    ensures WellFormed(slots, 0) && Find(Items(slots, 0), name) == Find(Items(slots, p), name)
  {
    hide GroupOk, Reaches, Before, Items, WellFormed, Find;
    ItemsSplit(slots, 0, p);
    FindSkips(Before(slots, 0, p), Items(slots, p), name);
  }

  lemma SearchedEnd(slots: seq<Slot>, p: nat, name: Name)
    requires Searched(slots, p, name) && (p == |slots| || IsLast(slots[p]))
    ensures WellFormed(slots, 0) && Find(Items(slots, 0), name).Missing?
  {
    hide GroupOk, Reaches, Before;
    SearchedSplit(slots, p, name);
  }

  /** At a live slot an item parses; if it matches, it is the first that does. */
  lemma SearchedItem(slots: seq<Slot>, p: nat, name: Name)
    requires Searched(slots, p, name) && p < |slots| && !IsFree(slots[p])
    ensures Parses(slots, p) && WellFormed(slots, 0)
    ensures var item := ItemAt(slots, p); item.Matches(name) ==> Find(Items(slots, 0), name) == Hit(item)
  {
    hide GroupOk, Reaches, Before, Item.Matches;
    SearchedSplit(slots, p, name);
  }

  /** The search goes on after what does not match. */
  lemma SearchedNext(slots: seq<Slot>, p: nat, name: Name)
    requires Searched(slots, p, name) && p < |slots| && !IsLast(slots[p])
    requires IsFree(slots[p]) || (Parses(slots, p) && !ItemAt(slots, p).Matches(name))
    ensures CanStep(slots, p) && Searched(slots, After(slots, p), name)
  {
    hide GroupOk, Item.Matches;
    var r := After(slots, p);
    ReachesTrans(slots, 0, p, r);
    FindSkips(Before(slots, 0, p), Here(slots, p), name);
    assert Before(slots, p, r) == Here(slots, p) + [];
  }

  /** All that a round of the search needs to know. */
  lemma SearchedStep(slots: seq<Slot>, p: nat, name: Name)
    requires Searched(slots, p, name) && p < |slots|
    ensures WellFormed(slots, 0)
    ensures IsLast(slots[p]) ==> Find(Items(slots, 0), name).Missing?
    ensures !IsFree(slots[p]) ==>
              && Parses(slots, p)
              && (ItemAt(slots, p).Matches(name) ==> Find(Items(slots, 0), name) == Hit(ItemAt(slots, p)))
    ensures !IsLast(slots[p]) && (IsFree(slots[p]) || !ItemAt(slots, p).Matches(name)) ==>
              var r := if IsFree(slots[p]) then p + 1 else ItemAt(slots, p).at + 1;
              && r <= |slots| && Searched(slots, r, name)
              && (r == |slots| ==> Find(Items(slots, 0), name).Missing?)
  {
    hide GroupOk, Item.Matches, Searched, WellFormed, Items, Find, ItemAt, Parses;
    SearchedSplit(slots, p, name);
    if IsLast(slots[p]) {
      SearchedEnd(slots, p, name);
    } else {
      if !IsFree(slots[p]) {
        SearchedItem(slots, p, name);
      }
      if IsFree(slots[p]) || !ItemAt(slots, p).Matches(name) {
        SearchedNext(slots, p, name);
        if After(slots, p) == |slots| {
          SearchedEnd(slots, |slots|, name);
        }
      }
    }
  }

  lemma StartSearch(slots: seq<Slot>, name: Name)
    requires WellFormed(slots, 0)
    ensures Searched(slots, 0, name)
  {
    assert Find([], name).Missing?;
  }

  // ---------- looking for room ----------

  /** `dir_add` has scanned the slots before `pos`: the last `cnt` of them can be used, being free or behind the
      end mark, which has been met if `eod`. */
  ghost predicate Scanned(slots: seq<Slot>, pos: nat, cnt: nat, eod: bool) {
    cnt <= pos <= |slots| && exists e :: ScannedTo(slots, pos, cnt, eod, e)
  }

  /** The slots up to `e` are before the end mark, if there is one. */
  ghost predicate ScannedTo(slots: seq<Slot>, pos: nat, cnt: nat, eod: bool, e: int) {
    && 0 <= pos - cnt <= e <= pos <= |slots|
    && (forall i :: 0 <= i < e ==> !IsLast(slots[i]))
    && (forall i :: pos - cnt <= i < e ==> IsFree(slots[i]))
    && if eod then e < pos && IsLast(slots[e]) else e == pos
  }

  lemma ScanStart(slots: seq<Slot>)
    ensures Scanned(slots, 0, 0, false)
  {
    assert ScannedTo(slots, 0, 0, false, 0);
  }

  lemma ScanStep(slots: seq<Slot>, pos: nat, cnt: nat, eod: bool)
    requires Scanned(slots, pos, cnt, eod) && pos < |slots|
    ensures Scanned(slots, pos + 1, if eod || IsFree(slots[pos]) then cnt + 1 else 0, eod || IsLast(slots[pos]))
  {
    var e :| ScannedTo(slots, pos, cnt, eod, e);
    var usable := eod || IsFree(slots[pos]);
    var e' := if eod || IsLast(slots[pos]) then e else pos + 1;
    assert ScannedTo(slots, pos + 1, if usable then cnt + 1 else 0, eod || IsLast(slots[pos]), e');
  }

  lemma ScanExtend(a: seq<Slot>, b: seq<Slot>, pos: nat, cnt: nat, eod: bool)
    requires Scanned(a, pos, cnt, eod) && a <= b
    ensures Scanned(b, pos, cnt, eod)
  {
    var e :| ScannedTo(a, pos, cnt, eod, e);
    assert ScannedTo(b, pos, cnt, eod, e);
  }

  /** A slot that can be used: it is free, or behind the end mark. */
  ghost predicate CanTake(slots: seq<Slot>, i: nat) {
    i < |slots| && (IsFree(slots[i]) || exists j :: 0 <= j < i && IsLast(slots[j]))
  }

  /** The `n` slots before `p` can be used. */
  ghost predicate RunBefore(slots: seq<Slot>, p: nat, n: nat) {
    n <= p <= |slots| && forall i :: p - n <= i < p ==> CanTake(slots, i)
  }

  /** There are `n` slots in a row that can be used, with a slot behind them. `dir_add` moves on to that slot before it
      stores anything, whether or not it is going to need it for a new end mark. */
  ghost predicate HasRoom(slots: seq<Slot>, n: nat) {
    exists p :: 0 <= p < |slots| && RunBefore(slots, p, n)
  }

  /** The first place with room is before `p`. */
  ghost predicate FirstRoom(slots: seq<Slot>, p: nat, n: nat) {
    RunBefore(slots, p, n) && forall q :: 0 <= q < p ==> !RunBefore(slots, q, n)
  }

  /** The scan has not passed by any room for `need` slots: before `pos` there was none, and the last `cnt` slots
      are all that can be used of the run that ends at `pos`. */
  ghost predicate Unmissed(slots: seq<Slot>, pos: nat, cnt: nat, need: nat) {
    && cnt <= need && cnt <= pos <= |slots| && (cnt < pos && cnt < need ==> !CanTake(slots, pos - cnt - 1))
    && forall p :: 0 <= p < pos ==> !RunBefore(slots, p, need)
  }

  lemma ScannedFirst(slots: seq<Slot>, pos: nat, need: nat, eod: bool)
    requires Scanned(slots, pos, need, eod) && Unmissed(slots, pos, need, need)
    ensures FirstRoom(slots, pos, need)
  {
  }

  lemma UnmissedStep(slots: seq<Slot>, pos: nat, cnt: nat, eod: bool, need: nat)
    requires Scanned(slots, pos, cnt, eod) && Unmissed(slots, pos, cnt, need) && cnt < need && pos < |slots|
    ensures Unmissed(slots, pos + 1, if eod || IsFree(slots[pos]) then cnt + 1 else 0, need)
  {
    var e :| ScannedTo(slots, pos, cnt, eod, e);
    assert CanTake(slots, pos) <==> eod || IsFree(slots[pos]);
  }

  lemma UnmissedExtend(a: seq<Slot>, b: seq<Slot>, pos: nat, cnt: nat, need: nat)
    requires Unmissed(a, pos, cnt, need) && a <= b
    ensures Unmissed(b, pos, cnt, need)
  {
    assert forall i :: 0 <= i < |a| ==> (CanTake(a, i) <==> CanTake(b, i));
    forall p | 0 <= p < pos
      ensures !RunBefore(b, p, need)
    {
      assert !RunBefore(a, p, need);
    }
  }

  /** A scan that has come to the end of the directory without finding room has shown that there is none. */
  lemma NoRoomSeen(slots: seq<Slot>, cnt: nat, need: nat)
    requires Unmissed(slots, |slots|, cnt, need)
    ensures !HasRoom(slots, need)
  {
  }

  lemma UnmissedStart(slots: seq<Slot>, need: nat)
    ensures Unmissed(slots, 0, 0, need)
  {
  }

  /** Slots found by the scan can take an entry. */
  lemma RoomAdded(a: seq<Slot>, b: seq<Slot>, s: nat, e: nat, eod: bool)
    requires s < e && Scanned(a, e, e - s, eod)
    requires |a| == |b| && a[..s] == b[..s]
    requires (if eod then e < |b| && IsLast(b[e]) && a[e + 1..] == b[e + 1..] else a[e..] == b[e..])
    ensures Added(a, b, s, e, eod)
  {
    var q :| ScannedTo(a, e, e - s, eod, q);
    assert s <= q;
  }

  // ---------- `dir_add` on the list ----------

  /** The item that `dir_add` stores from slot `s` on. */
  function NewItem(s: nat, name: Name, n: nat, sfn: Slot): Item {
    Item(s, s + n, Long(name), sfn)
  }

  lemma WithEntryHolds(a: seq<Slot>, s: nat, name: Name, n: nat, sfn: Slot, eod: bool)
    requires Storable(name) && n == LfnCount(|name|) && s + n + 1 < |a| && sfn[..11] == SfnName(name) && !IsLfn(sfn)
    ensures var b := WithEntry(a, s, name, n, sfn, eod);
            && HoldsName(b, s, name, n) && b[s + n] == sfn && b[..s] == a[..s]
            && (if eod then IsLast(b[s + n + 1]) && a[s + n + 2..] == b[s + n + 2..]
                else a[s + n + 1..] == b[s + n + 1..])
  {
    hide NameSlot, SfnName, LfnCount;
    var b := WithEntry(a, s, name, n, sfn, eod);
    assert LfnCount(|name|) <= 20 by {
      assert 13 * (n - 1) < MAX_NAME;
    }
    assert b[s..s + n] == NameSlots(name, n);
  }

  lemma HeldParses(slots: seq<Slot>, p: nat, name: Name, n: nat)
    requires Storable(name) && HoldsName(slots, p, name, n)
    ensures Parses(slots, p) && ItemAt(slots, p) == Item(p, p + n, Long(name), slots[p + n])
  {
    hide GroupOk, GroupName, SfnName, LfnCount, NameSlots, Frag, FragOk;
    NameRoundTrip(slots, p, name, n);
    HeldSlot(slots, p, name, n, 0);
  }

  lemma WithEntryParses(a: seq<Slot>, s: nat, name: Name, n: nat, sfn: Slot, eod: bool)
    requires Storable(name) && n == LfnCount(|name|) && s + n + 1 < |a| && sfn[..11] == SfnName(name) && !IsLfn(sfn)
    ensures var b := WithEntry(a, s, name, n, sfn, eod); Parses(b, s) && ItemAt(b, s) == NewItem(s, name, n, sfn)
  {
    hide WithEntry, Parses, ItemAt, HoldsName, SfnName, LfnCount;
    var b := WithEntry(a, s, name, n, sfn, eod);
    WithEntryHolds(a, s, name, n, sfn, eod);
    HeldParses(b, s, name, n);
  }

  /** What `dir_add` does to the list: exactly the new item is inserted, every other item stays where it is. */
  lemma EntryAdded(a: seq<Slot>, s: nat, name: Name, n: nat, sfn: Slot, eod: bool)
    requires Storable(name) && n == LfnCount(|name|) && s + n + 1 < |a| && sfn[..11] == SfnName(name) && !IsLfn(sfn)
    requires WellFormed(a, 0) && Scanned(a, s + n + 1, n + 1, eod)
    ensures var b := WithEntry(a, s, name, n, sfn, eod); var item := NewItem(s, name, n, sfn);
            && Added(a, b, s, s + n + 1, eod)
            && WellFormed(b, 0) && Sits(b, 0, item)
            && Reaches(a, 0, s) && WellFormed(a, s)
            && Items(a, 0) == Before(a, 0, s) + Items(a, s)
            && Items(b, 0) == Before(a, 0, s) + [item] + Items(a, s)
  {
    hide WithEntry, GroupOk, SfnName, LfnCount, Added, Parses, ItemAt, WellFormed, Items, Before, Reaches, Scanned,
         Sits;
    var b := WithEntry(a, s, name, n, sfn, eod);
    WithEntryHolds(a, s, name, n, sfn, eod);
    WithEntryParses(a, s, name, n, sfn, eod);
    RoomAdded(a, b, s, s + n + 1, eod);
    AddedItems(a, b, s, s + n + 1, eod, NewItem(s, name, n, sfn));
  }

  /** After a failed search, adding an entry makes the search find it, and no other search changes. */
  lemma EntryFound(a: seq<Slot>, s: nat, name: Name, n: nat, sfn: Slot, eod: bool, other: Name)
    requires Storable(name) && n == LfnCount(|name|) && s + n + 1 < |a| && sfn[..11] == SfnName(name) && !IsLfn(sfn)
    requires WellFormed(a, 0) && Scanned(a, s + n + 1, n + 1, eod)
    requires Find(Items(a, 0), name).Missing?
    ensures var b := WithEntry(a, s, name, n, sfn, eod);
            && WellFormed(b, 0)
            && Find(Items(b, 0), name) == Hit(NewItem(s, name, n, sfn))
            && (other != name ==> Find(Items(b, 0), other) == Find(Items(a, 0), other))
  {
    hide WithEntry, GroupOk, SfnName, LfnCount, WellFormed, Items, Before, Reaches, Scanned, Sits, Find, Added;
    EntryAdded(a, s, name, n, sfn, eod);
    FindAdded(Before(a, 0, s), NewItem(s, name, n, sfn), Items(a, s), name);
    if other != name {
      FindOther(Before(a, 0, s), NewItem(s, name, n, sfn), Items(a, s), other);
    }
  }

  // ---------- end marks ----------

  /** The directory ends before its last slot. */
  ghost predicate EndMarked(slots: seq<Slot>) {
    exists i :: 0 <= i < |slots| && IsLast(slots[i])
  }

  /** The new end mark is there if the old one has been passed, and the old one still is if not. */
  lemma MarkWithEntry(a: seq<Slot>, s: nat, name: Name, n: nat, sfn: Slot, eod: bool)
    requires EndMarked(a) && s + n + 1 < |a| && Scanned(a, s + n + 1, n + 1, eod)
    requires Storable(name) && n == LfnCount(|name|) && sfn[..11] == SfnName(name) && !IsLfn(sfn)
    ensures EndMarked(WithEntry(a, s, name, n, sfn, eod))
  {
    hide WithEntry, SfnName, LfnCount, HoldsName, IsLast;
    var b := WithEntry(a, s, name, n, sfn, eod);
    WithEntryHolds(a, s, name, n, sfn, eod);
    if !eod {
      var e :| ScannedTo(a, s + n + 1, n + 1, eod, e);
      var i :| 0 <= i < |a| && IsLast(a[i]);
      assert a[s + n + 1..][i - (s + n + 1)] == b[s + n + 1..][i - (s + n + 1)];
    }
  }

  /** No item covers the end mark. */
  lemma NotCovered(a: seq<Slot>, item: Item, i: nat)
    requires WellFormed(a, 0) && item in Items(a, 0) && i < |a| && IsLast(a[i])
    ensures item.start <= item.at < |a| && (i < item.start || item.at < i)
  {
    hide GroupOk, GroupName, Items, WellFormed, Reaches;
    ItemSits(a, 0, item);
    ItemLive(a, item.start);
  }

  lemma MarkDropped(a: seq<Slot>, b: seq<Slot>, item: Item)
    requires EndMarked(a) && WellFormed(a, 0) && item in Items(a, 0) && MarkedFree(a, b, item.start, item.at + 1)
    ensures EndMarked(b)
  {
    hide Items, WellFormed, IsLast;
    var i :| 0 <= i < |a| && IsLast(a[i]);
    NotCovered(a, item, i);
    var e := item.at + 1;
    if i < item.start {
      assert a[..item.start][i] == b[..item.start][i];
    } else {
      assert a[e..][i - e] == b[e..][i - e];
    }
  }

  lemma MarkExchanged(a: seq<Slot>, item: Item, s: Slot)
    requires EndMarked(a) && WellFormed(a, 0) && item in Items(a, 0)
    ensures item.at < |a| && EndMarked(a[item.at := s])
  {
    hide Items, WellFormed, IsLast;
    var i :| 0 <= i < |a| && IsLast(a[i]);
    NotCovered(a, item, i);
    assert a[item.at := s][i] == a[i];
  }
}
