/** What whole runs mean: between them, the commands keep a map from paths to bytes. */
module Chronicles {
  import opened Bytes
  import opened Layout
  import opened Clusters
  import opened Names
  import opened LongNames
  import opened Listing
  import opened Volume
  import opened Directory
  import opened Dots
  import opened Blank
  import opened Tree
  import opened Edits
  import opened Paths
  import opened FileData
  import opened Files
  import opened FileSystem
  import opened OpenFiles
  import opened Sessions
  import opened Histories

  // ---------- paths ----------

  /** What paths name depends on the lists of the directories only. */
  lemma {:induction false} WalkItems(root: nat, tree: Tree, tree': Tree, k: nat, names: seq<Name>)
    requires IsTree(root, tree) && IsTree(root, tree') && tree'.items == tree.items && k in tree.items && names != []
    ensures Walk(root, tree', k, names) == Walk(root, tree, k, names)
    decreases |names|
  {
    hide IsTree, Find, IsDir, Head;
    FoundItem(root, tree, k, names[0]);
    var found := Find(tree.items[k], names[0]);
    if found.Hit? && |names| > 1 && IsDir(found.item) {
      WalkItems(root, tree, tree', Head(found.item), names[1..]);
    }
  }

  /** When an entry has been updated, the paths that named it name it as it is now. */
  lemma {:induction false} ReenteredPaths(root: nat, tree: Tree, tree': Tree, d: nat, item: Item, entry: Item, k: nat,
                                          names: seq<Name>)
    requires IsTree(root, tree) && IsTree(root, tree') && k in tree.items && k in tree'.items && names != []
    requires d in tree.items && d in tree'.items && tree'.items == tree.items[d := tree'.items[d]]
    requires Exchanged(tree.items[d], item, entry, tree'.items[d])
    ensures var r := Walk(root, tree, k, names);
            Walk(root, tree', k, names) == if r == Entry(d, item) then Entry(d, entry) else r
    decreases |names|
  {
    hide IsTree, Find, IsDir, Head, IsDot;
    FoundItem(root, tree, k, names[0]);
    var found := Find(tree.items[k], names[0]);
    if found.Hit? && |names| > 1 && IsDir(found.item) {
      ReenteredPaths(root, tree, tree', d, item, entry, Head(found.item), names[1..]);
    }
  }

  /** A path that names an entry other than the command's names it still, whatever the command does. */
  lemma OtherPaths(g: Geometry, volume: Name, cmd: Command, e: Event, names: seq<Name>)
    requires Happened(g, volume, cmd, e) && names != []
    ensures IsTree(g.rootClust, e.before.tree) && IsTree(g.rootClust, e.after.tree)
    ensures var r := Resolve(g.rootClust, e.before.tree, names);
            r.Entry? && r != Entry(e.dir, e.item) ==> Resolve(g.rootClust, e.after.tree, names) == r
  {
    hide Sound, SameFiles, Happened, IsTree, Walk, Made, TakenOut, Handled;
    HappenedFacts(g, volume, cmd, e);
    match cmd
    case MakeDirectory(path, stamp) => MadePaths(g, Below(volume, path), stamp, e, names);
    case Remove(path) => TakenPaths(g, Below(volume, path), e, names);
    case Use(path, mode, ops, _, _) => HandledPaths(g, Below(volume, path), mode, ops, e, names);
  }

  /** A command that succeeds leaves its own path naming an entry, if it makes or uses one, and naming that entry no
      more if it removes it. */
  lemma OwnPath(g: Geometry, volume: Name, cmd: Command, e: Event, names: seq<Name>)
    requires Happened(g, volume, cmd, e) && names != [] && Below(volume, cmd.path) == Some(names) && e.err == ERR_NONE
    ensures IsTree(g.rootClust, e.before.tree) && IsTree(g.rootClust, e.after.tree)
    ensures var r, r' := Resolve(g.rootClust, e.before.tree, names), Resolve(g.rootClust, e.after.tree, names);
            match cmd
            case MakeDirectory(_, _) => if r.NoEntry? then r' == Entry(e.dir, e.item) else r.Entry? && r' == r
            case Remove(_) => r == Entry(e.dir, e.item) && r' != r
            case Use(_, _, _, _, _) => r' == Entry(e.dir, e.use.entry)
  {
    hide Sound, SameFiles, Happened, IsTree, Walk, Made, TakenOut, Handled, Below;
    HappenedFacts(g, volume, cmd, e);
    match cmd
    case MakeDirectory(path, stamp) => MadePaths(g, Below(volume, path), stamp, e, names);
    case Remove(path) => TakenPaths(g, Below(volume, path), e, names);
    case Use(path, mode, ops, _, _) => HandledPaths(g, Below(volume, path), mode, ops, e, names);
  }

  lemma HappenedFacts(g: Geometry, volume: Name, cmd: Command, e: Event)
    requires Happened(g, volume, cmd, e)
    ensures Sound(g, e.before.img, e.before.tree) && Sound(g, e.after.img, e.after.tree)
    ensures IsTree(g.rootClust, e.before.tree) && IsTree(g.rootClust, e.after.tree)
    ensures g.rootClust in e.before.tree.items && g.rootClust in e.after.tree.items
    ensures match cmd
            case MakeDirectory(path, stamp) => Made(g, Below(volume, path), stamp, e)
            case Remove(path) => TakenOut(g, Below(volume, path), e)
            case Use(path, mode, ops, _, _) => Handled(g, Below(volume, path), mode, ops, e)
  {
    hide Sound, SameFiles, Made, TakenOut, Handled, Below;
    TreeFacts(g, e.before.img, e.before.tree);
    TreeFacts(g, e.after.img, e.after.tree);
  }

  /** The same path, when a directory is made. */
  lemma MadePaths(g: Geometry, comps: Option<seq<Name>>, stamp: Stamp, e: Event, names: seq<Name>)
    requires IsTree(g.rootClust, e.before.tree) && IsTree(g.rootClust, e.after.tree) && Made(g, comps, stamp, e)
    requires names != []
    ensures var r, r' := Resolve(g.rootClust, e.before.tree, names), Resolve(g.rootClust, e.after.tree, names);
            && (r.Entry? ==> r' == r)
            && (e.err == ERR_NONE && comps == Some(names) ==>
                  if r.NoEntry? then r' == Entry(e.dir, e.item) else r.Entry?)
  {
    hide IsTree, Walk, Created, NotCreated, NoFreeCluster, Storable, Leaked;
    RootListed(g.rootClust, e.before.tree);
    WalkEnds(g.rootClust, e.before.tree, g.rootClust, names);
    var t, t' := e.before.tree, e.after.tree;
    if t'.items == t.items {
      WalkItems(g.rootClust, t, t', g.rootClust, names);
    }
    if comps.Some? {
      var r := Resolve(g.rootClust, t, comps.value);
      NamedMissing(g.rootClust, t, comps.value);
      if r.NoEntry? && |r.rest| == 1 {
        if e.err == ERR_NONE {
          var kids := DotItems(Head(e.item), if r.dir == g.rootClust then 0 else r.dir, stamp);
          CreatedPaths(g.rootClust, t, t', r.dir, t'.chains[r.dir], r.rest[0], e.item, kids, g.rootClust, names);
        } else {
          NotCreatedItems(g, e, r.dir, r.rest[0]);
        }
      }
    }
  }

  /** Nothing has been created, so the lists are the same. */
  lemma NotCreatedItems(g: Geometry, e: Event, d: nat, name: Name)
    requires Refused(g, d, name, e)
    ensures e.after.tree.items == e.before.tree.items
  {
    hide Crowded, NoFreeCluster, LfnCount;
  }

  /** When an entry is unlinked. */
  lemma TakenPaths(g: Geometry, comps: Option<seq<Name>>, e: Event, names: seq<Name>)
    requires Sound(g, e.before.img, e.before.tree) && Sound(g, e.after.img, e.after.tree) && TakenOut(g, comps, e)
    requires names != []
    requires IsTree(g.rootClust, e.before.tree) && IsTree(g.rootClust, e.after.tree)
    ensures var r, r' := Resolve(g.rootClust, e.before.tree, names), Resolve(g.rootClust, e.after.tree, names);
            && (r.Entry? && r != Entry(e.dir, e.item) ==> r' == r)
            && (e.err == ERR_NONE ==>
                  r' != Entry(e.dir, e.item) && (comps == Some(names) ==> r == Entry(e.dir, e.item)))
  {
    hide IsTree, Walk, Unlinked, Refusal, Sound, IsDot, IsDir, Head;
    RootListed(g.rootClust, e.before.tree);
    RootListed(g.rootClust, e.after.tree);
    var t, t' := e.before.tree, e.after.tree;
    if e.err != ERR_NONE {
      WalkItems(g.rootClust, t, t', g.rootClust, names);
    } else {
      RemovedFacts(g, e.before.img, t, e.dir, e.item);
      EmptyUnlinked(g, e.before.img, t, e.dir, e.item);
      UnlinkedPaths(g.rootClust, t, t', e.dir, e.item, g.rootClust, names);
    }
  }

  /** What can be unlinked lists nothing but its dot entries. */
  lemma EmptyUnlinked(g: Geometry, img: Image, tree: Tree, d: nat, item: Item)
    requires Sound(g, img, tree) && d in tree.items && item in tree.items[d] && !IsDot(item)
    requires Refusal(g, img, tree, d, item) == ERR_NONE
    ensures Head(item) in tree.items ==> forall kid :: kid in tree.items[Head(item)] ==> IsDot(kid)
  {
    hide Sound, IsDot, IsDir, Head, SlotsOf, EndMarked, Table, IsTree, Dotted;
    EmptyOrFile(g, img, tree, d, item);
    if Head(item) in tree.items {
      TreeFacts(g, img, tree);
      RemovedHead(g.rootClust, tree, d, item);
      SoundDotted(g, img, tree, Head(item));
      DottedOnly(tree.items[Head(item)]);
    }
  }

  /** When a file is used. */
  lemma HandledPaths(g: Geometry, comps: Option<seq<Name>>, mode: Mode, ops: seq<Op>, e: Event, names: seq<Name>)
    requires Sound(g, e.before.img, e.before.tree) && Sound(g, e.after.img, e.after.tree)
    requires IsTree(g.rootClust, e.before.tree) && IsTree(g.rootClust, e.after.tree)
    requires Handled(g, comps, mode, ops, e) && names != []
    ensures var r, r' := Resolve(g.rootClust, e.before.tree, names), Resolve(g.rootClust, e.after.tree, names);
            && (r.Entry? && r != Entry(e.dir, e.item) ==> r' == r)
            && (e.err == ERR_NONE && comps == Some(names) ==> r' == Entry(e.dir, e.use.entry))
  {
    hide Sound, IsTree, Walk, Opens, Exchanged, Outcome, Result, Holding, AllInDomain, NotCreated, Head, SizeOf;
    RootListed(g.rootClust, e.before.tree);
    RootListed(g.rootClust, e.after.tree);
    var t, t' := e.before.tree, e.after.tree;
    if e.err != ERR_NONE {
      NotOpenedItems(g, comps, mode, e);
      WalkItems(g.rootClust, t, t', g.rootClust, names);
    } else {
      OpensPaths(g, comps, mode, e.before, e.dir, e.item, e.use, names);
      RootListed(g.rootClust, e.use.begun);
      ReenteredPaths(g.rootClust, e.use.begun, t', e.dir, e.item, e.use.entry, g.rootClust, names);
    }
  }

  lemma NotOpenedItems(g: Geometry, comps: Option<seq<Name>>, mode: Mode, e: Event)
    requires IsTree(g.rootClust, e.before.tree) && NotOpened(g, comps, mode, e) && e.err != ERR_NONE
    ensures e.after.tree.items == e.before.tree.items
  {
    hide IsTree, Resolve, NotCreated, Head, SizeOf, NoneLeft, Capacity, Refused;
    if comps.Some? {
      var r := Resolve(g.rootClust, e.before.tree, comps.value);
      if r.NoEntry? && mode.create && |r.rest| == 1 {
        NotCreatedItems(g, e, r.dir, r.rest[0]);
      }
    }
  }

  /** Opening changes nothing for the paths that name something. */
  lemma OpensPaths(g: Geometry, comps: Option<seq<Name>>, mode: Mode, s: Scene, d: nat, item: Item, u: Usage,
                   names: seq<Name>)
    requires IsTree(g.rootClust, s.tree) && Opens(g, comps, mode, s, d, item, u) && names != []
    ensures IsTree(g.rootClust, u.begun)
    ensures var r, r' := Resolve(g.rootClust, s.tree, names), Resolve(g.rootClust, u.begun, names);
            && (r.Entry? ==> r' == r)
            && (comps == Some(names) ==> r' == Entry(d, item))
  {
    hide IsTree, Walk, Created, NoFreeCluster, Storable, Holding, Head, SizeOf;
    RootListed(g.rootClust, s.tree);
    if u.begun.items == s.tree.items {
      WalkItems(g.rootClust, s.tree, u.begun, g.rootClust, names);
    }
    NamedMissing(g.rootClust, s.tree, comps.value);
    var r := Resolve(g.rootClust, s.tree, comps.value);
    if r.NoEntry? {
      CreatedPaths(g.rootClust, s.tree, u.begun, d, u.begun.chains[d], r.rest[0], item, [], g.rootClust, names);
    }
  }

  // ---------- bytes ----------

  /** From the `i`th to the `j`th scene of a run, cluster `c` is the head of a file, and no command touches it. */
  ghost predicate Undisturbed(first: Scene, log: seq<Event>, i: nat, j: nat, c: nat) {
    && i <= j <= |log|
    && (forall m :: i <= m <= j ==>
          c in SceneAt(first, log, m).tree.chains && c !in SceneAt(first, log, m).tree.items)
    && (forall m :: i <= m < j ==> log[m].touched != c)
  }

  /** What one event of a run does to the files. */
  lemma EventFiles(g: Geometry, volume: Name, cmds: seq<Command>, first: Scene, log: seq<Event>, m: nat)
    requires Chronicle(g, volume, cmds, first, log) && m < |log|
    ensures |cmds| == |log|
    ensures var a, b := SceneAt(first, log, m), SceneAt(first, log, m + 1);
            && a == log[m].before && b == log[m].after && Happened(g, volume, cmds[m], log[m])
            && Sound(g, a.img, a.tree) && Sound(g, b.img, b.tree)
            && SameFiles(g, a.img, a.tree, b.img, b.tree, log[m].touched)
  {
    hide Sound, SameFiles, Made, TakenOut, Handled, Below;
  }

  /** Then the file has the same chain with the same bytes all along. */
  lemma {:induction false} LeftAlone(g: Geometry, volume: Name, cmds: seq<Command>, first: Scene, log: seq<Event>,
                                     i: nat, j: nat, c: nat)
    requires Chronicle(g, volume, cmds, first, log) && Sound(g, first.img, first.tree)
    requires Undisturbed(first, log, i, j, c)
    ensures var a, b := SceneAt(first, log, i), SceneAt(first, log, j);
            && c in a.tree.chains && c in b.tree.chains && b.tree.chains[c] == a.tree.chains[c]
            && SameBytes(g, a.img, b.img, a.tree.chains[c])
    decreases j - i
  {
    hide Sound, Happened, Chronicle, SameBytes, SceneAt;
    var a := SceneAt(first, log, i);
    if i == j {
      if i > 0 {
        EventFiles(g, volume, cmds, first, log, i - 1);
      } else {
        StartOfRun(first, log);
      }
      TreeFacts(g, a.img, a.tree);
      SameFilesRefl(g, a.img, a.tree, 0);
    } else {
      LeftAlone(g, volume, cmds, first, log, i, j - 1, c);
      EventFiles(g, volume, cmds, first, log, j - 1);
      SameBytesTrans(g, a.img, SceneAt(first, log, j - 1).img, SceneAt(first, log, j).img, a.tree.chains[c]);
    }
  }

  lemma SameBytesTrans(g: Geometry, a: Image, b: Image, d: Image, ch: seq<nat>)
    requires SameBytes(g, a, b, ch) && SameBytes(g, b, d, ch)
    ensures SameBytes(g, a, d, ch)
  {
  }

  lemma StartOfRun(first: Scene, log: seq<Event>)
    ensures SceneAt(first, log, 0) == first
  {
  }

  /** A file that has been used and closed holds what is said of it. */
  lemma ClosedHolds(g: Geometry, volume: Name, cmd: Command, e: Event)
    requires Happened(g, volume, cmd, e) && cmd.Use? && e.err == ERR_NONE && e.use.initial != []
    ensures Holding(g, e.after.img, e.after.tree, Head(e.item), |e.use.contents|, e.use.contents)
  {
    hide Sound, SameFiles, Below, Opens, Holding, Worked, Outcome, Result, AllInDomain;
  }

  /** And so does one that is opened. */
  lemma OpenedHolds(g: Geometry, volume: Name, cmd: Command, e: Event)
    requires Happened(g, volume, cmd, e) && cmd.Use? && e.err == ERR_NONE && !cmd.mode.trunc && SizeOf(e.item.sfn) != 0
    ensures Holding(g, e.before.img, e.before.tree, Head(e.item), SizeOf(e.item.sfn), e.use.initial)
  {
    hide Sound, SameFiles, Below, Holding, Closes, Resolve, Created, Storable, Unowned;
  }

  /** What one use of a file has left in it is what the next one finds, if the entry has kept its length. */
  lemma ReadLater(g: Geometry, volume: Name, cmds: seq<Command>, first: Scene, log: seq<Event>, i: nat, j: nat)
    requires Chronicle(g, volume, cmds, first, log) && Sound(g, first.img, first.tree) && i < j < |log|
    requires cmds[i].Use? && cmds[j].Use? && log[i].err == log[j].err == ERR_NONE && log[i].use.initial != []
    requires !cmds[j].mode.trunc && Head(log[j].item) == Head(log[i].item)
    requires SizeOf(log[j].item.sfn) == |log[i].use.contents| > 0
    requires Undisturbed(first, log, i + 1, j, Head(log[i].item))
    ensures log[j].use.initial == log[i].use.contents
  {
    hide Sound, Happened, Chronicle, SameFiles, SameBytes, Content, Capacity, Backed, SizeOf, Head, SceneAt,
         Undisturbed;
    EventFiles(g, volume, cmds, first, log, i);
    EventFiles(g, volume, cmds, first, log, j);
    ClosedHolds(g, volume, cmds[i], log[i]);
    OpenedHolds(g, volume, cmds[j], log[j]);
    LeftAlone(g, volume, cmds, first, log, i + 1, j, Head(log[i].item));
    var a, b := log[i].after, log[j].before;
    ContentStays(g, a.img, b.img, a.tree.chains[Head(log[i].item)], |log[i].use.contents|);
  }

  // ---------- bytes by path ----------

  /** An entry is the only one for its clusters. */
  lemma OnlyEntry(g: Geometry, img: Image, tree: Tree, d: nat, x: Item, k: nat, y: Item)
    requires Sound(g, img, tree) && d in tree.items && x in tree.items[d] && !IsDot(x)
    requires k in tree.items && y in tree.items[k] && !IsDot(y) && Head(x) == Head(y) != 0
    ensures k == d && x == y
  {
    hide Sound, IsTree, IsDot, Head, SlotsOf, Items, WellFormed, IsDirectory;
    TreeFacts(g, img, tree);
    OneEntry(g.rootClust, tree, d, x, k, y);
    SoundDirectory(g, img, tree, d);
    DirectoryOnDevice(g, img, tree.chains[d]);
    OneItemAt(SlotsOf(g, img, tree.chains[d]), x, y);
  }

  /** A command does not touch the file of an entry that is not its own. */
  lemma NotTouched(g: Geometry, volume: Name, cmd: Command, e: Event, d: nat, item: Item)
    requires Happened(g, volume, cmd, e)
    requires d in e.before.tree.items && item in e.before.tree.items[d] && !IsDot(item)
    requires Head(item) != 0 && Head(item) in e.before.tree.chains && Entry(e.dir, e.item) != Entry(d, item)
    ensures e.touched != Head(item)
  {
    hide Sound, SameFiles, IsTree, Made, TakenOut, Walk, IsDot, Head, Closes, NotCreated, Holding, Created, SizeOf,
         Below, NoFreeCluster, NoneLeft, Capacity;
    HappenedFacts(g, volume, cmd, e);
    if cmd.Use? && Below(volume, cmd.path).Some? {
      var names := Below(volume, cmd.path).value;
      NamedListed(g.rootClust, e.before.tree, names);
      if Resolve(g.rootClust, e.before.tree, names).Entry? && Head(e.item) == Head(item) {
        OnlyEntry(g, e.before.img, e.before.tree, d, item, e.dir, e.item);
      }
    }
  }

  /** What a path names at a scene of a run. */
  ghost predicate NamesAt(g: Geometry, s: Scene, names: seq<Name>, d: nat, item: Item) {
    IsTree(g.rootClust, s.tree) && Resolve(g.rootClust, s.tree, names) == Entry(d, item)
  }

  /** No command from the `i`th to before the `j`th one is about this entry. */
  ghost predicate Spared(log: seq<Event>, i: nat, j: nat, d: nat, item: Item) {
    i <= j <= |log| && forall m :: i <= m < j ==> Entry(log[m].dir, log[m].item) != Entry(d, item)
  }

  /** Then the path goes on naming it. */
  lemma {:induction false} PathStays(g: Geometry, volume: Name, cmds: seq<Command>, first: Scene, log: seq<Event>,
                                     i: nat, j: nat, names: seq<Name>, d: nat, item: Item)
    requires Chronicle(g, volume, cmds, first, log) && Spared(log, i, j, d, item) && names != []
    requires NamesAt(g, SceneAt(first, log, i), names, d, item)
    ensures NamesAt(g, SceneAt(first, log, j), names, d, item)
    decreases j - i
  {
    hide Chronicle, SceneAt, Happened, Sound, SameFiles, IsTree, Walk;
    if i < j {
      PathStays(g, volume, cmds, first, log, i, j - 1, names, d, item);
      EventFiles(g, volume, cmds, first, log, j - 1);
      OtherPaths(g, volume, cmds[j - 1], log[j - 1], names);
    }
  }

  /** A file that a path names has a chain, which is no directory's. */
  lemma NamedFile(g: Geometry, s: Scene, names: seq<Name>, d: nat, item: Item)
    requires Sound(g, s.img, s.tree) && NamesAt(g, s, names, d, item) && Head(item) != 0 && !IsDir(item)
    ensures d in s.tree.items && item in s.tree.items[d] && !IsDot(item)
    ensures Head(item) in s.tree.chains && Head(item) !in s.tree.items
  {
    hide Sound, IsTree, Walk, IsDot, IsDir, Head;
    NamedListed(g.rootClust, s.tree, names);
    TreeFacts(g, s.img, s.tree);
    FileChain(g.rootClust, s.tree, d, item);
  }

  /** So its clusters are not disturbed. */
  lemma SparedUndisturbed(g: Geometry, volume: Name, cmds: seq<Command>, first: Scene, log: seq<Event>, i: nat, j: nat,
                          names: seq<Name>, d: nat, item: Item)
    requires Chronicle(g, volume, cmds, first, log) && Spared(log, i, j, d, item) && names != [] && 0 < i
    requires NamesAt(g, SceneAt(first, log, i), names, d, item) && Head(item) != 0 && !IsDir(item)
    ensures Undisturbed(first, log, i, j, Head(item))
  {
    hide Chronicle, SceneAt, Happened, Sound, SameFiles, NamesAt, IsDot, IsDir, Head;
    forall m | i <= m <= j
      ensures Head(item) in SceneAt(first, log, m).tree.chains && Head(item) !in SceneAt(first, log, m).tree.items
      ensures m < j ==> log[m].touched != Head(item)
    {
      PathStays(g, volume, cmds, first, log, i, m, names, d, item);
      EventFiles(g, volume, cmds, first, log, m - 1);
      NamedFile(g, SceneAt(first, log, m), names, d, item);
      if m < j {
        EventFiles(g, volume, cmds, first, log, m);
        NotTouched(g, volume, cmds[m], log[m], d, item);
      }
    }
  }

  /** The bytes that one use of a file leaves at a path are those that the next use finds there, if no command in
      between is about the path's entry. */
  lemma ReadAtPath(g: Geometry, volume: Name, cmds: seq<Command>, first: Scene, log: seq<Event>, i: nat, j: nat,
                   names: seq<Name>)
    requires Chronicle(g, volume, cmds, first, log) && Sound(g, first.img, first.tree) && i < j < |log| && names != []
    requires cmds[i].Use? && cmds[j].Use? && log[i].err == log[j].err == ERR_NONE && !cmds[j].mode.trunc
    requires Below(volume, cmds[i].path) == Below(volume, cmds[j].path) == Some(names)
    requires log[i].use.initial != [] && log[i].use.contents != []
    requires Spared(log, i + 1, j, log[i].dir, log[i].use.entry)
    ensures Entry(log[j].dir, log[j].item) == Entry(log[i].dir, log[i].use.entry)
    ensures log[j].use.initial == log[i].use.contents
  {
    hide Chronicle, SceneAt, Happened, Sound, SameFiles, IsTree, Walk, Spared, Undisturbed, Holding;
    var d, entry := log[i].dir, log[i].use.entry;
    EventFiles(g, volume, cmds, first, log, i);
    EventFiles(g, volume, cmds, first, log, j);
    OwnPath(g, volume, cmds[i], log[i], names);
    ClosedEntryFacts(g, volume, cmds[i], log[i]);
    PathStays(g, volume, cmds, first, log, i + 1, j, names, d, entry);
    OpenedAtPath(g, volume, cmds[j], log[j], names);
    SparedUndisturbed(g, volume, cmds, first, log, i + 1, j, names, d, entry);
    ReadLater(g, volume, cmds, first, log, i, j);
  }

  lemma ClosedEntryFacts(g: Geometry, volume: Name, cmd: Command, e: Event)
    requires Happened(g, volume, cmd, e) && cmd.Use? && e.err == ERR_NONE && e.use.initial != []
    ensures Head(e.use.entry) == Head(e.item) != 0 && !IsDir(e.use.entry) && SizeOf(e.use.entry.sfn) == |e.use.contents|
  {
    hide Sound, SameFiles, Below, Opens, Outcome, Result, AllInDomain, Head, IsDir, SizeOf;
    HappenedFacts(g, volume, cmd, e);
    TreeFacts(g, e.after.img, e.after.tree);
  }

  /** What is opened is what the path names. */
  lemma OpenedAtPath(g: Geometry, volume: Name, cmd: Command, e: Event, names: seq<Name>)
    requires Happened(g, volume, cmd, e) && cmd.Use? && e.err == ERR_NONE && Below(volume, cmd.path) == Some(names)
    ensures IsTree(g.rootClust, e.before.tree)
    ensures var r := Resolve(g.rootClust, e.before.tree, names); r.Entry? ==> r == Entry(e.dir, e.item)
  {
    hide Sound, SameFiles, IsTree, Resolve, Closes, Created, Holding, Below;
    HappenedFacts(g, volume, cmd, e);
  }

  // ---------- empty files ----------

  /** No entry gives its file any bytes. */
  ghost predicate NoBytes(tree: Tree) {
    forall d, item :: d in tree.items && item in tree.items[d] ==> Byteless(item)
  }

  ghost predicate Byteless(item: Item) {
    IsDot(item) || SizeOf(item.sfn) == 0
  }

  /** Files never get their first bytes: where all files are empty, every command leaves all files empty. */
  lemma NoBytesKept(g: Geometry, volume: Name, cmd: Command, e: Event)
    requires Happened(g, volume, cmd, e) && NoBytes(e.before.tree)
    ensures NoBytes(e.after.tree)
  {
    hide Sound, SameFiles, Happened, IsTree, Made, TakenOut, Handled, NoBytes;
    HappenedFacts(g, volume, cmd, e);
    match cmd
    case MakeDirectory(path, stamp) => NoBytesMade(g, Below(volume, path), stamp, e);
    case Remove(path) => NoBytesTaken(g, Below(volume, path), e);
    case Use(path, mode, ops, _, _) => NoBytesHandled(g, Below(volume, path), mode, ops, e);
  }

  lemma NoBytesCreated(tree: Tree, tree': Tree, d: nat, ch: seq<nat>, name: Name, item: Item, kids: seq<Item>)
    requires NoBytes(tree) && Created(tree, tree', d, ch, name, item, kids) && SizeOf(item.sfn) == 0
    requires forall kid :: kid in kids ==> IsDot(kid)
    ensures NoBytes(tree')
  {
    hide IsDot, IsDir, Head, SizeOf, Find;
    forall k, x | k in tree'.items && x in tree'.items[k]
      ensures Byteless(x)
    {
      assert x == item || x in kids || (k in tree.items && x in tree.items[k]);
    }
  }

  lemma NoBytesMade(g: Geometry, comps: Option<seq<Name>>, stamp: Stamp, e: Event)
    requires IsTree(g.rootClust, e.before.tree) && Made(g, comps, stamp, e) && NoBytes(e.before.tree)
    ensures NoBytes(e.after.tree)
  {
    hide IsTree, Resolve, Created, NotCreated, NoFreeCluster, Storable, NoBytes, SfnSlot, SfnName, SizeOf;
    if comps.Some? {
      var r := Resolve(g.rootClust, e.before.tree, comps.value);
      if r.NoEntry? && |r.rest| == 1 {
        if e.err == ERR_NONE {
          var kids := DotItems(Head(e.item), if r.dir == g.rootClust then 0 else r.dir, stamp);
          DotItemsDotted(Head(e.item), if r.dir == g.rootClust then 0 else r.dir, stamp);
          SfnSlotFields(SfnName(r.rest[0]), ATTR_DIR, Head(e.item), stamp);
          NoBytesCreated(e.before.tree, e.after.tree, r.dir, e.after.tree.chains[r.dir], r.rest[0], e.item, kids);
        } else {
          NotCreatedItems(g, e, r.dir, r.rest[0]);
          NoBytesSame(e.before.tree, e.after.tree);
        }
      }
    }
  }

  lemma NoBytesSame(tree: Tree, tree': Tree)
    requires NoBytes(tree) && tree'.items == tree.items
    ensures NoBytes(tree')
  {
    hide Byteless;
  }

  lemma NoBytesTaken(g: Geometry, comps: Option<seq<Name>>, e: Event)
    requires Sound(g, e.before.img, e.before.tree) && TakenOut(g, comps, e) && NoBytes(e.before.tree)
    ensures NoBytes(e.after.tree)
  {
    hide Sound, Resolve, Byteless, Refusal, Find, IsDot;
  }

  lemma NoBytesHandled(g: Geometry, comps: Option<seq<Name>>, mode: Mode, ops: seq<Op>, e: Event)
    requires IsTree(g.rootClust, e.before.tree) && Handled(g, comps, mode, ops, e) && NoBytes(e.before.tree)
    ensures NoBytes(e.after.tree)
  {
    hide IsTree, Opens, NotOpened, NoBytes, Exchanged, SizeOf, Worked, Holding, Outcome, Result, AllInDomain;
    if e.err != ERR_NONE {
      NotOpenedItems(g, comps, mode, e);
      NoBytesSame(e.before.tree, e.after.tree);
    } else {
      NoBytesOpens(g, comps, mode, e.before, e.dir, e.item, e.use);
      NoBytesReentered(e.use.begun, e.after.tree, e.dir, e.item, e.use.entry);
    }
  }

  lemma NoBytesOpens(g: Geometry, comps: Option<seq<Name>>, mode: Mode, s: Scene, d: nat, item: Item, u: Usage)
    requires IsTree(g.rootClust, s.tree) && Opens(g, comps, mode, s, d, item, u) && NoBytes(s.tree)
    ensures NoBytes(u.begun) && u.initial == []
  {
    hide IsTree, Walk, Created, NoFreeCluster, Storable, Holding, Head, SizeOf, NoBytes, IsDot;
    var r := Resolve(g.rootClust, s.tree, comps.value);
    NamedListed(g.rootClust, s.tree, comps.value);
    if r.NoEntry? {
      NoBytesCreated(s.tree, u.begun, d, u.begun.chains[d], r.rest[0], item, []);
    } else {
      BytelessItem(s.tree, d, item);
    }
  }

  lemma BytelessItem(tree: Tree, d: nat, item: Item)
    requires NoBytes(tree) && d in tree.items && item in tree.items[d] && !IsDot(item)
    ensures SizeOf(item.sfn) == 0
  {
    hide IsDot, SizeOf;
    assert Byteless(item);
  }

  lemma NoBytesReentered(tree: Tree, tree': Tree, d: nat, item: Item, entry: Item)
    requires NoBytes(tree) && Reentered(tree, tree', d, item, entry) && SizeOf(entry.sfn) == 0
    ensures NoBytes(tree')
  {
    hide IsDot, IsDir, Head, SizeOf, Find;
    forall k, x | k in tree'.items && x in tree'.items[k]
      ensures Byteless(x)
    {
      assert x == entry || (k in tree.items && x in tree.items[k]);
    }
  }

  /** So every file is empty at every point of every run. */
  lemma {:induction false} NoBytesEver(g: Geometry, volume: Name, cmds: seq<Command>, first: Scene, log: seq<Event>,
                                       i: nat)
    requires Chronicle(g, volume, cmds, first, log) && NoBytes(first.tree) && i <= |log|
    ensures NoBytes(SceneAt(first, log, i).tree)
  {
    hide NoBytes, Happened, SceneAt, Chronicle, Sound, SameFiles;
    if i == 0 {
      StartOfRun(first, log);
    } else {
      NoBytesEver(g, volume, cmds, first, log, i - 1);
      EventFiles(g, volume, cmds, first, log, i - 1);
      NoBytesKept(g, volume, cmds[i - 1], log[i - 1]);
    }
  }

  /** In particular in a run that starts on a formatted volume. */
  lemma EmptyFromBlank(g: Geometry, img: Image, nextFree: nat, volume: Name, cmds: seq<Command>, log: seq<Event>,
                       i: nat)
    requires g.Wf(|img|) && i <= |log|
    requires Chronicle(g, volume, cmds, Scene(img, img, FormattedTree(g, img), nextFree), log)
    ensures NoBytes(SceneAt(Scene(img, img, FormattedTree(g, img), nextFree), log, i).tree)
  {
    hide Chronicle, SceneAt;
    NoBytesEver(g, volume, cmds, Scene(img, img, FormattedTree(g, img), nextFree), log, i);
  }
}
