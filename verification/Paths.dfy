/** Paths: their components, and what they name in a directory tree. */
module Paths {
  import opened Names
  import opened Listing
  import opened Tree

  /** The length of the first component of a path that does not start with a slash. */
  function FirstLen(path: Name): (n: nat)
    ensures n <= |path| && (n < |path| ==> path[n] == SLASH)
    ensures forall k :: 0 <= k < n ==> path[k] != SLASH
  {
    if path == [] || path[0] == SLASH then 0 else 1 + FirstLen(path[1..])
  }

  /** The components of a path: what stands between its slashes, nothing else. */
  function Split(path: Name): (r: seq<Name>)
    decreases |path|
  {
    if path == [] then []
    else if path[0] == SLASH then Split(path[1..])
    else var n := FirstLen(path); [path[..n]] + Split(path[n..])
  }

  lemma FirstLenIs(path: Name, n: nat)
    requires n <= |path| && (n < |path| ==> path[n] == SLASH) && forall k :: 0 <= k < n ==> path[k] != SLASH
    ensures FirstLen(path) == n
  {
    if n > 0 {
      FirstLenIs(path[1..], n - 1);
    }
  }

  /** A slash separates: the components of two paths joined by one are those of the first and then those of the
      second, so repeated, leading and trailing slashes make no difference. */
  lemma {:induction false} SplitAtSlash(a: Name, b: Name)
    ensures Split(a + [SLASH] + b) == Split(a) + Split(b)
    decreases |a|
  {
    hide Split;
    var p := a + [SLASH] + b;
    SplitUnfolds(p);
    SplitUnfolds(a);
    if a == [] {
      assert p[1..] == b;
    } else if a[0] == SLASH {
      assert p[1..] == a[1..] + [SLASH] + b;
      SplitAtSlash(a[1..], b);
    } else {
      var n := FirstLen(a);
      FirstLenIs(p, n);
      assert p[..n] == a[..n] && p[n..] == a[n..] + [SLASH] + b;
      SplitAtSlash(a[n..], b);
    }
  }

  /** A leading slash does not count, and the first component is up to the first slash. */
  lemma SplitUnfolds(path: Name)
    ensures path == [] ==> Split(path) == []
    ensures path != [] && path[0] == SLASH ==> Split(path) == Split(path[1..])
    ensures path != [] && path[0] != SLASH ==>
              Split(path) == [path[..FirstLen(path)]] + Split(path[FirstLen(path)..])
  {
  }

  /** A component: not empty, and without slashes. */
  predicate IsComponent(name: Name) {
    name != [] && forall k :: 0 <= k < |name| ==> name[k] != SLASH
  }

  predicate AreComponents(names: seq<Name>) {
    forall c :: c in names ==> IsComponent(c)
  }

  /** What a path is split into are components, made of bytes of the path. */
  lemma {:induction false} SplitComponents(path: Name)
    ensures AreComponents(Split(path))
    ensures forall c, k :: c in Split(path) && 0 <= k < |c| ==> c[k] in path
    decreases |path|
  {
    if path != [] {
      if path[0] == SLASH {
        SplitComponents(path[1..]);
      } else {
        var n := FirstLen(path);
        SplitComponents(path[n..]);
        assert forall k :: 0 <= k < |path[..n]| ==> path[..n][k] == path[k];
      }
    }
  }

  /** A path made of components. */
  function Join(names: seq<Name>): Name {
    if names == [] then [] else [SLASH] + names[0] + Join(names[1..])
  }

  /** Splitting a path made of components gives them back. */
  lemma {:induction false} SplitJoin(names: seq<Name>)
    requires AreComponents(names)
    ensures Split(Join(names)) == names
    decreases |names|
  {
    if names != [] {
      var c, rest := names[0], Join(names[1..]);
      SplitJoin(names[1..]);
      var p := c + rest;
      assert Join(names)[1..] == p;
      assert c in names && forall k :: 0 <= k < |c| ==> p[k] == c[k];
      assert rest != [] ==> p[|c|] == SLASH;
      FirstLenIs(p, |c|);
      assert p[..|c|] == c && p[|c|..] == rest;
    }
  }

  /** `subpath_len`. */
  method SubpathLen(path: Name, at: nat) returns (n: nat)
    requires at <= |path|
    ensures n == FirstLen(path[at..]) && at + n <= |path|
    ensures n == 0 <==> at == |path| || path[at] == SLASH
  {
    n := 0;
    while at + n < |path| && path[at + n] != SLASH
      invariant at + n <= |path| && forall k :: at <= k < at + n ==> path[k] != SLASH
    {
      n := n + 1;
    }
    FirstLenIs(path[at..], n);
  }

  /** `last_subpath_len`: the length of the first component if it is the last one. */
  method LastSubpathLen(path: Name, at: nat) returns (n: nat)
    requires at <= |path|
    ensures n == if Split(path[at + FirstLen(path[at..])..]) == [] then FirstLen(path[at..]) else 0
  {
    n := SubpathLen(path, at);
    if n == 0 {
      return;
    }
    var i := SkipSlashes(path, at + n);
    if i < |path| {
      n := 0;
    }
  }

  /** The loop that skips slashes, in `last_subpath_len` and in `follow_path`. */
  method SkipSlashes(path: Name, at: nat) returns (i: nat)
    requires at <= |path|
    ensures at <= i <= |path| && Split(path[i..]) == Split(path[at..])
    ensures i < |path| ==> path[i] != SLASH
    ensures i == |path| <==> Split(path[at..]) == []
  {
    i := at;
    while i < |path| && path[i] == SLASH
      invariant at <= i <= |path| && Split(path[i..]) == Split(path[at..])
    {
      assert path[i..][1..] == path[i + 1..];
      i := i + 1;
    }
  }

  /** The first component and what follows it. */
  lemma SplitFirst(path: Name, at: nat, n: nat)
    requires at < |path| && path[at] != SLASH && n == FirstLen(path[at..])
    ensures 0 < n <= |path| - at
    ensures Split(path[at..]) == [path[at..at + n]] + Split(path[at + n..])
  {
    assert path[at..][..n] == path[at..at + n] && path[at..][n..] == path[at + n..];
  }

  // ---------- what a path names ----------

  datatype Resolution = TheRoot | Entry(dir: nat, item: Item) | NotDirectory | NoEntry(dir: nat, rest: seq<Name>)

  /** What a search finds is no dot entry, and if it is marked as a directory, it is one. */
  lemma FoundItem(root: nat, tree: Tree, d: nat, name: Name)
    requires IsTree(root, tree) && d in tree.items
    ensures var r := Find(tree.items[d], name);
            r.Hit? ==> !IsDot(r.item) && r.item in tree.items[d] && (IsDir(r.item) ==> Head(r.item) in tree.items)
  {
    hide EntryIn, Dotted, SfnName;
    SfnNameLive(name);
    var r := Find(tree.items[d], name);
    if r.Hit? {
      assert Accounted(tree, d, r.item);
      if r.item.long.NoLong? {
        assert r.item.sfn[..11][0] == r.item.sfn[0];
      }
    }
  }

  /** Following components from a directory: each is looked up in the directory that the one before it names. */
  ghost function Walk(root: nat, tree: Tree, d: nat, names: seq<Name>): (r: Resolution)
    requires IsTree(root, tree) && d in tree.items && names != []
    decreases |names|
  {
    FoundItem(root, tree, d, names[0]);
    match Find(tree.items[d], names[0])
    case Missing => NoEntry(d, names)
    case Hit(item) =>
      if |names| == 1 then Entry(d, item)
      else if !IsDir(item) then NotDirectory
      else Walk(root, tree, Head(item), names[1..])
  }

  /** What a path's components name. */
  ghost function Resolve(root: nat, tree: Tree, names: seq<Name>): Resolution
    requires IsTree(root, tree)
  {
    if names == [] then TheRoot else Walk(root, tree, root, names)
  }

  /** A single component is looked up. */
  lemma WalkOne(root: nat, tree: Tree, d: nat, c: Name)
    requires IsTree(root, tree) && d in tree.items
    ensures Walk(root, tree, d, [c]) ==
              match Find(tree.items[d], c) case Missing => NoEntry(d, [c]) case Hit(item) => Entry(d, item)
  {
    hide IsTree, Find;
    FoundItem(root, tree, d, c);
  }

  /** Walking is a fold: from a directory, a path goes on as from there; a file ends it as a path that is none; and what
      is behind a missing component is missing with it. */
  lemma {:induction false} WalkOn(root: nat, tree: Tree, d: nat, a: seq<Name>, b: seq<Name>)
    requires IsTree(root, tree) && d in tree.items && a != [] && b != []
    ensures match Walk(root, tree, d, a)
            case Entry(_, item) =>
              if IsDir(item) then
                Head(item) in tree.items && Walk(root, tree, d, a + b) == Walk(root, tree, Head(item), b)
              else Walk(root, tree, d, a + b) == NotDirectory
            case NoEntry(k, rest) => Walk(root, tree, d, a + b) == NoEntry(k, rest + b)
            case NotDirectory => Walk(root, tree, d, a + b) == NotDirectory
            case TheRoot => false
    decreases |a|
  {
    hide IsTree, Find, IsDir;
    FoundItem(root, tree, d, a[0]);
    assert (a + b)[0] == a[0];
    var r := Find(tree.items[d], a[0]);
    if |a| == 1 {
      assert (a + b)[1..] == b;
    } else {
      assert (a + b)[1..] == a[1..] + b;
      if r.Hit? && IsDir(r.item) {
        WalkOn(root, tree, Head(r.item), a[1..], b);
      }
    }
  }

  /** A path found in the tree names an item of one of its directories; a path that is not found stops in one. */
  lemma {:induction false} WalkEnds(root: nat, tree: Tree, d: nat, names: seq<Name>)
    requires IsTree(root, tree) && d in tree.items && names != []
    ensures match Walk(root, tree, d, names)
            case TheRoot => false
            case Entry(k, item) =>
              k in tree.items && item in tree.items[k] && !IsDot(item) && item.Matches(names[|names| - 1])
            case NotDirectory => true
            case NoEntry(k, rest) =>
              && k in tree.items && rest != [] && |rest| <= |names| && rest == names[|names| - |rest|..]
              && Find(tree.items[k], rest[0]).Missing?
    decreases |names|
  {
    hide IsTree, IsDot, IsDir;
    FoundItem(root, tree, d, names[0]);
    var r := Find(tree.items[d], names[0]);
    if r.Hit? && |names| > 1 && IsDir(r.item) {
      WalkEnds(root, tree, Head(r.item), names[1..]);
      var w := Walk(root, tree, Head(r.item), names[1..]);
      if w.NoEntry? {
        assert names[1..][|names| - 1 - |w.rest|..] == names[|names| - |w.rest|..];
      }
    }
  }
}
