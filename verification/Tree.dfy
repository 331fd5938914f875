/** The user's files as a tree of directories: what an erase leaves of it. */
module Trees {
  import opened Protocol
  import opened Server

  /** A location below the user's root, name by name; the root itself is []. */
  type Location = seq<Bytes>

  datatype Tree = Tree(files: map<Location, Bytes>, dirs: set<Location>)

  function Parent(at: Location): Location
    requires at != []
  {
    at[..|at| - 1]
  }

  predicate Exists(t: Tree, at: Location) {
    at in t.files || at in t.dirs
  }

  ghost predicate WellFormed(t: Tree) {
    && [] in t.dirs
    && t.files.Keys !! t.dirs
    && forall x | Exists(t, x) && x != [] :: Parent(x) in t.dirs
  }

  predicate HasChild(t: Tree, at: Location) {
    (exists x | x in t.files :: x != [] && Parent(x) == at) || (exists x | x in t.dirs :: x != [] && Parent(x) == at)
  }

  /** The test for an empty file or directory; None when there is neither. */
  function EmptyAt(t: Tree, at: Location): Option<bool> {
    if at in t.dirs then Some(!HasChild(t, at))
    else if at in t.files then Some(t.files[at] == [])
    else None
  }

  /** Removes a file or an empty directory. That nothing is there is no error. */
  function RemoveAt(t: Tree, at: Location): Option<Tree> {
    if at in t.dirs then if HasChild(t, at) then None else Some(t.(dirs := t.dirs - {at}))
    else Some(t.(files := t.files - {at}))
  }

  /** Removes `at` if it is empty, then its parent if that is empty by now, and so on up to the
      root, which stays. */
  function Prune(t: Tree, at: Location): Tree
    decreases |at|
  {
    if at == [] || EmptyAt(t, at) != Some(true) then t
    else Prune(RemoveAt(t, at).value, Parent(at))
  }

  /** What an erase makes of the tree; false when the removal fails. */
  function Erase(t: Tree, path: Location): (Tree, bool)
    requires path != []
  {
    match RemoveAt(t, path)
    case None => (t, false)
    case Some(removed) => (Prune(removed, Parent(path)), true)
  }

  /** The tree on the disk. */
  class Root {
    var tree: Tree

    constructor (tree: Tree)
      ensures this.tree == tree
    {
      this.tree := tree;
    }

    method Remove(at: Location) returns (ok: bool)
      modifies this
      ensures ok == RemoveAt(old(tree), at).Some?
      ensures tree == if ok then RemoveAt(old(tree), at).value else old(tree)
    {
      if at in tree.dirs {
        if HasChild(tree, at) {
          return false;
        }
        tree := Tree(tree.files, tree.dirs - {at});
      } else {
        tree := Tree(tree.files - {at}, tree.dirs);
      }
      return true;
    }

    /** Deletes a file and then all the directories on its way that have become empty; the loop
        ends because every round moves one level up. */
    method EraseAndCleanUp(path: Location) returns (ok: bool)
      requires path != []
      modifies this
      ensures (tree, ok) == Erase(old(tree), path)
    {
      ok := Remove(path);
      if !ok {
        return;
      }
      var at := Parent(path);
      while at != [] && EmptyAt(tree, at) == Some(true)
        invariant Prune(tree, at) == Erase(old(tree), path).0
        decreases |at|
      {
        var removed := Remove(at);
        at := Parent(at);
      }
    }
  }

  // ---- What is removed ---------------------------------------------------------------

  lemma {:induction false} AncestorsAreDirs(t: Tree, x: Location, k: nat)
    requires WellFormed(t) && Exists(t, x) && k < |x|
    ensures x[..k] in t.dirs
    decreases |x|
  {
    if k < |x| - 1 {
      AncestorsAreDirs(t, Parent(x), k);
      assert Parent(x)[..k] == x[..k];
    }
  }

  /** Everything strictly below `d` lies on the way to `at`. */
  ghost predicate OnlyLeadsTo(t: Tree, d: Location, at: Location) {
    forall x | Exists(t, x) && d < x :: x <= at
  }

  lemma EmptyHasNothingBelow(t: Tree, at: Location, x: Location)
    requires WellFormed(t) && Exists(t, x) && at < x
    ensures HasChild(t, at)
  {
    var child := x[..|at| + 1];
    if |at| + 1 < |x| {
      AncestorsAreDirs(t, x, |at| + 1);
    } else {
      assert child == x;
    }
    assert child != [] && Parent(child) == at && Exists(t, child);
  }

  lemma NothingBelow(t: Tree, at: Location)
    requires WellFormed(t) && (at !in t.dirs || !HasChild(t, at))
    ensures forall x | Exists(t, x) :: !(at < x)
  {
    forall x | Exists(t, x) ensures !(at < x) {
      if at < x {
        AncestorsAreDirs(t, x, |at|);
        assert x[..|at|] == at;
        if at in t.dirs {
          EmptyHasNothingBelow(t, at, x);
        }
      }
    }
  }

  lemma PrefixOfParent(x: Location, at: Location)
    requires at != []
    ensures x <= at <==> x == at || x <= Parent(at)
  {
  }

  lemma RemovedDirIsWellFormed(t: Tree, at: Location)
    requires WellFormed(t) && at in t.dirs && at != [] && !HasChild(t, at)
    ensures WellFormed(t.(dirs := t.dirs - {at})) && Parent(at) in t.dirs - {at}
  {
    assert Exists(t, at);
  }

  lemma PruneStep(t: Tree, at: Location, d: Location)
    requires WellFormed(t) && at in t.dirs && at != [] && !HasChild(t, at)
    requires d != [] && d <= at
    ensures OnlyLeadsTo(t, at, at)
    ensures d != at ==>
              (d <= Parent(at) && (OnlyLeadsTo(t.(dirs := t.dirs - {at}), d, Parent(at)) <==> OnlyLeadsTo(t, d, at)))
  {
    var t' := t.(dirs := t.dirs - {at});
    NothingBelow(t, at);
    if d != at {
      forall x | Exists(t, x) ensures x <= at <==> x == at || x <= Parent(at) {
        PrefixOfParent(x, at);
      }
      assert forall x :: Exists(t', x) <==> Exists(t, x) && x != at by {
        RemovedDirIsWellFormed(t, at);
      }
    }
  }

  /** The pruning removes exactly the directories up to `at` that hold nothing but the way there. */
  lemma {:induction false} PruneExact(t: Tree, at: Location)
    requires WellFormed(t) && at in t.dirs
    ensures var r := Prune(t, at);
            && WellFormed(r) && r.files == t.files
            && forall d :: d in r.dirs <==> d in t.dirs && !(d != [] && d <= at && OnlyLeadsTo(t, d, at))
    decreases |at|
  {
    var r := Prune(t, at);
    if at != [] && HasChild(t, at) {
      var x :| Exists(t, x) && x != [] && Parent(x) == at;
      forall d | d <= at ensures !OnlyLeadsTo(t, d, at) {
        assert d < x && !(x <= at);
      }
    } else if at != [] {
      var t' := t.(dirs := t.dirs - {at});
      RemovedDirIsWellFormed(t, at);
      PruneExact(t', Parent(at));
      forall d ensures d in r.dirs <==> d in t.dirs && !(d != [] && d <= at && OnlyLeadsTo(t, d, at)) {
        if d != [] && d <= at {
          PruneStep(t, at, d);
        }
      }
    }
  }

  lemma RemovedFileIsWellFormed(t: Tree, path: Location)
    requires WellFormed(t) && path in t.files
    ensures WellFormed(t.(files := t.files - {path})) && path != [] && Parent(path) in t.dirs
  {
    assert Exists(t, path);
  }

  /** Exactly what the erase of a file does: the file goes, no other does, and of the directories
      exactly those go that are on its way, below the root, and held nothing but the way to it. */
  lemma EraseExact(t: Tree, path: Location)
    requires WellFormed(t) && path in t.files
    ensures path != []
    ensures var (r, ok) := Erase(t, path);
            && ok && WellFormed(r) && r.files == t.files - {path}
            && forall d :: d in r.dirs <==> d in t.dirs && !(d != [] && d < path && OnlyLeadsTo(t, d, path))
  {
    var t' := t.(files := t.files - {path});
    RemovedFileIsWellFormed(t, path);
    PruneExact(t', Parent(path));
    var r := Erase(t, path).0;
    assert r == Prune(t', Parent(path));
    forall d ensures d in r.dirs <==> d in t.dirs && !(d != [] && d < path && OnlyLeadsTo(t, d, path)) {
      assert d < path <==> d <= Parent(path);
      if d < path {
        forall x | Exists(t, x) ensures x <= path <==> x == path || x <= Parent(path) {
          PrefixOfParent(x, path);
        }
        assert forall x :: Exists(t', x) <==> Exists(t, x) && x != path;
      }
    }
  }

  // ---- What that means ---------------------------------------------------------------

  /** No directory but the root is empty. */
  ghost predicate NoEmptyDirs(t: Tree) {
    forall d | d in t.dirs && d != [] :: HasChild(t, d)
  }

  lemma {:induction false} PrunedIsNotEmpty(t: Tree, at: Location, d: Location)
    requires WellFormed(t) && at in t.dirs && d in Prune(t, at).dirs && d != []
    requires d <= at || HasChild(t, d)
    ensures HasChild(Prune(t, at), d)
    decreases |at|
  {
    if at != [] && !HasChild(t, at) {
      var t' := t.(dirs := t.dirs - {at});
      RemovedDirIsWellFormed(t, at);
      PruneExact(t', Parent(at));
      if !(d <= Parent(at)) {
        assert d != at;
        var x :| Exists(t, x) && x != [] && Parent(x) == d;
        assert x != at && Exists(t', x);
      }
      PrunedIsNotEmpty(t', Parent(at), d);
    } else if d < at {
      EmptyHasNothingBelow(t, d, at);
    }
  }

  /** After an erase every directory on the way of the file that is still there holds something,
      and a tree without empty directories stays one. */
  lemma EraseLeavesNoEmptyDirs(t: Tree, path: Location)
    requires WellFormed(t) && path in t.files
    ensures path != []
    ensures var r := Erase(t, path).0;
            && [] in r.dirs
            && (forall d | d in r.dirs && d != [] && d < path :: HasChild(r, d))
            && (NoEmptyDirs(t) ==> NoEmptyDirs(r))
  {
    var t' := t.(files := t.files - {path});
    RemovedFileIsWellFormed(t, path);
    PruneExact(t', Parent(path));
    var r := Prune(t', Parent(path));
    forall d | d in r.dirs && d != [] && (d < path || NoEmptyDirs(t)) ensures HasChild(r, d) {
      if !(d < path) {
        var x :| Exists(t, x) && x != [] && Parent(x) == d;
        assert x != path && Exists(t', x);
      }
      PrunedIsNotEmpty(t', Parent(path), d);
    }
  }

  // ---- Creating and erasing ----------------------------------------------------------

  /** What a create makes of the tree once the directories on the way of the file are there. */
  function Place(t: Tree, path: Location, content: Bytes): Tree
    requires path != []
  {
    Tree(t.files[path := content], t.dirs + set k | 0 <= k < |path| :: path[..k])
  }

  /** There is room for a new file: nothing is at its place, no file is in its way. */
  ghost predicate Free(t: Tree, path: Location) {
    path != [] && !Exists(t, path) && forall k | 0 <= k < |path| :: path[..k] !in t.files
  }

  lemma PlaceIsWellFormed(t: Tree, path: Location, content: Bytes)
    requires WellFormed(t) && Free(t, path)
    ensures WellFormed(Place(t, path, content))
  {
    var r := Place(t, path, content);
    forall x | Exists(r, x) && x != [] ensures Parent(x) in r.dirs {
      if !Exists(t, x) {
        assert x <= path;
        assert Parent(x) == path[..|x| - 1];
      }
    }
    assert path[..0] == [];
  }

  lemma PlaceThenRemove(t: Tree, path: Location, content: Bytes)
    requires Free(t, path)
    ensures RemoveAt(Place(t, path, content), path) == Some(Place(t, path, content).(files := t.files))
    ensures path in Place(t, path, content).files
  {
    assert Place(t, path, content).files - {path} == t.files;
  }

  /** A create is undone by the erase of the file, directories included, in every tree without
      empty directories. */
  lemma EraseUndoesPlace(t: Tree, path: Location, content: Bytes)
    requires WellFormed(t) && NoEmptyDirs(t) && Free(t, path)
    ensures Erase(Place(t, path, content), path) == (t, true)
  {
    hide Place, WellFormed, NoEmptyDirs, OnlyLeadsTo, Erase;
    var placed := Place(t, path, content);
    PlaceIsWellFormed(t, path, content);
    PlaceThenRemove(t, path, content);
    EraseExact(placed, path);
    forall d: Location ensures d in Erase(placed, path).0.dirs <==> d in t.dirs {
      PlacedDirs(t, path, content, d);
    }
    assert Erase(placed, path).0.dirs == t.dirs;
    assert placed.files - {path} == t.files by {
      assert RemoveAt(placed, path).value.files == placed.files - {path};
    }
  }

  lemma PlacedDirs(t: Tree, path: Location, content: Bytes, d: Location)
    requires WellFormed(t) && NoEmptyDirs(t) && Free(t, path)
    ensures var placed := Place(t, path, content);
            d in placed.dirs && !(d != [] && d < path && OnlyLeadsTo(placed, d, path)) <==> d in t.dirs
  {
    var placed := Place(t, path, content);
    if d in t.dirs && d != [] && d < path {
      var x := SomethingElseBelow(t, path, d);
      assert Exists(placed, x);
    }
    if d in placed.dirs && d !in t.dirs {
      NothingBelow(t, d);
      assert d < path;
      assert forall x | Exists(placed, x) && !Exists(t, x) :: x <= path;
    }
  }

  /** Below a directory on the way to a free place there is something that is not on the way. */
  lemma {:induction false} SomethingElseBelow(t: Tree, path: Location, d: Location) returns (x: Location)
    requires WellFormed(t) && NoEmptyDirs(t) && Free(t, path) && d in t.dirs && d != [] && d < path
    ensures Exists(t, x) && d < x && !(x <= path)
    decreases |path| - |d|
  {
    x :| Exists(t, x) && x != [] && Parent(x) == d;
    assert x[..|d|] == d;
    if x <= path {
      assert x == path[..|x|] && x != path;
      x := SomethingElseBelow(t, path, x);
    }
  }

  /** The removal of a create that failed has no such cleanup: the tree is as before exactly when
      the directory of the file was there before. */
  lemma FailedCreate(t: Tree, path: Location, content: Bytes)
    requires WellFormed(t) && Free(t, path)
    ensures RemoveAt(Place(t, path, content), path) == Some(t) <==> Parent(path) in t.dirs
  {
    var placed := Place(t, path, content);
    assert placed.files - {path} == t.files;
    assert path !in placed.dirs;
    assert Parent(path) == path[..|path| - 1];
    if Parent(path) in t.dirs {
      forall k | 0 <= k < |path| ensures path[..k] in t.dirs {
        if k < |path| - 1 {
          AncestorsAreDirs(t, Parent(path), k);
          assert Parent(path)[..k] == path[..k];
        }
      }
      assert placed.dirs == t.dirs;
    }
  }

  // ---- The tree and the session ------------------------------------------------------

  const SEPARATOR: byte := 47

  function ToPath(at: Location): Path {
    if at == [] then [] else ToPath(Parent(at)) + [SEPARATOR] + at[|at| - 1]
  }

  /** Names have no separator in them. */
  ghost predicate Plain(at: Location) {
    forall name | name in at :: SEPARATOR !in name
  }

  lemma LastSeparator(a: Path, n: Bytes, b: Path, m: Bytes)
    requires SEPARATOR !in n && SEPARATOR !in m && a + [SEPARATOR] + n == b + [SEPARATOR] + m
    ensures a == b && n == m
  {
    var s := a + [SEPARATOR] + n;
    assert s[|a|] == SEPARATOR && s[|b|] == SEPARATOR;
    assert |a| == |b|;
    assert a == s[..|a|] && b == s[..|b|] && n == s[|a| + 1..] && m == s[|b| + 1..];
  }

  lemma {:induction false} PathsAreUnique(a: Location, b: Location)
    requires Plain(a) && Plain(b)
    ensures ToPath(a) == ToPath(b) <==> a == b
  {
    if a != [] && b != [] && ToPath(a) == ToPath(b) {
      var n, m := a[|a| - 1], b[|b| - 1];
      LastSeparator(ToPath(Parent(a)), n, ToPath(Parent(b)), m);
      PathsAreUnique(Parent(a), Parent(b));
      assert a == Parent(a) + [n] && b == Parent(b) + [m];
    }
  }

  /** The session's view of the disk: the files of the tree, by path. */
  ghost predicate Shows(t: Tree, disk: map<Path, Bytes>) {
    && (forall at | at in t.files :: Plain(at) && ToPath(at) in disk && disk[ToPath(at)] == t.files[at])
    && (forall p | p in disk :: exists at :: at in t.files && ToPath(at) == p)
  }

  /** An accepted erase, cleanup included, is what the session's view of the disk says it is. */
  lemma EraseIsShown(t: Tree, s: State, path: Location, digest: Bytes)
    requires WellFormed(t) && path in t.files && Shows(t, s.disk)
    requires ToPath(path) in s.entries && s.entries[ToPath(path)].digest == digest
    ensures path != [] && EraseFile(s, ToPath(path), digest).1 == ERR_NONE
    ensures Shows(Erase(t, path).0, EraseFile(s, ToPath(path), digest).0.disk)
  {
    EraseExact(t, path);
    var r, disk := Erase(t, path).0, EraseFile(s, ToPath(path), digest).0.disk;
    assert disk == s.disk - {ToPath(path)};
    hide WellFormed, Erase, EraseFile, ToPath, OnlyLeadsTo, Plain;
    forall at | at in r.files
      ensures Plain(at) && ToPath(at) in disk && disk[ToPath(at)] == r.files[at]
    {
      PathsAreUnique(at, path);
    }
    forall p | p in disk ensures exists at :: at in r.files && ToPath(at) == p {
      var at :| at in t.files && ToPath(at) == p;
      assert at in r.files;
    }
  }
}
