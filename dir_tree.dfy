/**
  * The part of the file system `cleanup` changes: the directories and files below the
  * destination roots. `prune_empty_dirs` walks from a path's parent upwards and removes
  * empty directories until it reaches the root, a missing or non-empty directory, or one
  * it cannot remove.
  */
module DirTree {
  import opened Paths

  /** `c` is an entry directly inside directory `d`. */
  predicate IsChild(c: Path, d: Path) {
    |c| > 0 && Parent(c) == d
  }

  /** `any(d.iterdir())`. */
  predicate HasEntry(dirs: set<Path>, files: set<Path>, d: Path) {
    exists c :: c in dirs + files && IsChild(c, d)
  }

  /**
    * The directories left by `prune_empty_dirs` when its walk is at `p`. The walk stops at
    * `root`, at a path that is not a directory (missing, or a file, where listing it fails),
    * at a directory in `locked` (listing or removing it fails) and at a non-empty directory;
    * otherwise it removes `p` and goes on with `p.parent`. The parent of "/" is "/" itself,
    * so the walk ends there once "/" is gone.
    */
  function Prune(dirs: set<Path>, files: set<Path>, locked: set<Path>, p: Path, root: Path): (r: set<Path>)
    ensures r <= dirs
    decreases |p|, if p in dirs then 1 else 0
  {
    if p == root || p !in dirs || p in locked || HasEntry(dirs, files, p) then dirs
    else Prune(dirs - {p}, files, locked, Parent(p), root)
  }

  /** A directory the walk may remove once the directories in `gone` are gone. */
  predicate Removable(dirs: set<Path>, files: set<Path>, locked: set<Path>, root: Path, d: Path, gone: set<Path>) {
    && d != root && d in dirs && d !in locked
    && (forall c :: c in files ==> !IsChild(c, d))
    && (forall c :: c in dirs && IsChild(c, d) ==> c in gone)
  }

  lemma PrefixOfParent(e: Path, p: Path)
    requires IsPrefix(e, p) && e != p
    ensures IsPrefix(e, Parent(p))
  {
    assert p[..|p| - 1][..|e|] == p[..|e|];
  }

  /**
    * What `prune_empty_dirs` removes, walking up from `p`: only ancestors of `p` (itself
    * included) and never `root`; each of them removable, having held no file and no
    * directory other than ones removed too; and together a contiguous chain up from `p`.
    */
  lemma {:induction false} PruneRemovesChain(dirs: set<Path>, files: set<Path>, locked: set<Path>, p: Path, root: Path)
    ensures var gone := dirs - Prune(dirs, files, locked, p, root);
            && (forall d :: d in gone ==> IsPrefix(d, p) && Removable(dirs, files, locked, root, d, gone))
            && (forall d, e :: d in gone && IsPrefix(d, e) && IsPrefix(e, p) ==> e in gone)
    decreases |p|, if p in dirs then 1 else 0
  {
    if p == root || p !in dirs || p in locked || HasEntry(dirs, files, p) {
    } else {
      var dirs' := dirs - {p};
      PruneRemovesChain(dirs', files, locked, Parent(p), root);
      var gone' := dirs' - Prune(dirs', files, locked, Parent(p), root);
      var gone := dirs - Prune(dirs, files, locked, p, root);
      assert gone == gone' + {p};
      forall d | d in gone
        ensures IsPrefix(d, p) && Removable(dirs, files, locked, root, d, gone)
      {
        if d != p {
          assert IsPrefix(d, Parent(p)) && Removable(dirs', files, locked, root, d, gone');
          assert p[..|Parent(p)|] == Parent(p);
        } else {
          forall c | c in dirs + files
            ensures !IsChild(c, p)
          {
          }
        }
      }
      forall d, e | d in gone && IsPrefix(d, e) && IsPrefix(e, p)
        ensures e in gone
      {
        if e != p {
          PrefixOfParent(e, p);
        }
      }
    }
  }

  /**
    * Where `prune_empty_dirs` stops: when it removes nothing, the first directory it looked
    * at is not removable; otherwise the parent of the topmost removed directory is not.
    */
  lemma {:induction false} PruneStops(dirs: set<Path>, files: set<Path>, locked: set<Path>, p: Path, root: Path)
    ensures var gone := dirs - Prune(dirs, files, locked, p, root);
            && (p !in gone ==> !Removable(dirs, files, locked, root, p, gone))
            && (forall d :: d in gone && |d| > 0 && Parent(d) !in gone ==>
                  !Removable(dirs, files, locked, root, Parent(d), gone))
    decreases |p|, if p in dirs then 1 else 0
  {
    var gone := dirs - Prune(dirs, files, locked, p, root);
    if p == root || p !in dirs || p in locked || HasEntry(dirs, files, p) {
      if HasEntry(dirs, files, p) {
        var c :| c in dirs + files && IsChild(c, p);
      }
    } else {
      var dirs' := dirs - {p};
      PruneStops(dirs', files, locked, Parent(p), root);
      PruneRemovesChain(dirs', files, locked, Parent(p), root);
      var gone' := dirs' - Prune(dirs', files, locked, Parent(p), root);
      assert gone == gone' + {p};
      forall e | e !in gone && Removable(dirs, files, locked, root, e, gone)
        ensures Removable(dirs', files, locked, root, e, gone')
      {
      }
    }
  }

  /** Removing a chain of directories that held nothing but each other keeps every entry's parent in place. */
  lemma PruneKeepsParents(dirs: set<Path>, files: set<Path>, locked: set<Path>, p: Path, root: Path)
    requires forall q :: q in dirs + files && |q| > 0 ==> Parent(q) in dirs
    ensures var r := Prune(dirs, files, locked, p, root);
            forall q :: q in r + files && |q| > 0 ==> Parent(q) in r
  {
    var r := Prune(dirs, files, locked, p, root);
    forall q | q in r + files && |q| > 0
      ensures Parent(q) in r
    {
      if Parent(q) !in r {
        RemovedWasRemovable(dirs, files, locked, p, root, Parent(q));
        assert IsChild(q, Parent(q));
      }
    }
  }

  /** A directory the walk removed was removable, given everything the walk removed. */
  lemma RemovedWasRemovable(dirs: set<Path>, files: set<Path>, locked: set<Path>, p: Path, root: Path, d: Path)
    requires d in dirs - Prune(dirs, files, locked, p, root)
    ensures Removable(dirs, files, locked, root, d, dirs - Prune(dirs, files, locked, p, root))
  {
    PruneRemovesChain(dirs, files, locked, p, root);
  }

  /** The directories and files of the tree, as a value. */
  datatype Tree = Tree(dirs: set<Path>, files: set<Path>)

  /** The proper ancestors of `p`, "/" included. */
  function Ancestors(p: Path): (r: set<Path>)
    ensures forall a :: a in r <==> IsPrefix(a, p) && a != p
  {
    var r := set i | 0 <= i < |p| :: p[..i];
    assert forall a :: IsPrefix(a, p) && a != p ==> a == p[..|a|];
    r
  }

  /** The ancestors of `p` hold the parent of each of them, and the parent of `p`. */
  lemma AncestorsClosed(p: Path)
    ensures |p| > 0 ==> Parent(p) in Ancestors(p)
    ensures forall a :: a in Ancestors(p) && |a| > 0 ==> Parent(a) in Ancestors(p)
  {
    forall a | a in Ancestors(p) && |a| > 0
      ensures Parent(a) in Ancestors(p)
    {
      assert p[..|a| - 1] == a[..|a| - 1];
    }
  }

  /**
    * `apply_file_action` cannot put anything at `dest`: a directory is there (the link is
    * not made and the move fails), or an ancestor is a file (creating the parent or the
    * entry fails).
    */
  predicate Blocked(tr: Tree, dest: Path) {
    dest in tr.dirs || !(Ancestors(dest) !! tr.files)
  }

  /**
    * The tree after `apply_file_action(from, dest, moved)`: the missing ancestors of `dest`
    * are created and `dest` becomes a link, or the moved file itself, which leaves `from`.
    * A blocked destination leaves the tree as it was.
    */
  function Placed(tr: Tree, from: Path, dest: Path, moved: bool): (r: Tree)
    ensures Blocked(tr, dest) ==> r == tr
    ensures !Blocked(tr, dest) ==> dest in r.files
    ensures !Blocked(tr, dest) ==> forall d :: d in r.dirs <==> d in tr.dirs || (IsPrefix(d, dest) && d != dest)
    ensures forall f :: f != dest ==> (f in r.files <==> f in tr.files && !(moved && f == from && !Blocked(tr, dest)))
  {
    if Blocked(tr, dest) then tr
    else Tree(tr.dirs + Ancestors(dest), (if moved then tr.files - {from} else tr.files) + {dest})
  }

  /** A directory that holds a file is never pruned. */
  lemma PruneKeepsHolders(dirs: set<Path>, files: set<Path>, locked: set<Path>, p: Path, root: Path, f: Path)
    requires f in files && |f| > 0 && Parent(f) in dirs
    ensures Parent(f) in Prune(dirs, files, locked, p, root)
  {
    if Parent(f) !in Prune(dirs, files, locked, p, root) {
      RemovedWasRemovable(dirs, files, locked, p, root, Parent(f));
      assert IsChild(f, Parent(f));
    }
  }

  /**
    * The directories and files below the roots `cleanup` works in, with `locked` the
    * directories whose listing or removal fails with an `OSError`.
    */
  class FileSystem {
    var dirs: set<Path>
    var files: set<Path>
    var locked: set<Path>

    /** No path is both a directory and a file, and every entry's parent is a directory. */
    ghost predicate Valid()
      reads this
    {
      && dirs !! files
      && (forall q :: q in dirs + files && |q| > 0 ==> Parent(q) in dirs)
    }

    constructor (dirs: set<Path>, files: set<Path>, locked: set<Path>)
      requires dirs !! files
      requires forall q :: q in dirs + files && |q| > 0 ==> Parent(q) in dirs
      ensures Valid()
      ensures this.dirs == dirs && this.files == files && this.locked == locked
    {
      this.dirs := dirs;
      this.files := files;
      this.locked := locked;
    }

    /** `unlink(missing_ok=True)` on a path that is a file, a link or nothing. */
    method Unlink(p: Path)
      requires Valid()
      modifies this
      ensures Valid()
      ensures files == old(files) - {p} && dirs == old(dirs) && locked == old(locked)
    {
      files := files - {p};
    }

    /** `apply_file_action(from, dest, moved)` on the tree. */
    method Place(from: Path, dest: Path, moved: bool)
      requires Valid()
      modifies this
      ensures Valid() && locked == old(locked)
      ensures Tree(dirs, files) == Placed(Tree(old(dirs), old(files)), from, dest, moved)
    {
      if Blocked(Tree(dirs, files), dest) {
        return;
      }
      AncestorsClosed(dest);
      dirs := dirs + Ancestors(dest);
      if moved {
        files := files - {from};
      }
      files := files + {dest};
    }

    /** `prune_empty_dirs(leaf, root)`. */
    method PruneEmptyDirs(leaf: Path, root: Path)
      requires Valid()
      modifies this
      ensures Valid()
      ensures dirs == Prune(old(dirs), files, locked, Parent(leaf), root)
      ensures files == old(files) && locked == old(locked)
    {
      PruneKeepsParents(dirs, files, locked, Parent(leaf), root);
      var parent := Parent(leaf);
      while parent != root && parent in dirs + files
        invariant files == old(files) && locked == old(locked) && dirs <= old(dirs)
        invariant Prune(dirs, files, locked, parent, root) == Prune(old(dirs), files, locked, Parent(leaf), root)
        decreases |parent|, if parent in dirs then 1 else 0
      {
        if parent in files || parent in locked {
          break;
        }
        if HasEntry(dirs, files, parent) {
          break;
        }
        dirs := dirs - {parent};
        parent := Parent(parent);
      }
    }
  }

  /**
    * `prune_empty_dirs` from a leaf below `root` never removes `root`, the leaf, or
    * anything outside `root`: every removed directory lies strictly between them.
    */
  lemma PruneBelowRoot(dirs: set<Path>, files: set<Path>, locked: set<Path>, leaf: Path, root: Path)
    requires IsPrefix(root, leaf) && leaf != root
    ensures forall d :: d in dirs - Prune(dirs, files, locked, Parent(leaf), root) ==>
              IsPrefix(root, d) && d != root && IsPrefix(d, leaf) && d != leaf
  {
    PruneRemovesChain(dirs, files, locked, Parent(leaf), root);
    PrefixOfParent(root, leaf);
    PruneWithin(dirs, files, locked, Parent(leaf), root);
    forall d | d in dirs - Prune(dirs, files, locked, Parent(leaf), root)
      ensures IsPrefix(d, leaf) && d != leaf
    {
      assert leaf[..|Parent(leaf)|] == Parent(leaf);
    }
  }

  /** A walk that starts at or below `root` never gets above it. */
  lemma {:induction false} PruneWithin(dirs: set<Path>, files: set<Path>, locked: set<Path>, p: Path, root: Path)
    requires IsPrefix(root, p)
    ensures forall d :: d in dirs - Prune(dirs, files, locked, p, root) ==> IsPrefix(root, d) && d != root
    decreases |p|, if p in dirs then 1 else 0
  {
    if p == root || p !in dirs || p in locked || HasEntry(dirs, files, p) {
    } else {
      PrefixOfParent(root, p);
      PruneWithin(dirs - {p}, files, locked, Parent(p), root);
      assert dirs - Prune(dirs, files, locked, p, root)
          == (dirs - {p}) - Prune(dirs - {p}, files, locked, Parent(p), root) + {p};
    }
  }
}
