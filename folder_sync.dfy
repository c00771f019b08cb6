/**
  * The sync script's driver: the state store with the three transitions it runs on the
  * `files` table (`upsert_file_record`, `sync_source`, `cleanup`), the choice of sources in
  * `main`, and one run of `main` over the chosen sources followed by `cleanup`.
  */
module FolderSync {
  import opened Wrappers
  import opened Paths
  import opened Classify
  import opened StateDb
  import opened DirTree

  /** The SQLite state database, reduced to its `files` table. */
  class StateStore {
    var rows: Table

    /** `sqlite3.connect` then `init_db`: an existing table is kept as it is. */
    constructor Open(existing: Table)
      ensures rows == existing
    {
      rows := existing;
    }

    /**
      * `upsert_file_record`. `row` is what the caller read for `ap` just before, so it is
      * missing exactly when the table has no row for `ap`.
      */
    method UpsertFileRecord(row: Option<Stamp>, sname: string, stype: string, ap: Path, rp: Path,
                            mtime: int, size: int, now: int, quarantined: bool)
      requires row.None? <==> ap !in rows
      modifies this
      ensures rows == Upsert(old(rows), sname, stype, ap, rp, mtime, size, now, quarantined)
    {
      if row.None? {
        rows := rows[ap := FileRow(sname, stype, rp, mtime, size, true, false, now, quarantined)];
      } else {
        rows := rows[ap := rows[ap].(mtime := mtime, size := size, existsInSource := true,
                                     lastCheck := now, quarantined := quarantined)];
      }
    }

    /**
      * `sync_source`: reset the markers of the source, then for each observed entry act,
      * skip or only mark it. The table ends as `SyncResult` says, the file actions are
      * those of the entries acted on, in order, and each of them has been applied to `fs`.
      */
    method SyncSource(ctx: SyncCtx, obs: seq<Observation>, fs: FileSystem) returns (actions: seq<FileAction>)
      requires fs.Valid()
      modifies this, fs
      ensures fs.Valid() && fs.locked == old(fs.locked)
      ensures rows == SyncResult(old(rows), ctx, obs)
      ensures actions == Actions(ResetSource(old(rows), ctx.source.name), ctx, obs)
      ensures Tree(fs.dirs, fs.files) == PlaceAll(Tree(old(fs.dirs), old(fs.files)), actions)
    {
      var sname := ctx.source.name;
      rows := ResetSource(rows, sname);
      ghost var reset := rows;
      ghost var tree0 := Tree(fs.dirs, fs.files);
      actions := [];
      for i := 0 to |obs|
        invariant fs.Valid() && fs.locked == old(fs.locked)
        invariant rows == Run(reset, ctx, obs[..i])
        invariant actions == Actions(reset, ctx, obs[..i])
        invariant Tree(fs.dirs, fs.files) == PlaceAll(tree0, actions)
      {
        assert obs[..i + 1][..i] == obs[..i];
        var acted := SyncEntry(ctx, obs[i], fs);
        PlaceAllAppend(tree0, actions, acted);
        actions := actions + acted;
      }
      assert obs[..|obs|] == obs;
    }

    /**
      * The body of the loop of `cleanup` for one stale row: unlink its destination unless it
      * is quarantined, prune the emptied directories below its root, and touch the rows with
      * its source name and relative path.
      */
    method CleanupRow(fs: FileSystem, row: FileRow, now: int, destRoot: Path, quarantineRoot: Path)
      requires fs.Valid()
      modifies this, fs
      ensures fs.Valid()
      ensures rows == TouchFile(old(rows), row.sourceName, row.relativePath, now)
      ensures fs.files == old(fs.files) - (if row.quarantined then {} else {RowDest(row, destRoot, destRoot)})
      ensures fs.dirs <= old(fs.dirs) && fs.locked == old(fs.locked)
      ensures fs.dirs == Prune(old(fs.dirs), fs.files, fs.locked, Parent(RowDest(row, destRoot, quarantineRoot)),
                               RowRoot(row, destRoot, quarantineRoot))
      ensures forall d :: d in old(fs.dirs) - fs.dirs ==> PrunedFor(row, d, destRoot, quarantineRoot)
    {
      var root := RowRoot(row, destRoot, quarantineRoot);
      var dest := RowDest(row, destRoot, quarantineRoot);
      if !row.quarantined {
        fs.Unlink(dest);
      }
      ghost var dirsBefore := fs.dirs;
      fs.PruneEmptyDirs(dest, root);
      PruneBelowRoot(dirsBefore, fs.files, fs.locked, dest, root);
      rows := TouchFile(rows, row.sourceName, row.relativePath, now);
    }

    /**
      * One iteration of the loop of `sync_source` for an observed entry: a stable entry that
      * changed or whose destination is missing gets its row upserted, one file action and the
      * destination marker; an unstable one is skipped (the loop's `continue`); every entry
      * not skipped gets the source marker. The file action is applied to `fs` at once.
      */
    method SyncEntry(ctx: SyncCtx, o: Observation, fs: FileSystem) returns (acted: seq<FileAction>)
      requires fs.Valid()
      modifies this, fs
      ensures fs.Valid() && fs.locked == old(fs.locked)
      ensures rows == Step(old(rows), ctx, o)
      ensures acted == if Acts(old(rows), o) then [ActionFor(ctx, o.entry)] else []
      ensures Tree(fs.dirs, fs.files) == PlaceAll(Tree(old(fs.dirs), old(fs.files)), acted)
    {
      var e := o.entry;
      var row := Stored(rows, e.absPath);
      var changed := true;
      if row.Some? {
        changed := !(row.value.mtime == e.mtime && row.value.size == e.size);
      }
      assert changed == FileHasChanged(row, e.mtime, e.size);
      acted := [];
      if changed || !o.destExists {
        if !o.stable {
          assert Skipped(old(rows), o);
          return;
        }
        assert Acts(old(rows), o);
        var a := ActOn(ctx, o, row, fs);
        acted := [a];
        assert acted[..0] == [];
      } else {
        assert !Skipped(old(rows), o) && !Acts(old(rows), o);
      }
      MarkSeen(e.absPath);
    }

    /** `UPDATE files SET exists_in_source=1 WHERE source_path=?`. */
    method MarkSeen(ap: Path)
      modifies this
      ensures rows == MarkSource(old(rows), ap)
    {
      if ap in rows {
        rows := rows[ap := rows[ap].(existsInSource := true)];
      }
    }

    /**
      * The acting branch of the loop of `sync_source`: upsert the row, apply the file action
      * (link the destination, or move the file there when quarantined) and set the
      * destination marker.
      */
    method ActOn(ctx: SyncCtx, o: Observation, row: Option<Stamp>, fs: FileSystem) returns (a: FileAction)
      requires fs.Valid() && row == Stored(rows, o.entry.absPath)
      modifies this, fs
      ensures fs.Valid() && fs.locked == old(fs.locked)
      ensures a == ActionFor(ctx, o.entry)
      ensures rows == MarkDest(Upsert(old(rows), ctx.source.name, ctx.source.kind, o.entry.absPath, o.entry.relPath,
                                      o.entry.mtime, o.entry.size, o.clock, IsQuarantined(ctx, o.entry)), o.entry.absPath)
      ensures Tree(fs.dirs, fs.files) == Placed(Tree(old(fs.dirs), old(fs.files)), a.from, a.dest, a.quarantined)
    {
      var sname := ctx.source.name;
      var e := o.entry;
      var quarantined := FiletypeRestricted(ctx.media, ctx.source, e.absPath);
      var targetRoot := if quarantined then ctx.quarantineRoot else ctx.destRoot;
      var dest := targetRoot + [sname] + e.relPath;
      a := FileAction(e.absPath, dest, quarantined);
      assert a == ActionFor(ctx, e);
      UpsertFileRecord(row, sname, ctx.source.kind, e.absPath, e.relPath, e.mtime, e.size, o.clock, quarantined);
      fs.Place(a.from, a.dest, a.quarantined);
      MarkDestination(e.absPath);
    }

    /** `UPDATE files SET exists_in_dest=1 WHERE source_path=?`. */
    method MarkDestination(ap: Path)
      modifies this
      ensures rows == MarkDest(old(rows), ap)
    {
      if ap in rows {
        rows := rows[ap := rows[ap].(existsInDest := true)];
      }
    }

    /** The loop of `main` over the chosen sources: `sync_source` for each, in order. */
    method SyncSources(cfg: Config, sources: seq<SourceCfg>, gather: SourceCfg -> seq<Observation>, fs: FileSystem)
      returns (actions: seq<FileAction>)
      requires fs.Valid()
      modifies this, fs
      ensures fs.Valid() && fs.locked == old(fs.locked)
      ensures rows == SyncAll(old(rows), cfg, sources, gather)
      ensures actions == SyncAllActions(old(rows), cfg, sources, gather)
      ensures Tree(fs.dirs, fs.files) == PlaceAll(Tree(old(fs.dirs), old(fs.files)), actions)
    {
      ghost var tree0 := Tree(fs.dirs, fs.files);
      actions := [];
      for i := 0 to |sources|
        invariant fs.Valid() && fs.locked == old(fs.locked)
        invariant rows == SyncAll(old(rows), cfg, sources[..i], gather)
        invariant actions == SyncAllActions(old(rows), cfg, sources[..i], gather)
        invariant Tree(fs.dirs, fs.files) == PlaceAll(tree0, actions)
      {
        assert sources[..i + 1][..i] == sources[..i];
        var done := SyncSource(CtxFor(cfg, sources[i]), gather(sources[i]), fs);
        PlaceAllAppend(tree0, actions, done);
        actions := actions + done;
      }
      assert sources[..|sources|] == sources;
    }

    /**
      * `cleanup`: for every stale row, in whatever order the query returns them, unlink its
      * destination unless it is quarantined, prune the emptied directories below its root,
      * and touch the rows with its source name and relative path. The table ends as
      * `CleanupRows` says; exactly the destinations of the stale links are gone; every
      * directory removed lay strictly between a stale destination and its root; and the tree
      * is what handling the stale rows one by one, in the order `order` the loop took them,
      * makes of it.
      */
    method Cleanup(fs: FileSystem, now: int, destRoot: Path, quarantineRoot: Path) returns (ghost order: seq<Path>)
      requires fs.Valid()
      modifies this, fs
      ensures fs.Valid() && fs.locked == old(fs.locked)
      ensures rows == CleanupRows(old(rows), now)
      ensures fs.files == old(fs.files) - LinksOf(old(rows), StaleKeys(old(rows)), destRoot)
      ensures fs.dirs <= old(fs.dirs)
      ensures PrunedWithin(old(fs.dirs) - fs.dirs, old(rows), StaleKeys(old(rows)), destRoot, quarantineRoot)
      ensures multiset(order) == multiset(StaleKeys(old(rows)))
      ensures forall k :: k in order ==> k in old(rows)
      ensures Tree(fs.dirs, fs.files)
           == CleanedTree(Tree(old(fs.dirs), old(fs.files)), fs.locked, old(rows), order, destRoot, quarantineRoot)
    {
      var t0 := rows;
      ghost var files0, dirs0 := fs.files, fs.dirs;
      order := CleanupLoop(fs, t0, files0, dirs0, now, destRoot, quarantineRoot);
      CleanupEnds(t0, rows, files0, fs.files, dirs0, fs.dirs, now, destRoot, quarantineRoot);
    }

    /** The loop of `cleanup` over the stale rows of `t0`, taken in the order `order`. */
    method CleanupLoop(fs: FileSystem, t0: Table, ghost files0: set<Path>, ghost dirs0: set<Path>,
                       now: int, destRoot: Path, quarantineRoot: Path) returns (ghost order: seq<Path>)
      requires fs.Valid() && rows == t0 && fs.files == files0 && fs.dirs == dirs0
      modifies this, fs
      ensures fs.Valid() && fs.locked == old(fs.locked)
      ensures CleanedUpTo(t0, StaleKeys(t0), rows, files0, fs.files, dirs0, fs.dirs, now, destRoot, quarantineRoot)
      ensures VisitedInOrder(t0, StaleKeys(t0), order, Tree(dirs0, files0), Tree(fs.dirs, fs.files), fs.locked,
                             destRoot, quarantineRoot)
    {
      var pending := StaleKeys(t0);
      order := [];
      CleanupStarts(t0, fs.files, fs.dirs, now, destRoot, quarantineRoot);
      while pending != {}
        invariant pending <= StaleKeys(t0)
        invariant fs.Valid() && fs.locked == old(fs.locked)
        invariant CleanedUpTo(t0, StaleKeys(t0) - pending, rows, files0, fs.files, dirs0, fs.dirs, now, destRoot, quarantineRoot)
        invariant VisitedInOrder(t0, StaleKeys(t0) - pending, order, Tree(dirs0, files0), Tree(fs.dirs, fs.files), fs.locked,
                                 destRoot, quarantineRoot)
        decreases |pending|
      {
        pending, order := CleanupStep(fs, t0, pending, order, files0, dirs0, now, destRoot, quarantineRoot);
      }
    }

    /**
      * One iteration of the loop of `cleanup`: some pending stale row is handled and moves
      * from the pending rows to the end of the order.
      */
    method CleanupStep(fs: FileSystem, t0: Table, pending: set<Path>, ghost order: seq<Path>,
                       ghost files0: set<Path>, ghost dirs0: set<Path>, now: int, destRoot: Path, quarantineRoot: Path)
      returns (rest: set<Path>, ghost order': seq<Path>)
      requires fs.Valid() && pending != {} && pending <= StaleKeys(t0)
      requires CleanedUpTo(t0, StaleKeys(t0) - pending, rows, files0, fs.files, dirs0, fs.dirs, now, destRoot, quarantineRoot)
      requires VisitedInOrder(t0, StaleKeys(t0) - pending, order, Tree(dirs0, files0), Tree(fs.dirs, fs.files), fs.locked,
                              destRoot, quarantineRoot)
      modifies this, fs
      ensures fs.Valid() && fs.locked == old(fs.locked)
      ensures rest <= pending && |rest| < |pending|
      ensures CleanedUpTo(t0, StaleKeys(t0) - rest, rows, files0, fs.files, dirs0, fs.dirs, now, destRoot, quarantineRoot)
      ensures VisitedInOrder(t0, StaleKeys(t0) - rest, order', Tree(dirs0, files0), Tree(fs.dirs, fs.files), fs.locked,
                             destRoot, quarantineRoot)
    {
      var k :| k in pending;
      ghost var rowsBefore, filesBefore, dirsBefore := rows, fs.files, fs.dirs;
      CleanupRow(fs, t0[k], now, destRoot, quarantineRoot);
      CleanedOneMore(t0, pending, k, rowsBefore, rows, files0, filesBefore, fs.files, dirs0, dirsBefore, fs.dirs,
                     now, destRoot, quarantineRoot);
      assert Tree(fs.dirs, fs.files) == RowCleaned(Tree(dirsBefore, filesBefore), fs.locked, t0[k], destRoot, quarantineRoot);
      VisitedOneMore(t0, pending, order, k, Tree(dirs0, files0), Tree(dirsBefore, filesBefore), Tree(fs.dirs, fs.files),
                     fs.locked, destRoot, quarantineRoot);
      rest, order' := pending - {k}, order + [k];
    }
  }

  /**
    * What the loop of `cleanup` has done after handling the stale rows `done`: the rows of
    * `done` are touched, their links are gone, and only directories below them were pruned.
    */
  ghost predicate CleanedUpTo(t0: Table, done: set<Path>, rows: Table, files0: set<Path>, files: set<Path>,
                              dirs0: set<Path>, dirs: set<Path>, now: int, destRoot: Path, quarantineRoot: Path) {
    && rows == TouchAll(t0, done, now)
    && files == files0 - LinksOf(t0, done, destRoot)
    && dirs <= dirs0
    && PrunedWithin(dirs0 - dirs, t0, done, destRoot, quarantineRoot)
  }

  /**
    * The loop of `cleanup` has taken the stale rows `done` in the order `order`, each once,
    * and the tree is what handling them one by one in that order makes of `tree0`.
    */
  ghost predicate VisitedInOrder(t0: Table, done: set<Path>, order: seq<Path>, tree0: Tree, tree: Tree,
                                 locked: set<Path>, destRoot: Path, quarantineRoot: Path) {
    && multiset(order) == multiset(done)
    && (forall j :: j in order ==> j in t0)
    && tree == CleanedTree(tree0, locked, t0, order, destRoot, quarantineRoot)
  }

  /** Handling the pending stale row `k` as `CleanupRow` does extends what the loop of `cleanup` has done by `k`. */
  lemma CleanedOneMore(t0: Table, pending: set<Path>, k: Path, rows0: Table, rows1: Table,
                       files0: set<Path>, filesB: set<Path>, filesA: set<Path>,
                       dirs0: set<Path>, dirsB: set<Path>, dirsA: set<Path>,
                       now: int, destRoot: Path, quarantineRoot: Path)
    requires k in pending && pending <= StaleKeys(t0)
    requires CleanedUpTo(t0, StaleKeys(t0) - pending, rows0, files0, filesB, dirs0, dirsB, now, destRoot, quarantineRoot)
    requires rows1 == TouchFile(rows0, t0[k].sourceName, t0[k].relativePath, now)
    requires filesA == filesB - (if t0[k].quarantined then {} else {RowDest(t0[k], destRoot, destRoot)})
    requires dirsA <= dirsB
    requires forall d :: d in dirsB - dirsA ==> PrunedFor(t0[k], d, destRoot, quarantineRoot)
    ensures CleanedUpTo(t0, StaleKeys(t0) - (pending - {k}), rows1, files0, filesA, dirs0, dirsA, now, destRoot, quarantineRoot)
  {
    var done := StaleKeys(t0) - pending;
    MoveKey(StaleKeys(t0), pending, k);
    PrunedWithinStep(dirs0, dirsB, dirsA, t0, done, k, destRoot, quarantineRoot);
    TouchAllStep(t0, done, k, now);
    LinksStep(t0, done, k, destRoot);
  }

  /** Handling the pending stale row `k` appends it to the order and applies it to the tree. */
  lemma VisitedOneMore(t0: Table, pending: set<Path>, order: seq<Path>, k: Path, tree0: Tree, treeB: Tree, treeA: Tree,
                       locked: set<Path>, destRoot: Path, quarantineRoot: Path)
    requires k in pending && pending <= StaleKeys(t0)
    requires VisitedInOrder(t0, StaleKeys(t0) - pending, order, tree0, treeB, locked, destRoot, quarantineRoot)
    requires treeA == RowCleaned(treeB, locked, t0[k], destRoot, quarantineRoot)
    ensures VisitedInOrder(t0, StaleKeys(t0) - (pending - {k}), order + [k], tree0, treeA, locked, destRoot, quarantineRoot)
  {
    MoveKey(StaleKeys(t0), pending, k);
    Enumerated(order, StaleKeys(t0) - pending, k);
    CleanedTreeStep(tree0, locked, t0, order, k, destRoot, quarantineRoot);
  }

  /** Moving key `k` from the pending keys to the handled ones. */
  lemma MoveKey(all: set<Path>, pending: set<Path>, k: Path)
    requires k in pending && pending <= all
    ensures (all - pending) + {k} == all - (pending - {k})
  {
  }

  /** A sequence listing each key of `done` once, extended by a key not in `done`, lists each key of `done + {k}` once. */
  lemma Enumerated(order: seq<Path>, done: set<Path>, k: Path)
    requires multiset(order) == multiset(done) && k !in done
    ensures multiset(order + [k]) == multiset(done + {k})
  {
    assert multiset(done + {k}) == multiset(done) + multiset{k};
  }

  /** Before the loop of `cleanup` nothing is done. */
  lemma CleanupStarts(t0: Table, files: set<Path>, dirs: set<Path>, now: int, destRoot: Path, quarantineRoot: Path)
    ensures CleanedUpTo(t0, {}, t0, files, files, dirs, dirs, now, destRoot, quarantineRoot)
  {
    TouchNothing(t0, now);
    assert LinksOf(t0, {}, destRoot) == {};
  }

  /** After the loop of `cleanup` every stale row is done. */
  lemma CleanupEnds(t0: Table, rows: Table, files0: set<Path>, files: set<Path>, dirs0: set<Path>, dirs: set<Path>,
                    now: int, destRoot: Path, quarantineRoot: Path)
    requires CleanedUpTo(t0, StaleKeys(t0), rows, files0, files, dirs0, dirs, now, destRoot, quarantineRoot)
    ensures rows == CleanupRows(t0, now)
    ensures files == files0 - LinksOf(t0, StaleKeys(t0), destRoot)
    ensures dirs <= dirs0
    ensures PrunedWithin(dirs0 - dirs, t0, StaleKeys(t0), destRoot, quarantineRoot)
  {
  }

  /** Directory `d` lies strictly between the root of a row's destination and that destination. */
  predicate PrunedFor(row: FileRow, d: Path, destRoot: Path, quarantineRoot: Path) {
    var root := RowRoot(row, destRoot, quarantineRoot);
    var dest := RowDest(row, destRoot, quarantineRoot);
    IsPrefix(root, d) && d != root && IsPrefix(d, dest) && d != dest
  }

  /** Every directory in `removed` lies strictly between the root and the destination of one of the rows `keys`. */
  ghost predicate PrunedWithin(removed: set<Path>, t: Table, keys: set<Path>, destRoot: Path, quarantineRoot: Path) {
    forall d :: d in removed ==> exists k :: k in keys && k in t && PrunedFor(t[k], d, destRoot, quarantineRoot)
  }

  lemma PrunedWithinStep(d0: set<Path>, d1: set<Path>, d2: set<Path>, t: Table, keys: set<Path>, k: Path,
                         destRoot: Path, quarantineRoot: Path)
    requires k in t
    requires PrunedWithin(d0 - d1, t, keys, destRoot, quarantineRoot)
    requires forall d :: d in d1 - d2 ==> PrunedFor(t[k], d, destRoot, quarantineRoot)
    requires d2 <= d1
    ensures PrunedWithin(d0 - d2, t, keys + {k}, destRoot, quarantineRoot)
  {
    forall d | d in d0 - d2
      ensures exists j :: j in keys + {k} && j in t && PrunedFor(t[j], d, destRoot, quarantineRoot)
    {
      if d in d0 - d1 {
        var j :| j in keys && j in t && PrunedFor(t[j], d, destRoot, quarantineRoot);
        assert j in keys + {k};
      } else {
        assert PrunedFor(t[k], d, destRoot, quarantineRoot);
      }
    }
  }

  /**
    * The tree after the loop of `cleanup` handles the stale row `row`: its link is unlinked
    * unless it is quarantined, then the walk from its destination's parent prunes up to its root.
    */
  function RowCleaned(tr: Tree, locked: set<Path>, row: FileRow, destRoot: Path, quarantineRoot: Path): Tree {
    var files := tr.files - (if row.quarantined then {} else {RowDest(row, destRoot, destRoot)});
    Tree(Prune(tr.dirs, files, locked, Parent(RowDest(row, destRoot, quarantineRoot)), RowRoot(row, destRoot, quarantineRoot)),
         files)
  }

  /** The tree after `cleanup` handles the rows `order` of `t`, one after the other. */
  function CleanedTree(tr: Tree, locked: set<Path>, t: Table, order: seq<Path>, destRoot: Path, quarantineRoot: Path): Tree
    requires forall k :: k in order ==> k in t
    decreases |order|
  {
    if |order| == 0 then tr
    else
      var n := |order| - 1;
      assert forall k :: k in order[..n] ==> k in order;
      RowCleaned(CleanedTree(tr, locked, t, order[..n], destRoot, quarantineRoot), locked, t[order[n]], destRoot, quarantineRoot)
  }

  /** Handling one more row extends the order by that row. */
  lemma CleanedTreeStep(tr: Tree, locked: set<Path>, t: Table, order: seq<Path>, k: Path, destRoot: Path, quarantineRoot: Path)
    requires k in t && forall j :: j in order ==> j in t
    ensures forall j :: j in order + [k] ==> j in t
    ensures CleanedTree(tr, locked, t, order + [k], destRoot, quarantineRoot)
         == RowCleaned(CleanedTree(tr, locked, t, order, destRoot, quarantineRoot), locked, t[k], destRoot, quarantineRoot)
  {
    assert (order + [k])[..|order|] == order;
  }

  /** The tree after the file actions `actions`, applied in order. */
  function PlaceAll(tr: Tree, actions: seq<FileAction>): Tree
    decreases |actions|
  {
    if |actions| == 0 then tr
    else
      var a := actions[|actions| - 1];
      Placed(PlaceAll(tr, actions[..|actions| - 1]), a.from, a.dest, a.quarantined)
  }

  /** Applying two runs of actions one after the other is applying them joined. */
  lemma {:induction false} PlaceAllAppend(tr: Tree, a: seq<FileAction>, b: seq<FileAction>)
    ensures PlaceAll(tr, a + b) == PlaceAll(PlaceAll(tr, a), b)
    decreases |b|
  {
    if |b| == 0 {
      assert a + b == a;
    } else {
      var n := |b| - 1;
      PlaceAllAppend(tr, a, b[..n]);
      assert (a + b)[..|a + b| - 1] == a + b[..n];
      assert (a + b)[|a + b| - 1] == b[n];
    }
  }

  // ---------------------------------------------------------------------------
  // Choosing the sources
  // ---------------------------------------------------------------------------

  /** `[s for s in config["sources"] if s["name"] == name]`. */
  function Named(sources: seq<SourceCfg>, name: string): (r: seq<SourceCfg>)
    ensures forall s :: s in r ==> s.name == name
    ensures forall s :: multiset(r)[s] == if s.name == name then multiset(sources)[s] else 0
  {
    if |sources| == 0 then []
    else
      assert sources == [sources[0]] + sources[1..];
      if sources[0].name == name then [sources[0]] + Named(sources[1..], name)
    else Named(sources[1..], name)
  }

  /** Filtering a joined list is joining the filtered parts: `Named` keeps the order of the configuration. */
  lemma {:induction false} NamedAppend(a: seq<SourceCfg>, b: seq<SourceCfg>, name: string)
    ensures Named(a + b, name) == Named(a, name) + Named(b, name)
    decreases |a|
  {
    if |a| > 0 {
      assert (a + b)[0] == a[0];
      assert (a + b)[1..] == a[1..] + b;
      NamedAppend(a[1..], b, name);
    } else {
      assert a + b == b;
    }
  }

  /**
    * Every configured source keeps its place: what `Named` makes of the sources around `s`
    * is joined around `s` itself when `s` has the name, and directly otherwise.
    */
  lemma NamedKeepsOrder(a: seq<SourceCfg>, s: SourceCfg, b: seq<SourceCfg>, name: string)
    ensures Named(a + [s] + b, name) == Named(a, name) + (if s.name == name then [s] else []) + Named(b, name)
  {
    var mid := if s.name == name then [s] else [];
    assert Named([s], name) == mid by {
      assert [s][0] == s && [s][1..] == [];
    }
    assert Named(a + [s], name) == Named(a, name) + mid by {
      NamedAppend(a, [s], name);
    }
    NamedAppend(a + [s], b, name);
  }

  datatype SelectError = NoSourceNamed(name: string)

  /**
    * The sources `main` syncs for its `--source` argument: all of them when the argument is
    * missing, empty or `timer`; otherwise those with that name, and an error when there
    * are none.
    */
  function SelectSources(sources: seq<SourceCfg>, arg: Option<string>): (r: Result<seq<SourceCfg>, SelectError>)
    ensures arg.None? || arg.value == "" || arg.value == "timer" ==> r == Success(sources)
    ensures arg.Some? && arg.value != "" && arg.value != "timer" ==>
              (r.Failure? <==> forall s :: s in sources ==> s.name != arg.value)
    ensures r.Failure? ==> r.error == NoSourceNamed(arg.value)
    ensures arg.Some? && arg.value != "" && arg.value != "timer" && r.Success? ==>
              r.value != [] && forall s :: s in r.value <==> s in sources && s.name == arg.value
    ensures arg.Some? && arg.value != "" && arg.value != "timer" && r.Success? ==> r.value == Named(sources, arg.value)
  {
    if arg.None? || arg.value == "" || arg.value == "timer" then Success(sources)
    else
      var matching := Named(sources, arg.value);
      if matching == [] then
        assert forall s :: s in sources ==> s.name != arg.value by {
          forall s | s in sources ensures s.name != arg.value {
            assert multiset(matching)[s] == 0;
          }
        }
        Failure(NoSourceNamed(arg.value))
      else
        assert exists s :: s in sources && s.name == arg.value by {
          assert matching[0] in matching;
          assert multiset(matching)[matching[0]] > 0;
        }
        Success(matching)
  }

  // ---------------------------------------------------------------------------
  // One run of main
  // ---------------------------------------------------------------------------

  /** The parts of the YAML configuration the sync reads. */
  datatype Config = Config(media: MediaExt, sources: seq<SourceCfg>, destRoot: Path, quarantineRoot: Path)

  function CtxFor(cfg: Config, src: SourceCfg): SyncCtx {
    SyncCtx(cfg.media, src, cfg.quarantineRoot, cfg.destRoot)
  }

  /** The table after `sync_source` for each of `sources`, in order. */
  function SyncAll(t: Table, cfg: Config, sources: seq<SourceCfg>, gather: SourceCfg -> seq<Observation>): Table
    decreases |sources|
  {
    if |sources| == 0 then t
    else
      var last := sources[|sources| - 1];
      SyncResult(SyncAll(t, cfg, sources[..|sources| - 1], gather), CtxFor(cfg, last), gather(last))
  }

  /** The file actions of `SyncAll`, source after source. */
  function SyncAllActions(t: Table, cfg: Config, sources: seq<SourceCfg>, gather: SourceCfg -> seq<Observation>): seq<FileAction>
    decreases |sources|
  {
    if |sources| == 0 then []
    else
      var last := sources[|sources| - 1];
      var before := SyncAll(t, cfg, sources[..|sources| - 1], gather);
      SyncAllActions(t, cfg, sources[..|sources| - 1], gather)
        + Actions(ResetSource(before, last.name), CtxFor(cfg, last), gather(last))
  }

  /**
    * The work of `main` after the lock is taken: choose the sources, sync each of them with
    * what `gather` observes for it, then clean up. A failed choice changes nothing.
    */
  method RunOnce(store: StateStore, fs: FileSystem, cfg: Config, arg: Option<string>,
                 gather: SourceCfg -> seq<Observation>, now: int)
    returns (r: Result<seq<FileAction>, SelectError>, ghost order: seq<Path>)
    requires fs.Valid()
    modifies store, fs
    ensures fs.Valid() && fs.locked == old(fs.locked)
    ensures r.Failure? <==> SelectSources(cfg.sources, arg).Failure?
    ensures r.Failure? ==> store.rows == old(store.rows) && fs.files == old(fs.files) && fs.dirs == old(fs.dirs)
    ensures r.Success? ==>
              var synced := SyncAll(old(store.rows), cfg, SelectSources(cfg.sources, arg).value, gather);
              var placed := PlaceAll(Tree(old(fs.dirs), old(fs.files)), r.value);
              && r.value == SyncAllActions(old(store.rows), cfg, SelectSources(cfg.sources, arg).value, gather)
              && store.rows == CleanupRows(synced, now)
              && fs.files == placed.files - LinksOf(synced, StaleKeys(synced), cfg.destRoot)
              && fs.dirs <= placed.dirs
              && PrunedWithin(placed.dirs - fs.dirs, synced, StaleKeys(synced), cfg.destRoot, cfg.quarantineRoot)
              && multiset(order) == multiset(StaleKeys(synced))
              && (forall k :: k in order ==> k in synced)
              && Tree(fs.dirs, fs.files) == CleanedTree(placed, fs.locked, synced, order, cfg.destRoot, cfg.quarantineRoot)
  {
    order := [];
    var selected := SelectSources(cfg.sources, arg);
    if selected.Failure? {
      return Failure(selected.error), order;
    }
    var actions := store.SyncSources(cfg, selected.value, gather, fs);
    order := store.Cleanup(fs, now, cfg.destRoot, cfg.quarantineRoot);
    return Success(actions), order;
  }
}
