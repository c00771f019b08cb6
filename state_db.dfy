/**
  * The `files` table of the sync script and the transitions `sync_source` and `cleanup`
  * make on it, as functions from the table before to the table after. The table is keyed
  * by `source_path` (the column is UNIQUE); the integer `id` column is never read and is
  * not modelled.
  */
module StateDb {
  import opened Wrappers
  import opened Paths
  import opened Classify

  /** One row of `files`, without its `source_path` key and its unused `id`. */
  datatype FileRow = FileRow(
    sourceName: string,
    sourceType: string,
    relativePath: Path,
    mtime: int,
    size: int,
    existsInSource: bool,
    existsInDest: bool,
    lastCheck: int,
    quarantined: bool)

  type Table = map<Path, FileRow>

  /** `SELECT id, mtime, size FROM files WHERE source_path=?`, without the id. */
  function Stored(t: Table, ap: Path): Option<Stamp> {
    if ap in t then Some(Stamp(t[ap].mtime, t[ap].size)) else None
  }

  // ---------------------------------------------------------------------------
  // The statements sync_source runs
  // ---------------------------------------------------------------------------

  /**
    * The reset at the start of `sync_source`: exactly the rows of source `sname` get both
    * markers cleared; every other row, and every other column, stays as it was.
    */
  function ResetSource(t: Table, sname: string): (r: Table)
    ensures r.Keys == t.Keys
    ensures forall k :: k in t && t[k].sourceName == sname ==> !r[k].existsInSource && !r[k].existsInDest
    ensures forall k :: k in t && t[k].sourceName != sname ==> r[k] == t[k]
    ensures forall k :: k in t ==> r[k].(existsInSource := t[k].existsInSource, existsInDest := t[k].existsInDest) == t[k]
  {
    map k | k in t :: if t[k].sourceName == sname then t[k].(existsInSource := false, existsInDest := false) else t[k]
  }

  /**
    * `upsert_file_record`: a new `source_path` gets a row of this source, present in the
    * source and not yet in the destination; an existing row gets the new stamp, the source
    * marker, the check time and the quarantine flag, and keeps its source, type, relative
    * path and destination marker. No other row changes.
    */
  function Upsert(t: Table, sname: string, stype: string, ap: Path, rp: Path,
                  mtime: int, size: int, now: int, quarantined: bool): (r: Table)
    ensures r.Keys == t.Keys + {ap}
    ensures forall k :: k in t && k != ap ==> r[k] == t[k]
    ensures Stored(r, ap) == Some(Stamp(mtime, size))
    ensures r[ap].existsInSource && r[ap].lastCheck == now && r[ap].quarantined == quarantined
    ensures ap !in t ==> r[ap].sourceName == sname && r[ap].sourceType == stype
                         && r[ap].relativePath == rp && !r[ap].existsInDest
    ensures ap in t ==> r[ap].sourceName == t[ap].sourceName && r[ap].sourceType == t[ap].sourceType
                        && r[ap].relativePath == t[ap].relativePath && r[ap].existsInDest == t[ap].existsInDest
  {
    if ap !in t then
      t[ap := FileRow(sname, stype, rp, mtime, size, true, false, now, quarantined)]
    else
      t[ap := t[ap].(mtime := mtime, size := size, existsInSource := true, lastCheck := now, quarantined := quarantined)]
  }

  /** `UPDATE files SET exists_in_dest=1 WHERE source_path=?`. */
  function MarkDest(t: Table, ap: Path): Table {
    if ap in t then t[ap := t[ap].(existsInDest := true)] else t
  }

  /** `UPDATE files SET exists_in_source=1 WHERE source_path=?`. */
  function MarkSource(t: Table, ap: Path): Table {
    if ap in t then t[ap := t[ap].(existsInSource := true)] else t
  }

  /** A re-observed file whose row was just written counts as unchanged. */
  lemma UpsertSettles(t: Table, sname: string, stype: string, ap: Path, rp: Path,
                      mtime: int, size: int, now: int, quarantined: bool)
    ensures !FileHasChanged(Stored(Upsert(t, sname, stype, ap, rp, mtime, size, now, quarantined), ap), mtime, size)
  {
  }

  // ---------------------------------------------------------------------------
  // One sync run
  // ---------------------------------------------------------------------------

  /** One tuple of `gather_entries`: absolute path, path relative to the source, mtime, size. */
  datatype Entry = Entry(absPath: Path, relPath: Path, mtime: int, size: int)

  /**
    * What the loop of `sync_source` learns from the outside world about one entry: whether
    * `is_stable` holds, whether `dest.exists()`, and what `time.time()` gives in the upsert.
    */
  datatype Observation = Observation(entry: Entry, stable: bool, destExists: bool, clock: int)

  /** The configuration one `sync_source` call works with. */
  datatype SyncCtx = SyncCtx(media: MediaExt, source: SourceCfg, quarantineRoot: Path, destRoot: Path)

  /** The effect `apply_file_action` has: link `dest` to `from`, or move `from` to `dest`. */
  datatype FileAction = FileAction(from: Path, dest: Path, quarantined: bool)

  function IsQuarantined(ctx: SyncCtx, e: Entry): bool {
    FiletypeRestricted(ctx.media, ctx.source, e.absPath)
  }

  /** `target_root / sname / rp`. */
  function DestOf(ctx: SyncCtx, e: Entry): Path {
    (if IsQuarantined(ctx, e) then ctx.quarantineRoot else ctx.destRoot) + [ctx.source.name] + e.relPath
  }

  function ActionFor(ctx: SyncCtx, e: Entry): FileAction {
    FileAction(e.absPath, DestOf(ctx, e), IsQuarantined(ctx, e))
  }

  /** `changed or not dest.exists()`. */
  predicate NeedsAction(t: Table, o: Observation) {
    FileHasChanged(Stored(t, o.entry.absPath), o.entry.mtime, o.entry.size) || !o.destExists
  }

  /** The entry needs action but is not stable: the loop `continue`s. */
  predicate Skipped(t: Table, o: Observation) {
    NeedsAction(t, o) && !o.stable
  }

  /** The entry needs action and is stable: upsert, file action, destination marker. */
  predicate Acts(t: Table, o: Observation) {
    NeedsAction(t, o) && o.stable
  }

  /** One iteration of the loop of `sync_source`. */
  function Step(t: Table, ctx: SyncCtx, o: Observation): Table {
    var e := o.entry;
    if Skipped(t, o) then t
    else if Acts(t, o) then
      var t1 := Upsert(t, ctx.source.name, ctx.source.kind, e.absPath, e.relPath,
                       e.mtime, e.size, o.clock, IsQuarantined(ctx, e));
      MarkSource(MarkDest(t1, e.absPath), e.absPath)
    else MarkSource(t, e.absPath)
  }

  /** The loop of `sync_source` over the observed entries, in order. */
  function Run(t: Table, ctx: SyncCtx, obs: seq<Observation>): Table
    decreases |obs|
  {
    if |obs| == 0 then t
    else Step(Run(t, ctx, obs[..|obs| - 1]), ctx, obs[|obs| - 1])
  }

  /** The file actions the loop performs, in order: one for each entry it acts on. */
  function Actions(t: Table, ctx: SyncCtx, obs: seq<Observation>): (r: seq<FileAction>)
    ensures |r| <= |obs|
    ensures forall a :: a in r ==> exists o :: o in obs && o.stable && a == ActionFor(ctx, o.entry)
    decreases |obs|
  {
    if |obs| == 0 then []
    else
      var init := obs[..|obs| - 1];
      var last := obs[|obs| - 1];
      assert forall o :: o in init ==> o in obs;
      if Acts(Run(t, ctx, init), last) then Actions(t, ctx, init) + [ActionFor(ctx, last.entry)]
      else Actions(t, ctx, init)
  }

  /** The paths of the entries the loop acts on. */
  function ActedKeys(t: Table, ctx: SyncCtx, obs: seq<Observation>): (r: set<Path>)
    ensures forall k :: k in r ==> exists o :: o in obs && o.entry.absPath == k && o.stable
    decreases |obs|
  {
    if |obs| == 0 then {}
    else
      var init := obs[..|obs| - 1];
      var last := obs[|obs| - 1];
      assert forall o :: o in init ==> o in obs;
      if Acts(Run(t, ctx, init), last) then ActedKeys(t, ctx, init) + {last.entry.absPath}
      else ActedKeys(t, ctx, init)
  }

  /** The paths of the entries the loop does not skip: they reach `exists_in_source=1`. */
  function SeenKeys(t: Table, ctx: SyncCtx, obs: seq<Observation>): (r: set<Path>)
    ensures forall k :: k in r ==> exists o :: o in obs && o.entry.absPath == k && (o.stable || o.destExists)
    decreases |obs|
  {
    if |obs| == 0 then {}
    else
      var init := obs[..|obs| - 1];
      var last := obs[|obs| - 1];
      assert forall o :: o in init ==> o in obs;
      if Skipped(Run(t, ctx, init), last) then SeenKeys(t, ctx, init)
      else SeenKeys(t, ctx, init) + {last.entry.absPath}
  }

  /** The whole of `sync_source` on the table: the reset, then the loop. */
  function SyncResult(t0: Table, ctx: SyncCtx, obs: seq<Observation>): Table {
    Run(ResetSource(t0, ctx.source.name), ctx, obs)
  }

  // ---------------------------------------------------------------------------
  // What one step and one run do
  // ---------------------------------------------------------------------------

  /**
    * One step adds a row only for an entry it acts on, sets the destination marker only
    * there, sets the source marker only where it does not skip, never clears a marker,
    * and never changes which source, type or relative path a row has.
    */
  lemma StepFacts(t: Table, ctx: SyncCtx, o: Observation)
    ensures var r := Step(t, ctx, o);
            && r.Keys == t.Keys + (if Acts(t, o) then {o.entry.absPath} else {})
            && (forall k :: k in r ==> (r[k].existsInDest <==>
                  (Acts(t, o) && k == o.entry.absPath) || (k in t && t[k].existsInDest)))
            && (forall k :: k in r ==> (r[k].existsInSource <==>
                  (!Skipped(t, o) && k == o.entry.absPath) || (k in t && t[k].existsInSource)))
            && (forall k :: k in t ==>
                  (r[k].sourceName == t[k].sourceName && r[k].sourceType == t[k].sourceType
                   && r[k].relativePath == t[k].relativePath))
            && (forall k :: k in r && k !in t ==>
                  (r[k].sourceName == ctx.source.name && r[k].sourceType == ctx.source.kind))
            && (forall k :: k in t && k != o.entry.absPath ==> r[k] == t[k])
  {
    var ap := o.entry.absPath;
    if !Skipped(t, o) && !Acts(t, o) {
      assert ap in t;
    }
  }

  /**
    * The rows after the loop: the rows before plus one per acted-on entry; a destination
    * marker is set exactly for acted-on paths and rows that had it; a source marker exactly
    * for paths not skipped and rows that had it; source, type and relative path of every
    * existing row are kept and every new row belongs to this source.
    */
  lemma RunFacts(t: Table, ctx: SyncCtx, obs: seq<Observation>)
    ensures var r := Run(t, ctx, obs);
            var acted := ActedKeys(t, ctx, obs);
            var seen := SeenKeys(t, ctx, obs);
            && r.Keys == t.Keys + acted
            && (forall k :: k in r ==> (r[k].existsInDest <==> k in acted || (k in t && t[k].existsInDest)))
            && (forall k :: k in r ==> (r[k].existsInSource <==> k in seen || (k in t && t[k].existsInSource)))
            && (forall k :: k in t ==>
                  (r[k].sourceName == t[k].sourceName && r[k].sourceType == t[k].sourceType
                   && r[k].relativePath == t[k].relativePath))
            && (forall k :: k in r && k !in t ==>
                  (r[k].sourceName == ctx.source.name && r[k].sourceType == ctx.source.kind))
  {
    RunKeys(t, ctx, obs);
    RunDestMarker(t, ctx, obs);
    RunSourceMarker(t, ctx, obs);
  }

  /** The loop adds a row for every acted-on path, keeps the identity of every row, and new rows belong to this source. */
  lemma {:induction false} RunKeys(t: Table, ctx: SyncCtx, obs: seq<Observation>)
    ensures var r := Run(t, ctx, obs);
            && r.Keys == t.Keys + ActedKeys(t, ctx, obs)
            && (forall k :: k in t ==>
                  (r[k].sourceName == t[k].sourceName && r[k].sourceType == t[k].sourceType
                   && r[k].relativePath == t[k].relativePath))
            && (forall k :: k in r && k !in t ==>
                  (r[k].sourceName == ctx.source.name && r[k].sourceType == ctx.source.kind))
    decreases |obs|
  {
    if |obs| > 0 {
      var init := obs[..|obs| - 1];
      RunKeys(t, ctx, init);
      StepFacts(Run(t, ctx, init), ctx, obs[|obs| - 1]);
    }
  }

  /** After the loop a row has the destination marker exactly when its path was acted on or it had the marker. */
  lemma {:induction false} RunDestMarker(t: Table, ctx: SyncCtx, obs: seq<Observation>)
    ensures var r := Run(t, ctx, obs);
            forall k :: k in r ==> (r[k].existsInDest <==> k in ActedKeys(t, ctx, obs) || (k in t && t[k].existsInDest))
    decreases |obs|
  {
    if |obs| > 0 {
      var init := obs[..|obs| - 1];
      RunDestMarker(t, ctx, init);
      StepFacts(Run(t, ctx, init), ctx, obs[|obs| - 1]);
    }
  }

  /** After the loop a row has the source marker exactly when its path was not skipped or it had the marker. */
  lemma {:induction false} RunSourceMarker(t: Table, ctx: SyncCtx, obs: seq<Observation>)
    ensures var r := Run(t, ctx, obs);
            forall k :: k in r ==> (r[k].existsInSource <==> k in SeenKeys(t, ctx, obs) || (k in t && t[k].existsInSource))
    decreases |obs|
  {
    if |obs| > 0 {
      var init := obs[..|obs| - 1];
      RunSourceMarker(t, ctx, init);
      StepFacts(Run(t, ctx, init), ctx, obs[|obs| - 1]);
    }
  }

  /** A row whose path no entry has leaves the loop exactly as it entered it. */
  lemma {:induction false} RunLeavesOthers(t: Table, ctx: SyncCtx, obs: seq<Observation>, k: Path)
    requires k in t
    requires forall o :: o in obs ==> o.entry.absPath != k
    ensures k in Run(t, ctx, obs) && Run(t, ctx, obs)[k] == t[k]
    decreases |obs|
  {
    if |obs| > 0 {
      var init := obs[..|obs| - 1];
      RunLeavesOthers(t, ctx, init, k);
      StepFacts(Run(t, ctx, init), ctx, obs[|obs| - 1]);
    }
  }

  /** The actions of the loop are for the acted-on paths, and every acted-on path has one. */
  lemma {:induction false} ActionsAreActed(t: Table, ctx: SyncCtx, obs: seq<Observation>)
    ensures (set a | a in Actions(t, ctx, obs) :: a.from) == ActedKeys(t, ctx, obs)
    decreases |obs|
  {
    if |obs| > 0 {
      var init := obs[..|obs| - 1];
      var last := obs[|obs| - 1];
      ActionsAreActed(t, ctx, init);
      var before := Actions(t, ctx, init);
      if Acts(Run(t, ctx, init), last) {
        var x := ActionFor(ctx, last.entry);
        assert (set a | a in before + [x] :: a.from) == (set a | a in before :: a.from) + {x.from};
      }
    }
  }

  /** A stable entry is settled after its step: observing it again, unchanged and present, needs no action. */
  lemma StableSettles(t: Table, ctx: SyncCtx, o: Observation)
    requires o.stable
    ensures !FileHasChanged(Stored(Step(t, ctx, o), o.entry.absPath), o.entry.mtime, o.entry.size)
    ensures !NeedsAction(Step(t, ctx, o), o.(destExists := true))
  {
  }

  // ---------------------------------------------------------------------------
  // sync_source as a whole
  // ---------------------------------------------------------------------------

  /**
    * After `sync_source` for source `s`: the destination marker of a row is set exactly when
    * the loop acted on its path, or the row belongs to another source and had it; the source
    * marker exactly when the loop did not skip its path, or the row belongs to another source
    * and had it. The table keeps every row and gains one per acted-on new path.
    */
  lemma SyncMarkers(t0: Table, ctx: SyncCtx, obs: seq<Observation>)
    ensures var t := ResetSource(t0, ctx.source.name);
            var r := SyncResult(t0, ctx, obs);
            var acted := ActedKeys(t, ctx, obs);
            var seen := SeenKeys(t, ctx, obs);
            var sname := ctx.source.name;
            && r.Keys == t0.Keys + acted
            && (forall k :: k in r ==> (r[k].existsInDest <==>
                  k in acted || (k in t0 && t0[k].sourceName != sname && t0[k].existsInDest)))
            && (forall k :: k in r ==> (r[k].existsInSource <==>
                  k in seen || (k in t0 && t0[k].sourceName != sname && t0[k].existsInSource)))
  {
    RunFacts(ResetSource(t0, ctx.source.name), ctx, obs);
  }

  /** Rows of other sources that no entry names come out of `sync_source` untouched. */
  lemma SyncLeavesOtherSources(t0: Table, ctx: SyncCtx, obs: seq<Observation>, k: Path)
    requires k in t0 && t0[k].sourceName != ctx.source.name
    requires forall o :: o in obs ==> o.entry.absPath != k
    ensures k in SyncResult(t0, ctx, obs) && SyncResult(t0, ctx, obs)[k] == t0[k]
  {
    RunLeavesOthers(ResetSource(t0, ctx.source.name), ctx, obs, k);
  }

  /**
    * An unstable file loses its source marker: a row of this source whose entry, every time
    * it is seen, is unstable and needs action (its destination is missing, or its stamp
    * differs from the row's) ends with both markers cleared, because the loop skips the
    * update that would set `exists_in_source`.
    */
  lemma UnstableLosesSourceMarker(t0: Table, ctx: SyncCtx, obs: seq<Observation>, k: Path)
    requires k in t0 && t0[k].sourceName == ctx.source.name
    requires forall o :: o in obs && o.entry.absPath == k ==>
               !o.stable && (!o.destExists || Stamp(o.entry.mtime, o.entry.size) != Stamp(t0[k].mtime, t0[k].size))
    ensures var r := SyncResult(t0, ctx, obs);
            k in r && !r[k].existsInSource && !r[k].existsInDest
  {
    var t := ResetSource(t0, ctx.source.name);
    assert t[k].(existsInSource := t0[k].existsInSource, existsInDest := t0[k].existsInDest) == t0[k];
    UnstableNeverSeen(t, ctx, obs, k);
    SyncMarkers(t0, ctx, obs);
  }

  /**
    * A row whose every entry is unstable and needs action is never acted on nor marked seen
    * by the loop, and comes out of it unchanged.
    */
  lemma {:induction false} UnstableNeverSeen(t: Table, ctx: SyncCtx, obs: seq<Observation>, k: Path)
    requires k in t
    requires forall o :: o in obs && o.entry.absPath == k ==>
               !o.stable && (!o.destExists || Stamp(o.entry.mtime, o.entry.size) != Stamp(t[k].mtime, t[k].size))
    ensures var r := Run(t, ctx, obs);
            k in r && r[k] == t[k] && k !in ActedKeys(t, ctx, obs) && k !in SeenKeys(t, ctx, obs)
    decreases |obs|
  {
    if |obs| > 0 {
      var init := obs[..|obs| - 1];
      var last := obs[|obs| - 1];
      assert forall o :: o in init ==> o in obs;
      UnstableNeverSeen(t, ctx, init, k);
      var mid := Run(t, ctx, init);
      StepFacts(mid, ctx, last);
      if last.entry.absPath == k {
        assert last in obs;
        assert Skipped(mid, last);
      }
    }
  }

  /**
    * The stamps a run leaves on a row that every entry for it reports unchanged with its
    * destination present: the loop never acts on it, so its stamp stays.
    */
  lemma {:induction false} UnchangedNeverActed(t: Table, ctx: SyncCtx, obs: seq<Observation>, k: Path)
    requires k in t
    requires forall o :: o in obs && o.entry.absPath == k ==>
               o.destExists && Stamp(o.entry.mtime, o.entry.size) == Stamp(t[k].mtime, t[k].size)
    ensures var r := Run(t, ctx, obs);
            k in r && k !in ActedKeys(t, ctx, obs) && Stored(r, k) == Stored(t, k)
    decreases |obs|
  {
    if |obs| > 0 {
      var init := obs[..|obs| - 1];
      UnchangedNeverActed(t, ctx, init, k);
      StepFacts(Run(t, ctx, init), ctx, obs[|obs| - 1]);
      var o := obs[|obs| - 1];
      if o.entry.absPath == k {
        assert !NeedsAction(Run(t, ctx, init), o);
      }
    }
  }

  /**
    * An unchanged file loses its destination marker: a row of this source that is seen,
    * always with the stored stamp and with its destination present, ends with its source
    * marker set but its destination marker cleared, since only an action sets it again.
    */
  lemma UnchangedLosesDestMarker(t0: Table, ctx: SyncCtx, obs: seq<Observation>, k: Path)
    requires k in t0 && t0[k].sourceName == ctx.source.name
    requires exists o :: o in obs && o.entry.absPath == k
    requires forall o :: o in obs && o.entry.absPath == k ==>
               o.destExists && Stamp(o.entry.mtime, o.entry.size) == Stamp(t0[k].mtime, t0[k].size)
    ensures var r := SyncResult(t0, ctx, obs);
            k in r && r[k].existsInSource && !r[k].existsInDest
  {
    var t := ResetSource(t0, ctx.source.name);
    UnchangedNeverActed(t, ctx, obs, k);
    SeenOnce(t, ctx, obs, k);
    SyncMarkers(t0, ctx, obs);
  }

  /** A path that the loop sees with its destination present is never skipped. */
  lemma {:induction false} SeenOnce(t: Table, ctx: SyncCtx, obs: seq<Observation>, k: Path)
    requires k in t
    requires exists o :: o in obs && o.entry.absPath == k
    requires forall o :: o in obs && o.entry.absPath == k ==>
               o.destExists && Stamp(o.entry.mtime, o.entry.size) == Stamp(t[k].mtime, t[k].size)
    ensures k in SeenKeys(t, ctx, obs)
    decreases |obs|
  {
    var init := obs[..|obs| - 1];
    var o := obs[|obs| - 1];
    if o.entry.absPath == k {
      UnchangedNeverActed(t, ctx, init, k);
      assert !Skipped(Run(t, ctx, init), o);
    } else {
      var o' :| o' in obs && o'.entry.absPath == k;
      assert obs == init + [o];
      assert o' in init;
      SeenOnce(t, ctx, init, k);
    }
  }

  // ---------------------------------------------------------------------------
  // cleanup
  // ---------------------------------------------------------------------------

  /** Two rows `cleanup` cannot tell apart: same source name and relative path. */
  predicate SameFile(a: FileRow, b: FileRow) {
    a.sourceName == b.sourceName && a.relativePath == b.relativePath
  }

  /** `SELECT ... FROM files WHERE exists_in_source = 0`. */
  function StaleKeys(t: Table): (r: set<Path>)
    ensures forall k :: k in r <==> k in t && !t[k].existsInSource
  {
    set k | k in t && !t[k].existsInSource
  }

  /** Row `k` matches the `WHERE source_name = ? AND relative_path = ?` of one of `keys`. */
  predicate HitBy(t: Table, keys: set<Path>, k: Path)
    requires k in t
  {
    exists s :: s in keys && s in t && SameFile(t[s], t[k])
  }

  /** The `UPDATE` of `cleanup` for every key in `keys`: destination marker off, `mtime` set to `now`. */
  function TouchAll(t: Table, keys: set<Path>, now: int): Table {
    map k | k in t :: if HitBy(t, keys, k) then t[k].(existsInDest := false, mtime := now) else t[k]
  }

  /**
    * `UPDATE files SET exists_in_dest = 0, mtime = ? WHERE source_name = ? AND relative_path = ?`:
    * exactly the rows with that source name and relative path get the destination marker
    * cleared and `mtime` set to `now`.
    */
  function TouchFile(t: Table, sname: string, rp: Path, now: int): (r: Table)
    ensures r.Keys == t.Keys
    ensures forall k :: k in t && t[k].sourceName == sname && t[k].relativePath == rp ==>
              r[k] == t[k].(existsInDest := false, mtime := now)
    ensures forall k :: k in t && !(t[k].sourceName == sname && t[k].relativePath == rp) ==> r[k] == t[k]
  {
    map k | k in t :: if t[k].sourceName == sname && t[k].relativePath == rp then t[k].(existsInDest := false, mtime := now) else t[k]
  }

  /** Touching the rows of no key changes nothing. */
  lemma TouchNothing(t: Table, now: int)
    ensures TouchAll(t, {}, now) == t
  {
  }

  /** Touching the rows of one more key extends the touched set by that key. */
  lemma TouchAllStep(t: Table, keys: set<Path>, k: Path, now: int)
    requires k in t
    ensures TouchFile(TouchAll(t, keys, now), t[k].sourceName, t[k].relativePath, now) == TouchAll(t, keys + {k}, now)
  {
    var mid := TouchAll(t, keys, now);
    var a := TouchFile(mid, t[k].sourceName, t[k].relativePath, now);
    var b := TouchAll(t, keys + {k}, now);
    forall j | j in t
      ensures a[j] == b[j]
    {
      HitByStep(t, keys, k, j);
      assert SameFile(mid[j], t[j]);
    }
  }

  /** A row is hit by one more key exactly when it was hit already or shares that key's file. */
  lemma HitByStep(t: Table, keys: set<Path>, k: Path, j: Path)
    requires k in t && j in t
    ensures HitBy(t, keys + {k}, j) <==> HitBy(t, keys, j) || SameFile(t[k], t[j])
  {
    if SameFile(t[k], t[j]) {
      assert k in keys + {k};
    }
  }

  /** The rows after `cleanup`. */
  function CleanupRows(t: Table, now: int): Table {
    TouchAll(t, StaleKeys(t), now)
  }

  /** The root a row's destination lives under: the quarantine root for quarantined rows. */
  function RowRoot(row: FileRow, destRoot: Path, quarantineRoot: Path): Path {
    if row.quarantined then quarantineRoot else destRoot
  }

  /** `root / sname / rp` for a row. */
  function RowDest(row: FileRow, destRoot: Path, quarantineRoot: Path): (r: Path)
    ensures IsPrefix(RowRoot(row, destRoot, quarantineRoot), r) && |r| > |RowRoot(row, destRoot, quarantineRoot)|
  {
    var root := RowRoot(row, destRoot, quarantineRoot);
    assert (root + [row.sourceName] + row.relativePath)[..|root|] == root;
    root + [row.sourceName] + row.relativePath
  }

  /** The destinations `cleanup` unlinks for the rows `keys`: those of the rows not quarantined. */
  function LinksOf(t: Table, keys: set<Path>, destRoot: Path): set<Path> {
    set k | k in keys && k in t && !t[k].quarantined :: destRoot + [t[k].sourceName] + t[k].relativePath
  }

  /** Cleaning up one more row unlinks its destination too, unless it is quarantined. */
  lemma LinksStep(t: Table, keys: set<Path>, k: Path, destRoot: Path)
    requires k in t
    ensures LinksOf(t, keys + {k}, destRoot)
         == LinksOf(t, keys, destRoot) + (if t[k].quarantined then {} else {RowDest(t[k], destRoot, destRoot)})
  {
  }

  /**
    * The two keys disagree on the file system too: a stale row that shares source name and
    * relative path with a live row that is linked makes `cleanup` unlink the live row's link.
    */
  lemma CleanupUnlinksLiveTwin(t: Table, destRoot: Path, live: Path, stale: Path)
    requires live in t && stale in t && t[live].existsInSource && !t[stale].existsInSource
    requires SameFile(t[stale], t[live]) && !t[stale].quarantined && !t[live].quarantined
    ensures RowDest(t[live], destRoot, destRoot) in LinksOf(t, StaleKeys(t), destRoot)
  {
    assert stale in StaleKeys(t);
  }

  /**
    * `cleanup` never deletes a row and never changes `exists_in_source`; it changes only
    * `exists_in_dest` (to false) and `mtime` (to `now`), and exactly on the rows that share
    * source name and relative path with a stale row, every stale row among them.
    */
  lemma CleanupFacts(t: Table, now: int)
    ensures var r := CleanupRows(t, now);
            && r.Keys == t.Keys
            && (forall k :: k in t ==> r[k].existsInSource == t[k].existsInSource)
            && (forall k :: k in t ==> r[k].(existsInDest := t[k].existsInDest, mtime := t[k].mtime) == t[k])
            && (forall k :: k in StaleKeys(t) ==> !r[k].existsInDest && r[k].mtime == now)
            && (forall k :: k in t ==> (r[k] == t[k] || exists s :: s in StaleKeys(t) && SameFile(t[s], t[k])))
            && (forall k :: k in t && (exists s :: s in StaleKeys(t) && SameFile(t[s], t[k])) ==>
                  !r[k].existsInDest && r[k].mtime == now)
  {
    var r := CleanupRows(t, now);
    forall k | k in StaleKeys(t)
      ensures !r[k].existsInDest && r[k].mtime == now
    {
      assert HitBy(t, StaleKeys(t), k);
    }
  }

  /**
    * When no live row shares source name and relative path with a stale row, `cleanup`
    * changes stale rows only.
    */
  lemma CleanupOnlyStale(t: Table, now: int)
    requires forall k, s :: k in t && s in t && t[k].existsInSource && !t[s].existsInSource ==> !SameFile(t[s], t[k])
    ensures forall k :: k in t && t[k].existsInSource ==> CleanupRows(t, now)[k] == t[k]
  {
  }

  /**
    * The two keys disagree: a stale row left behind under an old `source_path` makes
    * `cleanup` clear the destination marker and overwrite the stamp of any live row that
    * has the same source name and relative path, though that row's file is still present.
    */
  lemma CleanupTouchesLiveTwin(t: Table, now: int, stale: Path, live: Path)
    requires stale in t && live in t && stale != live
    requires !t[stale].existsInSource && t[live].existsInSource && SameFile(t[stale], t[live])
    ensures var r := CleanupRows(t, now);
            && live in r && r[live].existsInSource
            && !r[live].existsInDest && r[live].mtime == now
  {
    assert stale in StaleKeys(t);
    assert HitBy(t, StaleKeys(t), live);
  }

  /** Running `cleanup` twice at the same time gives the table of running it once. */
  lemma CleanupIdempotent(t: Table, now: int)
    ensures CleanupRows(CleanupRows(t, now), now) == CleanupRows(t, now)
  {
    var r := CleanupRows(t, now);
    CleanupFacts(t, now);
    assert StaleKeys(r) == StaleKeys(t);
    forall k | k in t
      ensures HitBy(r, StaleKeys(r), k) <==> HitBy(t, StaleKeys(t), k)
    {
      if HitBy(t, StaleKeys(t), k) {
        var s :| s in StaleKeys(t) && s in t && SameFile(t[s], t[k]);
        assert SameFile(r[s], r[k]);
      }
      if HitBy(r, StaleKeys(r), k) {
        var s :| s in StaleKeys(r) && s in r && SameFile(r[s], r[k]);
        assert SameFile(t[s], t[k]);
      }
    }
  }
}
