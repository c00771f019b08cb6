/**
  * The per-file decisions of the sync script: which files are media, which files are
  * quarantined instead of linked, and which files changed since the last run.
  */
module Classify {
  import opened Wrappers
  import opened Text
  import opened Paths

  /** `config["media_ext"]`: the accepted image and video extensions, lower-case and without dot. */
  datatype MediaExt = MediaExt(images: seq<string>, videos: seq<string>)

  /**
    * One entry of `config["sources"]`. `filterMedia` and `quarantine` are the flags
    * `source.get(..., False)` reads, so a missing key is `false`. `path` is the directory a
    * `local` source walks and `tag` the tag a `nextcloud` source lists; each is read only
    * for its kind of source.
    */
  datatype SourceCfg = SourceCfg(name: string, kind: string, path: string, tag: string,
                                 filterMedia: bool, quarantine: bool)

  /** `path.suffix.lower().lstrip('.')`. */
  function Extension(p: Path): string {
    TrimLeading(Lower(Suffix(Name(p))), '.')
  }

  /** `is_media`: the extension is listed as an image or as a video extension. */
  predicate IsMedia(p: Path, media: MediaExt) {
    Extension(p) in media.images || Extension(p) in media.videos
  }

  /**
    * `filetype_restricted`: a file is quarantined exactly when its source both filters
    * media and has quarantine on, and its extension is neither an image nor a video one.
    */
  function FiletypeRestricted(media: MediaExt, source: SourceCfg, ap: Path): (r: bool)
    ensures r <==> source.filterMedia && source.quarantine
                   && Extension(ap) !in media.images && Extension(ap) !in media.videos
    ensures !source.filterMedia || !source.quarantine ==> !r
  {
    if source.filterMedia && source.quarantine then !IsMedia(ap, media) else false
  }

  /** The extension of a file named `stem.tail` is the lower-cased tail. */
  lemma ExtensionOfName(dir: Path, stem: string, tail: string)
    requires stem != [] && tail != [] && '.' !in tail
    ensures Extension(dir + [stem + "." + tail]) == Lower(tail)
  {
    SuffixOf(stem, tail);
    assert Name(dir + [stem + "." + tail]) == stem + "." + tail;
    LowerDotted(tail);
    assert Lower(tail)[0] != '.' by {
      assert tail[0] in tail;
    }
    TrimOneDot(Lower(tail));
  }

  /** Lower-casing leaves a leading dot in place. */
  lemma LowerDotted(tail: string)
    ensures Lower("." + tail) == "." + Lower(tail)
  {
    var low := Lower("." + tail);
    forall i | 0 <= i < |low|
      ensures low[i] == ("." + Lower(tail))[i]
    {
      if i > 0 {
        assert ("." + tail)[i] == tail[i - 1];
      }
    }
  }

  /** `lstrip('.')` removes a single leading dot in front of a dot-free start. */
  lemma TrimOneDot(x: string)
    requires x != [] && x[0] != '.'
    ensures TrimLeading("." + x, '.') == x
  {
    assert ("." + x)[1..] == x;
  }

  /** A file whose name has no dot after its first character has the empty extension. */
  lemma ExtensionWithoutDot(p: Path)
    requires |Name(p)| > 0 ==> '.' !in Name(p)[1..]
    ensures Extension(p) == ""
  {
    NoSuffix(Name(p));
  }

  /** Python's `rfind` finds the same last dot in a name and in its lower-case form. */
  lemma LastDotIgnoresCase(name: string)
    ensures LastIndexOf(Lower(name), '.') == LastIndexOf(name, '.')
  {
    var low := Lower(name);
    assert forall j :: 0 <= j < |name| ==> (low[j] == '.' <==> name[j] == '.');
    assert '.' in low <==> '.' in name by {
      if '.' in name {
        var j :| 0 <= j < |name| && name[j] == '.';
        assert low[j] == '.';
      }
      if '.' in low {
        var j :| 0 <= j < |low| && low[j] == '.';
        assert name[j] == '.';
      }
    }
  }

  /** Lower-casing a name and then taking its suffix is taking the suffix and then lower-casing. */
  lemma SuffixOfLower(name: string)
    ensures Suffix(Lower(name)) == Lower(Suffix(name))
  {
    LastDotIgnoresCase(name);
    match LastIndexOf(name, '.')
    case None =>
    case Some(i) =>
      if 0 < i < |name| - 1 {
        assert Lower(name)[i..] == Lower(name[i..]);
      }
  }

  /**
    * Media classification ignores the case of the file name: two files whose names agree
    * once lower-cased get the same extension, so the same media and quarantine verdicts.
    */
  lemma ClassificationIgnoresCase(p: Path, q: Path, media: MediaExt, source: SourceCfg)
    requires Lower(Name(p)) == Lower(Name(q))
    ensures Extension(p) == Extension(q)
    ensures IsMedia(p, media) <==> IsMedia(q, media)
    ensures FiletypeRestricted(media, source, p) == FiletypeRestricted(media, source, q)
  {
    SuffixOfLower(Name(p));
    SuffixOfLower(Name(q));
    LowerIdempotent(Suffix(Name(p)));
    LowerIdempotent(Suffix(Name(q)));
    assert Lower(Suffix(Name(p))) == Lower(Lower(Suffix(Name(p))));
  }

  lemma LowerIdempotent(s: string)
    ensures Lower(Lower(s)) == Lower(s)
  {
  }

  // ---------------------------------------------------------------------------
  // Change detection
  // ---------------------------------------------------------------------------

  /** The `(mtime, size)` pair the state table stores for a file. */
  datatype Stamp = Stamp(mtime: int, size: int)

  /**
    * `file_has_changed` (and the same test written inline in `sync_source`): a file
    * counts as changed when the table has no row for it or its stored `(mtime, size)`
    * differs from what was observed.
    */
  function FileHasChanged(stored: Option<Stamp>, mtime: int, size: int): (r: bool)
    ensures stored.None? ==> r
    ensures stored.Some? ==> (r <==> stored.value.mtime != mtime || stored.value.size != size)
  {
    match stored
    case None => true
    case Some(Stamp(oldM, oldS)) => !(oldM == mtime && oldS == size)
  }
}
