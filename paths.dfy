/**
  * POSIX paths as pathlib sees them: a path is the sequence of its components below
  * "/", so `[]` is "/" and `["srv", "photos", "a.jpg"]` is "/srv/photos/a.jpg".
  */
module Paths {
  import opened Wrappers
  import opened Text

  type Path = seq<string>

  /** `p.parent`; pathlib gives "/" as the parent of "/". */
  function Parent(p: Path): Path {
    if |p| == 0 then p else p[..|p| - 1]
  }

  /** `p.name`: the last component, "" for "/". */
  function Name(p: Path): string {
    if |p| == 0 then "" else p[|p| - 1]
  }

  /** `a` is `b` itself or one of its ancestors. */
  predicate IsPrefix(a: Path, b: Path) {
    |a| <= |b| && b[..|a|] == a
  }

  /**
    * `PurePath.suffix` applied to a name: from the last '.' on, provided that dot is
    * neither the first nor the last character, and "" otherwise. A non-empty suffix is a
    * proper tail of the name that starts with its only '.'.
    */
  function Suffix(name: string): (r: string)
    ensures r != [] ==> |r| >= 2 && |r| < |name| && r == name[|name| - |r|..]
    ensures r != [] ==> r[0] == '.' && '.' !in r[1..]
    ensures r != [] ==> name[..|name| - |r|] != []
  {
    match LastIndexOf(name, '.')
    case None => ""
    case Some(i) =>
      if 0 < i < |name| - 1 then
        assert forall c | c in name[i..][1..] :: c != '.';
        name[i..]
      else ""
  }

  /** A name made of a non-empty stem, a dot and a dot-free non-empty tail has that tail as suffix. */
  lemma SuffixOf(stem: string, tail: string)
    requires stem != [] && tail != [] && '.' !in tail
    ensures Suffix(stem + "." + tail) == "." + tail
  {
    var name := stem + "." + tail;
    assert name[|stem|] == '.';
    assert forall j :: |stem| < j < |name| ==> name[j] == tail[j - |stem| - 1];
    assert LastIndexOf(name, '.') == Some(|stem|);
    assert name[|stem|..] == "." + tail;
  }

  /** A name with no dot after its first character has no suffix (this covers dot-files). */
  lemma NoSuffix(name: string)
    requires |name| > 0 ==> '.' !in name[1..]
    ensures Suffix(name) == ""
  {
    if |name| > 0 {
      assert forall j :: 1 <= j < |name| ==> name[1..][j - 1] == name[j];
    }
  }

  // ---------------------------------------------------------------------------
  // Joining a relative string onto a path
  // ---------------------------------------------------------------------------

  /** A component pathlib keeps when it parses a string: not empty and not ".". */
  predicate IsComponent(c: string) {
    c != "" && c != "." && '/' !in c
  }

  /** The parts of a '/'-split string that pathlib keeps, in order. */
  function KeepComponents(parts: seq<string>): (r: Path)
    requires forall k :: 0 <= k < |parts| ==> '/' !in parts[k]
    ensures forall k :: 0 <= k < |r| ==> IsComponent(r[k])
    ensures |r| <= |parts|
    ensures (forall k :: 0 <= k < |parts| ==> IsComponent(parts[k])) ==> r == parts
  {
    if |parts| == 0 then []
    else
      var rest := KeepComponents(parts[1..]);
      if parts[0] == "" || parts[0] == "." then rest else [parts[0]] + rest
  }

  /** A string without the separator as a substring has no separator character. */
  lemma NoCharFromNoSubstring(s: string, c: char)
    requires !Contains(s, [c])
    ensures c !in s
  {
    if c in s {
      var i :| 0 <= i < |s| && s[i] == c;
      assert OccursAt(s, [c], i);
    }
  }

  /** A string without some character has no one-character occurrence of it. */
  lemma NoSubstringFromNoChar(s: string, c: char)
    requires c !in s
    ensures !Contains(s, [c])
  {
    forall i | 0 <= i < |s|
      ensures !OccursAt(s, [c], i)
    {
      assert s[i..i + 1] == [s[i]];
    }
  }

  /** The components of a relative string, as pathlib parses it. */
  function Components(rel: string): (r: Path)
    ensures forall k :: 0 <= k < |r| ==> IsComponent(r[k])
  {
    var parts := Split(rel, "/");
    forall k | 0 <= k < |parts| ensures '/' !in parts[k] {
      NoCharFromNoSubstring(parts[k], '/');
    }
    KeepComponents(parts)
  }

  /**
    * `root / rel` in pathlib: a string starting with '/' replaces the root, otherwise its
    * components are appended to it.
    */
  function JoinPath(root: Path, rel: string): (r: Path)
    ensures |rel| > 0 && rel[0] == '/' ==> r == Components(rel)
    ensures !(|rel| > 0 && rel[0] == '/') ==> IsPrefix(root, r) && r[|root|..] == Components(rel)
  {
    if |rel| > 0 && rel[0] == '/' then Components(rel) else root + Components(rel)
  }

  /** Writing components with '/' between them and joining the string onto a root appends them. */
  lemma {:induction false} JoinPathRoundTrip(root: Path, comps: Path)
    requires forall k :: 0 <= k < |comps| ==> IsComponent(comps[k])
    ensures JoinPath(root, Join(comps, "/")) == root + comps
  {
    if |comps| == 0 {
      assert Split("", "/") == [""];
    } else {
      forall k | 0 <= k < |comps| ensures !Contains(comps[k], "/") {
        NoSubstringFromNoChar(comps[k], '/');
      }
      SplitJoin(comps, "/");
      JoinStartsWithFirst(comps, "/");
      assert comps[0][0] != '/';
    }
  }

  /** A join starts with its first part. */
  lemma JoinStartsWithFirst(parts: seq<string>, sep: string)
    requires |parts| > 0
    ensures |Join(parts, sep)| >= |parts[0]| && Join(parts, sep)[..|parts[0]|] == parts[0]
  {
  }
}
