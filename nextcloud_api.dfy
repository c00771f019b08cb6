/**
  * The parsing half of the Nextcloud WebDAV calls: `nc_tag_id`, `nc_tag_relations` and
  * `nc_node_meta` cut the PROPFIND response text on `<d:response>` and read the text
  * between an opening and a closing element. The HTTP request itself is not modelled:
  * the response text (and, for `nc_node_meta`, the status code) is a parameter.
  */
module NextcloudApi {
  import opened Wrappers
  import opened Text
  import opened Paths

  const ResponseSep := "<d:response>"
  const IdOpen := "<oc:id>"
  const IdClose := "</oc:id>"
  const MetaPathOpen := "<oc:meta-path>"
  const MetaPathClose := "</oc:meta-path>"
  const CollectionMarker := "<d:collection/>"

  /** The element `nc_tag_id` looks for to recognise the tag's block. */
  function DisplayNameElement(tag: string): string {
    "<oc:display-name>" + tag + "</oc:display-name>"
  }

  /** `text.split("<d:response>")`. */
  function Blocks(text: string): seq<string> {
    Split(text, ResponseSep)
  }

  /**
    * `text.split(open)[1].split(close)[0].strip()`: the stripped text after the first
    * `open`, cut at the next `close` (or at the next `open`, or at the end).
    */
  function Between(text: string, open: string, close: string): string
    requires |open| > 0 && |close| > 0 && Contains(text, open)
  {
    Strip(Split(Split(text, open)[1], close)[0])
  }

  /** The id `nc_tag_id` and `nc_tag_relations` read from a block holding `<oc:id>`. */
  function IdOf(block: string): string
    requires Contains(block, IdOpen)
  {
    Between(block, IdOpen, IdClose)
  }

  /** A block `nc_tag_id` accepts: it names the tag and carries an id. */
  predicate IsTagBlock(block: string, tag: string) {
    Contains(block, DisplayNameElement(tag)) && Contains(block, IdOpen)
  }

  // ---------------------------------------------------------------------------
  // nc_tag_id
  // ---------------------------------------------------------------------------

  /**
    * `nc_tag_id`: the id of the first response block that holds both the exact
    * display-name element of `tag` and an `<oc:id>`; `None` when no block does.
    */
  method NcTagId(text: string, tag: string) returns (r: Option<string>)
    ensures r.None? <==> forall i :: 0 <= i < |Blocks(text)| ==> !IsTagBlock(Blocks(text)[i], tag)
    ensures r.Some? ==> exists i :: 0 <= i < |Blocks(text)| && IsTagBlock(Blocks(text)[i], tag)
                                    && (forall j :: 0 <= j < i ==> !IsTagBlock(Blocks(text)[j], tag))
                                    && r.value == IdOf(Blocks(text)[i])
  {
    r := FirstTagId(Blocks(text), tag);
  }

  /** The loop of `nc_tag_id` over the blocks of the response. */
  method FirstTagId(blocks: seq<string>, tag: string) returns (r: Option<string>)
    ensures r.None? <==> forall i :: 0 <= i < |blocks| ==> !IsTagBlock(blocks[i], tag)
    ensures r.Some? ==> exists i :: 0 <= i < |blocks| && IsTagBlock(blocks[i], tag)
                                    && (forall j :: 0 <= j < i ==> !IsTagBlock(blocks[j], tag))
                                    && r.value == IdOf(blocks[i])
  {
    for i := 0 to |blocks|
      invariant forall j :: 0 <= j < i ==> !IsTagBlock(blocks[j], tag)
    {
      var block := blocks[i];
      if Contains(block, DisplayNameElement(tag)) {
        if Contains(block, IdOpen) {
          assert IsTagBlock(blocks[i], tag);
          return Some(IdOf(block));
        }
      }
    }
    return None;
  }

  // ---------------------------------------------------------------------------
  // nc_tag_relations
  // ---------------------------------------------------------------------------

  /** The ids of the blocks that hold an `<oc:id>`, in block order. */
  function IdsIn(blocks: seq<string>): (ids: seq<string>)
    ensures |ids| <= |blocks|
  {
    if |blocks| == 0 then []
    else
      var rest := IdsIn(blocks[..|blocks| - 1]);
      var last := blocks[|blocks| - 1];
      if Contains(last, IdOpen) then rest + [IdOf(last)] else rest
  }

  /** `nc_tag_relations`: one id per response block that holds an `<oc:id>`, in order. */
  method NcTagRelations(text: string) returns (ids: seq<string>)
    ensures ids == IdsIn(Blocks(text))
  {
    var blocks := Blocks(text);
    ids := [];
    for i := 0 to |blocks|
      invariant ids == IdsIn(blocks[..i])
    {
      var block := blocks[i];
      IdsInPrefix(blocks, i);
      if Contains(block, IdOpen) {
        var nid := IdOf(block);
        ids := ids + [nid];
      }
    }
    TakeAll(blocks);
  }

  /** One more block of the prefix adds its id, if it holds one. */
  lemma IdsInPrefix(blocks: seq<string>, i: nat)
    requires i < |blocks|
    ensures IdsIn(blocks[..i + 1])
         == IdsIn(blocks[..i]) + (if Contains(blocks[i], IdOpen) then [IdOf(blocks[i])] else [])
  {
    assert blocks[..i + 1][..i] == blocks[..i];
  }

  lemma TakeAll(s: seq<string>)
    ensures s[..|s|] == s
  {
  }

  /** The ids of two runs of blocks are the ids of the first followed by those of the second. */
  lemma {:induction false} IdsInAppend(a: seq<string>, b: seq<string>)
    ensures IdsIn(a + b) == IdsIn(a) + IdsIn(b)
    decreases |b|
  {
    if |b| == 0 {
      assert a + b == a;
    } else {
      var b' := b[..|b| - 1];
      assert (a + b)[..|a + b| - 1] == a + b';
      assert (a + b)[|a + b| - 1] == b[|b| - 1];
      IdsInAppend(a, b');
    }
  }

  /** Blocks without an `<oc:id>` yield no id. */
  lemma {:induction false} IdsInNone(blocks: seq<string>)
    requires forall k :: 0 <= k < |blocks| ==> !Contains(blocks[k], IdOpen)
    ensures IdsIn(blocks) == []
  {
    if |blocks| > 0 {
      IdsInNone(blocks[..|blocks| - 1]);
    }
  }

  lemma DropLast(s: seq<string>)
    requires |s| > 0
    ensures s == s[..|s| - 1] + [s[|s| - 1]]
  {
  }

  /** When every block holds an `<oc:id>`, there is exactly one id per block, in block order. */
  lemma {:induction false} IdsInEvery(blocks: seq<string>, ids: seq<string>)
    requires |ids| == |blocks|
    requires forall k :: 0 <= k < |blocks| ==> Contains(blocks[k], IdOpen) && IdOf(blocks[k]) == ids[k]
    ensures IdsIn(blocks) == ids
  {
    if |blocks| > 0 {
      var n := |blocks| - 1;
      forall k | 0 <= k < n
        ensures Contains(blocks[..n][k], IdOpen) && IdOf(blocks[..n][k]) == ids[..n][k]
      {
        assert blocks[..n][k] == blocks[k];
      }
      IdsInEvery(blocks[..n], ids[..n]);
      assert IdsIn(blocks) == IdsIn(blocks[..n]) + [IdOf(blocks[n])];
      DropLast(ids);
    }
  }

  // ---------------------------------------------------------------------------
  // nc_node_meta
  // ---------------------------------------------------------------------------

  /** What `nc_node_meta` returns for a node: its local path and whether it is a folder. */
  datatype NodeMeta = NodeMeta(path: Path, isDir: bool)

  /**
    * `nc_node_meta`: nothing for an HTTP status of 400 or above or for a response without
    * `<oc:meta-path>`; otherwise the meta path joined onto the local data root, and
    * "is a folder" exactly when the response holds `<d:collection/>`.
    */
  function NcNodeMeta(status: int, xml: string, localRoot: Path): (r: Option<NodeMeta>)
    ensures r.None? <==> status >= 400 || !Contains(xml, MetaPathOpen)
    ensures r.Some? ==> (r.value.isDir <==> Contains(xml, CollectionMarker))
    ensures r.Some? ==> r.value.path == JoinPath(localRoot, Between(xml, MetaPathOpen, MetaPathClose))
  {
    if status >= 400 then None
    else if !Contains(xml, MetaPathOpen) then None
    else
      var relative := Between(xml, MetaPathOpen, MetaPathClose);
      var isDir := Contains(xml, CollectionMarker);
      Some(NodeMeta(JoinPath(localRoot, relative), isDir))
  }

  // ---------------------------------------------------------------------------
  // What the parsers read from a well-formed response
  // ---------------------------------------------------------------------------

  /** An XML tag as the parsers search for it: starts with '<' and has no other '<'. */
  predicate IsTag(t: string) {
    |t| >= 2 && t[0] == '<' && '<' !in t[1..]
  }

  lemma TagsAreTags()
    ensures IsTag(ResponseSep) && IsTag(IdOpen) && IsTag(IdClose)
    ensures IsTag(MetaPathOpen) && IsTag(MetaPathClose)
    ensures IdOpen[1] != IdClose[1] && MetaPathOpen[1] != MetaPathClose[1]
    ensures ResponseSep[1] != IdOpen[1] && ResponseSep[1] != IdClose[1]
  {
  }

  /** A tag cannot overlap itself, so splitting on it is undone by joining with it. */
  lemma TagUnbordered(t: string)
    requires IsTag(t)
    ensures Unbordered(t)
  {
    forall k | 0 < k < |t|
      ensures t[..k] != t[|t| - k..]
    {
      assert t[..k][0] == '<';
      assert t[|t| - k..][0] == t[1..][|t| - k - 1];
    }
  }

  /** A tag can only occur where `s` has a '<'. */
  lemma TagNotAt(s: string, t: string, j: int)
    requires IsTag(t) && 0 <= j < |s| && s[j] != '<'
    ensures !OccursAt(s, t, j)
  {
    if j + |t| <= |s| {
      assert s[j..j + |t|][0] == s[j];
    }
  }

  /** Text without '<' holds no tag. */
  lemma NoTagIn(m: string, t: string)
    requires IsTag(t) && '<' !in m
    ensures !Contains(m, t)
  {
    forall j | 0 <= j < |m|
      ensures !OccursAt(m, t, j)
    {
      TagNotAt(m, t, j);
    }
  }

  /**
    * After an opening tag, angle-free text and a closing tag that differs from the opening
    * one in its second character, the opening tag cannot occur before the closing tag ends.
    */
  lemma NoOpenBeforeClose(m: string, open: string, close: string, post: string)
    requires IsTag(open) && IsTag(close) && open[1] != close[1]
    requires '<' !in m
    ensures forall j :: 0 <= j < |m| + |close| ==> !OccursAt(m + close + post, open, j)
  {
    var s := m + close + post;
    forall j | 0 <= j < |m| + |close|
      ensures !OccursAt(s, open, j)
    {
      if j < |m| {
        assert s[j] == m[j];
        TagNotAt(s, open, j);
      } else if j == |m| {
        if j + |open| <= |s| {
          assert s[j..j + |open|][1] == close[1];
        }
      } else {
        assert s[j] == close[1..][j - |m| - 1];
        TagNotAt(s, open, j);
      }
    }
  }

  /** The piece after the first opening tag starts with the angle-free text and the closing tag. */
  lemma PieceAfterOpen(m: string, open: string, close: string, post: string)
    requires IsTag(open) && IsTag(close) && open[1] != close[1]
    requires '<' !in m
    ensures exists x :: Split(m + close + post, open)[0] == m + close + x
  {
    var s := m + close + post;
    NoOpenBeforeClose(m, open, close, post);
    SplitHead(s, open);
    match Find(s, open)
    case None =>
      assert Split(s, open)[0] == m + close + post;
    case Some(i) =>
      assert i >= |m| + |close|;
      PrefixPast(m + close, post, i);
      assert Split(s, open)[0] == m + close + s[|m| + |close|..i];
  }

  /** Cutting `p + q` at or after the end of `p` keeps all of `p`. */
  lemma PrefixPast(p: string, q: string, i: nat)
    requires |p| <= i <= |p| + |q|
    ensures (p + q)[..i] == p + (p + q)[|p|..i]
  {
  }

  /**
    * The extraction both parsers use reads back the text between the first opening tag
    * and the closing tag after it, stripped, whenever that text holds no '<'.
    */
  lemma {:induction false} BetweenTags(pre: string, open: string, m: string, close: string, post: string)
    requires IsTag(open) && IsTag(close) && open[1] != close[1]
    requires !Contains(pre, open) && '<' !in m
    ensures Contains(pre + open + m + close + post, open)
    ensures Between(pre + open + m + close + post, open, close) == Strip(m)
  {
    var rest := m + close + post;
    assert pre + open + m + close + post == pre + open + rest;
    TagUnbordered(open);
    SplitAfter(pre, open, rest);
    PieceAfterOpen(m, open, close, post);
    var x :| Split(rest, open)[0] == m + close + x;
    TagUnbordered(close);
    NoTagIn(m, close);
    SplitAfter(m, close, x);
  }

  /** An opening tag, angle-free text and a closing tag hold no other tag that starts differently. */
  lemma NoTagInElement(open: string, m: string, close: string, t: string)
    requires IsTag(open) && IsTag(close) && IsTag(t) && '<' !in m
    requires t[1] != open[1] && t[1] != close[1]
    ensures !Contains(open + m + close, t)
  {
    var s := open + m + close;
    forall j | 0 <= j < |s|
      ensures !OccursAt(s, t, j)
    {
      if j == 0 || j == |open| + |m| {
        assert s[j + 1] == if j == 0 then open[1] else close[1];
        if j + |t| <= |s| {
          assert s[j..j + |t|][1] == s[j + 1];
        }
      } else if j < |open| {
        assert s[j] == open[1..][j - 1];
        TagNotAt(s, t, j);
      } else if j < |open| + |m| {
        assert s[j] == m[j - |open|];
        TagNotAt(s, t, j);
      } else {
        assert s[j] == close[1..][j - |open| - |m| - 1];
        TagNotAt(s, t, j);
      }
    }
  }

  // ---------------------------------------------------------------------------
  // Round trips: what a server writes is what the parsers read
  // ---------------------------------------------------------------------------

  /** A value the server writes between two tags that the parsers read back unchanged. */
  predicate PlainText(v: string) {
    && '<' !in v
    && (|v| > 0 ==> !IsSpace(v[0]) && !IsSpace(v[|v| - 1]))
  }

  /** The `<oc:id>` element holding `id`. */
  function IdElement(id: string): string {
    IdOpen + id + IdClose
  }

  /** One response block per id. */
  function IdElements(ids: seq<string>): (r: seq<string>)
    ensures |r| == |ids|
  {
    seq(|ids|, k requires 0 <= k < |ids| => IdElement(ids[k]))
  }

  /** The id read back from an `<oc:id>` element is the id it holds. */
  lemma IdOfElement(id: string)
    requires PlainText(id)
    ensures Contains(IdElement(id), IdOpen) && IdOf(IdElement(id)) == id
  {
    TagsAreTags();
    assert IdElement(id) == "" + IdOpen + id + IdClose + "";
    BetweenTags("", IdOpen, id, IdClose, "");
    StripKeeps(id);
  }

  /** The ids read back from one `<oc:id>` element per id are those ids. */
  lemma IdsOfElements(ids: seq<string>)
    requires forall k :: 0 <= k < |ids| ==> PlainText(ids[k])
    ensures IdsIn(IdElements(ids)) == ids
  {
    var elems := IdElements(ids);
    forall k | 0 <= k < |elems|
      ensures Contains(elems[k], IdOpen) && IdOf(elems[k]) == ids[k]
    {
      IdOfElement(ids[k]);
    }
    IdsInEvery(elems, ids);
  }

  /** A head without `<d:response>` followed by `<oc:id>` elements splits back into those blocks. */
  lemma BlocksOfResponse(head: string, ids: seq<string>)
    requires !Contains(head, ResponseSep)
    requires forall k :: 0 <= k < |ids| ==> PlainText(ids[k])
    ensures Blocks(Join([head] + IdElements(ids), ResponseSep)) == [head] + IdElements(ids)
  {
    TagsAreTags();
    var blocks := [head] + IdElements(ids);
    forall k | 0 <= k < |blocks|
      ensures !Contains(blocks[k], ResponseSep)
    {
      if k > 0 {
        NoTagInElement(IdOpen, ids[k - 1], IdClose, ResponseSep);
      }
    }
    TagUnbordered(ResponseSep);
    SplitJoin(blocks, ResponseSep);
  }

  /**
    * A multistatus response made of a head without `<d:response>` or `<oc:id>`, followed by
    * one response per id, yields exactly those ids, in order.
    */
  lemma RelationsRoundTrip(head: string, ids: seq<string>)
    requires !Contains(head, ResponseSep) && !Contains(head, IdOpen)
    requires forall k :: 0 <= k < |ids| ==> PlainText(ids[k])
    ensures IdsIn(Blocks(Join([head] + IdElements(ids), ResponseSep))) == ids
  {
    BlocksOfResponse(head, ids);
    IdsInAppend([head], IdElements(ids));
    IdsInNone([head]);
    IdsOfElements(ids);
  }

  /** A character the server writes inside a path that the parser reads back unchanged. */
  predicate PlainChar(c: char) {
    c != '<' && !IsSpace(c)
  }

  /** A path component the server writes that the parser reads back unchanged. */
  predicate PlainComponent(c: string) {
    IsComponent(c) && forall i :: 0 <= i < |c| ==> PlainChar(c[i])
  }

  /** Components without '<' or whitespace, joined with '/', are plain text. */
  lemma JoinPlain(comps: Path)
    requires forall k :: 0 <= k < |comps| ==> PlainComponent(comps[k])
    ensures PlainText(Join(comps, "/"))
  {
    PlainSlash();
    assert forall k, i :: 0 <= k < |comps| && 0 <= i < |comps[k]| ==> PlainChar(comps[k][i]) by {
      forall k, i | 0 <= k < |comps| && 0 <= i < |comps[k]|
        ensures PlainChar(comps[k][i])
      {
        assert PlainComponent(comps[k]);
      }
    }
    JoinKeeps(comps, "/", PlainChar);
    PlainChars(Join(comps, "/"));
  }

  lemma PlainSlash()
    ensures forall i :: 0 <= i < |"/"| ==> PlainChar("/"[i])
  {
    PrintableNotSpace('/');
    forall i | 0 <= i < |"/"|
      ensures PlainChar("/"[i])
    {
      assert "/"[i] == '/';
    }
  }

  /** A string of plain characters is plain text. */
  lemma PlainChars(v: string)
    requires forall i :: 0 <= i < |v| ==> PlainChar(v[i])
    ensures PlainText(v)
  {
    assert '<' !in v by {
      forall i | 0 <= i < |v|
        ensures v[i] != '<'
      {
        assert PlainChar(v[i]);
      }
    }
    if |v| > 0 {
      assert PlainChar(v[0]) && PlainChar(v[|v| - 1]);
    }
  }

  /**
    * A successful response whose first `<oc:meta-path>` holds the components of a relative
    * path gives the local root extended by those components, and reports a folder exactly
    * when `<d:collection/>` appears.
    */
  lemma NodeMetaRoundTrip(status: int, pre: string, comps: Path, post: string, localRoot: Path)
    requires status < 400 && !Contains(pre, MetaPathOpen)
    requires forall k :: 0 <= k < |comps| ==> PlainComponent(comps[k])
    ensures var xml := pre + MetaPathOpen + Join(comps, "/") + MetaPathClose + post;
            NcNodeMeta(status, xml, localRoot) == Some(NodeMeta(localRoot + comps, Contains(xml, CollectionMarker)))
  {
    TagsAreTags();
    var rel := Join(comps, "/");
    JoinPlain(comps);
    StripKeeps(rel);
    BetweenTags(pre, MetaPathOpen, rel, MetaPathClose, post);
    JoinPathRoundTrip(localRoot, comps);
  }
}
