/**
 * The video catalog: the `Video` records the library supplies, the lookup by id
 * (`get_video`), the one-line rendering (`display_video_details`) and the
 * flag-aware views the player builds over `videoList` (the unflagged pool of
 * `play_random_video` and the filters of `search_videos` / `search_videos_tag`).
 */
module Catalog {
  import opened Wrappers
  import opened Text

  /** A catalog entry. Only `flag` ever changes; `None` means the video is allowed. */
  datatype Video = Video(id: string, title: string, tags: seq<string>, flag: Option<string>)

  /** No two catalog entries share an id (the library is a dictionary keyed by id). */
  predicate DistinctIds(vs: seq<Video>) {
    forall i, j :: 0 <= i < j < |vs| ==> vs[i].id != vs[j].id
  }

  predicate HasId(vs: seq<Video>, id: string) {
    exists i :: 0 <= i < |vs| && vs[i].id == id
  }

  predicate HasTitle(vs: seq<Video>, title: string) {
    exists i :: 0 <= i < |vs| && vs[i].title == title
  }

  /**
   * `get_video(id)`: the position of the video with that id, or `None` when the
   * catalog has no such video.
   */
  function FindVideo(vs: seq<Video>, id: string): (r: Option<nat>)
    ensures r.None? <==> !HasId(vs, id)
    ensures r.Some? ==> r.value < |vs| && vs[r.value].id == id
    ensures r.Some? ==> forall j :: 0 <= j < r.value ==> vs[j].id != id
  {
    if vs == [] then None
    else if vs[0].id == id then Some(0)
    else
      match FindVideo(vs[1..], id)
      case None =>
        assert forall j :: 1 <= j < |vs| ==> vs[j] == vs[1..][j - 1];
        None
      case Some(k) => Some(k + 1)
  }

  /** With distinct ids, the position FindVideo gives is the only one holding that id. */
  lemma FindVideoUnique(vs: seq<Video>, id: string, j: nat)
    requires DistinctIds(vs) && j < |vs| && vs[j].id == id
    ensures FindVideo(vs, id) == Some(j)
  {
  }

  /** Two catalog states that differ at most in the flags of their videos. */
  predicate SameExceptFlags(a: seq<Video>, b: seq<Video>) {
    |a| == |b| &&
    forall i :: 0 <= i < |a| ==> a[i].id == b[i].id && a[i].title == b[i].title && a[i].tags == b[i].tags
  }

  /** Changing flags changes neither which ids nor which titles the catalog holds. */
  lemma SameExceptFlagsKeepsEntries(a: seq<Video>, b: seq<Video>)
    requires SameExceptFlags(a, b)
    ensures DistinctIds(a) <==> DistinctIds(b)
    ensures forall id :: HasId(a, id) <==> HasId(b, id)
    ensures forall t :: HasTitle(a, t) <==> HasTitle(b, t)
    ensures forall id :: FindVideo(a, id) == FindVideo(b, id)
  {
  }

  /** `title (id) [tag1 tag2 ...]`, the unflagged rendering of a video. */
  function Details(v: Video): string {
    v.title + " (" + v.id + ") [" + Join(v.tags, " ") + "]"
  }

  /** The suffix flagged videos get. */
  function FlagNote(reason: string): string {
    " - FLAGGED (reason: " + reason + ")"
  }

  /**
   * `display_video_details`: the details line, followed by the flag note exactly
   * when the video is flagged.
   */
  function Describe(v: Video): (r: string)
    ensures IsPrefix(v.title + " (" + v.id + ") [", r)
    ensures IsPrefix(Details(v), r)
    ensures v.flag.None? ==> r == Details(v) && r[|r| - 1] == ']'
    ensures v.flag.Some? ==> r[|Details(v)|..] == FlagNote(v.flag.value)
  {
    var head := v.title + " (" + v.id + ") [";
    var d := Details(v);
    assert d == head + (Join(v.tags, " ") + "]");
    assert d[..|head|] == head;
    match v.flag
    case None => d
    case Some(reason) =>
      assert (d + FlagNote(reason))[..|d|] == d;
      d + FlagNote(reason)
  }

  /** Flagging a video only appends the flag note to its rendering; allowing it removes it again. */
  lemma DescribeFlagged(v: Video, reason: string)
    ensures Describe(v.(flag := Some(reason))) == Describe(v.(flag := None)) + FlagNote(reason)
  {
  }

  /** Where the tags begin in the rendering: after `title (id) [`. */
  function TagsStart(v: Video): nat {
    |v.title| + |v.id| + 5
  }

  /** Where the closing bracket of the tag list stands. */
  function TagsEnd(v: Video): nat {
    TagsStart(v) + JoinedLength(v.tags, " ")
  }

  /**
   * The layout of the `display_video_details` line: the title from the start,
   * the id in parentheses after it, every tag in stored order inside the
   * brackets with one space between neighbours, and after the closing bracket
   * the flag note, which is there exactly when the video is flagged.
   */
  lemma DescribeLayout(v: Video)
    ensures |Describe(v)| == TagsEnd(v) + 1 + (if v.flag.Some? then |FlagNote(v.flag.value)| else 0)
    ensures Describe(v)[..|v.title|] == v.title
    ensures Describe(v)[|v.title|..|v.title| + 2] == " ("
    ensures Describe(v)[|v.title| + 2..|v.title| + 2 + |v.id|] == v.id
    ensures Describe(v)[|v.title| + 2 + |v.id|..TagsStart(v)] == ") ["
    ensures PartsAt(Describe(v), TagsStart(v), v.tags, " ")
    ensures SepsAt(Describe(v), TagsStart(v), v.tags, " ")
    ensures Describe(v)[TagsEnd(v)] == ']'
    ensures v.flag.None? <==> |Describe(v)| == TagsEnd(v) + 1
    ensures v.flag.Some? ==> Describe(v)[TagsEnd(v) + 1..] == FlagNote(v.flag.value)
  {
    DescribeFront(v);
    DescribeTail(v);
    DescribeSplit(v);
    JoinInside(Describe(v), v.title + " (" + v.id + ") [", v.tags, " ",
      "]" + (if v.flag.Some? then FlagNote(v.flag.value) else ""));
  }

  /** The rendering starts with the title, then the id in parentheses, then the opening bracket. */
  lemma DescribeFront(v: Video)
    ensures TagsStart(v) <= |Describe(v)|
    ensures Describe(v)[..|v.title|] == v.title
    ensures Describe(v)[|v.title|..|v.title| + 2] == " ("
    ensures Describe(v)[|v.title| + 2..|v.title| + 2 + |v.id|] == v.id
    ensures Describe(v)[|v.title| + 2 + |v.id|..TagsStart(v)] == ") ["
  {
    var rest := Join(v.tags, " ") + ("]" + (if v.flag.Some? then FlagNote(v.flag.value) else ""));
    DescribeSplit(v);
    DescribeHead(v.title, v.id, rest);
  }

  /** The rendering is `title (id) [` followed by the tags, the bracket and the note. */
  lemma DescribeSplit(v: Video)
    ensures Describe(v) == v.title + " (" + v.id + ") [" +
      (Join(v.tags, " ") + ("]" + (if v.flag.Some? then FlagNote(v.flag.value) else "")))
    ensures |v.title + " (" + v.id + ") ["| == TagsStart(v)
    ensures |Join(v.tags, " ")| == JoinedLength(v.tags, " ")
  {
    JoinLength(v.tags, " ");
  }

  /** After the joined tags: the closing bracket, then the flag note exactly when flagged. */
  lemma DescribeTail(v: Video)
    ensures |Describe(v)| == TagsEnd(v) + 1 + (if v.flag.Some? then |FlagNote(v.flag.value)| else 0)
    ensures Describe(v)[TagsEnd(v)] == ']'
    ensures v.flag.None? <==> |Describe(v)| == TagsEnd(v) + 1
    ensures v.flag.Some? ==> Describe(v)[TagsEnd(v) + 1..] == FlagNote(v.flag.value)
  {
    var j := Join(v.tags, " ");
    var head := v.title + " (" + v.id + ") [";
    var note := if v.flag.Some? then FlagNote(v.flag.value) else "";
    var rest := j + ("]" + note);
    DescribeSplit(v);
    assert rest[|j|] == ']';
    assert (head + rest)[|head| + |j|] == rest[|j|];
    SliceRight(head + j + "]", note, 0, |note|);
    assert head + rest == head + j + "]" + note;
  }

  /** The fixed part before the tags: `title (id) [`. */
  lemma DescribeHead(title: string, id: string, rest: string)
    ensures (title + " (" + id + ") [" + rest)[..|title|] == title
    ensures (title + " (" + id + ") [" + rest)[|title|..|title| + 2] == " ("
    ensures (title + " (" + id + ") [" + rest)[|title| + 2..|title| + 2 + |id|] == id
    ensures (title + " (" + id + ") [" + rest)[|title| + 2 + |id|..|title| + |id| + 5] == ") ["
  {
    var tail := " (" + (id + (") [" + rest));
    assert title + " (" + id + ") [" + rest == title + tail;
    SliceLeft(title, tail, 0, |title|);
    SliceRight(title, tail, 0, 2);
    SliceRight(title + " (", id + (") [" + rest), 0, |id|);
    SliceRight(title + " (" + id, ") [" + rest, 0, 3);
  }

  /** The videos whose flag is `None`, in catalog order (the pool of `play_random_video`). */
  function Unflagged(vs: seq<Video>): (r: seq<Video>)
    ensures forall v :: v in r <==> v in vs && v.flag.None?
    ensures |r| <= |vs|
  {
    if vs == [] then []
    else
      var init := vs[..|vs| - 1];
      var last := vs[|vs| - 1];
      assert vs == init + [last];
      Unflagged(init) + (if last.flag.None? then [last] else [])
  }

  /** The pool is empty exactly when every video carries a flag. */
  lemma UnflaggedEmptyIffAllFlagged(vs: seq<Video>)
    ensures Unflagged(vs) == [] <==> forall i :: 0 <= i < |vs| ==> vs[i].flag.Some?
  {
  }

  /** The test of `search_videos`: unflagged, and the folded term occurs in the folded title. */
  predicate TitleHit(v: Video, term: string) {
    Contains(Lower(term), Lower(v.title)) && v.flag.None?
  }

  /** The test of `search_videos_tag`: unflagged, and some tag equals the tag after folding both. */
  predicate TagHit(v: Video, tag: string) {
    (exists j :: 0 <= j < |v.tags| && Lower(v.tags[j]) == Lower(tag)) && v.flag.None?
  }

  /** The titles of the videos of `vs` that match `term`, in catalog order. */
  function TitleHits(vs: seq<Video>, term: string): (r: seq<string>)
    ensures |r| <= |vs|
    ensures forall t :: t in r <==> exists i :: 0 <= i < |vs| && vs[i].title == t && TitleHit(vs[i], term)
  {
    if vs == [] then []
    else
      var init := vs[..|vs| - 1];
      var last := vs[|vs| - 1];
      assert forall i :: 0 <= i < |init| ==> init[i] == vs[i];
      TitleHits(init, term) + (if TitleHit(last, term) then [last.title] else [])
  }

  /** The titles of the videos of `vs` that carry `tag`, in catalog order. */
  function TagHits(vs: seq<Video>, tag: string): (r: seq<string>)
    ensures |r| <= |vs|
    ensures forall t :: t in r <==> exists i :: 0 <= i < |vs| && vs[i].title == t && TagHit(vs[i], tag)
  {
    if vs == [] then []
    else
      var init := vs[..|vs| - 1];
      var last := vs[|vs| - 1];
      assert forall i :: 0 <= i < |init| ==> init[i] == vs[i];
      TagHits(init, tag) + (if TagHit(last, tag) then [last.title] else [])
  }

  /**
   * The part of `videoList` the two searches examine: `range(len(videoList) - 1)`
   * stops one short of the end, so the last video is never looked at.
   */
  function SearchScope(vs: seq<Video>): (r: seq<Video>)
    ensures |vs| > 0 ==> |r| == |vs| - 1
    ensures |vs| == 0 ==> r == []
    ensures forall i :: 0 <= i < |r| ==> r[i] == vs[i]
  {
    if |vs| == 0 then [] else vs[..|vs| - 1]
  }

  /** Whatever the last video is, the search results are the same. */
  lemma SearchIgnoresLast(vs: seq<Video>, a: Video, b: Video, term: string)
    ensures TitleHits(SearchScope(vs + [a]), term) == TitleHits(SearchScope(vs + [b]), term)
    ensures TagHits(SearchScope(vs + [a]), term) == TagHits(SearchScope(vs + [b]), term)
  {
  }

  /** A catalog whose only match is its last video gives no results. */
  lemma SearchMissesOnlyMatchAtEnd()
    ensures var v := Video("v", "Cats", ["#cat"], None);
      && TitleHit(v, "cat") && TagHit(v, "#CAT")
      && TitleHits(SearchScope([v]), "cat") == []
      && TagHits(SearchScope([v]), "#CAT") == []
  {
    var v := Video("v", "Cats", ["#cat"], None);
    assert IsPrefix(Lower("cat"), Lower(v.title)[0..]);
    ContainsIffOccurs(Lower("cat"), Lower(v.title));
    assert Lower(v.tags[0]) == Lower("#CAT");
  }
}
