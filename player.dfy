/**
 * The `VideoPlayer` of video_player.py: one playback cursor (`isPlaying`,
 * `isPaused`, `currentlyPlaying`), the playlist registry `libraryPlaylists` and
 * the catalog `videoList`, whose videos only ever change their flag. Every
 * operation returns what the original prints, as an outcome value.
 */
module Player {
  import opened Wrappers
  import opened Text
  import opened Catalog
  import opened Playlists

  /** The reason `flag_video` records when the caller gives none. */
  const DefaultFlagReason: string := "Not supplied"

  /** What the playback operations report. */
  datatype PlaybackOutcome =
    | NoSuchVideo                                       // Cannot play video: Video does not exist
    | PlayRefused(reason: string)                       // Cannot play video: Video is currently flagged (reason: ...)
    | Started(stopped: Option<string>, title: string)   // [Stopping video: <stopped>] Playing video: <title>
    | NoVideosAvailable
    | StoppedVideo(title: string)                       // Stopping video: <title>
    | NothingPlaying                                    // ... No video is currently playing
    | AlreadyPaused(title: string)
    | PausedVideo(title: string)
    | ContinuedVideo(title: string)
    | NotPaused                                         // Cannot continue video: Video is not paused
    | NowPlaying(details: string, paused: bool)         // Currently playing: <details>[ - PAUSED]

  /** What the playlist operations report. */
  datatype PlaylistOutcome =
    | PlaylistMissing                                   // ...: Playlist does not exist
    | AlreadyExists
    | Created
    | VideoMissing                                      // ...: Video does not exist
    | VideoRefused(reason: string)                      // ...: Video is currently flagged (reason: ...)
    | AlreadyAdded
    | Added(title: string)
    | NotInPlaylist
    | Removed(title: string)
    | Cleared
    | Deleted
    | NoPlaylists                                       // No playlists exist yet
    | AllPlaylists(names: seq<string>)                  // Showing all playlists: ...
    | NoVideosYet                                       // Showing playlist: ... No videos here yet
    | PlaylistVideos(lines: seq<string>)                // Showing playlist: ... one line per video

  /** What `flag_video` and `allow_video` report. */
  datatype FlagOutcome =
    | FlagTargetMissing                                 // Cannot flag / remove flag from video: Video does not exist
    | AlreadyFlagged
    | NotFlagged
    | FlagSet(stop: Option<PlaybackOutcome>, title: string, reason: string)
    | FlagCleared(title: string)

  /** The playback cursor on its own, as `stop_video` and `flag_video` see it. */
  datatype Cursor = Cursor(isPlaying: bool, isPaused: bool, currentlyPlaying: Option<string>)

  /** `stop_video` as the original writes it: both flags are cleared and the title stays. */
  function StopAsWritten(c: Cursor): (r: (Cursor, PlaybackOutcome))
    requires (c.isPlaying || c.isPaused) ==> c.currentlyPlaying.Some?
    ensures !r.0.isPlaying && !r.0.isPaused
    ensures r.0.currentlyPlaying == c.currentlyPlaying
    ensures r.1 == NothingPlaying <==> !c.isPlaying && !c.isPaused
    ensures r.1 != NothingPlaying ==> r.1 == StoppedVideo(c.currentlyPlaying.value)
  {
    if !c.isPlaying && !c.isPaused then (c, NothingPlaying)
    else (c.(isPlaying := false, isPaused := false), StoppedVideo(c.currentlyPlaying.value))
  }

  /** The stop step of `flag_video` as written: `stop_video` runs when the cursor holds the title. */
  function FlagStopAsWritten(c: Cursor, title: string): (r: Option<PlaybackOutcome>)
    requires (c.isPlaying || c.isPaused) ==> c.currentlyPlaying.Some?
    ensures r.Some? <==> c.currentlyPlaying == Some(title)
    ensures r.Some? && !c.isPlaying && !c.isPaused ==> r == Some(NothingPlaying)
    ensures r.Some? && (c.isPlaying || c.isPaused) ==> r == Some(StoppedVideo(title))
  {
    if c.currentlyPlaying == Some(title) then Some(StopAsWritten(c).1) else None
  }

  /**
   * With the original `stop_video`, playing "A", stopping it and then flagging
   * it leaves a stopped cursor that still holds "A", so `flag_video` calls
   * `stop_video` again, which reports that nothing is playing.
   */
  lemma StaleTitleAfterStop()
    ensures var stopped := StopAsWritten(Cursor(true, false, Some("A"))).0;
      && !stopped.isPlaying && !stopped.isPaused && stopped.currentlyPlaying == Some("A")
      && FlagStopAsWritten(stopped, "A") == Some(NothingPlaying)
  {
  }

  /**
   * `lines` renders `ids` one to one, in order: each id names a catalog video
   * and its line is the details of the first video with that id (the one
   * `videoList.index` finds).
   */
  predicate RendersIds(lines: seq<string>, ids: seq<string>, vs: seq<Video>) {
    && |lines| == |ids|
    && forall j :: 0 <= j < |ids| ==>
         FindVideo(vs, ids[j]).Some? && lines[j] == Describe(vs[FindVideo(vs, ids[j]).value])
  }

  /**
   * Removing one entry keeps the registry part of `Valid()`: names distinct
   * after folding, every list duplicate-free and made of catalog ids; and the
   * removed name then matches no entry.
   */
  lemma DeleteKeepsRegistry(vs: seq<Video>, ps: seq<Playlist>, k: nat)
    requires k < |ps| && CaseDistinct(ps)
    requires forall q :: q in ps ==> DuplicateFree(q.videoIds)
    requires forall q, id :: q in ps && id in q.videoIds ==> HasId(vs, id)
    ensures CaseDistinct(ps[..k] + ps[k + 1..])
    ensures FindPlaylist(ps[..k] + ps[k + 1..], ps[k].name).None?
    ensures forall q :: q in ps[..k] + ps[k + 1..] ==> DuplicateFree(q.videoIds)
    ensures forall q, id :: q in ps[..k] + ps[k + 1..] && id in q.videoIds ==> HasId(vs, id)
  {
    DeleteKeepsCaseDistinct(ps, k);
  }

  /** Appending a catalog id that a playlist lacks keeps the registry invariants. */
  lemma AppendKeepsRegistry(vs: seq<Video>, ps: seq<Playlist>, k: nat, id: string)
    requires k < |ps| && CaseDistinct(ps) && HasId(vs, id) && id !in ps[k].videoIds
    requires forall q :: q in ps ==> DuplicateFree(q.videoIds)
    requires forall q, id :: q in ps && id in q.videoIds ==> HasId(vs, id)
    ensures CaseDistinct(ps[k := Playlist(ps[k].name, ps[k].videoIds + [id])])
    ensures forall q :: q in ps[k := Playlist(ps[k].name, ps[k].videoIds + [id])] ==> DuplicateFree(q.videoIds)
    ensures forall q, x :: q in ps[k := Playlist(ps[k].name, ps[k].videoIds + [id])] && x in q.videoIds ==> HasId(vs, x)
  {
    UpdateKeepsCaseDistinct(ps, k, ps[k].videoIds + [id]);
    AppendKeepsDuplicateFree(ps[k].videoIds, id);
  }

  /** The loop of `play_random_video` that gathers the unflagged videos in catalog order. */
  method CollectUnflagged(videos: seq<Video>) returns (pool: seq<Video>)
    ensures pool == Unflagged(videos)
  {
    pool := [];
    for i := 0 to |videos|
      invariant pool == Unflagged(videos[..i])
    {
      if videos[i].flag.None? {
        pool := pool + [videos[i]];
      }
      assert videos[..i + 1][..i] == videos[..i];
    }
    assert videos[..|videos|] == videos;
  }

  /** A pick from the unflagged pool is an unflagged catalog video, so its title is in the catalog. */
  lemma UnflaggedPick(vs: seq<Video>, k: nat)
    requires k < |Unflagged(vs)|
    ensures HasTitle(vs, Unflagged(vs)[k].title)
    ensures exists i :: 0 <= i < |vs| && vs[i].flag.None? && vs[i].title == Unflagged(vs)[k].title
  {
    assert Unflagged(vs)[k] in vs;
  }

  /** Rendering one more id extends the rendering by that video's line. */
  lemma RendersIdsSnoc(lines: seq<string>, ids: seq<string>, vs: seq<Video>, id: string)
    requires RendersIds(lines, ids, vs) && FindVideo(vs, id).Some?
    ensures RendersIds(lines + [Describe(vs[FindVideo(vs, id).value])], ids + [id], vs)
  {
    var ls := lines + [Describe(vs[FindVideo(vs, id).value])];
    forall j | 0 <= j < |ids| + 1
      ensures FindVideo(vs, (ids + [id])[j]).Some? && ls[j] == Describe(vs[FindVideo(vs, (ids + [id])[j]).value])
    {
      if j < |ids| {
        assert (ids + [id])[j] == ids[j] && ls[j] == lines[j];
      }
    }
  }

  /** The last position of `vs` whose title is `t` (the one `show_playing`'s loop keeps). */
  predicate IsLastWithTitle(vs: seq<Video>, t: string, k: int) {
    0 <= k < |vs| && vs[k].title == t && forall j :: k < j < |vs| ==> vs[j].title != t
  }

  class VideoPlayer {
    var videoList: seq<Video>
    var isPlaying: bool
    var isPaused: bool
    var currentlyPlaying: Option<string>
    var libraryPlaylists: seq<Playlist>

    /**
     * The player's invariant: ids are distinct; never both playing and paused;
     * the cursor holds a title exactly when playing or paused, and that title
     * belongs to a catalog video; playlist names are distinct once folded; every playlist
     * is duplicate-free and holds only ids of catalog videos.
     */
    ghost predicate Valid()
      reads this
    {
      && DistinctIds(videoList)
      && !(isPlaying && isPaused)
      && (currentlyPlaying.Some? <==> isPlaying || isPaused)
      && (currentlyPlaying.Some? ==> HasTitle(videoList, currentlyPlaying.value))
      && CaseDistinct(libraryPlaylists)
      && (forall q :: q in libraryPlaylists ==> DuplicateFree(q.videoIds))
      && (forall q, id :: q in libraryPlaylists && id in q.videoIds ==> HasId(videoList, id))
    }

    /** A stopped player over the given catalog, with no playlists. */
    constructor (catalog: seq<Video>)
      requires DistinctIds(catalog)
      ensures Valid()
      ensures videoList == catalog && libraryPlaylists == []
      ensures !isPlaying && !isPaused && currentlyPlaying == None
    {
      videoList := catalog;
      isPlaying := false;
      currentlyPlaying := None;
      isPaused := false;
      libraryPlaylists := [];
    }

    // ---------------------------------------------------------------- playback

    /**
     * `play_video`: refuses an unknown id, then a flagged video, touching
     * nothing; otherwise plays the video, reporting the previous title when
     * something was playing or paused.
     */
    method PlayVideo(videoId: string) returns (out: PlaybackOutcome)
      requires Valid()
      modifies this`isPlaying, this`isPaused, this`currentlyPlaying
      ensures Valid()
      ensures match FindVideo(videoList, videoId)
        case None => out == NoSuchVideo && unchanged(this)
        case Some(k) =>
          if videoList[k].flag.Some? then
            out == PlayRefused(videoList[k].flag.value) && unchanged(this)
          else
            && out == Started(if old(isPlaying || isPaused) then old(currentlyPlaying) else None, videoList[k].title)
            && isPlaying && !isPaused && currentlyPlaying == Some(videoList[k].title)
    {
      var found := FindVideo(videoList, videoId);
      if found.None? {
        return NoSuchVideo;
      }
      var video := videoList[found.value];
      if video.flag.Some? {
        return PlayRefused(video.flag.value);
      }
      var stopped := None;
      if isPlaying || isPaused {
        stopped := currentlyPlaying;
      }
      out := Started(stopped, video.title);
      currentlyPlaying := Some(video.title);
      isPlaying := true;
      isPaused := false;
    }

    /**
     * `stop_video`, corrected: with nothing playing or paused it changes
     * nothing; otherwise it stops and also drops the title, which the original
     * leaves in place (see `StaleTitleAfterStop` for what that costs).
     */
    method StopVideo() returns (out: PlaybackOutcome)
      requires Valid()
      modifies this`isPlaying, this`isPaused, this`currentlyPlaying
      ensures Valid()
      ensures old(!isPlaying && !isPaused) ==> out == NothingPlaying && unchanged(this)
      ensures old(isPlaying || isPaused) ==>
        && out == StoppedVideo(old(currentlyPlaying).value)
        && !isPlaying && !isPaused && currentlyPlaying == None
    {
      if !isPlaying && !isPaused {
        out := NothingPlaying;
      } else {
        out := StoppedVideo(currentlyPlaying.value);
        isPlaying := false;
        isPaused := false;
        currentlyPlaying := None;
      }
    }

    /**
     * `play_random_video`: the pool is the unflagged videos in catalog order;
     * an empty pool changes nothing, otherwise the video at `roll` (reduced to
     * the pool's size; the original draws it with `randint`) is played. Only a
     * PLAYING video is reported as stopped, not a paused one.
     */
    method PlayRandomVideo(roll: nat) returns (out: PlaybackOutcome)
      requires Valid()
      modifies this`isPlaying, this`isPaused, this`currentlyPlaying
      ensures Valid()
      ensures var pool := Unflagged(videoList);
        if pool == [] then
          out == NoVideosAvailable && unchanged(this)
        else
          var title := pool[roll % |pool|].title;
          && out == Started(if old(isPlaying) then old(currentlyPlaying) else None, title)
          && isPlaying && !isPaused && currentlyPlaying == Some(title)
      ensures out.Started? ==> exists i :: 0 <= i < |videoList| && videoList[i].flag.None? && videoList[i].title == out.title
    {
      var videos := videoList;
      var pool := CollectUnflagged(videos);
      if |pool| == 0 {
        return NoVideosAvailable;
      }
      var chosen := pool[roll % |pool|];
      UnflaggedPick(videos, roll % |pool|);
      var stopped := None;
      if isPlaying {
        stopped := currentlyPlaying;
      }
      out := Started(stopped, chosen.title);
      currentlyPlaying := Some(chosen.title);
      isPlaying := true;
      isPaused := false;
    }

    /** `pause_video`: "already paused" is checked first, then "playing", else nothing is playing. */
    method PauseVideo() returns (out: PlaybackOutcome)
      requires Valid()
      modifies this`isPlaying, this`isPaused
      ensures Valid()
      ensures old(isPaused) ==> out == AlreadyPaused(currentlyPlaying.value) && unchanged(this)
      ensures old(!isPaused && isPlaying) ==> out == PausedVideo(currentlyPlaying.value) && !isPlaying && isPaused
      ensures old(!isPaused && !isPlaying) ==> out == NothingPlaying && unchanged(this)
    {
      if isPaused {
        out := AlreadyPaused(currentlyPlaying.value);
      } else if isPlaying {
        out := PausedVideo(currentlyPlaying.value);
        isPlaying := false;
        isPaused := true;
      } else {
        out := NothingPlaying;
      }
    }

    /** `continue_video`: resumes a paused video; from stopped or playing it changes nothing. */
    method ContinueVideo() returns (out: PlaybackOutcome)
      requires Valid()
      modifies this`isPlaying, this`isPaused
      ensures Valid()
      ensures old(isPaused) ==> out == ContinuedVideo(currentlyPlaying.value) && isPlaying && !isPaused
      ensures old(!isPaused && !isPlaying) ==> out == NothingPlaying && unchanged(this)
      ensures old(!isPaused && isPlaying) ==> out == NotPaused && unchanged(this)
    {
      if isPaused {
        out := ContinuedVideo(currentlyPlaying.value);
        isPaused := false;
        isPlaying := true;
      } else if !isPlaying {
        out := NothingPlaying;
      } else {
        out := NotPaused;
      }
    }

    /**
     * `show_playing`: with nothing playing or paused it says so; otherwise it
     * renders the LAST catalog video whose title is the current one, marked
     * when paused.
     */
    method ShowPlaying() returns (out: PlaybackOutcome)
      requires Valid()
      ensures !isPlaying && !isPaused ==> out == NothingPlaying
      ensures isPlaying || isPaused ==>
        && out.NowPlaying? && out.paused == isPaused
        && exists k :: IsLastWithTitle(videoList, currentlyPlaying.value, k) && out.details == Describe(videoList[k])
    {
      if !isPlaying && !isPaused {
        return NothingPlaying;
      }
      var videos := videoList;
      var title := currentlyPlaying.value;
      var current := "";
      ghost var at := -1;
      for i := 0 to |videos|
        invariant -1 <= at < i
        invariant at >= 0 ==> videos[at].title == title && current == Describe(videos[at])
        invariant forall j :: at < j < i ==> videos[j].title != title
      {
        if videos[i].title == title {
          current := Describe(videos[i]);
          at := i;
        }
      }
      assert IsLastWithTitle(videos, title, at);
      out := NowPlaying(current, isPaused);
    }

    // ---------------------------------------------------------------- playlists

    /**
     * `create_playlist`: refused when the folded name matches a stored one;
     * otherwise exactly one entry, with the given casing and no videos, is added.
     */
    method CreatePlaylist(name: string) returns (out: PlaylistOutcome)
      requires Valid()
      modifies this`libraryPlaylists
      ensures Valid()
      ensures FindPlaylist(old(libraryPlaylists), name).Some? ==>
        out == AlreadyExists && unchanged(this)
      ensures FindPlaylist(old(libraryPlaylists), name).None? ==>
        out == Created && libraryPlaylists == old(libraryPlaylists) + [Playlist(name, [])]
    {
      if |libraryPlaylists| == 0 {
        CreateKeepsCaseDistinct(libraryPlaylists, name);
        libraryPlaylists := libraryPlaylists + [Playlist(name, [])];
        out := Created;
      } else if FindPlaylist(libraryPlaylists, name).Some? {
        out := AlreadyExists;
      } else {
        CreateKeepsCaseDistinct(libraryPlaylists, name);
        libraryPlaylists := libraryPlaylists + [Playlist(name, [])];
        out := Created;
      }
    }

    /**
     * `add_to_playlist`: fails, in this order, on a missing playlist, a missing
     * video, a flagged video, an id already in the list; otherwise appends the
     * id to the matching playlist and to no other.
     */
    method AddToPlaylist(name: string, videoId: string) returns (out: PlaylistOutcome)
      requires Valid()
      modifies this`libraryPlaylists
      ensures Valid()
      ensures match FindPlaylist(old(libraryPlaylists), name)
        case None => out == PlaylistMissing && unchanged(this)
        case Some(p) =>
          match FindVideo(videoList, videoId)
          case None => out == VideoMissing && unchanged(this)
          case Some(k) =>
            if videoList[k].flag.Some? then
              out == VideoRefused(videoList[k].flag.value) && unchanged(this)
            else if videoId in old(libraryPlaylists)[p].videoIds then
              out == AlreadyAdded && unchanged(this)
            else
              var entry := old(libraryPlaylists)[p];
              && out == Added(videoList[k].title)
              && libraryPlaylists == old(libraryPlaylists)[p := Playlist(entry.name, entry.videoIds + [videoId])]
    {
      var video := FindVideo(videoList, videoId);
      var found := FindPlaylist(libraryPlaylists, name);
      if |libraryPlaylists| == 0 || found.None? {
        return PlaylistMissing;
      }
      if video.None? {
        return VideoMissing;
      }
      var v := videoList[video.value];
      if v.flag.Some? {
        return VideoRefused(v.flag.value);
      }
      if videoId in libraryPlaylists[found.value].videoIds {
        return AlreadyAdded;
      }
      ghost var entries := libraryPlaylists;
      ghost var p := found.value;
      ghost var updated := Playlist(entries[p].name, entries[p].videoIds + [videoId]);
      var i := 0;
      while i < |libraryPlaylists|
        invariant 0 <= i <= |libraryPlaylists| == |entries|
        invariant libraryPlaylists == if i <= p then entries else entries[p := updated]
      {
        if SameName(libraryPlaylists[i].name, name) {
          FindPlaylistUnique(entries, name, i);
          libraryPlaylists := libraryPlaylists[i := Playlist(libraryPlaylists[i].name, libraryPlaylists[i].videoIds + [videoId])];
        }
        i := i + 1;
      }
      AppendKeepsRegistry(videoList, entries, p, videoId);
      out := Added(v.title);
    }

    /**
     * `show_all_playlists`: "none yet" exactly when the registry is empty;
     * otherwise every stored name, with its stored casing, sorted by fold.
     */
    method ShowAllPlaylists() returns (out: PlaylistOutcome)
      requires Valid()
      ensures libraryPlaylists == [] <==> out == NoPlaylists
      ensures libraryPlaylists != [] ==>
        && out.AllPlaylists?
        && SortedByFold(out.names)
        && multiset(out.names) == multiset(Names(libraryPlaylists))
      ensures out.AllPlaylists? ==>
        forall s :: SortedByFold(s) && multiset(s) == multiset(Names(libraryPlaylists)) ==> s == out.names
    {
      if |libraryPlaylists| == 0 {
        out := NoPlaylists;
      } else {
        out := AllPlaylists(SortByFold(Names(libraryPlaylists)));
        CaseDistinctFoldInjective(libraryPlaylists);
        forall s | SortedByFold(s) && multiset(s) == multiset(Names(libraryPlaylists))
          ensures s == out.names
        {
          SortedByFoldUnique(s, out.names);
        }
      }
    }

    /**
     * `show_playlist`: a missing playlist, an empty one ("no videos here yet"),
     * or one rendered line per id, in list order.
     */
    method ShowPlaylist(name: string) returns (out: PlaylistOutcome)
      requires Valid()
      ensures match FindPlaylist(libraryPlaylists, name)
        case None => out == PlaylistMissing
        case Some(p) =>
          var ids := libraryPlaylists[p].videoIds;
          if ids == [] then out == NoVideosYet
          else
            out.PlaylistVideos? && RendersIds(out.lines, ids, videoList)
    {
      var found := FindPlaylist(libraryPlaylists, name);
      if found.None? {
        return PlaylistMissing;
      }
      var ids := libraryPlaylists[found.value].videoIds;
      if |ids| == 0 {
        return NoVideosYet;
      }
      var videos := videoList;
      var lines: seq<string> := [];
      for j := 0 to |ids|
        invariant RendersIds(lines, ids[..j], videos)
      {
        assert libraryPlaylists[found.value] in libraryPlaylists && ids[j] in ids;
        var k := FindVideo(videos, ids[j]);
        RendersIdsSnoc(lines, ids[..j], videos, ids[j]);
        lines := lines + [Describe(videos[k.value])];
        assert ids[..j + 1] == ids[..j] + [ids[j]];
      }
      assert ids[..|ids|] == ids;
      out := PlaylistVideos(lines);
    }

    /**
     * `remove_from_playlist`: fails, in this order, on a missing playlist, a
     * missing video, an id not in the list; otherwise removes the id from the
     * matching playlist and from no other.
     */
    method RemoveFromPlaylist(name: string, videoId: string) returns (out: PlaylistOutcome)
      requires Valid()
      modifies this`libraryPlaylists
      ensures Valid()
      ensures match FindPlaylist(old(libraryPlaylists), name)
        case None => out == PlaylistMissing && unchanged(this)
        case Some(p) =>
          match FindVideo(videoList, videoId)
          case None => out == VideoMissing && unchanged(this)
          case Some(k) =>
            if videoId !in old(libraryPlaylists)[p].videoIds then
              out == NotInPlaylist && unchanged(this)
            else
              var entry := old(libraryPlaylists)[p];
              && out == Removed(videoList[k].title)
              && libraryPlaylists == old(libraryPlaylists)[p := Playlist(entry.name, RemoveFirst(entry.videoIds, videoId))]
              && videoId !in libraryPlaylists[p].videoIds
    {
      var found := FindPlaylist(libraryPlaylists, name);
      if found.None? {
        return PlaylistMissing;
      }
      var video := FindVideo(videoList, videoId);
      if video.None? {
        return VideoMissing;
      }
      if videoId !in libraryPlaylists[found.value].videoIds {
        return NotInPlaylist;
      }
      ghost var entries := libraryPlaylists;
      ghost var p := found.value;
      ghost var updated := Playlist(entries[p].name, RemoveFirst(entries[p].videoIds, videoId));
      var i := 0;
      while i < |libraryPlaylists|
        invariant 0 <= i <= |libraryPlaylists| == |entries|
        invariant libraryPlaylists == if i <= p then entries else entries[p := updated]
      {
        if SameName(libraryPlaylists[i].name, name) {
          FindPlaylistUnique(entries, name, i);
          libraryPlaylists := libraryPlaylists[i := Playlist(libraryPlaylists[i].name, RemoveFirst(libraryPlaylists[i].videoIds, videoId))];
        }
        i := i + 1;
      }
      UpdateKeepsCaseDistinct(entries, p, updated.videoIds);
      RemoveFirstDuplicateFree(entries[p].videoIds, videoId);
      out := Removed(videoList[video.value].title);
    }

    /** `clear_playlist`: a missing playlist changes nothing; otherwise the list is emptied and the name kept. */
    method ClearPlaylist(name: string) returns (out: PlaylistOutcome)
      requires Valid()
      modifies this`libraryPlaylists
      ensures Valid()
      ensures match FindPlaylist(old(libraryPlaylists), name)
        case None => out == PlaylistMissing && unchanged(this)
        case Some(p) =>
          && out == Cleared
          && libraryPlaylists == old(libraryPlaylists)[p := Playlist(old(libraryPlaylists)[p].name, [])]
    {
      var found := FindPlaylist(libraryPlaylists, name);
      if found.None? {
        return PlaylistMissing;
      }
      ghost var entries := libraryPlaylists;
      ghost var p := found.value;
      var i := 0;
      while i < |libraryPlaylists|
        invariant 0 <= i <= |libraryPlaylists| == |entries|
        invariant libraryPlaylists == if i <= p then entries else entries[p := Playlist(entries[p].name, [])]
      {
        if SameName(libraryPlaylists[i].name, name) {
          FindPlaylistUnique(entries, name, i);
          libraryPlaylists := libraryPlaylists[i := Playlist(libraryPlaylists[i].name, [])];
        }
        i := i + 1;
      }
      UpdateKeepsCaseDistinct(entries, p, []);
      out := Cleared;
    }

    /** `delete_playlist`: a missing playlist changes nothing; otherwise exactly the matching entry goes. */
    method DeletePlaylist(name: string) returns (out: PlaylistOutcome)
      requires Valid()
      modifies this`libraryPlaylists
      ensures Valid()
      ensures match FindPlaylist(old(libraryPlaylists), name)
        case None => out == PlaylistMissing && unchanged(this)
        case Some(p) =>
          && out == Deleted
          && libraryPlaylists == old(libraryPlaylists)[..p] + old(libraryPlaylists)[p + 1..]
          && FindPlaylist(libraryPlaylists, name).None?
    {
      var found := FindPlaylist(libraryPlaylists, name);
      if found.None? {
        return PlaylistMissing;
      }
      ghost var entries := libraryPlaylists;
      ghost var p := found.value;
      var i := 0;
      while i < |libraryPlaylists|
        invariant 0 <= i <= p
        invariant libraryPlaylists == entries
      {
        if SameName(libraryPlaylists[i].name, name) {
          FindPlaylistUnique(entries, name, i);
          DeleteKeepsRegistry(videoList, entries, i);
          FindPlaylistIgnoresCase(entries[..i] + entries[i + 1..], entries[i].name, name);
          libraryPlaylists := libraryPlaylists[..i] + libraryPlaylists[i + 1..];
          break;
        }
        i := i + 1;
      }
      out := Deleted;
    }

    // ---------------------------------------------------------------- search

    /**
     * The filter of `search_videos`: the titles, in catalog order, of the
     * unflagged videos whose folded title contains the folded term, among all
     * but the last video of `videoList`.
     */
    method SearchVideos(term: string) returns (found: seq<string>)
      ensures found == TitleHits(SearchScope(videoList), term)
      ensures forall t :: t in found <==>
        exists i :: 0 <= i < |videoList| - 1 && videoList[i].title == t && TitleHit(videoList[i], term)
    {
      var videos := videoList;
      var scanned := if |videos| > 0 then |videos| - 1 else 0;
      found := [];
      for i := 0 to scanned
        invariant found == TitleHits(videos[..i], term)
      {
        if TitleHit(videos[i], term) {
          found := found + [videos[i].title];
        }
        assert videos[..i + 1][..i] == videos[..i];
      }
      assert videos[..scanned] == SearchScope(videos);
    }

    /**
     * The filter of `search_videos_tag`: the titles, in catalog order, of the
     * unflagged videos one of whose tags equals the tag after folding both,
     * among all but the last video of `videoList`.
     */
    method SearchVideosTag(tag: string) returns (found: seq<string>)
      ensures found == TagHits(SearchScope(videoList), tag)
      ensures forall t :: t in found <==>
        exists i :: 0 <= i < |videoList| - 1 && videoList[i].title == t && TagHit(videoList[i], tag)
    {
      var videos := videoList;
      var scanned := if |videos| > 0 then |videos| - 1 else 0;
      found := [];
      for i := 0 to scanned
        invariant found == TagHits(videos[..i], tag)
      {
        if TagHit(videos[i], tag) {
          found := found + [videos[i].title];
        }
        assert videos[..i + 1][..i] == videos[..i];
      }
      assert videos[..scanned] == SearchScope(videos);
    }

    // ---------------------------------------------------------------- moderation

    /**
     * `flag_video`: fails on an unknown id, then on a video already flagged;
     * otherwise sets that video's flag and no other. When the cursor holds the
     * video's title, the player is playing or paused a video with that title
     * and is stopped first.
     */
    method FlagVideo(videoId: string, reason: Option<string>) returns (out: FlagOutcome)
      requires Valid()
      modifies this
      ensures Valid()
      ensures match FindVideo(old(videoList), videoId)
        case None => out == FlagTargetMissing && unchanged(this)
        case Some(k) =>
          var v := old(videoList)[k];
          var r := reason.GetOr(DefaultFlagReason);
          if v.flag.Some? then
            out == AlreadyFlagged && unchanged(this)
          else
            && videoList == old(videoList)[k := v.(flag := Some(r))]
            && libraryPlaylists == old(libraryPlaylists)
            && if old(currentlyPlaying) == Some(v.title) then
                 && !isPlaying && !isPaused && currentlyPlaying == None
                 && out == FlagSet(Some(StoppedVideo(v.title)), v.title, r)
               else
                 && isPlaying == old(isPlaying) && isPaused == old(isPaused)
                 && currentlyPlaying == old(currentlyPlaying)
                 && out == FlagSet(None, v.title, r)
    {
      var found := FindVideo(videoList, videoId);
      if found.None? {
        return FlagTargetMissing;
      }
      var v := videoList[found.value];
      if v.flag.Some? {
        return AlreadyFlagged;
      }
      var stop := None;
      if currentlyPlaying == Some(v.title) {
        var s := StopVideo();
        stop := Some(s);
      }
      var r := reason.GetOr(DefaultFlagReason);
      ghost var before := videoList;
      videoList := videoList[found.value := v.(flag := Some(r))];
      SameExceptFlagsKeepsEntries(before, videoList);
      out := FlagSet(stop, v.title, r);
    }

    /**
     * `allow_video`: fails on an unknown id, then on a video that is not
     * flagged; otherwise clears that video's flag and changes nothing else.
     */
    method AllowVideo(videoId: string) returns (out: FlagOutcome)
      requires Valid()
      modifies this`videoList
      ensures Valid()
      ensures match FindVideo(old(videoList), videoId)
        case None => out == FlagTargetMissing && unchanged(this)
        case Some(k) =>
          var v := old(videoList)[k];
          if v.flag.None? then
            out == NotFlagged && unchanged(this)
          else
            out == FlagCleared(v.title) && videoList == old(videoList)[k := v.(flag := None)]
    {
      var found := FindVideo(videoList, videoId);
      if found.None? {
        return FlagTargetMissing;
      }
      var v := videoList[found.value];
      if v.flag.None? {
        return NotFlagged;
      }
      out := FlagCleared(v.title);
      ghost var before := videoList;
      videoList := videoList[found.value := v.(flag := None)];
      SameExceptFlagsKeepsEntries(before, videoList);
    }
  }
}
