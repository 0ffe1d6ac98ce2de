/**
 * Client code that uses only the contracts of `VideoPlayer`: walks through a
 * session and asserts what each call must report.
 */
module Scenarios {
  import opened Wrappers
  import opened Catalog
  import opened Playlists
  import opened Player

  /** A flagged video cannot interrupt a paused one; continuing resumes the paused video. */
  method PauseSurvivesRefusedPlay() {
    var a := Video("a1", "A", ["#x"], None);
    var b := Video("b1", "B", [], Some("bad"));
    var player := new VideoPlayer([a, b]);
    assert FindVideo([a, b], "a1") == Some(0);
    assert FindVideo([a, b], "b1") == Some(1);
    var o := player.PlayVideo("a1");
    assert o == Started(None, "A");
    o := player.PauseVideo();
    assert o == PausedVideo("A") && player.isPaused;
    o := player.PlayVideo("b1");
    assert o == PlayRefused("bad");
    assert player.isPaused && !player.isPlaying && player.currentlyPlaying == Some("A");
    o := player.ContinueVideo();
    assert o == ContinuedVideo("A") && player.isPlaying && player.currentlyPlaying == Some("A");
    o := player.StopVideo();
    assert o == StoppedVideo("A");
    o := player.StopVideo();
    assert o == NothingPlaying;
  }

  /** With every video flagged, random play reports that nothing is available and stays stopped. */
  method RandomPlayWithEveryVideoFlagged(roll: nat) {
    var b := Video("b1", "B", [], Some("bad"));
    var player := new VideoPlayer([b]);
    UnflaggedEmptyIffAllFlagged([b]);
    var o := player.PlayRandomVideo(roll);
    assert o == NoVideosAvailable;
    assert !player.isPlaying && !player.isPaused;
  }

  /** Flagging twice is refused; allowing an allowed video is refused; flag then allow restores the catalog. */
  method FlagThenAllow() {
    var a := Video("a1", "A", [], None);
    var player := new VideoPlayer([a]);
    assert FindVideo([a], "a1") == Some(0);
    var f := player.FlagVideo("a1", None);
    assert f == FlagSet(None, "A", "Not supplied");
    assert FindVideo(player.videoList, "a1") == Some(0);
    f := player.FlagVideo("a1", Some("dup"));
    assert f == AlreadyFlagged;
    f := player.AllowVideo("a1");
    assert f == FlagCleared("A");
    assert player.videoList == [a];
    f := player.AllowVideo("a1");
    assert f == NotFlagged;
  }

  /**
   * Play, stop, then flag the same video: the stop cleared the title, so the
   * flag does not try to stop anything (with the original `stop_video` it
   * would report "nothing playing", see `StaleTitleAfterStop`). Flagging the
   * video that is playing stops it.
   */
  method FlagAfterStop() {
    var a := Video("a1", "A", [], None);
    var b := Video("b1", "B", [], None);
    var player := new VideoPlayer([a, b]);
    assert FindVideo([a, b], "a1") == Some(0);
    var p := player.PlayVideo("a1");
    assert p == Started(None, "A");
    p := player.StopVideo();
    assert p == StoppedVideo("A") && player.currentlyPlaying == None;
    var f := player.FlagVideo("a1", None);
    assert f == FlagSet(None, "A", "Not supplied");
    assert FindVideo(player.videoList, "b1") == Some(1);
    p := player.PlayVideo("b1");
    assert p == Started(None, "B");
    f := player.FlagVideo("b1", Some("spam"));
    assert f == FlagSet(Some(StoppedVideo("B")), "B", "spam");
    assert !player.isPlaying && !player.isPaused && player.currentlyPlaying == None;
  }

  /** Names are matched whatever their casing, and the stored casing is kept. */
  method PlaylistNamesIgnoreCase() {
    var player := new VideoPlayer([]);
    var o := player.CreatePlaylist("Fun");
    assert o == Created && player.libraryPlaylists == [Playlist("Fun", [])];
    assert SameName("Fun", "FUN");
    o := player.CreatePlaylist("FUN");
    assert o == AlreadyExists;
    assert SameName("Fun", "fUN");
    o := player.ShowPlaylist("fUN");
    assert o == NoVideosYet;
    assert SameName("Fun", "fun");
    o := player.DeletePlaylist("fun");
    assert o == Deleted && player.libraryPlaylists == [];
    o := player.ShowAllPlaylists();
    assert o == NoPlaylists;
  }

  /** A second add is refused and leaves exactly one copy. */
  method PlaylistAddTwice() {
    var a := Video("a1", "A", [], None);
    var player := new VideoPlayer([a]);
    assert FindVideo([a], "a1") == Some(0);
    var o := player.CreatePlaylist("Mix");
    ghost var mix := [Playlist("Mix", [])];
    ghost var mixA := [Playlist("Mix", ["a1"])];
    assert FindPlaylist(mix, "mix") == Some(0) by { assert SameName("Mix", "mix"); }
    assert mix[0 := Playlist("Mix", [] + ["a1"])] == mixA by { assert [] + ["a1"] == ["a1"]; }
    o := player.AddToPlaylist("mix", "a1");
    assert o == Added("A") && player.libraryPlaylists == mixA;
    assert FindPlaylist(mixA, "Mix") == Some(0);
    assert player.videoList == [a];
    o := player.AddToPlaylist("Mix", "a1");
    assert o == AlreadyAdded && player.libraryPlaylists == mixA;
  }

  /** Removing takes the id out of the matching playlist; a second remove finds nothing. */
  method PlaylistRemoveTwice() {
    var a := Video("a1", "A", [], None);
    var player := new VideoPlayer([a]);
    assert FindVideo([a], "a1") == Some(0);
    var o := player.CreatePlaylist("Mix");
    ghost var mix := [Playlist("Mix", [])];
    ghost var mixA := [Playlist("Mix", ["a1"])];
    assert FindPlaylist(mix, "Mix") == Some(0);
    assert mix[0 := Playlist("Mix", [] + ["a1"])] == mixA by { assert [] + ["a1"] == ["a1"]; }
    o := player.AddToPlaylist("Mix", "a1");
    assert player.libraryPlaylists == mixA;
    RemoveTwice(player);
  }

  /** The two removals of `PlaylistRemoveTwice`, from a player whose one playlist holds `a1`. */
  method RemoveTwice(player: VideoPlayer)
    requires player.Valid() && player.videoList == [Video("a1", "A", [], None)]
    requires player.libraryPlaylists == [Playlist("Mix", ["a1"])]
    modifies player
  {
    ghost var mix := [Playlist("Mix", [])];
    ghost var mixA := [Playlist("Mix", ["a1"])];
    assert FindVideo(player.videoList, "a1") == Some(0);
    RemoveAfterAppend([], "a1");
    assert FindPlaylist(mixA, "MIX") == Some(0) by { assert SameName("Mix", "MIX"); }
    assert mixA[0 := Playlist("Mix", RemoveFirst(["a1"], "a1"))] == mix;
    var o := player.RemoveFromPlaylist("MIX", "a1");
    assert o == Removed("A") && player.libraryPlaylists == mix;
    assert FindPlaylist(mix, "Mix") == Some(0);
    o := player.RemoveFromPlaylist("Mix", "a1");
    assert o == NotInPlaylist;
  }
}
