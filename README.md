# Video player core, modelled in Dafny

This project models the `VideoPlayer` class of `python/src/video_player.py`, a single-user,
in-memory video player over a fixed catalog. It has three parts that share one object:

- **Playback state machine.** The fields `isPlaying`, `isPaused` and `currentlyPlaying` move
  between stopped, playing and paused under `play_video`, `stop_video`, `play_random_video`,
  `pause_video`, `continue_video` and `show_playing`.
- **Playlist registry.** `libraryPlaylists` maps a name, stored with its original casing, to a list
  of video ids. Names are matched case-insensitively.
- **Moderation flags.** `flag_video` and `allow_video` set and clear a video's flag. Flagged videos
  cannot be played, randomly picked, added to playlists or found by search.

Files:

- `wrappers.dfy` (module `Wrappers`): `Option`, standing for Python's `None`.
- `text.dfy` (module `Text`): case folding, Python's substring test and string order,
  `' '.join`, and `sorted(..., key=str.casefold)` as an insertion sort.
- `catalog.dfy` (module `Catalog`): the `Video` record, the lookup by id, the one-line rendering,
  the unflagged pool and the two search filters.
- `playlists.dfy` (module `Playlists`): playlist entries, the case-insensitive lookup, and the list
  operations `append` / `remove`, with the registry invariants.
- `player.dfy` (module `Player`): the class `VideoPlayer` with the source's fields and one method per
  source method. Each method returns what the original prints, as a value of `PlaybackOutcome`,
  `PlaylistOutcome` or `FlagOutcome`.
- `scenarios.dfy` (module `Scenarios`): client methods that drive a player through short sessions.
  They use only the method contracts and assert what each call reports. Examples: a flagged video
  cannot interrupt a paused one; "Fun" and "FUN" collide; a second add is refused; flagging a
  video after it was stopped reports no stop.

The class invariant `VideoPlayer.Valid()` says:

- ids are distinct;
- the player is never both playing and paused;
- the player holds a current title exactly when it is playing or paused, and that title belongs to
  a catalog video;
- no two playlist names are equal after case folding;
- every playlist is duplicate-free;
- every playlist holds only ids of catalog videos.

Every method preserves it. Every method that changes state states its whole new state. On each
error path it states `unchanged(this)` or, through its `modifies` frame, that nothing else changes.

How the model represents the source:

- The dictionary `libraryPlaylists` is the sequence of its entries in insertion order. That is the
  order in which the original's `for name in self.libraryPlaylists.keys()` loops visit them, and the
  methods keep those loops.
- The catalog is the sequence `videoList`. `get_video(id)` is `Catalog.FindVideo` over it, because
  the library's dictionary and `videoList` hold the same video objects. Only a video's `flag` ever
  changes.
- `str.lower` and `str.casefold` are both modelled by one ASCII fold, `Text.Lower`.
- `randint(0, len(pool) - 1)` is replaced by a caller-supplied `roll`; the index used is
  `roll % |pool|`.
- `flag_video`'s default argument `"Not supplied"` is `Player.DefaultFlagReason`. The caller passes
  `None` to use it.

One behaviour is corrected, as logged under "## Findings": `stop_video` does not clear
`currentlyPlaying`, so the last title outlives a stop, and a later `flag_video` of that video calls
`stop_video` on a stopped player. `Player.VideoPlayer.StopVideo` models the corrected behaviour,
which drops the title; `Player.StopAsWritten` and `Player.FlagStopAsWritten` keep the original for
the counterexample.

Elsewhere, where the code differs from what a reader might expect, the model follows the code:

- `play_random_video` reports the previous video as stopped only when it was playing, not when it
  was paused. `play_video` reports it in both cases.
- `show_playing` renders the LAST catalog video whose title equals the current title.
- Both searches loop over `range(len(self.videoList) - 1)`, so they never examine the last video.
  `Catalog.SearchScope` states this, and `Catalog.SearchMissesOnlyMatchAtEnd` gives a catalog in
  which the only match is missed.
- Playlists are found by a linear scan comparing folded names, not held in a separate index keyed by
  the folded name.

## Model

| member | source | states |
|---|---|---|
| `Player.VideoPlayer.constructor` | python/src/video_player.py:10-17 | a new player is stopped, has no current title and no playlists, holds the given catalog, and satisfies the invariant |
| `Player.VideoPlayer.PlayVideo` | python/src/video_player.py:48-68 | "video does not exist" is checked before "video is flagged"; both leave the whole player unchanged; otherwise the player is playing, not paused, holds the video's title, and reports the previous title exactly when something was playing or paused |
| `Player.VideoPlayer.StopVideo` | python/src/video_player.py:70-78 | with nothing playing or paused it reports so and changes nothing; otherwise it reports the current title, both flags become false and, as corrected under "## Findings", the title is dropped, so that a title is held exactly while playing or paused |
| `Player.VideoPlayer.PlayRandomVideo` | python/src/video_player.py:80-97 | an empty unflagged pool reports "no videos available" and changes nothing; otherwise the chosen video belongs to the pool (so it is an unflagged catalog video), is now playing and not paused, and a previous title is reported only if it was playing |
| `Player.VideoPlayer.PauseVideo` | python/src/video_player.py:99-109 | "already paused" is checked first and changes nothing; pausing a playing video keeps its title; with nothing playing nothing changes |
| `Player.VideoPlayer.ContinueVideo` | python/src/video_player.py:111-121 | a paused video resumes with the same title; from stopped ("nothing playing") and from playing ("not paused") nothing changes |
| `Player.VideoPlayer.ShowPlaying` | python/src/video_player.py:123-138 | with nothing playing or paused it says so; otherwise it renders the last catalog video with the current title and marks it when paused |
| `Player.VideoPlayer.CreatePlaylist` | python/src/video_player.py:141-157 | a name whose folded form matches a stored name is refused and nothing changes; otherwise exactly one entry, with the given casing and no ids, is appended, and names stay distinct after folding |
| `Player.VideoPlayer.AddToPlaylist` | python/src/video_player.py:159-196 | fails in the order: playlist missing, video missing, video flagged (with its reason), id already present, each leaving the player unchanged; otherwise the id is appended once to the matching playlist only, which stays duplicate-free |
| `Player.VideoPlayer.ShowAllPlaylists` | python/src/video_player.py:200-210 | reports "no playlists" exactly when there are none; otherwise lists every stored name, with its stored casing, as a permutation of the keys sorted by folded name; since no two names fold alike, that is the only such ordering |
| `Player.VideoPlayer.ShowPlaylist` | python/src/video_player.py:212-230 | a missing playlist and an empty one are reported distinctly; otherwise there is one line per id, in list order, each the rendering of the first catalog video with that id (the one `videoList.index` gives) |
| `Player.VideoPlayer.RemoveFromPlaylist` | python/src/video_player.py:232-258 | fails in the order: playlist missing, video missing, id not in the playlist, each leaving the player unchanged; otherwise the id is removed from the matching playlist only and no longer occurs in it |
| `Player.VideoPlayer.ClearPlaylist` | python/src/video_player.py:261-277 | a missing playlist changes nothing; otherwise the matching playlist keeps its name and loses all its ids, and no other entry changes |
| `Player.VideoPlayer.DeletePlaylist` | python/src/video_player.py:280-297 | a missing playlist changes nothing; otherwise exactly the matching entry is removed, the others keep their order, and the name no longer matches any entry |
| `Player.VideoPlayer.SearchVideos` | python/src/video_player.py:306-309 | the titles found are exactly those, in catalog order, of the unflagged videos among all but the last whose folded title contains the folded term |
| `Player.VideoPlayer.SearchVideosTag` | python/src/video_player.py:343-347 | the titles found are exactly those, in catalog order, of the unflagged videos among all but the last that have a tag equal to the given tag after folding both |
| `Player.VideoPlayer.FlagVideo` | python/src/video_player.py:374-395 | "does not exist" is checked before "already flagged", both leaving the player unchanged; otherwise only that video's flag is set, to the given reason or "Not supplied"; if the stored title is the video's, the player is playing or paused a video with that title and is stopped first, and the report includes "stopping video" with its title |
| `Player.VideoPlayer.AllowVideo` | python/src/video_player.py:397-411 | "does not exist" is checked before "not flagged", both leaving the player unchanged; otherwise only that video's flag is cleared |
| `Catalog.FindVideo` | python/src/video_player.py:55-56 | `get_video`: `None` exactly when no video has the id; otherwise the first position holding that id |
| `Catalog.FindVideoUnique` | python/src/video_player.py:55-56 | with distinct ids, the lookup gives the one position that holds the id |
| `Catalog.SameExceptFlagsKeepsEntries` | python/src/video_player.py:394 | changing only flags keeps distinct ids, the set of ids and titles present, and every lookup result |
| `Catalog.DescribeLayout` | python/src/video_player.py:25-38 | `display_video_details`: the title stands at the start, then ` (`, the id, `) [`; each tag follows in stored order at its offset in the joined list, with one space between neighbours; then `]`; the text goes on after the bracket exactly when the video is flagged, and then with ` - FLAGGED (reason: <reason>)` |
| `Catalog.DescribeFlagged` | python/src/video_player.py:36-37 | flagging a video only appends the flag note to its rendering |
| `Player.CollectUnflagged` | python/src/video_player.py:83-86 | the loop of `play_random_video` gathers exactly the unflagged pool, in catalog order |
| `Catalog.Unflagged` | python/src/video_player.py:83-86 | the pool holds exactly the catalog videos whose flag is `None` |
| `Catalog.UnflaggedEmptyIffAllFlagged` | python/src/video_player.py:87-89 | the pool is empty exactly when every video is flagged |
| `Catalog.TitleHits` | python/src/video_player.py:307-309 | a title is in the result exactly when some examined video has it, is unflagged, and its folded title contains the folded term |
| `Catalog.TagHits` | python/src/video_player.py:344-347 | a title is in the result exactly when some examined video has it, is unflagged, and has a tag equal to the folded tag |
| `Catalog.SearchScope` | python/src/video_player.py:307 | the searches examine every video but the last one: one fewer than the catalog holds, and none of an empty catalog |
| `Catalog.SearchIgnoresLast` | python/src/video_player.py:344 | whatever the last video is, both searches give the same results |
| `Catalog.SearchMissesOnlyMatchAtEnd` | python/src/video_player.py:306-309 | a one-video catalog whose video matches the term and the tag gives no results |
| `Playlists.FindPlaylist` | python/src/video_player.py:175-176 | the lookup through `{k.lower(): v}` gives `None` exactly when no stored name matches after folding; otherwise the first matching entry, which under the invariant is the only one |
| `Playlists.FindPlaylistUnique` | python/src/video_player.py:193-195 | when names are distinct after folding, the loop over keys meets exactly one matching entry, the one the lookup gives |
| `Playlists.FindPlaylistIgnoresCase` | python/src/video_player.py:222 | names that agree after folding find the same playlist |
| `Playlists.CreateKeepsCaseDistinct` | python/src/video_player.py:152-156 | adding a name that matches nothing keeps names distinct after folding, and the new entry is then found under that name |
| `Playlists.UpdateKeepsCaseDistinct` | python/src/video_player.py:276 | changing a playlist's ids in place keeps names distinct after folding |
| `Playlists.DeleteKeepsCaseDistinct` | python/src/video_player.py:293-297 | removing an entry keeps names distinct, keeps only entries that were there, and leaves no entry matching the deleted name |
| `Playlists.AppendKeepsDuplicateFree` | python/src/video_player.py:189-195 | appending an id that is not present keeps the list duplicate-free |
| `Playlists.RemoveFirst` | python/src/video_player.py:257 | `list.remove` of a present id removes it once: one fewer occurrence, one element shorter, and nothing new appears; which occurrence goes, and that the order is kept, is `Playlists.RemoveFirstAt` |
| `Playlists.RemoveFirstAt` | python/src/video_player.py:257 | `list.remove` takes out the first occurrence of the id: the result is the ids before it followed by the ids after it, in their order |
| `Playlists.RemoveFirstDuplicateFree` | python/src/video_player.py:250-257 | in a duplicate-free list, removal leaves exactly the other ids, still duplicate-free |
| `Playlists.RemoveAfterAppend` | python/src/video_player.py:195 | removing an id right after appending it to a list without it gives back that list |
| `Text.Lower` | python/src/video_player.py:152 | folding keeps the length, folds each character separately, and leaves no upper-case ASCII letter |
| `Text.ContainsIffOccurs` | python/src/video_player.py:308 | the substring test holds exactly when the needle occurs at some position of the string |
| `Text.LexLeTotal` | python/src/video_player.py:206 | Python's string order relates any two strings |
| `Text.LexLeTransitive` | python/src/video_player.py:206 | Python's string order is transitive |
| `Text.LexLeAntisymmetric` | python/src/video_player.py:206 | strings ordered both ways are equal |
| `Text.InsertByFoldSorted` | python/src/video_player.py:206 | inserting into a list sorted by folded name keeps it sorted |
| `Text.InsertByFoldCount` | python/src/video_player.py:206 | insertion adds exactly one occurrence of the name, grows the list by one and puts either that name or the old head first |
| `Text.SortByFold` | python/src/video_player.py:206 | the result is sorted by folded name and is a permutation of the input |
| `Text.SortedByFoldPairwise` | python/src/video_player.py:206 | in a sorted result, any two names, not only neighbours, are in folded order |
| `Text.SortedByFoldUnique` | python/src/video_player.py:206 | when no two distinct names fold alike, two orderings of the same names that are both sorted by folded name are equal |
| `Playlists.CaseDistinctFoldInjective` | python/src/video_player.py:147-156 | names kept distinct after folding by `create_playlist` never fold alike, so the sort has no ties |
| `Text.Join` | python/src/video_player.py:34 | `' '.join`: empty for no parts; otherwise it starts with the first part |
| `Text.JoinLengthTotal` | python/src/video_player.py:34 | for one part or more, the joined length is the parts' total length plus one separator between each pair of neighbours |
| `Text.JoinLayout` | python/src/video_player.py:34 | `' '.join` laid out: every part stands, in the given order, at the offset after the earlier parts and their separators, the separator stands between every two neighbours, and nothing else is there |
| `Player.StopAsWritten` | python/src/video_player.py:73-78 | `stop_video` as written: both flags end up false and the title is kept; it reports "nothing playing" exactly when neither flag was set, and otherwise the stopped title |
| `Player.FlagStopAsWritten` | python/src/video_player.py:391-392 | `flag_video`'s stop step as written: it runs exactly when the stored title is the video's, whether or not anything is playing, and then reports "nothing playing" on a stopped player and the stopped title otherwise |
| `Player.StaleTitleAfterStop` | python/src/video_player.py:70-78 | with `stop_video` as written, playing "A", stopping and then flagging "A" leaves a stopped player holding "A", and the flag's stop step reports "nothing playing" |

## Left out

- Console output: the exact message strings are replaced by the outcome datatypes. Where a
  message only echoes an argument (the playlist name as typed, the search term), the outcome does
  not carry it.
- The interactive part of `search_videos` and `search_videos_tag` (lines 310-334 and 348-372): the
  numbered listing of results, `input()`, integer parsing and the follow-up `play_video`. This is
  console dialogue; only the filters are modelled.
- `randint` (line 90) is a caller-supplied `roll`. The model does not state that the choice is uniform.
- The unused `numpy` import (line 4) and the unused `flaggedVideos` field (line 17).
- `VideoLibrary` and its loading of the catalog are not part of this model. The catalog is the
  constructor's argument, with distinct ids. `get_video` is `Catalog.FindVideo`.
- Unicode behaviour of `str.lower` and `str.casefold`: both are the ASCII fold `Text.Lower`.
- `number_of_videos` and `show_all_videos` (lines 19-46), including the in-place sort of
  `videoList` at line 44. Sorting `videoList` would change which video the searches skip and the
  order of the random pool; the model keeps catalog order.
- The bare `except` of `add_to_playlist` (lines 197-198): nothing in the modelled body raises under
  the invariant.
- Aliasing of video objects between the library and `videoList`: the model keeps one sequence of
  video values, and a flag change replaces one element.
- `show_playing` fails with an unbound name when no video has the current title. The invariant
  `Valid()` rules this out, because titles only come from the catalog.
- Text.SortByFold: stability of `sorted` is not stated. Under the invariant no two names fold alike,
  so ties do not occur, and `ShowAllPlaylists` states that its output is the only sorted ordering.
- Playlists.RemoveFirst: for an absent id the model returns the list unchanged, where Python's
  `list.remove` raises `ValueError`. The only caller checks membership first (line 250), so this
  case is never reached.
- Playlists.FindPlaylist: the dictionary `{k.lower(): v}` keeps the LAST key that folds to the name;
  the model returns the first. Under the invariant only one key folds to any name, so both agree.

## Findings

| source | as written | input that shows it | evidently intended | confidence | as-written member | corrected member |
|---|---|---|---|---|---|---|
| python/src/video_player.py:70-78 | `stop_video` clears `isPlaying` and `isPaused` but keeps `currentlyPlaying`; `flag_video` (line 391) then tests the stale title | `play_video("a1")`, `stop_video()`, `flag_video("a1")` for a video titled "A": the flag also prints "Cannot stop video: No video is currently playing" | a stopped player holds no title, so a title is held exactly while playing or paused, and flagging a stopped video prints only the flag message | not executed | `Player.StaleTitleAfterStop` | `Player.VideoPlayer.StopVideo` |
