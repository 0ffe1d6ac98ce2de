/**
 * The playlist registry as values: `libraryPlaylists` is a dictionary whose keys
 * keep the casing they were created with and whose values are lists of video
 * ids. It is modelled as the sequence of its entries in insertion order, the
 * order in which the player's loops visit the keys.
 */
module Playlists {
  import opened Wrappers
  import opened Text

  datatype Playlist = Playlist(name: string, videoIds: seq<string>)

  /** Two playlist names denote the same playlist when their folded forms agree. */
  predicate SameName(a: string, b: string) {
    Lower(a) == Lower(b)
  }

  /** No two stored names collide once folded. */
  predicate CaseDistinct(ps: seq<Playlist>) {
    forall i, j :: 0 <= i < j < |ps| ==> !SameName(ps[i].name, ps[j].name)
  }

  /** No id occurs twice. */
  predicate DuplicateFree(s: seq<string>) {
    forall i, j :: 0 <= i < j < |s| ==> s[i] != s[j]
  }

  /** The stored names, in insertion order (the keys of the dictionary). */
  function Names(ps: seq<Playlist>): seq<string> {
    seq(|ps|, i requires 0 <= i < |ps| => ps[i].name)
  }

  /** In a case-distinct registry, two entries whose names fold alike are one entry. */
  lemma CaseDistinctAt(ps: seq<Playlist>, i: nat, j: nat)
    requires CaseDistinct(ps) && i < |ps| && j < |ps| && SameName(ps[i].name, ps[j].name)
    ensures i == j
  {
  }

  /** Case-distinct playlists have fold-injective names: no two names sort as equals. */
  lemma CaseDistinctFoldInjective(ps: seq<Playlist>)
    requires CaseDistinct(ps)
    ensures FoldInjective(multiset(Names(ps)))
  {
    forall x, y | x in multiset(Names(ps)) && y in multiset(Names(ps)) && Lower(x) == Lower(y)
      ensures x == y
    {
      assert x in Names(ps) && y in Names(ps);
      var i :| 0 <= i < |ps| && Names(ps)[i] == x;
      var j :| 0 <= j < |ps| && Names(ps)[j] == y;
      CaseDistinctAt(ps, i, j);
    }
  }

  /**
   * The lookup `playlist_name.lower() in {k.lower(): v ...}`: the position of
   * the entry whose name matches `name` case-insensitively, or `None`.
   */
  function FindPlaylist(ps: seq<Playlist>, name: string): (r: Option<nat>)
    ensures r.None? <==> forall i :: 0 <= i < |ps| ==> !SameName(ps[i].name, name)
    ensures r.Some? ==> r.value < |ps| && SameName(ps[r.value].name, name)
    ensures r.Some? ==> forall j :: 0 <= j < r.value ==> !SameName(ps[j].name, name)
  {
    if ps == [] then None
    else if SameName(ps[0].name, name) then Some(0)
    else
      match FindPlaylist(ps[1..], name)
      case None =>
        assert forall j :: 1 <= j < |ps| ==> ps[j] == ps[1..][j - 1];
        None
      case Some(k) => Some(k + 1)
  }

  /** In a CaseDistinct registry the entry FindPlaylist gives is the only match. */
  lemma FindPlaylistUnique(ps: seq<Playlist>, name: string, j: nat)
    requires CaseDistinct(ps) && j < |ps| && SameName(ps[j].name, name)
    ensures FindPlaylist(ps, name) == Some(j)
  {
  }

  /** The lookup ignores the casing of the name asked for. */
  lemma FindPlaylistIgnoresCase(ps: seq<Playlist>, a: string, b: string)
    requires SameName(a, b)
    ensures FindPlaylist(ps, a) == FindPlaylist(ps, b)
  {
  }

  /** Adding a name that matches no entry keeps the registry CaseDistinct, and the new entry is found. */
  lemma CreateKeepsCaseDistinct(ps: seq<Playlist>, name: string)
    requires CaseDistinct(ps) && FindPlaylist(ps, name).None?
    ensures CaseDistinct(ps + [Playlist(name, [])])
    ensures FindPlaylist(ps + [Playlist(name, [])], name) == Some(|ps|)
  {
    var qs := ps + [Playlist(name, [])];
    FindPlaylistUnique(qs, name, |ps|);
  }

  /** Replacing an entry's ids keeps every name, so CaseDistinct is kept. */
  lemma UpdateKeepsCaseDistinct(ps: seq<Playlist>, k: nat, ids: seq<string>)
    requires CaseDistinct(ps) && k < |ps|
    ensures CaseDistinct(ps[k := Playlist(ps[k].name, ids)])
  {
  }

  /** Dropping an entry keeps CaseDistinct, and no entry matches its name afterwards. */
  lemma DeleteKeepsCaseDistinct(ps: seq<Playlist>, k: nat)
    requires CaseDistinct(ps) && k < |ps|
    ensures CaseDistinct(ps[..k] + ps[k + 1..])
    ensures FindPlaylist(ps[..k] + ps[k + 1..], ps[k].name).None?
    ensures forall q :: q in ps[..k] + ps[k + 1..] ==> q in ps
  {
  }

  /** Appending an id that is not yet there keeps the list duplicate-free. */
  lemma AppendKeepsDuplicateFree(s: seq<string>, x: string)
    requires DuplicateFree(s) && x !in s
    ensures DuplicateFree(s + [x])
  {
  }

  /** `list.remove(x)`: the list without the first occurrence of `x`; unchanged when `x` is absent. */
  function RemoveFirst(s: seq<string>, x: string): (r: seq<string>)
    ensures x !in s ==> r == s
    ensures x in s ==> multiset(r) == multiset(s) - multiset{x} && |r| == |s| - 1
    ensures forall y :: y in r ==> y in s
  {
    if s == [] then []
    else
      assert s == [s[0]] + s[1..];
      if s[0] == x then s[1..]
      else [s[0]] + RemoveFirst(s[1..], x)
  }

  /** Removal takes out the first occurrence of `x` and keeps every other id in its order. */
  lemma {:induction false} RemoveFirstAt(s: seq<string>, x: string, i: nat)
    requires i < |s| && s[i] == x && x !in s[..i]
    ensures RemoveFirst(s, x) == s[..i] + s[i + 1..]
  {
    if i == 0 {
      assert s[..0] + s[1..] == s[1..];
    } else {
      AbsentBefore(s, x, i);
      RemoveFirstAt(s[1..], x, i - 1);
      ConsAround(s, i);
    }
  }

  /** An id absent from `s[..i]` is not the head, nor in the tail's first `i - 1` ids. */
  lemma AbsentBefore(s: seq<string>, x: string, i: nat)
    requires 0 < i < |s| && x !in s[..i]
    ensures s[0] != x && s[1..][i - 1] == s[i] && x !in s[1..][..i - 1]
  {
    var a := s[..i];
    assert a == [a[0]] + a[1..];
    assert a[1..] == s[1..][..i - 1];
  }

  /** Putting the head back in front of the tail cut at `i - 1` cuts `s` at `i`. */
  lemma ConsAround(s: seq<string>, i: nat)
    requires 0 < i < |s|
    ensures [s[0]] + (s[1..][..i - 1] + s[1..][i..]) == s[..i] + s[i + 1..]
  {
    assert s[1..][i..] == s[i + 1..];
    assert s[..i] == [s[0]] + s[1..][..i - 1];
  }

  /** In a duplicate-free list, removing `x` leaves exactly the other ids, still duplicate-free. */
  lemma {:induction false} RemoveFirstDuplicateFree(s: seq<string>, x: string)
    requires DuplicateFree(s)
    ensures DuplicateFree(RemoveFirst(s, x))
    ensures x !in RemoveFirst(s, x)
    ensures forall y :: y in RemoveFirst(s, x) <==> y in s && y != x
  {
    if s != [] {
      assert DuplicateFree(s[1..]) by {
        forall i, j | 0 <= i < j < |s[1..]| ensures s[1..][i] != s[1..][j] {
          assert s[1..][i] == s[i + 1] && s[1..][j] == s[j + 1];
        }
      }
      if s[0] != x {
        RemoveFirstDuplicateFree(s[1..], x);
        assert s[0] !in s[1..] by {
          forall j | 0 <= j < |s[1..]| ensures s[1..][j] != s[0] {
            assert s[1..][j] == s[j + 1];
          }
        }
        assert s == [s[0]] + s[1..];
      } else {
        assert x !in s[1..] by {
          forall j | 0 <= j < |s[1..]| ensures s[1..][j] != x {
            assert s[1..][j] == s[j + 1];
          }
        }
        assert s == [s[0]] + s[1..];
      }
    }
  }

  /** Removing an id right after appending it gives back the list it was appended to. */
  lemma {:induction false} RemoveAfterAppend(s: seq<string>, x: string)
    requires x !in s
    ensures RemoveFirst(s + [x], x) == s
  {
    if s != [] {
      assert (s + [x])[1..] == s[1..] + [x];
      RemoveAfterAppend(s[1..], x);
    }
  }
}
