/**
 * The string operations the player relies on: case folding (Python's
 * `str.lower` and `str.casefold`, both modelled by one ASCII fold), the
 * substring test `a in b`, Python's ordering of strings, `' '.join` and
 * `sorted(..., key=str.casefold)`.
 */
module Text {

  /** Folds one ASCII upper-case letter to lower case; every other character is kept. */
  function LowerChar(c: char): char {
    if 'A' <= c <= 'Z' then (c as int + 32) as char else c
  }

  /** `s.lower()`, restricted to ASCII letters. */
  function Lower(s: string): (r: string)
    ensures |r| == |s|
    ensures forall i :: 0 <= i < |s| ==> r[i] == LowerChar(s[i])
    ensures forall i :: 0 <= i < |r| ==> !('A' <= r[i] <= 'Z')
  {
    if s == [] then [] else [LowerChar(s[0])] + Lower(s[1..])
  }

  /** `p` is a prefix of `s`. */
  predicate IsPrefix(p: string, s: string) {
    |p| <= |s| && s[..|p|] == p
  }

  /** Python's `needle in hay` on strings: some position of `hay` starts with `needle`. */
  predicate Contains(needle: string, hay: string)
    decreases |hay|
  {
    IsPrefix(needle, hay) || (|hay| > 0 && Contains(needle, hay[1..]))
  }

  /** Contains finds exactly the positions at which `needle` occurs. */
  lemma {:induction false} ContainsIffOccurs(needle: string, hay: string)
    ensures Contains(needle, hay) <==> exists i :: 0 <= i <= |hay| && IsPrefix(needle, hay[i..])
    decreases |hay|
  {
    if IsPrefix(needle, hay) {
      assert hay[0..] == hay;
    } else if |hay| == 0 {
      forall i | 0 <= i <= |hay| ensures !IsPrefix(needle, hay[i..]) {
        assert hay[i..] == hay;
      }
    } else {
      ContainsIffOccurs(needle, hay[1..]);
      forall i | 1 <= i <= |hay| ensures hay[i..] == hay[1..][i - 1..] { }
      if Contains(needle, hay[1..]) {
        var j :| 0 <= j <= |hay[1..]| && IsPrefix(needle, hay[1..][j..]);
        assert hay[j + 1..] == hay[1..][j..];
      } else {
        forall i | 0 <= i <= |hay| ensures !IsPrefix(needle, hay[i..]) {
          if i == 0 {
            assert hay[i..] == hay;
          } else {
            assert hay[i..] == hay[1..][i - 1..];
          }
        }
      }
    }
  }

  /** Python's `a <= b` on strings: lexicographic by code point, a prefix first. */
  predicate LexLe(a: string, b: string) {
    |a| == 0 || (|b| > 0 && (a[0] < b[0] || (a[0] == b[0] && LexLe(a[1..], b[1..]))))
  }

  lemma {:induction false} LexLeTotal(a: string, b: string)
    ensures LexLe(a, b) || LexLe(b, a)
  {
    if |a| > 0 && |b| > 0 && a[0] == b[0] {
      LexLeTotal(a[1..], b[1..]);
    }
  }

  lemma {:induction false} LexLeTransitive(a: string, b: string, c: string)
    requires LexLe(a, b) && LexLe(b, c)
    ensures LexLe(a, c)
  {
    if |a| > 0 && a[0] == b[0] && b[0] == c[0] {
      LexLeTransitive(a[1..], b[1..], c[1..]);
    }
  }

  lemma {:induction false} LexLeAntisymmetric(a: string, b: string)
    requires LexLe(a, b) && LexLe(b, a)
    ensures a == b
  {
    if |a| > 0 {
      LexLeAntisymmetric(a[1..], b[1..]);
      assert a == [a[0]] + a[1..] && b == [b[0]] + b[1..];
    }
  }

  /** The order `sorted(..., key=str.casefold)` uses: compare the folded forms. */
  predicate FoldLe(a: string, b: string) {
    LexLe(Lower(a), Lower(b))
  }

  /** Each name is folded-less-or-equal to the next one. */
  predicate SortedByFold(s: seq<string>) {
    forall i :: 0 <= i < |s| - 1 ==> FoldLe(s[i], s[i + 1])
  }

  /** Any two names of a SortedByFold sequence are in order, not only neighbours. */
  lemma {:induction false} SortedByFoldPairwise(s: seq<string>, i: nat, j: nat)
    requires SortedByFold(s) && i < j < |s|
    ensures FoldLe(s[i], s[j])
    decreases j - i
  {
    if i + 1 < j {
      SortedByFoldPairwise(s, i + 1, j);
      LexLeTransitive(Lower(s[i]), Lower(s[i + 1]), Lower(s[j]));
    }
  }

  /** Inserts `x` before the first name that does not fold-precede it. */
  function InsertByFold(x: string, s: seq<string>): seq<string> {
    if s == [] then [x]
    else if FoldLe(x, s[0]) then [x] + s
    else [s[0]] + InsertByFold(x, s[1..])
  }

  /** Insertion adds exactly one occurrence of `x` and puts either `x` or the old head first. */
  lemma {:induction false} InsertByFoldCount(x: string, s: seq<string>)
    ensures multiset(InsertByFold(x, s)) == multiset(s) + multiset{x}
    ensures |InsertByFold(x, s)| == |s| + 1
    ensures InsertByFold(x, s)[0] == x || (|s| > 0 && InsertByFold(x, s)[0] == s[0])
  {
    if s != [] && !FoldLe(x, s[0]) {
      InsertByFoldCount(x, s[1..]);
      assert s == [s[0]] + s[1..];
      assert multiset(s) == multiset{s[0]} + multiset(s[1..]);
      assert multiset([s[0]] + InsertByFold(x, s[1..])) == multiset{s[0]} + multiset(InsertByFold(x, s[1..]));
    }
  }

  /** Inserting into a fold-sorted sequence keeps it fold-sorted. */
  lemma {:induction false} InsertByFoldSorted(x: string, s: seq<string>)
    requires SortedByFold(s)
    ensures SortedByFold(InsertByFold(x, s))
  {
    if s == [] {
    } else if FoldLe(x, s[0]) {
      ConsKeepsSorted(x, s);
    } else {
      LexLeTotal(Lower(x), Lower(s[0]));
      SortedByFoldTail(s);
      var rest := InsertByFold(x, s[1..]);
      InsertByFoldSorted(x, s[1..]);
      InsertByFoldCount(x, s[1..]);
      assert FoldLe(s[0], rest[0]) by {
        if rest[0] != x {
          assert rest[0] == s[1];
        }
      }
      ConsKeepsSorted(s[0], rest);
    }
  }

  /** A name that fold-precedes the head of a sorted sequence can go in front of it. */
  lemma ConsKeepsSorted(y: string, r: seq<string>)
    requires SortedByFold(r) && (r != [] ==> FoldLe(y, r[0]))
    ensures SortedByFold([y] + r)
  {
    forall k | 0 <= k < |r|
      ensures FoldLe(([y] + r)[k], ([y] + r)[k + 1])
    {
      if k > 0 {
        assert ([y] + r)[k] == r[k - 1] && ([y] + r)[k + 1] == r[k];
      }
    }
  }

  /** `sorted(names, key=str.casefold)`: a stable insertion sort on the folded form. */
  function SortByFold(names: seq<string>): (r: seq<string>)
    ensures SortedByFold(r)
    ensures multiset(r) == multiset(names)
    ensures |r| == |names|
  {
    if names == [] then []
    else
      var rest := SortByFold(names[1..]);
      InsertByFoldSorted(names[0], rest);
      InsertByFoldCount(names[0], rest);
      assert names == [names[0]] + names[1..];
      InsertByFold(names[0], rest)
  }

  /** Distinct names of the multiset never fold to the same string. */
  predicate FoldInjective(names: multiset<string>) {
    forall x, y :: x in names && y in names && Lower(x) == Lower(y) ==> x == y
  }

  /** Two fold-sorted arrangements of the same fold-injective names start alike. */
  lemma SortedByFoldHeads(a: seq<string>, b: seq<string>)
    requires SortedByFold(a) && SortedByFold(b) && a != []
    requires multiset(a) == multiset(b) && FoldInjective(multiset(a))
    ensures b != [] && a[0] == b[0]
  {
    assert a[0] in multiset(b);
    assert b[0] in multiset(a);
    var i :| 0 <= i < |a| && a[i] == b[0];
    var j :| 0 <= j < |b| && b[j] == a[0];
    if a[0] != b[0] {
      SortedByFoldPairwise(a, 0, i);
      SortedByFoldPairwise(b, 0, j);
      LexLeAntisymmetric(Lower(a[0]), Lower(b[0]));
    }
  }

  /** Dropping the first name keeps a sequence fold-sorted and removes one occurrence of it. */
  lemma SortedByFoldTail(a: seq<string>)
    requires SortedByFold(a) && a != []
    ensures SortedByFold(a[1..])
    ensures multiset(a[1..]) == multiset(a) - multiset{a[0]}
  {
    assert a == [a[0]] + a[1..];
    forall k | 0 <= k < |a| - 2 ensures FoldLe(a[1..][k], a[1..][k + 1]) {
      assert a[1..][k] == a[k + 1] && a[1..][k + 1] == a[k + 2];
    }
  }

  /** A part of fold-injective names is fold-injective. */
  lemma FoldInjectiveShrinks(small: multiset<string>, large: multiset<string>)
    requires small <= large && FoldInjective(large)
    ensures FoldInjective(small)
  {
  }

  /**
   * When no two distinct names fold alike, there is only one sequence of them
   * sorted by fold: the output of `sorted(..., key=str.casefold)` is fixed, and
   * stability plays no part.
   */
  lemma {:induction false} SortedByFoldUnique(a: seq<string>, b: seq<string>)
    requires SortedByFold(a) && SortedByFold(b)
    requires multiset(a) == multiset(b) && FoldInjective(multiset(a))
    ensures a == b
    decreases |a|
  {
    if a != [] {
      SortedByFoldHeads(a, b);
      var ta, tb := a[1..], b[1..];
      SortedByFoldTail(a);
      SortedByFoldTail(b);
      FoldInjectiveShrinks(multiset(ta), multiset(a));
      SortedByFoldUnique(ta, tb);
    }
  }

  /** The total length of the given strings. */
  function TotalLength(parts: seq<string>): nat {
    if parts == [] then 0 else |parts[0]| + TotalLength(parts[1..])
  }

  /** A slice inside the second half of a concatenation is a slice of that half. */
  lemma SliceRight(x: string, y: string, lo: nat, hi: nat)
    requires lo <= hi <= |y|
    ensures (x + y)[|x| + lo..|x| + hi] == y[lo..hi]
  {
  }

  /** A slice inside the first half of a concatenation is a slice of that half. */
  lemma SliceLeft(x: string, y: string, lo: nat, hi: nat)
    requires lo <= hi <= |x|
    ensures (x + y)[lo..hi] == x[lo..hi]
  {
  }

  /** Where part `i` starts in `sep.join(parts)`: after each earlier part and its separator. */
  function Offset(parts: seq<string>, sep: string, i: nat): nat
    requires i <= |parts|
  {
    if i == 0 then 0 else |parts[0]| + |sep| + Offset(parts[1..], sep, i - 1)
  }

  /** The length of `sep.join(parts)`: up to the start of the last part, plus that part. */
  function JoinedLength(parts: seq<string>, sep: string): nat {
    if parts == [] then 0 else Offset(parts, sep, |parts| - 1) + |parts[|parts| - 1]|
  }

  /** `sep.join(parts)`. */
  function Join(parts: seq<string>, sep: string): (r: string)
    ensures |parts| == 0 ==> r == ""
    ensures |parts| > 0 ==> IsPrefix(parts[0], r)
  {
    if |parts| == 0 then ""
    else if |parts| == 1 then parts[0]
    else parts[0] + sep + Join(parts[1..], sep)
  }

  /** The length of `sep.join(parts)` is `JoinedLength`. */
  lemma {:induction false} JoinLength(parts: seq<string>, sep: string)
    ensures |Join(parts, sep)| == JoinedLength(parts, sep)
  {
    if |parts| > 1 {
      JoinLength(parts[1..], sep);
      assert Offset(parts, sep, |parts| - 1) == |parts[0]| + |sep| + Offset(parts[1..], sep, |parts| - 2);
    }
  }

  /**
   * The length of `sep.join(parts)` counted the other way: all the parts plus
   * one separator between each pair of neighbours.
   */
  lemma {:induction false} JoinLengthTotal(parts: seq<string>, sep: string)
    requires |parts| > 0
    ensures |Join(parts, sep)| == TotalLength(parts) + (|parts| - 1) * |sep|
  {
    if |parts| > 1 {
      JoinLengthTotal(parts[1..], sep);
      assert |Join(parts, sep)| == |parts[0]| + |sep| + |Join(parts[1..], sep)|;
      assert (|parts| - 1) * |sep| == |sep| + (|parts| - 2) * |sep|;
    }
  }

  /** Part `i` of `sep.join(parts)` sits at `Offset(parts, sep, i)`. */
  lemma {:induction false} JoinPartAt(parts: seq<string>, sep: string, i: nat)
    requires i < |parts|
    ensures Offset(parts, sep, i) + |parts[i]| <= |Join(parts, sep)|
    ensures Join(parts, sep)[Offset(parts, sep, i)..Offset(parts, sep, i) + |parts[i]|] == parts[i]
    decreases i
  {
    var j := Join(parts, sep);
    if |parts| == 1 {
      assert j == parts[0] + "";
      PieceAfter(j, "", parts[0] + "", 0, parts[0]);
    } else {
      var rest := parts[1..];
      assert j == (parts[0] + sep) + Join(rest, sep);
      if i == 0 {
        PieceAfter(j, "", j, 0, parts[0]);
      } else {
        JoinPartAt(rest, sep, i - 1);
        assert parts[i] == rest[i - 1];
        PieceAfter(j, parts[0] + sep, Join(rest, sep), Offset(rest, sep, i - 1), parts[i]);
      }
    }
  }

  /** `sep` follows part `i` of `sep.join(parts)` unless that part is the last. */
  lemma {:induction false} JoinSepAt(parts: seq<string>, sep: string, i: nat)
    requires i < |parts| - 1
    ensures Offset(parts, sep, i) + |parts[i]| + |sep| <= |Join(parts, sep)|
    ensures Join(parts, sep)[Offset(parts, sep, i) + |parts[i]|..Offset(parts, sep, i) + |parts[i]| + |sep|] == sep
    decreases i
  {
    var j := Join(parts, sep);
    var rest := parts[1..];
    assert j == (parts[0] + sep) + Join(rest, sep);
    if i == 0 {
      assert j == parts[0] + (sep + Join(rest, sep));
      PieceAfter(j, parts[0], sep + Join(rest, sep), 0, sep);
    } else {
      JoinSepAt(rest, sep, i - 1);
      assert parts[i] == rest[i - 1];
      PieceAfter(j, parts[0] + sep, Join(rest, sep), Offset(rest, sep, i - 1) + |parts[i]|, sep);
    }
  }

  /** A piece `t` at `o` in `mid` stands at `|head| + o` in `r == head + mid`. */
  lemma PieceAfter(r: string, head: string, mid: string, o: nat, t: string)
    requires r == head + mid
    requires o + |t| <= |mid| && mid[o..o + |t|] == t
    ensures |head| + o + |t| <= |r|
    ensures r[|head| + o..|head| + o + |t|] == t
  {
    SliceRight(head, mid, o, o + |t|);
  }

  /** Each part stands in `r` at `at` plus its offset in `sep.join(parts)`, in the given order. */
  predicate PartsAt(r: string, at: nat, parts: seq<string>, sep: string) {
    forall i :: 0 <= i < |parts| ==>
      && at + Offset(parts, sep, i) + |parts[i]| <= |r|
      && r[at + Offset(parts, sep, i)..at + Offset(parts, sep, i) + |parts[i]|] == parts[i]
  }

  /** `sep` stands in `r` right after every part but the last, as laid out by `PartsAt`. */
  predicate SepsAt(r: string, at: nat, parts: seq<string>, sep: string) {
    forall i :: 0 <= i < |parts| - 1 ==>
      && at + Offset(parts, sep, i) + |parts[i]| + |sep| <= |r|
      && r[at + Offset(parts, sep, i) + |parts[i]|..at + Offset(parts, sep, i) + |parts[i]| + |sep|] == sep
  }

  /**
   * The layout of `sep.join(parts)`: its length, each part at its offset in
   * the given order, and `sep` between every two neighbours.
   */
  lemma JoinLayout(parts: seq<string>, sep: string)
    ensures |Join(parts, sep)| == JoinedLength(parts, sep)
    ensures PartsAt(Join(parts, sep), 0, parts, sep)
    ensures SepsAt(Join(parts, sep), 0, parts, sep)
  {
    JoinLength(parts, sep);
    JoinParts(parts, sep);
    JoinSeps(parts, sep);
  }

  lemma JoinParts(parts: seq<string>, sep: string)
    ensures PartsAt(Join(parts, sep), 0, parts, sep)
  {
    forall i | 0 <= i < |parts|
      ensures 0 + Offset(parts, sep, i) + |parts[i]| <= |Join(parts, sep)|
      ensures Join(parts, sep)[0 + Offset(parts, sep, i)..0 + Offset(parts, sep, i) + |parts[i]|] == parts[i]
    {
      JoinPartAt(parts, sep, i);
    }
  }

  lemma JoinSeps(parts: seq<string>, sep: string)
    ensures SepsAt(Join(parts, sep), 0, parts, sep)
  {
    forall i | 0 <= i < |parts| - 1
      ensures 0 + Offset(parts, sep, i) + |parts[i]| + |sep| <= |Join(parts, sep)|
      ensures Join(parts, sep)[0 + Offset(parts, sep, i) + |parts[i]|..0 + Offset(parts, sep, i) + |parts[i]| + |sep|] == sep
    {
      JoinSepAt(parts, sep, i);
    }
  }

  /** A piece `t` at `o` in the middle of `r == head + (mid + tail)` stands at `|head| + o` in `r`. */
  lemma InsideMiddle(r: string, head: string, mid: string, tail: string, o: nat, t: string)
    requires r == head + (mid + tail)
    requires o + |t| <= |mid| && mid[o..o + |t|] == t
    ensures |head| + o + |t| <= |r|
    ensures r[|head| + o..|head| + o + |t|] == t
  {
    SliceRight(head, mid + tail, o, o + |t|);
    SliceLeft(mid, tail, o, o + |t|);
  }

  /** Embedded after `head`, `sep.join(parts)` keeps its layout, shifted by `|head|`. */
  lemma JoinInside(r: string, head: string, parts: seq<string>, sep: string, tail: string)
    requires r == head + (Join(parts, sep) + tail)
    ensures PartsAt(r, |head|, parts, sep)
    ensures SepsAt(r, |head|, parts, sep)
  {
    JoinInsideParts(r, head, parts, sep, tail);
    JoinInsideSeps(r, head, parts, sep, tail);
  }

  lemma JoinInsideParts(r: string, head: string, parts: seq<string>, sep: string, tail: string)
    requires r == head + (Join(parts, sep) + tail)
    ensures PartsAt(r, |head|, parts, sep)
  {
    forall i | 0 <= i < |parts|
      ensures |head| + Offset(parts, sep, i) + |parts[i]| <= |r|
      ensures r[|head| + Offset(parts, sep, i)..|head| + Offset(parts, sep, i) + |parts[i]|] == parts[i]
    {
      JoinInsidePartAt(r, head, parts, sep, tail, i);
    }
  }

  lemma JoinInsidePartAt(r: string, head: string, parts: seq<string>, sep: string, tail: string, i: nat)
    requires r == head + (Join(parts, sep) + tail) && i < |parts|
    ensures |head| + Offset(parts, sep, i) + |parts[i]| <= |r|
    ensures r[|head| + Offset(parts, sep, i)..|head| + Offset(parts, sep, i) + |parts[i]|] == parts[i]
  {
    JoinPartAt(parts, sep, i);
    InsideMiddle(r, head, Join(parts, sep), tail, Offset(parts, sep, i), parts[i]);
  }

  lemma JoinInsideSeps(r: string, head: string, parts: seq<string>, sep: string, tail: string)
    requires r == head + (Join(parts, sep) + tail)
    ensures SepsAt(r, |head|, parts, sep)
  {
    forall i | 0 <= i < |parts| - 1
      ensures |head| + Offset(parts, sep, i) + |parts[i]| + |sep| <= |r|
      ensures r[|head| + Offset(parts, sep, i) + |parts[i]|..|head| + Offset(parts, sep, i) + |parts[i]| + |sep|] == sep
    {
      JoinInsideSepAt(r, head, parts, sep, tail, i);
    }
  }

  lemma JoinInsideSepAt(r: string, head: string, parts: seq<string>, sep: string, tail: string, i: nat)
    requires r == head + (Join(parts, sep) + tail) && i < |parts| - 1
    ensures |head| + Offset(parts, sep, i) + |parts[i]| + |sep| <= |r|
    ensures r[|head| + Offset(parts, sep, i) + |parts[i]|..|head| + Offset(parts, sep, i) + |parts[i]| + |sep|] == sep
  {
    var o := Offset(parts, sep, i) + |parts[i]|;
    JoinSepAt(parts, sep, i);
    InsideMiddle(r, head, Join(parts, sep), tail, o, sep);
  }
}
