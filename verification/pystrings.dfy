/** Python's `str.strip`, `str.split` and `str.join`, specialised to a single
    separator character, as the category parser uses them
    (`path.strip("/").split("/")`).
 */
module PyStrings {

  /** `s.lstrip(c)`: drops every leading `c`. */
  function LStrip(s: string, c: char): (r: string)
    ensures |r| <= |s| && r == s[|s| - |r|..]
    ensures forall k :: 0 <= k < |s| - |r| ==> s[k] == c
    ensures r == [] || r[0] != c
    decreases |s|
  {
    if |s| > 0 && s[0] == c then
      var r := LStrip(s[1..], c);
      assert s[1..][|s| - 1 - |r|..] == s[|s| - |r|..];
      r
    else s
  }

  /** `s.rstrip(c)`: drops every trailing `c`. */
  function RStrip(s: string, c: char): (r: string)
    ensures |r| <= |s| && r == s[..|r|]
    ensures forall k :: |r| <= k < |s| ==> s[k] == c
    ensures r == [] || r[|r| - 1] != c
    decreases |s|
  {
    if |s| > 0 && s[|s| - 1] == c then
      var r := RStrip(s[..|s| - 1], c);
      assert s[..|s| - 1][..|r|] == s[..|r|];
      r
    else s
  }

  /** `r` is the slice of `s` starting at `a`, and everything of `s` before
      and after that slice is `c`. */
  predicate TrimmedAt(s: string, c: char, a: nat, r: string) {
    && a + |r| <= |s|
    && r == s[a..a + |r|]
    && (forall k :: 0 <= k < a ==> s[k] == c)
    && (forall k :: a + |r| <= k < |s| ==> s[k] == c)
  }

  /** `s.strip(c)`: drops every leading and every trailing `c`, and nothing
      else. */
  function Strip(s: string, c: char): (r: string)
    ensures |r| <= |s|
    ensures r == [] || (r[0] != c && r[|r| - 1] != c)
    ensures exists a: nat :: TrimmedAt(s, c, a, r)
  {
    var l := LStrip(s, c);
    var r := RStrip(l, c);
    TrimmedFromBothEnds(s, c, l, r);
    r
  }

  /** A suffix of `s` whose dropped head is all `c`, cut down to a prefix
      whose dropped tail is all `c`, is a slice of `s` with only `c` around. */
  lemma TrimmedFromBothEnds(s: string, c: char, l: string, r: string)
    requires |l| <= |s| && l == s[|s| - |l|..]
    requires forall k :: 0 <= k < |s| - |l| ==> s[k] == c
    requires |r| <= |l| && r == l[..|r|]
    requires forall k :: |r| <= k < |l| ==> l[k] == c
    requires l == [] || l[0] != c
    requires r == [] || r[|r| - 1] != c
    ensures TrimmedAt(s, c, |s| - |l|, r)
    ensures r == [] || (r[0] != c && r[|r| - 1] != c)
  {
    if r != [] {
      assert r[0] == l[0];
    }
    var a := |s| - |l|;
    assert s[a..a + |r|] == l[..|r|];
    forall k | a + |r| <= k < |s|
      ensures s[k] == c
    {
      assert s[k] == l[k - a];
    }
  }

  /** `s.split(c)`: the pieces between separators, empty pieces included;
      the empty string splits into one empty piece. */
  function Split(s: string, c: char): (parts: seq<string>)
    ensures |parts| >= 1
    ensures forall i :: 0 <= i < |parts| ==> c !in parts[i]
    ensures c in s <==> |parts| > 1
    ensures parts[0] <= s
    ensures |s| > 0 && s[0] != c ==> parts[0] != []
    decreases |s|
  {
    if |s| == 0 then [[]]
    else
      var rest := Split(s[1..], c);
      if s[0] == c then [[]] + rest
      else [[s[0]] + rest[0]] + rest[1..]
  }

  /** `c.join(parts)`: the pieces with one separator between neighbours. */
  function Join(parts: seq<string>, c: char): (s: string)
    requires |parts| >= 1
    ensures |parts| == 1 ==> s == parts[0]
    ensures parts[0] <= s
    decreases |parts|
  {
    if |parts| == 1 then parts[0]
    else parts[0] + [c] + Join(parts[1..], c)
  }

  /** Splitting and joining again gives back the string. */
  lemma {:induction false} JoinSplit(s: string, c: char)
    ensures Join(Split(s, c), c) == s
    decreases |s|
  {
    if |s| > 0 {
      var rest := Split(s[1..], c);
      JoinSplit(s[1..], c);
      if s[0] != c {
        JoinHead(s[0], rest, c);
      }
      assert s == [s[0]] + s[1..];
    }
  }

  /** Prefixing a character to the first piece prefixes it to the join. */
  lemma JoinHead(x: char, parts: seq<string>, c: char)
    requires |parts| >= 1
    ensures Join([[x] + parts[0]] + parts[1..], c) == [x] + Join(parts, c)
  {
    var ps := [[x] + parts[0]] + parts[1..];
    assert ps[1..] == parts[1..];
  }

  /** Joining pieces that hold no separator and splitting again gives back
      the pieces. */
  lemma {:induction false} SplitJoin(parts: seq<string>, c: char)
    requires |parts| >= 1
    requires forall i :: 0 <= i < |parts| ==> c !in parts[i]
    ensures Split(Join(parts, c), c) == parts
    decreases |parts|, |parts[0]|
  {
    if parts[0] == [] {
      if |parts| > 1 {
        var rest := Join(parts[1..], c);
        assert Join(parts, c) == [c] + rest;
        SplitJoin(parts[1..], c);
        SplitAfterSep(rest, c);
        assert [[]] + parts[1..] == parts;
      }
    } else {
      var x := parts[0][0];
      var tail := [parts[0][1..]] + parts[1..];
      assert tail[1..] == parts[1..];
      assert parts[0] == [x] + tail[0];
      assert parts == [[x] + tail[0]] + tail[1..];
      SplitJoin(tail, c);
      JoinHead(x, tail, c);
      SplitAfterChar(x, Join(tail, c), c);
    }
  }

  /** A leading separator contributes one empty first piece. */
  lemma SplitAfterSep(u: string, c: char)
    ensures Split([c] + u, c) == [[]] + Split(u, c)
  {
    assert ([c] + u)[1..] == u;
  }

  /** A leading non-separator joins the first piece. */
  lemma SplitAfterChar(x: char, u: string, c: char)
    requires x != c
    ensures Split([x] + u, c) == [[x] + Split(u, c)[0]] + Split(u, c)[1..]
  {
    assert ([x] + u)[1..] == u;
  }

  /** Appending a separator appends one empty piece. */
  lemma {:induction false} SplitTrailingSep(s: string, c: char)
    ensures Split(s + [c], c) == Split(s, c) + [[]]
    decreases |s|
  {
    if |s| > 0 {
      assert (s + [c])[1..] == s[1..] + [c];
      SplitTrailingSep(s[1..], c);
    } else {
      assert s + [c] == [c];
    }
  }

  /** The last piece is non-empty when the string ends in something other
      than the separator. */
  lemma {:induction false} SplitLastNonEmpty(s: string, c: char)
    requires |s| > 0 && s[|s| - 1] != c
    ensures Split(s, c)[|Split(s, c)| - 1] != []
    decreases |s|
  {
    if |s| > 1 {
      SplitLastNonEmpty(s[1..], c);
    }
  }

  /** The non-empty pieces of a split, in order. */
  function NonEmpty(parts: seq<string>): (r: seq<string>)
    ensures |r| <= |parts|
    ensures forall p :: p in r <==> p in parts && p != []
    decreases |parts|
  {
    if |parts| == 0 then []
    else if parts[0] == [] then NonEmpty(parts[1..])
    else [parts[0]] + NonEmpty(parts[1..])
  }

  lemma {:induction false} NonEmptyAppend(a: seq<string>, b: seq<string>)
    ensures NonEmpty(a + b) == NonEmpty(a) + NonEmpty(b)
    decreases |a|
  {
    if |a| > 0 {
      assert (a + b)[1..] == a[1..] + b;
      NonEmptyAppend(a[1..], b);
    } else {
      assert a + b == b;
    }
  }

  /** Separators stripped from either end only remove empty pieces, so the
      non-empty pieces of `s` and of `s.strip(c)` coincide. */
  lemma {:induction false} StripKeepsNonEmptyPieces(s: string, c: char)
    ensures NonEmpty(Split(Strip(s, c), c)) == NonEmpty(Split(s, c))
  {
    LStripKeepsNonEmptyPieces(s, c);
    RStripKeepsNonEmptyPieces(LStrip(s, c), c);
  }

  lemma {:induction false} LStripKeepsNonEmptyPieces(s: string, c: char)
    ensures NonEmpty(Split(LStrip(s, c), c)) == NonEmpty(Split(s, c))
    decreases |s|
  {
    if |s| > 0 && s[0] == c {
      LStripKeepsNonEmptyPieces(s[1..], c);
    }
  }

  lemma {:induction false} RStripKeepsNonEmptyPieces(s: string, c: char)
    ensures NonEmpty(Split(RStrip(s, c), c)) == NonEmpty(Split(s, c))
    decreases |s|
  {
    if |s| > 0 && s[|s| - 1] == c {
      var t := s[..|s| - 1];
      assert RStrip(s, c) == RStrip(t, c);
      RStripKeepsNonEmptyPieces(t, c);
      assert NonEmpty(Split(s, c)) == NonEmpty(Split(t, c)) by {
        assert s == t + [c];
        SplitTrailingSep(t, c);
        NonEmptyAppend(Split(t, c), [[]]);
      }
    }
  }
}
