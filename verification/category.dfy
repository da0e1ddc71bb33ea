/** The category slug that `scrape_post_content` derives from a post URL's
    path: the first `/`-separated part of the stripped path when there is more
    than one part, otherwise the default "uncategorized".
 */
module Category {
  import opened Wrappers
  import opened PyStrings

  const Uncategorized: string := "uncategorized"

  /** The category for a URL whose parsed path is `path`; `None` stands for
      `urlparse` raising, which is caught, logged and leaves the default. */
  function CategoryOf(path: Option<string>): (cat: string)
    ensures path.None? ==> cat == Uncategorized
    ensures cat == Uncategorized || (cat != [] && '/' !in cat)
    ensures path.Some? && cat != Uncategorized ==> cat <= Strip(path.value, '/')
  {
    match path
    case None => Uncategorized
    case Some(p) =>
      var parts := Split(Strip(p, '/'), '/');
      if |parts| > 1 then parts[0] else Uncategorized
  }

  /** Reference reading of the rule: drop the empty segments of the path, and
      take the first remaining one when more than one remains. */
  function SegmentCategory(path: string): string {
    var segments := NonEmpty(Split(path, '/'));
    if |segments| > 1 then segments[0] else Uncategorized
  }

  /** Keeping interior empty segments (as `strip` then `split` does) and
      dropping all empty segments pick the same category for every path. */
  lemma {:induction false} CategoryAgreesWithSegments(path: string)
    ensures CategoryOf(Some(path)) == SegmentCategory(path)
  {
    var t := Strip(path, '/');
    StripKeepsNonEmptyPieces(path, '/');
    TrimmedCategory(t);
  }

  /** On a path with no outer slashes, the first of several pieces is the
      first of several non-empty ones. */
  lemma {:induction false} TrimmedCategory(t: string)
    requires t == [] || (t[0] != '/' && t[|t| - 1] != '/')
    ensures var parts := Split(t, '/');
      (if |parts| > 1 then parts[0] else Uncategorized) == SegmentCategory(t)
  {
    var parts := Split(t, '/');
    if '/' in t {
      SplitLastNonEmpty(t, '/');
      FirstAndLastSurvive(parts);
    } else {
      assert |parts| == 1;
    }
  }

  /** When the first and the last of several pieces are non-empty, dropping
      empty pieces leaves at least two, led by the first. */
  lemma FirstAndLastSurvive(parts: seq<string>)
    requires |parts| > 1 && parts[0] != [] && parts[|parts| - 1] != []
    ensures |NonEmpty(parts)| > 1 && NonEmpty(parts)[0] == parts[0]
  {
    assert parts[|parts| - 1] in parts[1..];
  }

  /** Stripping one slash from each end of a path whose inner text neither
      starts nor ends with a slash leaves that inner text. */
  lemma StripOuterSlashes(q: string)
    requires q != [] && q[0] != '/' && q[|q| - 1] != '/'
    ensures Strip("/" + q + "/", '/') == q
  {
    var p := "/" + q + "/";
    assert p[1..] == q + "/";
    assert (q + "/")[0] == q[0];
    assert LStrip(p, '/') == q + "/";
    assert (q + "/")[..|q|] == q;
    assert RStrip(q + "/", '/') == q;
  }

  /** A path of two non-empty segments between slashes, such as
      `/category/item-name/`, is categorised by its first segment. */
  lemma {:induction false} CategoryOfTwoSegments(a: string, b: string)
    requires a != [] && '/' !in a && b != [] && '/' !in b
    ensures CategoryOf(Some("/" + a + "/" + b + "/")) == a
  {
    var q := a + "/" + b;
    var p := "/" + a + "/" + b + "/";
    assert Strip(p, '/') == q by {
      assert p == "/" + q + "/";
      StripOuterSlashes(q);
    }
    assert Split(q, '/') == [a, b] by {
      TwoPieces(a, b);
    }
  }

  lemma {:induction false} TwoPieces(a: string, b: string)
    requires '/' !in a && '/' !in b
    ensures Split(a + "/" + b, '/') == [a, b]
  {
    var parts := [a, b];
    assert parts[1..] == [b];
    assert Join(parts, '/') == a + "/" + b;
    SplitJoin(parts, '/');
  }

  /** A path of one segment between slashes, such as `/item-name/`, keeps the
      default category. */
  lemma CategoryOfOneSegment(a: string)
    requires a != [] && '/' !in a
    ensures CategoryOf(Some("/" + a + "/")) == Uncategorized
  {
    StripOuterSlashes(a);
  }

  /** Two typical post URLs: `https://example.com/category/item-name/`
      has category "category", `https://example.com/item-name/` has none. */
  lemma {:induction false} CategoryExamples()
    ensures CategoryOf(Some("/category/item-name/")) == "category"
    ensures CategoryOf(Some("/item-name/")) == Uncategorized
  {
    var cat, item := "category", "item-name";
    ExampleSegmentLiterals(cat, item);
    CategoryOfTwoSegments(cat, item);
    CategoryOfOneSegment(item);
  }

  /** The literal facts about the example segments: how they spell the two
      example paths, and that each is non-empty and slash-free. */
  lemma ExampleSegmentLiterals(cat: string, item: string)
    requires cat == "category" && item == "item-name"
    ensures "/" + cat + "/" + item + "/" == "/category/item-name/"
    ensures "/" + item + "/" == "/item-name/"
    ensures cat != [] && '/' !in cat && item != [] && '/' !in item
  {
  }

  /** Interior empty segments are kept: `/a//b/` splits into `a`, an empty
      segment and `b`, and is categorised by `a`. */
  lemma {:induction false} CategoryWithInteriorEmpty(a: string, b: string)
    requires a != [] && '/' !in a && b != [] && '/' !in b
    ensures Split(Strip("/" + a + "//" + b + "/", '/'), '/') == [a, "", b]
    ensures CategoryOf(Some("/" + a + "//" + b + "/")) == a
  {
    var q := a + "//" + b;
    var p := "/" + a + "//" + b + "/";
    assert Strip(p, '/') == q by {
      assert p == "/" + q + "/";
      assert q[0] == a[0] && q[|q| - 1] == b[|b| - 1];
      StripOuterSlashes(q);
    }
    assert Split(q, '/') == [a, "", b] by {
      ThreePiecesMiddleEmpty(a, b);
    }
  }

  lemma {:induction false} ThreePiecesMiddleEmpty(a: string, b: string)
    requires '/' !in a && '/' !in b
    ensures Split(a + "//" + b, '/') == [a, "", b]
  {
    var parts := [a, "", b];
    assert parts[1..] == ["", b];
    assert Join(parts[1..], '/') == "/" + b by {
      assert parts[1..][1..] == [b];
    }
    assert Join(parts, '/') == a + "//" + b;
    SplitJoin(parts, '/');
  }
}
