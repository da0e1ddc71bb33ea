/** Link extraction from the fully loaded listing page (`get_all_blog_urls`
    after the browser phase): every `article.elementor-post` is asked for the
    `a` inside its `h4.elementor-post__title`, and each non-empty `href` is
    kept the first time it is seen.
 */
module Links {
  import opened Wrappers

  /** The `a` tag inside a post title; `href` is `None` when the attribute is absent. */
  datatype Anchor = Anchor(href: Option<string>)

  /** The `h4.elementor-post__title` of a post; `anchor` is its first `a`, if any. */
  datatype TitleHeading = TitleHeading(anchor: Option<Anchor>)

  /** One `article.elementor-post`; `heading` is `None` when it has no title heading. */
  datatype Article = Article(heading: Option<TitleHeading>)

  /** Asking a missing heading for its link raises `AttributeError`, which
      nothing catches: the whole discovery phase ends with it. */
  datatype DiscoveryError = MissingHeading(article: nat)

  /** A sequence in which no element occurs twice. */
  predicate Distinct<T(==)>(s: seq<T>) {
    forall i, j :: 0 <= i < j < |s| ==> s[i] != s[j]
  }

  /** The position of the first occurrence of `x` in `xs`. */
  function FirstIndex<T(==)>(xs: seq<T>, x: T): (k: nat)
    requires x in xs
    ensures k < |xs| && xs[k] == x
    ensures forall j :: 0 <= j < k ==> xs[j] != x
  {
    if xs[0] == x then 0 else 1 + FirstIndex(xs[1..], x)
  }

  /** A first occurrence inside a prefix is the first occurrence overall. */
  lemma {:induction false} FirstIndexInPrefix<T>(xs: seq<T>, n: nat, x: T)
    requires n <= |xs| && x in xs[..n]
    ensures x in xs && FirstIndex(xs[..n], x) == FirstIndex(xs, x)
    decreases n
  {
    var pre := xs[..n];
    assert pre[0] == xs[0];
    if xs[0] != x {
      assert pre[1..] == xs[1..][..n - 1];
      FirstIndexInPrefix(xs[1..], n - 1, x);
    }
  }

  /** The link a post contributes: its anchor's `href`, or `None` when the
      heading holds no anchor. */
  function HrefOf(heading: TitleHeading): Option<string> {
    match heading.anchor
    case None => None
    case Some(a) => a.href
  }

  /** An `href` that the truthiness test of `get_all_blog_urls`
      (scrapyy.py:80) lets through. */
  predicate Usable(h: Option<string>) {
    h.Some? && h.value != []
  }

  /** The per-article `href`s, or the error raised at the first article that
      lacks a title heading. */
  function HrefsOf(articles: seq<Article>): (r: Result<seq<Option<string>>, DiscoveryError>)
    ensures r.Success? <==> forall i :: 0 <= i < |articles| ==> articles[i].heading.Some?
    ensures r.Success? ==> |r.value| == |articles|
    ensures r.Success? ==> forall i :: 0 <= i < |articles| ==> r.value[i] == HrefOf(articles[i].heading.value)
    ensures r.Failure? ==> r.error.article < |articles| && articles[r.error.article].heading.None?
    ensures r.Failure? ==> forall i :: 0 <= i < r.error.article ==> articles[i].heading.Some?
    decreases |articles|
  {
    if |articles| == 0 then Success([])
    else match articles[0].heading
      case None => Failure(MissingHeading(0))
      case Some(h) =>
        match HrefsOf(articles[1..])
        case Failure(MissingHeading(k)) => Failure(MissingHeading(k + 1))
        case Success(rest) => Success([HrefOf(h)] + rest)
  }

  /** The order-preserving de-duplication of the usable `href`s: every
      non-empty `href` once, at the place where it first appears. */
  function Dedup(hrefs: seq<Option<string>>): (links: seq<string>)
    ensures Distinct(links)
    ensures forall s :: s in links <==> Usable(Some(s)) && Some(s) in hrefs
    ensures forall i, j :: 0 <= i < j < |links| ==>
              FirstIndex(hrefs, Some(links[i])) < FirstIndex(hrefs, Some(links[j]))
    decreases |hrefs|
  {
    if |hrefs| == 0 then []
    else
      var init := hrefs[..|hrefs| - 1];
      var prev := Dedup(init);
      var h := hrefs[|hrefs| - 1];
      assert hrefs == init + [h];
      DedupPrefixOrder(hrefs, prev);
      if Usable(h) && h.value !in prev then
        LastFirstIndex(hrefs, prev);
        prev + [h.value]
      else prev
  }

  /** The first indices that order the links of a prefix stay the same in
      the whole sequence. */
  lemma {:induction false} DedupPrefixOrder(hrefs: seq<Option<string>>, prev: seq<string>)
    requires |hrefs| > 0
    requires forall s :: s in prev ==> Some(s) in hrefs[..|hrefs| - 1]
    ensures forall i :: 0 <= i < |prev| ==>
              Some(prev[i]) in hrefs &&
              FirstIndex(hrefs[..|hrefs| - 1], Some(prev[i])) == FirstIndex(hrefs, Some(prev[i]))
  {
    forall i | 0 <= i < |prev|
      ensures Some(prev[i]) in hrefs
      ensures FirstIndex(hrefs[..|hrefs| - 1], Some(prev[i])) == FirstIndex(hrefs, Some(prev[i]))
    {
      assert prev[i] in prev;
      FirstIndexInPrefix(hrefs, |hrefs| - 1, Some(prev[i]));
    }
  }

  /** A link that did not occur before the last position first occurs there,
      after every earlier link. */
  lemma LastFirstIndex(hrefs: seq<Option<string>>, prev: seq<string>)
    requires |hrefs| > 0 && Usable(hrefs[|hrefs| - 1])
    requires hrefs[|hrefs| - 1].value !in prev
    requires forall s :: s in prev <==> Usable(Some(s)) && Some(s) in hrefs[..|hrefs| - 1]
    requires forall i :: 0 <= i < |prev| ==> Some(prev[i]) in hrefs
    ensures FirstIndex(hrefs, hrefs[|hrefs| - 1]) == |hrefs| - 1
    ensures forall i :: 0 <= i < |prev| ==> FirstIndex(hrefs, Some(prev[i])) < |hrefs| - 1
  {
    var n := |hrefs| - 1;
    var h := hrefs[n];
    assert h !in hrefs[..n];
    forall i | 0 <= i < |prev|
      ensures FirstIndex(hrefs, Some(prev[i])) < n
    {
      assert prev[i] in prev;
      assert Some(prev[i]) != h;
    }
  }

  /** What the de-duplication promises of `links` over `hrefs`: no repeats,
      exactly the usable `href`s, in order of first appearance. */
  predicate IsFirstAppearanceList(hrefs: seq<Option<string>>, links: seq<string>) {
    && Distinct(links)
    && (forall s :: s in links ==> Usable(Some(s)) && Some(s) in hrefs)
    && (forall h :: h in hrefs && Usable(h) ==> h.value in links)
    && (forall i, j :: 0 <= i < j < |links| ==>
          FirstIndex(hrefs, Some(links[i])) < FirstIndex(hrefs, Some(links[j])))
  }

  /** The promise pins the list down: `Dedup` is the only list that keeps it. */
  lemma {:induction false} FirstAppearanceListIsUnique(hrefs: seq<Option<string>>, links: seq<string>)
    requires IsFirstAppearanceList(hrefs, links)
    ensures links == Dedup(hrefs)
    decreases |hrefs|
  {
    if |hrefs| == 0 {
      FirstLinkIsHref(hrefs, links);
    } else {
      var n := |hrefs| - 1;
      var init := hrefs[..n];
      var h := hrefs[n];
      assert hrefs == init + [h];
      forall s | s in links && s != (if Usable(h) then h.value else [])
        ensures Some(s) in init
      {
      }
      if Usable(h) && h !in init {
        NewHrefIsLastLink(hrefs, links);
        var rest := links[..|links| - 1];
        assert links == rest + [h.value];
        RestIsFirstAppearanceList(hrefs, links, rest);
        FirstAppearanceListIsUnique(init, rest);
        assert h.value !in Dedup(init);
      } else {
        InitIsFirstAppearanceList(hrefs, links);
        FirstAppearanceListIsUnique(init, links);
      }
    }
  }

  /** A usable `href` seen for the first time at the end of the input is
      the last link. */
  lemma NewHrefIsLastLink(hrefs: seq<Option<string>>, links: seq<string>)
    requires |hrefs| > 0 && Usable(hrefs[|hrefs| - 1]) && hrefs[|hrefs| - 1] !in hrefs[..|hrefs| - 1]
    requires IsFirstAppearanceList(hrefs, links)
    ensures |links| > 0 && links[|links| - 1] == hrefs[|hrefs| - 1].value
  {
    var n := |hrefs| - 1;
    var h := hrefs[n];
    assert FirstIndex(hrefs, h) == n;
    assert h.value in links;
    var m :| 0 <= m < |links| && links[m] == h.value;
    var last := |links| - 1;
    assert links[last] in links;
    assert FirstIndex(hrefs, Some(links[last])) <= n;
    assert m == last;
  }

  /** The first link of such a list is one of the `href`s. */
  lemma FirstLinkIsHref(hrefs: seq<Option<string>>, links: seq<string>)
    requires IsFirstAppearanceList(hrefs, links)
    ensures |links| > 0 ==> Some(links[0]) in hrefs
  {
    if |links| > 0 {
      assert links[0] in links;
    }
  }

  /** De-duplicating the links again, each as a present `href`, changes nothing. */
  lemma {:induction false} DedupIdempotent(hrefs: seq<Option<string>>)
    ensures var links := Dedup(hrefs);
      Dedup(seq(|links|, i requires 0 <= i < |links| => Some(links[i]))) == links
  {
    var links := Dedup(hrefs);
    var again := seq(|links|, i requires 0 <= i < |links| => Some(links[i]));
    forall s | Some(s) in again
      ensures s in links
    {
      var i :| 0 <= i < |again| && again[i] == Some(s);
    }
    forall i | 0 <= i < |links|
      ensures Some(links[i]) in again && FirstIndex(again, Some(links[i])) == i
    {
      assert again[i] == Some(links[i]);
    }
    FirstAppearanceListIsUnique(again, links);
  }

  /** Dropping the link that first appears at the last position leaves the
      list for the shorter input. */
  lemma RestIsFirstAppearanceList(hrefs: seq<Option<string>>, links: seq<string>, rest: seq<string>)
    requires |hrefs| > 0 && Usable(hrefs[|hrefs| - 1]) && hrefs[|hrefs| - 1] !in hrefs[..|hrefs| - 1]
    requires IsFirstAppearanceList(hrefs, links)
    requires links == rest + [hrefs[|hrefs| - 1].value]
    ensures IsFirstAppearanceList(hrefs[..|hrefs| - 1], rest)
  {
    var n := |hrefs| - 1;
    var init := hrefs[..n];
    assert hrefs == init + [hrefs[n]];
    forall s | s in rest
      ensures Some(s) in init
    {
      var i :| 0 <= i < |rest| && rest[i] == s;
      assert links[i] == s && links[|links| - 1] == hrefs[n].value;
    }
    forall i | 0 <= i < |rest|
      ensures FirstIndex(init, Some(rest[i])) == FirstIndex(hrefs, Some(rest[i]))
    {
      assert rest[i] in rest;
      FirstIndexInPrefix(hrefs, n, Some(rest[i]));
    }
    assert forall i :: 0 <= i < |rest| ==> rest[i] == links[i];
  }

  /** When the last `href` adds no new link, the list is already the list
      of the shorter input. */
  lemma InitIsFirstAppearanceList(hrefs: seq<Option<string>>, links: seq<string>)
    requires |hrefs| > 0 && !(Usable(hrefs[|hrefs| - 1]) && hrefs[|hrefs| - 1] !in hrefs[..|hrefs| - 1])
    requires IsFirstAppearanceList(hrefs, links)
    ensures IsFirstAppearanceList(hrefs[..|hrefs| - 1], links)
  {
    var n := |hrefs| - 1;
    var init := hrefs[..n];
    assert hrefs == init + [hrefs[n]];
    forall i | 0 <= i < |links|
      ensures Some(links[i]) in init
      ensures FirstIndex(init, Some(links[i])) == FirstIndex(hrefs, Some(links[i]))
    {
      assert links[i] in links;
      FirstIndexInPrefix(hrefs, n, Some(links[i]));
    }
  }

  /** The links the listing page yields: the de-duplicated `href`s, or the
      error that ends discovery. */
  function LinksOf(articles: seq<Article>): (r: Result<seq<string>, DiscoveryError>)
    ensures r.Success? <==> forall i :: 0 <= i < |articles| ==> articles[i].heading.Some?
    ensures r.Failure? ==> HrefsOf(articles).Failure? && r.error == HrefsOf(articles).error
    ensures r.Success? ==> Distinct(r.value)
    ensures r.Success? ==> HrefsOf(articles).Success? &&
                           IsFirstAppearanceList(HrefsOf(articles).value, r.value)
  {
    match HrefsOf(articles)
    case Failure(e) => Failure(e)
    case Success(hrefs) => Success(Dedup(hrefs))
  }

  /** The discovered links are exactly the non-empty `href`s of the
      articles' title anchors. */
  lemma LinksAreArticleHrefs(articles: seq<Article>, s: string)
    requires LinksOf(articles).Success?
    ensures s in LinksOf(articles).value <==>
              s != [] && exists i :: 0 <= i < |articles| && articles[i].heading.Some? &&
                                     HrefOf(articles[i].heading.value) == Some(s)
  {
    var hrefs := HrefsOf(articles).value;
    if Some(s) in hrefs {
      var i :| 0 <= i < |hrefs| && hrefs[i] == Some(s);
      assert articles[i].heading.Some?;
    }
  }

  /** The loop of `get_all_blog_urls` (scrapyy.py:78-82), step by step:
      skip articles without a usable `href`, append an `href` only when it is
      not yet in the list. */
  method CollectLinks(articles: seq<Article>) returns (r: Result<seq<string>, DiscoveryError>)
    ensures r == LinksOf(articles)
  {
    var links: seq<string> := [];
    ghost var hrefs: seq<Option<string>> := [];
    for k := 0 to |articles|
      invariant HrefsOf(articles[..k]) == Success(hrefs)
      invariant links == Dedup(hrefs)
    {
      var heading := articles[k].heading;
      if heading.None? {
        HrefsPrefixFailure(articles, k);
        return Failure(MissingHeading(k));
      }
      var href := HrefOf(heading.value);
      HrefsPrefixStep(articles, k);
      DedupStep(hrefs, href);
      hrefs := hrefs + [href];
      if href.Some? && href.value != [] {
        if href.value !in links {
          links := links + [href.value];
        }
      }
    }
    assert articles[..|articles|] == articles;
    return Success(links);
  }

  /** One more `href` adds its link exactly when it is usable and new. */
  lemma DedupStep(hrefs: seq<Option<string>>, h: Option<string>)
    ensures Dedup(hrefs + [h])
         == if Usable(h) && h.value !in Dedup(hrefs) then Dedup(hrefs) + [h.value] else Dedup(hrefs)
  {
    assert (hrefs + [h])[..|hrefs|] == hrefs;
  }

  /** One more article with a heading extends the prefix's `href`s by one. */
  lemma HrefsPrefixStep(articles: seq<Article>, k: nat)
    requires k < |articles| && articles[k].heading.Some?
    requires HrefsOf(articles[..k]).Success?
    ensures HrefsOf(articles[..k + 1]).Success?
    ensures HrefsOf(articles[..k + 1]).value
         == HrefsOf(articles[..k]).value + [HrefOf(articles[k].heading.value)]
  {
    var pre, ext := articles[..k], articles[..k + 1];
    assert forall i :: 0 <= i < k ==> pre[i] == ext[i];
    var a, b := HrefsOf(pre).value, HrefsOf(ext).value;
    assert b == a + [HrefOf(articles[k].heading.value)];
  }

  /** The first article without a heading is where `HrefsOf` fails. */
  lemma HrefsPrefixFailure(articles: seq<Article>, k: nat)
    requires k < |articles| && articles[k].heading.None?
    requires HrefsOf(articles[..k]).Success?
    ensures LinksOf(articles) == Failure(MissingHeading(k))
  {
    var pre := articles[..k];
    assert forall i :: 0 <= i < k ==> pre[i] == articles[i];
    var r := HrefsOf(articles);
    assert r.Failure?;
    var e := r.error.article;
    assert !(e < k);
    assert !(k < e);
  }
}
