# Scrapping-AL-Azeem scraper core in Dafny

`scrapyy.py` harvests the posts and products of a WordPress/WooCommerce site.
A browser clicks "Load More" until every post is on the listing page. The
links of the posts are then collected. Each link is fetched, the page is
classified as a product or a blog post, and a record is built from it. The
records are saved to a JSON file.

This project models the deterministic logic between those I/O steps:

- `Links` models the link collection (`get_all_blog_urls`, lines 75-85). Each
  `article.elementor-post` gives an optional `href`, and the non-empty ones are
  kept in order of first appearance, without repeats. An article with no title
  heading makes the source raise `AttributeError`. The model returns an error
  for it.
- `PyStrings` and `Category` model the category taken from a URL path
  (`path.strip("/").split("/")`, lines 108-121). They follow Python's `strip`
  and `split` exactly, so interior empty segments are kept.
- `Page` models page classification and record assembly (lines 103-175).
  The product heading wins over the blog heading. Title, image and content are
  read only from the containers of the chosen template. Each field falls back
  to its sentinel string.
- `Pipeline` models the rest. A failed fetch gives no record (lines 96-99).
  The main loop keeps the non-`None` results in URL order (lines 209-216).
  `save_to_json` writes nothing for an empty list (lines 184-186). `Run` joins
  the three phases together (lines 202-219).

The parsed HTML is an abstract input. `ParsedPage` records, for each element
the scraper searches for, whether it was found and what it holds. The network
is the `Web` parameter. It gives each URL's fetch outcome and its parsed path.

The rule could also be read as "drop the empty path segments, then take the
first one if more than one remains". The code instead strips the outer slashes
and splits, which keeps interior empty segments (`/a//b/` gives `a`, `""`,
`b`). The model follows the code. `Category.CategoryAgreesWithSegments` proves that both readings give the
same category for every path, so the difference cannot be observed.

`response.ok` is modelled by the rule of the `requests` library: a status is
ok unless it lies in 400..599.

## Model

| member | source | states |
|---|---|---|
| PyStrings.LStrip | scrapyy.py:114 | the result is a suffix of the input; everything dropped is `/`; the result does not start with `/` |
| PyStrings.RStrip | scrapyy.py:114 | the result is a prefix of the input; everything dropped is `/`; the result does not end with `/` |
| PyStrings.Strip | scrapyy.py:114 | the stripped path is a contiguous slice of the input with only separators before and after it, so only the outer runs of `/` are removed; it neither starts nor ends with the separator |
| PyStrings.Split | scrapyy.py:114 | at least one part; no part contains the separator; more than one part exactly when the separator occurs; the first part is a prefix, non-empty when the string starts with another character |
| PyStrings.JoinSplit | scrapyy.py:114 | joining the parts of a split with the separator gives back the string |
| PyStrings.SplitJoin | scrapyy.py:114 | splitting the join of separator-free parts gives back the parts, empty parts included |
| PyStrings.StripKeepsNonEmptyPieces | scrapyy.py:114 | stripping the outer separators changes no non-empty segment and no segment's order |
| Category.CategoryOf | scrapyy.py:108-121 | the category is "uncategorized" or a non-empty string without `/` taken from the start of the stripped path; a failed URL parse leaves "uncategorized" |
| Category.CategoryAgreesWithSegments | scrapyy.py:113-118 | for every path, the category is the first non-empty segment when more than one non-empty segment exists, otherwise "uncategorized" |
| Category.CategoryOfTwoSegments | scrapyy.py:113-118 | `/a/b/` with non-empty slash-free `a` and `b` has category `a` |
| Category.CategoryOfOneSegment | scrapyy.py:116-118 | `/a/` keeps "uncategorized" |
| Category.CategoryExamples | scrapyy.py:108-118 | `/category/item-name/` gives "category"; `/item-name/` gives "uncategorized" |
| Category.CategoryWithInteriorEmpty | scrapyy.py:113-118 | `/a//b/` with non-empty slash-free `a` and `b` splits into `a`, an empty segment and `b`, and has category `a` |
| Links.HrefsOf | scrapyy.py:78-79 | succeeds exactly when every article has a title heading, giving each article's anchor `href`; otherwise fails at the first article without one |
| Links.Dedup | scrapyy.py:75-82 | no link twice; a string is a link exactly when it is a non-empty `href` of the input; links are ordered by their first appearance in the input |
| Links.FirstAppearanceListIsUnique | scrapyy.py:75-82 | any list with those three properties equals the de-duplicated list, so the properties determine it |
| Links.DedupIdempotent | scrapyy.py:80-82 | de-duplicating the collected links again returns them unchanged |
| Links.LinksOf | scrapyy.py:75-85 | discovery fails exactly when some article lacks its heading, with that article's error. Otherwise the links contain no repeats, are exactly the non-empty `href`s, and follow the order of first appearance |
| Links.LinksAreArticleHrefs | scrapyy.py:78-82 | after a successful discovery, a string is a link exactly when it is non-empty and is the `href` of some article's title anchor |
| Links.CollectLinks | scrapyy.py:75-85 | the loop that appends each usable `href` not yet in the list computes the de-duplicated links, or fails at the first headless article |
| Page.PageType.Name | scrapyy.py:104-148 | the record's type field is "product" exactly for a product page, "blog" exactly for a blog post and "unknown" exactly for neither |
| Page.Classify | scrapyy.py:124-166 | "product" exactly when the product title exists; "blog" exactly when only the blog title exists; "unknown" when neither exists |
| Page.ImageUrl | scrapyy.py:132-138 | the image URL is the first `img`'s non-empty `src` when the container and image exist, and otherwise the sentinel |
| Page.Extract | scrapyy.py:103-175 | the record keeps the URL and the derived category. Its type is the classification. Its title, image and content come from the chosen template's containers, with sentinels for missing ones. An unknown page gets all three sentinels |
| Page.ProductIgnoresBlogContainers | scrapyy.py:124-146 | when the product title exists, the record is "product" and depends only on the product containers, even if a blog title is present |
| Page.BlogIgnoresProductContainers | scrapyy.py:146-163 | a blog page's record depends only on the blog containers |
| Page.UnknownPageUsesSentinels | scrapyy.py:103-175 | with neither title, the record is "unknown" with the title, image and content sentinels and the derived category |
| Page.ImageOnlyFromOwnContainer | scrapyy.py:132-157 | the image URL leaves its sentinel only when the container of the page's own type has a first `img` with a non-empty `src` |
| Pipeline.ScrapePost | scrapyy.py:95-99 | no record exactly when the request raised or the status is not ok; otherwise the page's record, carrying the URL |
| Pipeline.Harvest | scrapyy.py:209-214 | no more records than URLs; a record is kept exactly when some URL's scrape produced it; every record's URL is one of the URLs |
| Pipeline.ScrapeAll | scrapyy.py:209-216 | the loop that appends each non-`None` result computes the harvest |
| Pipeline.HarvestAppend | scrapyy.py:210-214 | the records of two URL runs in sequence are the records of the first, then those of the second |
| Pipeline.FailedUrlOmitted | scrapyy.py:210-214 | a URL whose scrape gives no record can be removed without changing the records of the other URLs |
| Pipeline.HarvestFollowsUrlOrder | scrapyy.py:210-214 | over distinct URLs, the records' URLs occur in strictly increasing URL positions, so no page is recorded twice |
| Pipeline.SaveToJson | scrapyy.py:182-193 | nothing is written exactly when the list is empty; otherwise the whole list goes to the named file |
| Pipeline.Run | scrapyy.py:202-219 | a run fails when discovery raises and stops with no URLs when none are found. Otherwise it harvests the links and saves the records to the output file only when there is at least one |
| Pipeline.RunWritesIffSomeRecord | scrapyy.py:202-219 | the output file is written exactly when discovery succeeds and some discovered URL yields a record |
| Pipeline.RunRecordsFollowDiscovery | scrapyy.py:202-214 | a finished run's records follow the discovery order of their links, with no page twice |

## Left out

- The Selenium "Load More" loop (scrapyy.py:23-71) and all of `test-btn.py`. This is browser automation with waits and sleeps. The model's input is the list of articles on the fully loaded page.
- HTTP fetching with `requests` and the `User-Agent` header. The fetch outcome is an input per URL.
- BeautifulSoup parsing, `get_text(strip=True)` and `str(tag)`. Titles arrive as already-trimmed text, and content blocks as already-serialised markup.
- `urllib.parse.urlparse`. The parsed path is an input per URL. `None` stands for `urlparse` raising.
- Exceptions raised inside `scrape_post_content` after the fetch, by parsing or serialising. They all give the same `None` as a raised request, so `FetchRaised` stands for all of them.
- JSON serialisation and file writing (scrapyy.py:188-193), including a write that fails. `SaveToJson` gives the file name and records that would be written. The round trip of records through a JSON file is not modelled.
- `time.sleep` and all console output.
