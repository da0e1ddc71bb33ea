/** Classification of a fetched post page and assembly of its record
    (`scrape_post_content` once the response is in hand). The parsed page is
    given as the handful of elements the scraper looks for, each of which may
    be missing.
 */
module Page {
  import opened Wrappers
  import Category

  const TitleNotFound: string := "Title not found"
  const ImageNotFound: string := "Image not found"
  const ContentNotFound: string := "Content not found"

  /** The record's "type" field. */
  datatype PageType = Product | Blog | Unknown {
    function Name(): (s: string)
      ensures (s == "product") == (this == Product)
      ensures (s == "blog") == (this == Blog)
      ensures (s == "unknown") == (this == Unknown)
    {
      match this
      case Product => "product"
      case Blog => "blog"
      case Unknown => "unknown"
    }
  }

  /** An `img` tag; `src` is `None` when the attribute is absent. */
  datatype Img = Img(src: Option<string>)

  /** An image container `div`; `firstImg` is the first `img` inside it, if any. */
  datatype ImageBox = ImageBox(firstImg: Option<Img>)

  /** What the scraper finds in the parsed page. Titles are the trimmed text
      of the heading; content blocks are the serialised markup of the `div`. */
  datatype ParsedPage = ParsedPage(
    productTitle: Option<string>,          // h1.product_title
    blogTitle: Option<string>,             // h1.elementor-heading-title
    productGallery: Option<ImageBox>,      // div.woocommerce-product-gallery__wrapper
    productDescription: Option<string>,    // div.woocommerce-product-details__short-description
    featuredImage: Option<ImageBox>,       // div.elementor-widget-theme-post-featured-image
    postContent: Option<string>)           // div.elementor-widget-theme-post-content

  /** The dictionary `scrape_post_content` returns. */
  datatype Record = Record(
    url: string,
    pageType: PageType,
    category: string,
    title: string,
    featuredImageUrl: string,
    contentHtml: string)

  /** The containers one page template reads its fields from. */
  datatype Template = Template(title: Option<string>, image: Option<ImageBox>, content: Option<string>)

  /** `box` exists, its first `img` exists and that image's `src` is the
      non-empty string `src`. */
  predicate HasSrc(box: Option<ImageBox>, src: string) {
    && box.Some?
    && box.value.firstImg.Some?
    && box.value.firstImg.value.src == Some(src)
    && src != []
  }

  /** The product marker wins over the blog marker. */
  function Classify(page: ParsedPage): (t: PageType)
    ensures t == Product <==> page.productTitle.Some?
    ensures t == Blog <==> page.productTitle.None? && page.blogTitle.Some?
    ensures t == Unknown <==> page.productTitle.None? && page.blogTitle.None?
  {
    if page.productTitle.Some? then Product
    else if page.blogTitle.Some? then Blog
    else Unknown
  }

  /** The containers a page of type `t` is read from; an unknown page reads none. */
  function TemplateFor(page: ParsedPage, t: PageType): Template {
    match t
    case Product => Template(page.productTitle, page.productGallery, page.productDescription)
    case Blog => Template(page.blogTitle, page.featuredImage, page.postContent)
    case Unknown => Template(None, None, None)
  }

  /** The image URL: the first `img`'s `src` when the container and the image
      exist and the `src` is non-empty, otherwise the sentinel. */
  function ImageUrl(box: Option<ImageBox>): (url: string)
    ensures forall s :: HasSrc(box, s) ==> url == s
    ensures url == ImageNotFound || HasSrc(box, url)
  {
    match box
    case None => ImageNotFound
    case Some(b) =>
      match b.firstImg
      case None => ImageNotFound
      case Some(img) =>
        match img.src
        case Some(s) => if s != [] then s else ImageNotFound
        case None => ImageNotFound
  }

  /** The record for a fetched page: the URL, the derived category, and the
      fields of the template the page classifies as, each falling back to
      its sentinel. `path` is the URL's parsed path, `None` when parsing it
      raised. */
  function Extract(url: string, path: Option<string>, page: ParsedPage): (rec: Record)
    ensures rec.url == url && rec.category == Category.CategoryOf(path)
    ensures rec.pageType == Classify(page)
    ensures page.productTitle.Some? ==>
              && rec.title == page.productTitle.value
              && rec.featuredImageUrl == ImageUrl(page.productGallery)
              && rec.contentHtml == page.productDescription.GetOr(ContentNotFound)
    ensures page.productTitle.None? && page.blogTitle.Some? ==>
              && rec.title == page.blogTitle.value
              && rec.featuredImageUrl == ImageUrl(page.featuredImage)
              && rec.contentHtml == page.postContent.GetOr(ContentNotFound)
    ensures page.productTitle.None? && page.blogTitle.None? ==>
              && rec.title == TitleNotFound
              && rec.featuredImageUrl == ImageNotFound
              && rec.contentHtml == ContentNotFound
  {
    var t := Classify(page);
    var fields := TemplateFor(page, t);
    Record(
      url,
      t,
      Category.CategoryOf(path),
      fields.title.GetOr(TitleNotFound),
      ImageUrl(fields.image),
      fields.content.GetOr(ContentNotFound))
  }

  /** A product page's record depends only on its product containers: any
      blog heading, featured image or post content is ignored. */
  lemma ProductIgnoresBlogContainers(url: string, path: Option<string>, p: ParsedPage, q: ParsedPage)
    requires p.productTitle.Some?
    requires q.productTitle == p.productTitle
    requires q.productGallery == p.productGallery && q.productDescription == p.productDescription
    ensures Extract(url, path, p) == Extract(url, path, q)
    ensures Extract(url, path, p).pageType == Product
  {
  }

  /** A blog page's record depends only on its blog containers: product
      galleries and descriptions without a product title are ignored. */
  lemma BlogIgnoresProductContainers(url: string, path: Option<string>, p: ParsedPage, q: ParsedPage)
    requires p.productTitle.None? && p.blogTitle.Some?
    requires q.productTitle.None? && q.blogTitle == p.blogTitle
    requires q.featuredImage == p.featuredImage && q.postContent == p.postContent
    ensures Extract(url, path, p) == Extract(url, path, q)
    ensures Extract(url, path, p).pageType == Blog
  {
  }

  /** A page with neither title marker gives an "unknown" record whose
      title, image and content are the sentinels, whatever containers it
      has; the category is still derived from the URL. */
  lemma UnknownPageUsesSentinels(url: string, path: Option<string>, page: ParsedPage)
    requires page.productTitle.None? && page.blogTitle.None?
    ensures Extract(url, path, page)
         == Record(url, Unknown, Category.CategoryOf(path), TitleNotFound, ImageNotFound, ContentNotFound)
  {
  }

  /** The image URL leaves its sentinel only when the container of the
      page's own type exists and its first `img` has a non-empty `src`. */
  lemma ImageOnlyFromOwnContainer(url: string, path: Option<string>, page: ParsedPage)
    ensures var rec := Extract(url, path, page);
      rec.featuredImageUrl != ImageNotFound ==>
        || (rec.pageType == Product && HasSrc(page.productGallery, rec.featuredImageUrl))
        || (rec.pageType == Blog && HasSrc(page.featuredImage, rec.featuredImageUrl))
  {
  }
}
