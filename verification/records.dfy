/**
 One search result and the article record built from it (prog.py:41-55).

 The HTML parser is abstracted: a result block is what `find` would return for
 the three elements the scraper looks up. A BeautifulSoup tag is always truthy,
 so "the element is present" is exactly `Some`.
 */
module Records {
  import opened Wrappers

  const NoTitle := "No title found"
  const NoAuthors := "No authors found"
  const NoLink := "No link found"

  /** The first `<a>` inside the title heading; `href` is `None` when the tag has no such attribute. */
  datatype Anchor = Anchor(href: Option<string>)

  /** The `<h3 class="gs_rt">` heading: its text and its first anchor, if any. */
  datatype TitleElem = TitleElem(text: string, anchor: Option<Anchor>)

  /**
   One `<div class="gs_ri">` result. `Unparsable` is a result whose field
   extraction raises, which the per-result `except` swallows.
   */
  datatype Block =
    | Block(title: Option<TitleElem>, authors: Option<string>)
    | Unparsable

  /** The dictionary `{"Title": …, "Authors": …, "Link": …}` appended to the article list. */
  datatype Article = Article(title: string, authors: string, link: string)

  /** The link is looked up only inside the title heading; every missing step gives the sentinel. */
  function LinkOf(title: Option<TitleElem>): (link: string)
    ensures title.None? ==> link == NoLink
    ensures link != NoLink ==> title.Some? && title.value.anchor.Some? && title.value.anchor.value.href == Some(link)
    ensures title.Some? && title.value.anchor.Some? && title.value.anchor.value.href.Some? ==> link == title.value.anchor.value.href.value
  {
    match title
    case None => NoLink
    case Some(t) =>
      match t.anchor
      case None => NoLink
      case Some(a) => a.href.GetOr(NoLink)
  }

  /** The record built from a block that parses; each missing field falls back to its sentinel. */
  function ToArticle(b: Block): (r: Article)
    requires b.Block?
    ensures b.title.Some? ==> r.title == b.title.value.text
    ensures b.title.None? ==> r.title == NoTitle && r.link == NoLink
    ensures b.authors.Some? ==> r.authors == b.authors.value
    ensures b.authors.None? ==> r.authors == NoAuthors
    ensures r.link != NoLink ==> b.title.Some? && b.title.value.anchor.Some? && b.title.value.anchor.value.href == Some(r.link)
  {
    var title := match b.title
      case Some(t) => t.text
      case None => NoTitle;
    Article(title, b.authors.GetOr(NoAuthors), LinkOf(b.title))
  }

  /** One pass of the per-result `try`: a block whose parsing raises yields nothing. */
  function ParseBlock(b: Block): (r: Option<Article>)
    ensures r.None? <==> b.Unparsable?
    ensures r.Some? ==> r.value == ToArticle(b)
  {
    if b.Unparsable? then None else Some(ToArticle(b))
  }

  /** The records one results page contributes, in result order, skipping blocks that raise. */
  function ParsePage(blocks: seq<Block>): (r: seq<Article>)
    ensures |r| <= |blocks|
  {
    if |blocks| == 0 then []
    else
      match ParseBlock(blocks[0])
      case Some(a) => [a] + ParsePage(blocks[1..])
      case None => ParsePage(blocks[1..])
  }

  /** Parsing a page is parsing its parts in order: records keep the order of their results. */
  lemma {:induction false} ParsePageAppend(xs: seq<Block>, ys: seq<Block>)
    ensures ParsePage(xs + ys) == ParsePage(xs) + ParsePage(ys)
    decreases |xs|
  {
    if |xs| == 0 {
      assert xs + ys == ys;
    } else {
      assert (xs + ys)[1..] == xs[1..] + ys;
      ParsePageAppend(xs[1..], ys);
    }
  }

  /** A page whose results all parse yields one record per result, in result order. */
  lemma {:induction false} ParsePageAllParse(blocks: seq<Block>)
    requires forall i :: 0 <= i < |blocks| ==> blocks[i].Block?
    ensures |ParsePage(blocks)| == |blocks|
    ensures forall i :: 0 <= i < |blocks| ==> ParsePage(blocks)[i] == ToArticle(blocks[i])
    decreases |blocks|
  {
    if |blocks| > 0 {
      ParsePageAllParse(blocks[1..]);
    }
  }

  /** A page whose results all raise yields no record. */
  lemma {:induction false} ParsePageNoneParse(blocks: seq<Block>)
    requires forall i :: 0 <= i < |blocks| ==> blocks[i].Unparsable?
    ensures ParsePage(blocks) == []
    decreases |blocks|
  {
    if |blocks| > 0 {
      ParsePageNoneParse(blocks[1..]);
    }
  }

  /** Every record of a page comes from a result on that page that parsed. */
  lemma {:induction false} ParsePageOrigin(blocks: seq<Block>, a: Article)
    requires a in ParsePage(blocks)
    ensures exists i :: 0 <= i < |blocks| && blocks[i].Block? && ToArticle(blocks[i]) == a
    decreases |blocks|
  {
    if blocks[0].Block? && ToArticle(blocks[0]) == a {
    } else {
      ParsePageOrigin(blocks[1..], a);
      var i :| 0 <= i < |blocks[1..]| && blocks[1..][i].Block? && ToArticle(blocks[1..][i]) == a;
      assert blocks[i + 1] == blocks[1..][i];
    }
  }

  /**
   When no result on the page literally carries a sentinel text, a sentinel in
   a record means exactly that the field was missing.
   */
  lemma SentinelMeansMissing(b: Block)
    requires b.Block?
    requires b.title.Some? ==> b.title.value.text != NoTitle
    requires b.authors.Some? ==> b.authors.value != NoAuthors
    requires b.title.Some? && b.title.value.anchor.Some? ==> b.title.value.anchor.value.href != Some(NoLink)
    ensures ToArticle(b).title == NoTitle <==> b.title.None?
    ensures ToArticle(b).authors == NoAuthors <==> b.authors.None?
    ensures ToArticle(b).link == NoLink <==>
              (b.title.None? || b.title.value.anchor.None? || b.title.value.anchor.value.href.None?)
  {}

  /** The `for result in results` loop of one page, each result under its own `try`. */
  method ParseResults(results: seq<Block>) returns (parsed: seq<Article>)
    ensures parsed == ParsePage(results)
  {
    parsed := [];
    var i := 0;
    while i < |results|
      invariant 0 <= i <= |results|
      invariant parsed == ParsePage(results[..i])
    {
      ParsePageAppend(results[..i], [results[i]]);
      assert results[..i + 1] == results[..i] + [results[i]];
      match ParseBlock(results[i]) {
        case Some(a) => parsed := parsed + [a];
        case None =>
      }
      i := i + 1;
    }
    assert results[..i] == results;
  }
}
