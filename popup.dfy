/** The info-window side of app.js that does not touch the map: the summary request URL,
    the outcome of that request, and the popup content built from it. */
module Popup {
  import opened Text

  /** Fixed prefix of the Wikipedia REST summary endpoint. */
  const SummaryPrefix: string := "https://en.wikipedia.org/api/rest_v1/page/summary/"

  /** The URL requested for a catalog entry: the prefix followed by its page title. */
  function SummaryUrl(pageTitle: string): (url: string)
    ensures |url| == |SummaryPrefix| + |pageTitle|
    ensures url[..|SummaryPrefix|] == SummaryPrefix
    ensures url[|SummaryPrefix|..] == pageTitle
  {
    SummaryPrefix + pageTitle
  }

  /** What the summary request came back with.
      - `Page(url)`: a JSON answer whose `content_urls.desktop.page` is `url`;
      - `Failed`: the request failed (network or HTTP error, unparseable answer), so the
        failure callback ran;
      - `NoPageUrl`: a JSON answer without `content_urls.desktop`, on which the success
        callback throws before it fills or opens the window. */
  datatype FetchOutcome = Page(url: string) | Failed | NoPageUrl

  /** The state of one info window: whether it is open, and its HTML content. */
  datatype InfoWindow = InfoWindow(open: bool, content: string)

  /** Opening of a success popup, up to the place name in bold. */
  const SuccessHead: string := "<div style=\"align: center\"><strong>"

  /** Middle of a success popup, from the end of the bold name to the link target. */
  const LinkOpen: string := "</strong><br>Wikipedia Info: <a href=\""

  /** Closing of a success popup, after the link text. */
  const SuccessTail: string := "</a></div>"

  /** Popup content after a successful fetch: the place in bold and a link to its page. It
      opens with the place in bold and closes by ending the link. */
  function SuccessContent(title: string, url: string): (c: string)
    ensures |c| >= |SuccessHead| + |title| + |SuccessTail|
    ensures c[..|SuccessHead| + |title|] == SuccessHead + title
    ensures c[|c| - |SuccessTail|..] == SuccessTail
  {
    SuccessHead + title + LinkOpen + url + "\">" + title + "'s page." + SuccessTail
  }

  /** The fixed message of a failure popup, after the place name. */
  const FailureNote: string := "<br><p>Failed to fetch Wikipedia artcles</p></div>"

  /** Popup content after a failed fetch: the place, then the fixed failure message. */
  function FailureContent(title: string): (c: string)
    ensures |c| == 5 + |title| + |FailureNote|
    ensures c[..5 + |title|] == "<div>" + title
    ensures c[5 + |title|..] == FailureNote
  {
    "<div>" + title + FailureNote
  }

  /** The window a marker titled `title` ends up with once its request completed with
      `outcome`: filled and opened by either callback, or left empty and closed when the
      success callback throws. */
  function WindowAfter(title: string, outcome: FetchOutcome): (w: InfoWindow)
    ensures w.open <==> !outcome.NoPageUrl?
    ensures w.open ==> Includes(w.content, title)
    ensures !w.open ==> w.content == ""
  {
    match outcome
    case Page(url) => SuccessContentMentions(title, url); InfoWindow(true, SuccessContent(title, url))
    case Failed => FailureContentMentions(title); InfoWindow(true, FailureContent(title))
    case NoPageUrl => InfoWindow(false, "")
  }

  /** Distinct page titles give distinct request URLs. */
  lemma SummaryUrlInjective(a: string, b: string)
    requires SummaryUrl(a) == SummaryUrl(b)
    ensures a == b
  {
    assert a == SummaryUrl(a)[|SummaryPrefix|..];
    assert b == SummaryUrl(b)[|SummaryPrefix|..];
  }

  /** The request URL starts with the summary prefix and contains the page title. */
  lemma SummaryUrlShape(pageTitle: string)
    ensures Includes(SummaryUrl(pageTitle), pageTitle)
    ensures SummaryUrl(pageTitle)[..|SummaryPrefix|] == SummaryPrefix
  {
    IncludesSelf(pageTitle);
    assert SummaryUrl(pageTitle) == SummaryPrefix + pageTitle + "";
    IncludesInConcat(SummaryPrefix, pageTitle, "", pageTitle);
  }

  /** A success popup names its place and carries the link to its page. */
  lemma SuccessContentMentions(title: string, url: string)
    ensures Includes(SuccessContent(title, url), title)
    ensures Includes(SuccessContent(title, url), url)
  {
    var c := SuccessContent(title, url);
    var h := |SuccessHead|;
    assert c[h..h + |title|] == title;
    IncludesAt(c, title, h);
    var o := h + |title| + |LinkOpen|;
    assert c[o..o + |url|] == url;
    IncludesAt(c, url, o);
  }

  /** A failure popup names its place. */
  lemma FailureContentMentions(title: string)
    ensures Includes(FailureContent(title), title)
  {
    IncludesSelf(title);
    IncludesInConcat("<div>", title, FailureNote, title);
  }

  /** Every opened popup names its place; a successful one also carries the page link. */
  lemma OpenedWindowNamesPlace(title: string, outcome: FetchOutcome)
    ensures WindowAfter(title, outcome).open ==> Includes(WindowAfter(title, outcome).content, title)
    ensures outcome.Page? ==> Includes(WindowAfter(title, outcome).content, outcome.url)
  {
    match outcome
    case Page(url) => SuccessContentMentions(title, url);
    case Failed => FailureContentMentions(title);
    case NoPageUrl =>
  }

  /** The link in a success popup determines the page URL it came from. */
  lemma SuccessContentInjective(title: string, u: string, v: string)
    requires SuccessContent(title, u) == SuccessContent(title, v)
    ensures u == v
  {
    var off := |SuccessHead + title + LinkOpen|;
    var su, sv := SuccessContent(title, u), SuccessContent(title, v);
    assert |u| == |v|;
    assert su[off..off + |u|] == u;
    assert sv[off..off + |v|] == v;
  }

  /** A success popup never reads like a failure popup, whoever the places are. */
  lemma SuccessIsNotFailure(title: string, url: string, other: string)
    ensures SuccessContent(title, url) != FailureContent(other)
  {
    assert SuccessContent(title, url)[4] == ' ';
    assert FailureContent(other)[4] == '>';
  }

  /** An opened popup tells which outcome the request had: the content of the window
      determines the outcome of the fetch behind it. */
  lemma OpenedWindowDeterminesOutcome(title: string, o1: FetchOutcome, o2: FetchOutcome)
    requires WindowAfter(title, o1).open
    requires WindowAfter(title, o1) == WindowAfter(title, o2)
    ensures o1 == o2
  {
    match o1 {
      case Page(u) =>
        match o2 {
          case Page(v) => SuccessContentInjective(title, u, v);
          case Failed => SuccessIsNotFailure(title, u, title);
          case NoPageUrl =>
        }
      case Failed =>
        match o2 {
          case Page(v) => SuccessIsNotFailure(title, v, title);
          case Failed =>
          case NoPageUrl =>
        }
    }
  }
}
