/**
 * `parse` of server/websites/dealabs.js once the markup has been selected:
 * each `article` of the thread list yields its link and its `data-vue2`
 * blob, and the `.map` callback normalises `data.props.thread`. Any
 * exception in the callback aborts the whole page.
 */
module PageExtractor {
  import opened Wrappers
  import opened DealRecord

  /** `data.props`; `thread` is `None` when it is absent or falsy (`|| null`). */
  datatype Props = Props(thread: Option<Thread>)

  /** The parsed `data-vue2` value; `props` is `None` when `data.props` is absent or `null`, or `data` holds no properties. */
  datatype Vue2Data = Vue2Data(props: Option<Props>)

  /**
   * One `div.js-threadList article`, in document order: the `href` of its
   * thread link, and its `data-vue2` attribute as JSON.parse reads it
   * (`None` when the attribute is missing or is not valid JSON).
   */
  datatype Article = Article(link: Option<string>, vue2: Option<Vue2Data>)

  /** `JSON.parse(...)` then `data.props.thread || null`, with the exceptions they throw. */
  function ThreadOf(article: Article): (r: Result<Thread, JsError>)
    ensures r.Failure? <==> article.vue2.None? || article.vue2.value.props.None?
                            || article.vue2.value.props.value.thread.None?
    ensures r.Failure? ==> r.error == (if article.vue2.None? then SyntaxError else TypeError)
    ensures r.Success? ==> r.value == article.vue2.value.props.value.thread.value
  {
    match article.vue2
    case None => Failure(SyntaxError)
    case Some(data) =>
      match data.props
      case None => Failure(TypeError)
      case Some(props) =>
        match props.thread
        case None => Failure(TypeError)
        case Some(thread) => Success(thread)
  }

  /** The `.map` callback for one article. */
  function ParseArticle(article: Article): (r: Result<Deal, JsError>)
    ensures r.Failure? <==> ThreadOf(article).Failure? || Normalise(article.link, ThreadOf(article).value).Failure?
    ensures r.Success? ==> r.value.link == article.link
    ensures r.Success? ==> r == Normalise(article.link, ThreadOf(article).value)
    ensures r.Failure? ==> r.error == (if ThreadOf(article).Failure? then ThreadOf(article).error else RangeError)
  {
    var thread :- ThreadOf(article);
    Normalise(article.link, thread)
  }

  /**
   * `Array.prototype.map` with a callback that may throw: all results in
   * order, or the exception of the first element whose callback throws.
   */
  function MapOrThrow<A, B>(xs: seq<A>, f: A -> Result<B, JsError>): (r: Result<seq<B>, JsError>)
    ensures r.Success? <==> forall i :: 0 <= i < |xs| ==> f(xs[i]).Success?
    ensures r.Success? ==> |r.value| == |xs|
    ensures r.Success? ==> forall i :: 0 <= i < |xs| ==> r.value[i] == f(xs[i]).value
    ensures r.Failure? ==> exists i :: 0 <= i < |xs| && f(xs[i]) == Failure(r.error)
                                       && forall j :: 0 <= j < i ==> f(xs[j]).Success?
  {
    if xs == [] then Success([])
    else
      match f(xs[0])
      case Failure(e) => Failure(e)
      case Success(y) =>
        match MapOrThrow(xs[1..], f)
        case Failure(e) => Failure(e)
        case Success(rest) => Success([y] + rest)
  }

  /**
   * `parse`: one deal per article, in document order; the first article
   * whose callback throws aborts the page with that exception.
   */
  function Parse(articles: seq<Article>): (r: Result<seq<Deal>, JsError>)
    ensures r.Success? <==> forall i :: 0 <= i < |articles| ==> ParseArticle(articles[i]).Success?
    ensures r.Success? ==> |r.value| == |articles|
    ensures r.Success? ==> forall i :: 0 <= i < |articles| ==> r.value[i] == ParseArticle(articles[i]).value
    ensures r.Failure? ==> exists i :: 0 <= i < |articles| && ParseArticle(articles[i]) == Failure(r.error)
                                       && forall j :: 0 <= j < i ==> ParseArticle(articles[j]).Success?
  {
    MapOrThrow(articles, ParseArticle)
  }

  /** A page with no matching article yields no deals. */
  lemma EmptyPage()
    ensures Parse([]) == Success([])
  {
  }

  /** One malformed `data-vue2` blob anywhere on the page makes the whole parse throw. */
  lemma MalformedArticleAbortsPage(articles: seq<Article>, i: int)
    requires 0 <= i < |articles| && articles[i].vue2.None?
    ensures Parse(articles).Failure?
  {
    assert ParseArticle(articles[i]) == Failure(SyntaxError);
  }

  /** The link of each deal is its article's link, and nothing else of the markup leaks in. */
  lemma ParseKeepsLinks(articles: seq<Article>)
    requires Parse(articles).Success?
    ensures forall i :: 0 <= i < |articles| ==> Parse(articles).value[i].link == articles[i].link
  {
  }
}
