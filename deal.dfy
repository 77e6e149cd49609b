/**
 * The per-item normaliser of server/websites/dealabs.js: the callback that
 * turns one embedded `thread` object into a deal record of ten fields.
 * Seven of them use a JavaScript falsy fallback (`|| null`, `|| 0`);
 * `published` tests the truthiness of `publishedAt`, `link` comes from the
 * markup, and `image` is a constant string.
 */
module DealRecord {
  import opened Wrappers
  import opened JsNumber
  import IsoDate

  /** A thread id, a string or a number; `===` tells "1" and 1 apart, as datatype equality does. */
  datatype Id = StrId(s: string) | NumId(n: real)

  /** The `mainImage` descriptor of a thread; the normaliser never reads it. */
  datatype MainImage = MainImage(slotId: Option<string>, name: Option<string>, ext: Option<string>)

  /**
   * The embedded `thread` object. `None` is a property that is absent or
   * `null`. A truthy thread that is not an object (a number, a string)
   * has none of these properties and is the thread whose fields are all `None`.
   */
  datatype Thread = Thread(
    threadId: Option<Id>,
    title: Option<string>,
    price: Option<real>,
    nextBestPrice: Option<real>,
    temperature: Option<real>,
    commentCount: Option<real>,
    publishedAt: Option<real>,
    mainImage: Option<MainImage>)

  /** The normalised deal record, in the field order of the object literal. */
  datatype Deal = Deal(
    link: Option<string>,
    retail: Option<real>,
    price: Option<real>,
    discount: Option<int>,
    temperature: Option<real>,
    image: string,
    comments: real,
    published: Option<string>,
    title: Option<string>,
    id: Option<Id>)

  /** The exceptions the extraction can throw. */
  datatype JsError = SyntaxError | TypeError | RangeError

  /**
   * The image "URL". The source writes it as a single-quoted string, so
   * the `${...}` placeholders are kept verbatim and never evaluated.
   */
  const ImageTemplate: string :=
    "https://static-pepper.dealabs.com/threads/raw/${thread.mainImage.slotId}/${thread.mainImage.name}/re/300x300/qt/60/${thread.mainImage.name}.${thread.mainImage.ext}"

  predicate NumberTruthy(v: Option<real>) {
    v.Some? && v.value != 0.0
  }

  predicate StringTruthy(v: Option<string>) {
    v.Some? && v.value != ""
  }

  predicate IdTruthy(v: Option<Id>) {
    match v
    case None => false
    case Some(StrId(s)) => s != ""
    case Some(NumId(n)) => n != 0.0
  }

  /** `value || null` for a number-or-absent property. */
  function NumberOrNull(v: Option<real>): (r: Option<real>)
    ensures r.Some? <==> v.Some? && v.value != 0.0
    ensures r.Some? ==> r == v
  {
    if NumberTruthy(v) then v else None
  }

  /** The percentage `(1 - price / retail) * 100` in exact arithmetic. */
  function Percentage(price: real, retail: real): real
    requires retail != 0.0
  {
    (1.0 - price / retail) * 100.0
  }

  /**
   * `parseInt((1 - price / retail) * 100) || null`, over the already
   * normalised `price` and `retail` (where `null` counts as 0).
   */
  function Discount(price: Option<real>, retail: Option<real>): (r: Option<int>)
    ensures retail.None? || retail.value == 0.0 ==> r.None?
    ensures retail.Some? && retail.value != 0.0 ==>
      var v := Percentage(price.GetOr(0.0), retail.value);
      && (r.None? <==> -1.0 < v < 1.0)
      && (r.Some? ==> r.value != 0 && r.value as real - 1.0 < v < r.value as real + 1.0)
      && (r.Some? ==> (v >= 0.0 ==> r.value as real <= v) && (v < 0.0 ==> v <= r.value as real))
  {
    var quotient := Div(FromNullable(price), FromNullable(retail));
    assert retail.Some? && retail.value != 0.0 ==>
      quotient == Finite(price.GetOr(0.0) / retail.value);
    var x := ParseInt(Mul(Sub(Finite(1.0), quotient), Finite(100.0)));
    if Truthy(x) then Some(x.r.Floor) else None
  }

  /**
   * `thread.publishedAt ? new Date(thread.publishedAt * 1000).toISOString() : null`.
   * An out-of-range time makes an invalid date, on which toISOString throws
   * a RangeError.
   */
  function Published(publishedAt: Option<real>): (r: Result<Option<string>, JsError>)
    ensures r.Failure? <==> NumberTruthy(publishedAt) && IsoDate.TimeClip(publishedAt.value * 1000.0).None?
    ensures r.Failure? ==> r.error == RangeError
    ensures r.Success? ==> (r.value.Some? <==> NumberTruthy(publishedAt))
    ensures r.Success? && r.value.Some? ==>
      IsoDate.ParseIso(r.value.value) == IsoDate.TimeClip(publishedAt.value * 1000.0)
  {
    if !NumberTruthy(publishedAt) then Success(None)
    else
      match IsoDate.TimeClip(publishedAt.value * 1000.0)
      case None => Failure(RangeError)
      case Some(ms) =>
        IsoDate.IsoStringRoundTrip(ms);
        Success(Some(IsoDate.IsoString(ms)))
  }

  /** The body of the `.map` callback after `thread` has been found; `link` comes from the markup. */
  function Normalise(link: Option<string>, thread: Thread): (r: Result<Deal, JsError>)
    ensures r.Failure? <==> Published(thread.publishedAt).Failure?
    ensures r.Failure? ==> r.error == RangeError
    ensures r.Success? ==>
      && r.value.link == link
      && r.value.discount == Discount(r.value.price, r.value.retail)
      && r.value.image == ImageTemplate
      && r.value.published == Published(thread.publishedAt).value
  {
    var retail := NumberOrNull(thread.nextBestPrice);
    var price := NumberOrNull(thread.price);
    var discount := Discount(price, retail);
    var temperature := if Truthy(UnaryPlus(thread.temperature)) then thread.temperature else None;
    var image := ImageTemplate;
    var commentCount := UnaryPlus(thread.commentCount);
    var comments := if Truthy(commentCount) then commentCount.r else 0.0;
    var published :- Published(thread.publishedAt);
    var title := if StringTruthy(thread.title) then thread.title else None;
    var id := if IdTruthy(thread.threadId) then thread.threadId else None;
    Success(Deal(link, retail, price, discount, temperature, image, comments, published, title, id))
  }

  // ---------------------------------------------------------------------
  // Properties of the normaliser

  /** Price 80 against a best prior price of 100 is a 20% discount. */
  lemma DiscountEightyOfHundred()
    ensures Discount(Some(80.0), Some(100.0)) == Some(20)
  {
  }

  /** A missing price counts as 0: the discount is 100%. */
  lemma DiscountMissingPrice(retail: real)
    requires retail != 0.0
    ensures Discount(None, Some(retail)) == Some(100)
  {
    assert Percentage(0.0, retail) == 100.0 by {
      assert 0.0 / retail == 0.0;
    }
    var r := Discount(None, Some(retail));
    assert r.Some? && 99.0 < r.value as real <= 100.0;
    assert r.value > 99 && r.value <= 100;
  }

  /** Paying the reference price is no discount at all: `null`, not 0. */
  lemma DiscountAtReferencePrice(price: real)
    requires price != 0.0
    ensures Discount(Some(price), Some(price)) == None
  {
  }

  /** A discount never reaches 100% once a price is known, and a price above the reference one is a negative discount. */
  lemma {:induction false} DiscountSign(price: real, retail: real)
    requires price != 0.0 && retail != 0.0
    ensures var r := Discount(Some(price), Some(retail));
      && (r.Some? && price / retail > 0.0 ==> r.value < 100)
      && (r.Some? && price > retail && retail > 0.0 ==> r.value < 0)
  {
    var v := (1.0 - price / retail) * 100.0;
    if price > retail && retail > 0.0 {
      assert price / retail > 1.0;
      assert v < 0.0;
    }
  }

  /** The image is the same literal for every item, whatever its thread holds. */
  lemma ImageIsConstant(link1: Option<string>, thread1: Thread, link2: Option<string>, thread2: Thread)
    requires thread1.publishedAt.None? || -8_640_000_000_000.0 <= thread1.publishedAt.value <= 8_640_000_000_000.0
    requires thread2.publishedAt.None? || -8_640_000_000_000.0 <= thread2.publishedAt.value <= 8_640_000_000_000.0
    ensures Normalise(link1, thread1).Success? && Normalise(link2, thread2).Success?
    ensures Normalise(link1, thread1).value.image == Normalise(link2, thread2).value.image
  {
  }

  /** `mainImage` is never read: a thread without it normalises, or throws, exactly as with it. */
  lemma MainImageIgnored(link: Option<string>, thread: Thread)
    ensures Normalise(link, thread.(mainImage := None)) == Normalise(link, thread)
  {
  }

  /**
   * The falsy fallbacks: retail, price, temperature, title and id are kept
   * when truthy and `null` otherwise; comments is the count when truthy and 0 otherwise.
   */
  lemma NormaliseFallbacks(link: Option<string>, thread: Thread)
    requires thread.publishedAt.None? || -8_640_000_000_000.0 <= thread.publishedAt.value <= 8_640_000_000_000.0
    ensures Normalise(link, thread).Success?
    ensures var d := Normalise(link, thread).value;
      && (d.retail.Some? <==> NumberTruthy(thread.nextBestPrice))
      && (d.retail.Some? ==> d.retail == thread.nextBestPrice)
      && (d.price.Some? <==> NumberTruthy(thread.price))
      && (d.price.Some? ==> d.price == thread.price)
      && (d.temperature.Some? <==> NumberTruthy(thread.temperature))
      && (d.temperature.Some? ==> d.temperature == thread.temperature)
      && d.comments == (if NumberTruthy(thread.commentCount) then thread.commentCount.value else 0.0)
      && (d.title.Some? <==> StringTruthy(thread.title))
      && (d.title.Some? ==> d.title == thread.title)
      && (d.id.Some? <==> IdTruthy(thread.threadId))
      && (d.id.Some? ==> d.id == thread.threadId)
  {
  }

  /** Normalising an item fails only on an out-of-range publication time. */
  lemma NormaliseInRange(link: Option<string>, thread: Thread)
    requires thread.publishedAt.None? || -8_640_000_000_000.0 <= thread.publishedAt.value <= 8_640_000_000_000.0
    ensures Normalise(link, thread).Success?
  {
  }
}
