# Dealabs deal scraper: a Dafny model

This project models the core of `server/websites/dealabs.js`. That file
scrapes the LEGO listing page of dealabs.com and keeps the deals it finds in
`DEALS.json`. The core has two parts, and the model proves properties of both.

- **`parse`.** Each `div.js-threadList article` of the page carries a thread
  link and a `data-vue2` attribute holding JSON. The `.map` callback turns
  `data.props.thread` into a deal record with ten fields: `link`, `retail`,
  `price`, `discount`, `temperature`, `image`, `comments`, `published`,
  `title` and `id`. Seven fields use a JavaScript falsy fallback (`|| null`,
  `|| 0`); `published` tests the truthiness of `publishedAt`, `link` comes
  from the markup and `image` is a constant string. If any callback throws,
  the whole page is aborted.
- **`scrape`.** It fetches the page and parses it. It loads `DEALS.json`; a
  file that is absent or holds invalid JSON counts as an empty store. It
  merges the existing records with the new batch, where the first record
  with a given `id` wins, and writes the result back. Every exception is
  caught, and a run that throws does not write the file.

Modules, one per component:

- `Wrappers`: `Option` and `Result`.
- `JsNumber`: JavaScript numbers as the discount expression uses them.
  Finite values are exact reals, plus NaN and ±Infinity. It has `-`, `*`
  and `/` with their special cases, truthiness, and `parseInt` of a number.
- `IsoDate`: `new Date(ms).toISOString()`, following the Date algorithms of
  ECMA-262 (section 21.4, "Date Objects"). It has TimeClip, DayFromYear,
  YearFromTime, MonthFromTime and DateFromTime, and the Date Time String
  Format with its six-digit expanded years. A strict reader for that
  format is proved to be the exact inverse of the rendering. It reads
  back every rendered time value, and it accepts no other string.
- `DealRecord`: the raw `thread` object (`Thread`, with `Option` fields),
  the `Deal` record, and the normaliser `Normalise`.
- `PageExtractor`: the per-article input (`Article`) and `Parse`.
- `StoreMerge`: the reference merge `Dedup` (a pure function) and its
  lemmas. It also has the source's `reduce`/`find` loop as the methods
  `Merge` and `FindById`, each proved equal to its specification.
- `Scraper`: the store file, the outcome of one run (`ScrapeOutcome`), the
  class `DealsFile` whose `Scrape` method rewrites the file in place, and
  lemmas about repeated runs.

Inputs the model takes as parameters:

- The network fetch is an input `FetchResult`: a network failure, or a
  response with its `ok` flag, its status and the page.
- The page is given as its articles in document order. Each article has its
  link and its parsed `data-vue2` value (`None` when the attribute is
  missing or is not valid JSON).
- `DEALS.json` is a `StoreFile`: absent, malformed JSON, valid JSON that is
  not an array, or an array of deal records.

Four behaviours of the code are easy to misread; the model follows the
code as written:

- `discount` truncates toward zero (`parseInt`); it does not round. A
  missing price counts as 0, so with a known retail price the discount is
  100, not null. It is null whenever the truncated value is 0, which
  includes price equal to retail.
- `image` is written as a single-quoted string. Its `${...}` placeholders
  are never substituted, so every deal gets the same literal text, and a
  missing `mainImage` does not make it null.
- Null ids are deduplicated like any other id (`null === null`). Only the
  first record with a null id is kept.
- One malformed item aborts the whole page; it is not skipped. The
  exception is caught in `scrape`, so `DEALS.json` is left as it was.

## Model

| member | source | states |
|---|---|---|
| `JsNumber.Trunc` | server/websites/dealabs.js:29 | the integer part rounds toward zero: for x >= 0 it is the largest integer not above x, for x < 0 the smallest not below x |
| `JsNumber.ParseInt` | server/websites/dealabs.js:29 | `parseInt` of a number is a number exactly when its argument is finite, and then it is the argument truncated toward zero; NaN and the infinities give NaN |
| `JsNumber.Sub` | server/websites/dealabs.js:29 | `1 - q` is NaN exactly when an operand is NaN or an infinity meets itself, finite exactly when both operands are, and then adding back the subtrahend gives the minuend; an infinite result has the sign of an infinite minuend, or the opposite of the sign of an infinite subtrahend |
| `JsNumber.Mul` | server/websites/dealabs.js:29 | `(…) * 100` is NaN exactly when an operand is NaN or an infinity meets a zero, and finite exactly when both operands are; its value and sign are stated by `MulValue` and `MulSign` |
| `JsNumber.MulValue` | server/websites/dealabs.js:29 | a finite product is the product of the operands' values |
| `JsNumber.MulSign` | server/websites/dealabs.js:29 | a product that is not NaN has the product of the operands' signs |
| `JsNumber.Div` | server/websites/dealabs.js:29 | `price / retail` is NaN for 0/0, for two infinities and for a NaN operand; it is finite exactly when the dividend is finite and the divisor is an infinity or a nonzero number, and a finite dividend over an infinity is 0; the value over a finite divisor and the sign are stated by `DivValue` and `DivSign` |
| `JsNumber.DivValue` | server/websites/dealabs.js:29 | a finite quotient over a finite divisor, multiplied by that divisor, gives the dividend |
| `JsNumber.DivSign` | server/websites/dealabs.js:29 | an infinite quotient has the sign of the dividend times that of the divisor, a zero divisor counting as positive |
| `JsNumber.UnaryPlus` | server/websites/dealabs.js:30-32 | unary `+` of an absent property is NaN and of a number is that number; the result is truthy exactly when the property is present and nonzero (a `null` property is modelled as absent: `+null` is 0, which is just as falsy) |
| `DealRecord.NumberOrNull` | server/websites/dealabs.js:27-28 | `value || null` keeps the value exactly when it is present and nonzero, and is null otherwise |
| `DealRecord.Discount` | server/websites/dealabs.js:27-29 | a retail price that is missing or zero gives null; otherwise, for v = (1 - price/retail)*100 with a missing price as 0, the result is null exactly when -1 < v < 1, and is otherwise the nonzero integer within 1 of v, on v's side of zero |
| `DealRecord.DiscountEightyOfHundred` | server/websites/dealabs.js:29 | price 80 against retail 100 gives 20 |
| `DealRecord.DiscountMissingPrice` | server/websites/dealabs.js:28-29 | a missing price with a nonzero retail price gives 100 |
| `DealRecord.DiscountAtReferencePrice` | server/websites/dealabs.js:29 | price equal to retail gives null, not 0 |
| `DealRecord.DiscountSign` | server/websites/dealabs.js:29 | a discount with price and retail of the same sign is below 100; a price above a positive retail gives a negative discount |
| `DealRecord.Published` | server/websites/dealabs.js:33 | null when `publishedAt` is missing or 0; a RangeError exactly when `publishedAt * 1000` is outside the valid time range; otherwise a string that the strict ISO reader reads as the time value `publishedAt * 1000` truncated toward zero, which by `IsoDate.ParseIsoInverse` makes it exactly `toISOString` of that time value |
| `DealRecord.Normalise` | server/websites/dealabs.js:26-49 | fails only with the RangeError of `published`; on success the link is the one from the markup, the discount is computed from the normalised price and retail, the image is the constant template and `published` is the rendered date |
| `DealRecord.NormaliseFallbacks` | server/websites/dealabs.js:27-35 | an item whose publication time is in range normalises, and its retail, price, temperature, title and id are kept when truthy and null otherwise; comments is the count when truthy and 0 otherwise |
| `DealRecord.ImageIsConstant` | server/websites/dealabs.js:31 | any two items whose publication time is in range normalise, with the same image |
| `DealRecord.MainImageIgnored` | server/websites/dealabs.js:31 | for every thread, including one that fails to normalise, removing `mainImage` changes nothing: a missing `mainImage` never throws |
| `DealRecord.NormaliseInRange` | server/websites/dealabs.js:26-49 | an item whose `publishedAt` is missing or within ±8.64e12 seconds always normalises |
| `IsoDate.TimeClip` | server/websites/dealabs.js:33 | a time is valid exactly when its magnitude is at most 8.64e15 ms, and then it is truncated toward zero |
| `IsoDate.DayFromYearStep` | server/websites/dealabs.js:33 | the first days of consecutive years are 365 or 366 days apart, as the leap-year rule says |
| `IsoDate.DayFromYearNear` | server/websites/dealabs.js:33 | the first day of a year stays within two days of the 365.2425-day average |
| `IsoDate.DayFromYearMonotone` | server/websites/dealabs.js:33 | years start in increasing order, at least a year apart |
| `IsoDate.YearFromDay` | server/websites/dealabs.js:33 | the year found for a day number is one whose days contain it |
| `IsoDate.YearFromDayUnique` | server/websites/dealabs.js:33 | that year is the only one whose days contain it |
| `IsoDate.MonthSearch` | server/websites/dealabs.js:33 | the month found for a day of the year is one whose days contain it |
| `IsoDate.MonthAndDay` | server/websites/dealabs.js:33 | the month and day found for a day of the year lie within the year, and the month start plus the day gives back that day of the year |
| `IsoDate.CalendarDate` | server/websites/dealabs.js:33 | a day number gives a month from 1 to 12 and a day within that month, and that date's day number is the day number itself |
| `IsoDate.FromTimeValue` | server/websites/dealabs.js:33 | every time value gives a valid date and time of day |
| `IsoDate.DayNumberInjective` | server/websites/dealabs.js:33 | two valid calendar dates with the same day number are the same date |
| `IsoDate.CalendarDateRoundTrip` | server/websites/dealabs.js:33 | a valid calendar date is the reading of its own day number |
| `IsoDate.TimeValueRoundTrip` | server/websites/dealabs.js:33 | a time value is recovered from its calendar fields |
| `IsoDate.DateTimeRoundTrip` | server/websites/dealabs.js:33 | a valid broken-down date and time is the reading of its own time value |
| `IsoDate.DigitsRoundTrip` | server/websites/dealabs.js:33 | a zero-padded field reads back as its number |
| `IsoDate.YearFieldRoundTrip` | server/websites/dealabs.js:33 | a four-digit or signed six-digit year reads back as the year |
| `IsoDate.DateTimeTailRoundTrip` | server/websites/dealabs.js:33 | the "-MM-DDTHH:mm:ss.sssZ" part reads back as the date and time |
| `IsoDate.YearOfValidTime` | server/websites/dealabs.js:33 | every valid time value has a year of at most six digits |
| `IsoDate.IsoString` | server/websites/dealabs.js:33 | `toISOString` of a valid time value has 24 characters for years 0 to 9999 and 27 otherwise, ends in 'Z', and has '-' and 'T' where the format puts them |
| `IsoDate.IsoStringRoundTrip` | server/websites/dealabs.js:33 | the ISO string of a valid time value parses back to that time value |
| `IsoDate.YearFieldCanonical` | server/websites/dealabs.js:33 | a year field that reads back is exactly the field written for that year: four digits for 0 to 9999, a sign and six digits otherwise, and never "-000000" |
| `IsoDate.IsoStringCanonical` | server/websites/dealabs.js:33 | the reader accepts only renderings: a string it reads as time value t is exactly the ISO string of t, so a day 32, a 29 February outside a leap year or a padded "+001970" year is refused |
| `IsoDate.ParseIsoInverse` | server/websites/dealabs.js:33 | for a valid time value t, a string reads as t exactly when it is the ISO string of t |
| `IsoDate.LeapDayExample` | server/websites/dealabs.js:33 | time value 951782400000 renders as "2000-02-29T00:00:00.000Z" |
| `PageExtractor.ThreadOf` | server/websites/dealabs.js:20-27 | invalid JSON throws a SyntaxError; missing `props` or a falsy `thread` throws a TypeError; otherwise it returns the thread |
| `PageExtractor.ParseArticle` | server/websites/dealabs.js:15-49 | the callback for one article fails exactly when its thread cannot be read or its normalisation throws, with the thread's SyntaxError or TypeError or else the RangeError of `published`; on success it is the normalised thread of that article, with the article's own link |
| `PageExtractor.MapOrThrow` | server/websites/dealabs.js:14-51 | `.map` with a callback that may throw: succeeds exactly when every callback succeeds, and then gives the callback results in order; otherwise fails with the exception of the first callback that throws |
| `PageExtractor.Parse` | server/websites/dealabs.js:11-52 | succeeds exactly when every article parses, and then gives one deal per article, in order; otherwise it fails with the error of the first failing article |
| `PageExtractor.EmptyPage` | server/websites/dealabs.js:14-51 | a page with no article yields no deals |
| `PageExtractor.MalformedArticleAbortsPage` | server/websites/dealabs.js:20-22 | one malformed `data-vue2` blob anywhere makes the whole parse fail |
| `PageExtractor.ParseKeepsLinks` | server/websites/dealabs.js:16-18 | each deal's link is its own article's link |
| `StoreMerge.Dedup` | server/websites/dealabs.js:85-90 | the reference `reduce`: it never yields more records than its input; what it keeps is stated by the lemmas below, first of all `DedupIsFirstOccurrences` |
| `StoreMerge.IdsAppend` | server/websites/dealabs.js:85-90 | appending a record adds exactly its id to the set of ids |
| `StoreMerge.IdsConcat` | server/websites/dealabs.js:85 | the ids of `[...a, ...b]` are those of a and of b |
| `StoreMerge.DedupIds` | server/websites/dealabs.js:85-90 | the merge holds exactly the ids of its input: none lost, none invented |
| `StoreMerge.DedupDistinct` | server/websites/dealabs.js:85-90 | the merge never holds two records with equal ids, where null equals null |
| `StoreMerge.DedupIsFirstOccurrences` | server/websites/dealabs.js:85-90 | the merge is the input restricted to the positions where an id first occurs, in increasing order |
| `StoreMerge.FirstOccurrenceIsEarliest` | server/websites/dealabs.js:86 | no earlier record shares the id of a first occurrence |
| `StoreMerge.DedupOfDistinct` | server/websites/dealabs.js:85-90 | records whose ids are already distinct come out unchanged |
| `StoreMerge.DedupIdempotent` | server/websites/dealabs.js:85-90 | merging an already-merged sequence changes nothing |
| `StoreMerge.DedupPrefix` | server/websites/dealabs.js:85-90 | appending records never changes what the merge already kept |
| `StoreMerge.DedupCovered` | server/websites/dealabs.js:85-90 | records whose ids were all seen add nothing |
| `StoreMerge.DedupLength` | server/websites/dealabs.js:85-90 | the merge has one record per distinct id of its input |
| `StoreMerge.DistinctCard` | server/websites/dealabs.js:85-90 | records with distinct ids have as many ids as records |
| `StoreMerge.FindById` | server/websites/dealabs.js:86 | the scan finds a record exactly when some kept record has a strictly equal id |
| `StoreMerge.Merge` | server/websites/dealabs.js:85-90 | the reduce loop computes the reference merge of `[...existing, ...batch]`; its ids are distinct and are exactly those of both inputs |
| `StoreMerge.ExistingIsPrefix` | server/websites/dealabs.js:85-90 | existing records with distinct ids are a prefix of the merge, in their order |
| `StoreMerge.ExistingRecordWins` | server/websites/dealabs.js:85-90 | a kept record whose id occurs among the existing ones is the first existing record with that id, not a new duplicate |
| `StoreMerge.TwoRecords` | server/websites/dealabs.js:86 | of two records with equal ids, null ids included, only the first is kept; a string id and a numeric id are both kept |
| `StoreMerge.MergeIdempotent` | server/websites/dealabs.js:85-90 | merging the same batch again into a merged result returns it unchanged |
| `Scraper.LoadExisting` | server/websites/dealabs.js:74-85 | an absent or malformed file gives no records; a stored value that is not an array makes the spread throw a TypeError; an array gives its records |
| `Scraper.DealsFile.Scrape` | server/websites/dealabs.js:59-97 | one run rewrites the store with the merged records when it succeeds and leaves the store untouched when anything throws |
| `Scraper.ScrapeOutcome` | server/websites/dealabs.js:59-97 | a run writes nothing exactly when the fetch fails, the response is not ok, the page does not parse, or the stored value is not an array; a network failure, a non-ok status and a parse exception are each reported as such |
| `Scraper.ScrapeKeepsIdsUnique` | server/websites/dealabs.js:85-92 | after a successful run, the stored ids are distinct and are exactly those of the old store and of the page |
| `Scraper.ScrapeIntoEmptyStore` | server/websites/dealabs.js:74-90 | with the file absent or corrupt, a run stores just the deduplicated page |
| `Scraper.ScrapeKeepsExistingRecords` | server/websites/dealabs.js:85-92 | a stored set with distinct ids is a prefix of the next stored set |
| `Scraper.ScrapeTwiceIsScrapeOnce` | server/websites/dealabs.js:85-92 | scraping the same page a second time stores exactly what the first run stored |
| `Scraper.EmptyPageKeepsStore` | server/websites/dealabs.js:72-92 | a page without articles leaves a store with distinct ids unchanged |
| `Scraper.ExistingWinsExample` | server/websites/dealabs.js:85-90 | existing id 1 merged with new ids 1 and 2 gives two records, and the existing record 1 is the one kept |

## Left out

- The network fetch and its request headers (lines 61-71) are not modelled; the response is an input.
- Selecting the articles, the link and the `data-vue2` attribute with cheerio (lines 12-22, 51) is not modelled; the page is given as its articles.
- `JSON.parse` of the attribute and of `DEALS.json` (lines 20 and 79) is not modelled; its result is given as an `Option` or a `StoredJson` value.
- File existence, reading and writing, and `JSON.stringify` (lines 76-77 and 92) are filesystem I/O. Writing and reading back are taken to reproduce the records, but `JSON.stringify` drops a `link` that is `undefined`.
- A stored JSON value that is iterable but is not an array of deal records is not modelled (a string, an array holding `null`, records with no `id` property).
- Raw fields are typed as dealabs emits them: numbers for the prices, temperature, comment count and publishing time, and strings for the title. A field of another JSON type, such as a numeric string, is not modelled.
- The console warning and error messages (lines 81 and 95) are logging only.
- `async`/`await` and the entry point (lines 59 and 101-104) are control plumbing.
- DealRecord.Discount: computed in exact real arithmetic, so it does not model IEEE-754 double rounding. In doubles, `(1 - 80/100) * 100` is 19.999999999999996, which `parseInt` reads as 19, not 20.
- JsNumber.Mul: the value of a finite product is stated by the lemma `MulValue`, not by Mul's own contract, which keeps the discount proofs small.
- JsNumber.Div: the value of a finite quotient is stated by the lemma `DivValue`, not by Div's own contract, for the same reason.
- JsNumber.ParseInt: `parseInt` of a number reads it through its string form, as for DealRecord.Discount below; every finite value is taken to truncate toward zero.
- DealRecord.Discount: `parseInt` reads a number through its string form, which uses exponent notation when the magnitude is below 1e-6 or at least 1e21 (`parseInt(5e-7)` is 5). The model treats every finite value as plain truncation.
- DealRecord.Published: `publishedAt * 1000` is exact real arithmetic, without double rounding.
