# Blog home page: article list normalisation, category dropdown and search filter

This project models the list processing of the blog's home page
(`frontend/pages/index.js`). The page fetches the articles from the Strapi
backend and reduces the decoded JSON body to a list of articles. On every
render it then builds two things from that list:

- the category dropdown: 'All' followed by the distinct article categories,
  in the order they first appear;
- the visible articles: those whose lower-cased title or tag text contains
  the lower-cased search text, and whose category is the selected one
  (or 'All' is selected).

Article records have a loose shape. A Strapi v4 entry wraps its fields in
`attributes`, and field names may be lower-case or capitalised. For that
reason the model works on JavaScript values rather than on a fixed record:

- `Js.Value` holds what `JSON.parse` can produce, plus `undefined`.
- `Js.Completion` is the outcome of evaluating an expression: a value, or a
  thrown `TypeError`.
- JavaScript's `||`, truthiness and property reads are written out.

Every TypeError that lines 18-20 and 30-53 of the page can raise is a
`Throw` outcome, not a precondition. Examples: a null article, a missing or non-string title, a
non-string tag value reached by the search, an object without a primitive
conversion inside a tag array. This includes the title: `attr.title.toLowerCase()`
throws when the title is absent, and the model says exactly when that
happens.

Modules:

- `Js` (`js.dfy`): values, truthiness, `||`, property reads, `toLowerCase`.
- `JsStrings` (`strings.dfy`): `includes` and `join`.
- `Seqs` (`seqs.dfy`): subsequence order and first-index helpers.
- `Articles` (`articles.dfy`): the `attributes` unwrapping and the
  category and tag fallbacks.
- `CategoryList` (`categories.dfy`): the Set-based dropdown options.
- `ArticleFilter` (`filter.dfy`): the filter callback and `Array.filter`.
- `Home` (`home.dfy`): response normalisation and one render.

Two runtime services are parameters: the Unicode case mapping of
`toLowerCase` and the Number-to-String conversion used by `join`. They
are the two fields of `Js.Host`. Lemmas that need `toLowerCase('') === ''`
take it as a precondition on the host.

The repository describes an article's tags as a sequence of strings. The
page's code also accepts a tag string, another truthy value or no tags at
all, and the model follows the code.

## Model

| member | source | states |
|---|---|---|
| `Js.Get` | frontend/pages/index.js:32 | reading a property throws exactly when the value is null or undefined, and otherwise yields the own property or undefined |
| `Js.LowerCase` | frontend/pages/index.js:46-47 | `toLowerCase()` returns a result only for strings; null or undefined throws a read error, and any other value throws not-a-function |
| `JsStrings.Includes` | frontend/pages/index.js:46-47 | the left-to-right scan of `includes` is true exactly when the needle occurs as a contiguous piece of the string |
| `JsStrings.JoinNormalIff` | frontend/pages/index.js:41-42 | `join` completes exactly when every element can be converted to text |
| `JsStrings.JoinContainsEach` | frontend/pages/index.js:41-42 | the joined text contains the text of every element |
| `JsStrings.JoinThrowsNoPrimitive` | frontend/pages/index.js:41-42 | the only error `join` raises is an element with no primitive conversion |
| `Articles.AttrOf` | frontend/pages/index.js:32 | fields are read from `attributes` when it is truthy and from the article otherwise; this throws only for a null or undefined article, and the record it yields is never null |
| `Articles.CategoryFrom` | frontend/pages/index.js:33 | the filter category is `category` when truthy, else `Category` when truthy, else 'Uncategorized'; it is never falsy |
| `Articles.ArticleCategory` | frontend/pages/index.js:31-33 | reading an article's category throws only for a null or undefined article, and otherwise yields a truthy category |
| `Articles.CategoryFallbacksAgree` | frontend/pages/index.js:110 | the category on a card agrees with the filter category unless both fields are falsy; then the card shows '' and the filter uses 'Uncategorized' |
| `Articles.TagText` | frontend/pages/index.js:41-43 | tag text is the tag array joined with ", " (throwing only when the join throws), a truthy non-array tag value as it is, and '' when there are no tags |
| `Articles.TagTextContainsTags` | frontend/pages/index.js:41-42 | every string tag in a tag array occurs in the tag text |
| `ArticleFilter.Keep` | frontend/pages/index.js:40-52 | the callback completes exactly when the article is not null, its tag text can be built, its title is a string, and its tag text is a string whenever the title does not match; it returns true exactly when the search matches the title or tag text after lower-casing and the category matches; a non-null article can only throw the `toLowerCase` read or not-a-function error or the missing primitive conversion of `join` |
| `ArticleFilter.FilterNormalIff` | frontend/pages/index.js:39-53 | filtering completes exactly when the callback completes on every article |
| `ArticleFilter.FilterFirstError` | frontend/pages/index.js:39-53 | a failed filter reports the error of the first article whose callback throws |
| `ArticleFilter.FilterContents` | frontend/pages/index.js:39-53 | the result is an order-preserving subsequence of the articles; an article is in it exactly when it is selected; each selected article keeps its multiplicity |
| `ArticleFilter.FilterKeepsSelected` | frontend/pages/index.js:39-53 | a list of selected articles passes through the filter unchanged |
| `ArticleFilter.FilterIdempotent` | frontend/pages/index.js:39-53 | filtering the result again with the same search and selection returns it unchanged |
| `ArticleFilter.FilterNarrowing` | frontend/pages/index.js:49-50 | a specific category completes exactly when 'All' completes, and its result is the 'All' result filtered by that category |
| `ArticleFilter.NarrowingIsSubsequence` | frontend/pages/index.js:49-50 | the result for a specific category is an order-preserving part of the 'All' result for the same search |
| `ArticleFilter.EmptySearchKeepsAll` | frontend/pages/index.js:45-50 | with an empty search and 'All', the filter returns every article, and throws only if some article lacks a string title or buildable tag text |
| `CategoryList.CategoryOptions` | frontend/pages/index.js:30-36 | the `forEach` over a Set yields 'All' followed by the categories in first-seen order; it throws exactly when some article is null or undefined |
| `CategoryList.FirstSeenMembers` | frontend/pages/index.js:34-36 | the de-duplicated categories are exactly the categories that occur |
| `CategoryList.FirstSeenDistinct` | frontend/pages/index.js:30-36 | no primitive category appears twice among the options after 'All' |
| `CategoryList.FirstSeenCounts` | frontend/pages/index.js:30-36 | each primitive category appears exactly once; an array or object category appears once per occurrence, since a Set compares those by reference |
| `CategoryList.FirstSeenSubsequence` | frontend/pages/index.js:31-36 | the options after 'All' keep the order of the articles' categories |
| `CategoryList.FirstSeenOrder` | frontend/pages/index.js:31-36 | two primitive categories are listed in the order of their first occurrence |
| `CategoryList.FirstSeenPicksFirstOccurrences` | frontend/pages/index.js:31-36 | the options after 'All' are read off the article categories at increasing positions, each primitive category at the position where it first occurs |
| `CategoryList.CategoryOptionsSpec` | frontend/pages/index.js:30-36 | the options start with 'All' and then list every article's category and nothing else, each primitive category exactly once, in article order |
| `CategoryList.AllMayRepeat` | frontend/pages/index.js:30-36 | whenever some article's category is literally 'All', the options contain 'All' exactly twice |
| `Home.Normalize` | frontend/pages/index.js:18-20 | the body is used when it is an array, else `body.data` when that is an array, else the empty list; a null body throws on reading `data` |
| `Home.EnvelopeMatchesBareArray` | frontend/pages/index.js:18-19 | a bare array and a `{ data: [...] }` envelope give the same articles |
| `Home.Render` | frontend/pages/index.js:30-53 | lines 30-53 complete exactly when the filter does, and then yield the dropdown options and the filtered list; a null article makes it throw the `attributes` read error first |
| `Home.OptionSelectsItsArticles` | frontend/pages/index.js:39-53 | with an empty search and every article presentable, choosing a string category completes and keeps every article whose category it is |
| `Home.NonStringCategoryNeverSelected` | frontend/pages/index.js:49-50 | an article whose category is not a string is never kept for a specific selection, because `===` compares it with a string |

## Left out

- `fetch`, the `res.ok` check and the promise `catch` (frontend/pages/index.js:12-26): network I/O and promise plumbing. `Home.Normalize` stops at the thrown error that the `catch` would turn into 'Failed to load articles.'.
- React state, `useEffect`, and the loading and error screens (frontend/pages/index.js:5-9, 55-56): UI framework behaviour. The search text and the selected category are plain string parameters.
- JSX rendering, inline styles, card markup and cover-image URLs (frontend/pages/index.js:58-148): presentational. The card's category fallback is modelled only to compare it with the filter's fallback.
- Errors raised after the filter completes (frontend/pages/index.js:58-148): the markup can still throw. The template literals of lines 104-105 and 136 convert `attr.coverImage.url` and `article.id` to strings, which throws for an object with its own `toString`. React rejects a plain-object category or tag value as a child at lines 94, 128 and 133. `Home.Render` covers lines 30-53 only.
- The backend controller `find`/`findOne` (backend/src/api/article/controllers/article.js:6-23): thin wrappers over Strapi's entity service, whose sorting and persistence are not part of this model.
- The article detail page (frontend/pages/articles/[id].js): not part of this model.
- `Js.LowerCase`: the case mapping is the abstract `Host.lower`, so Unicode case-mapping rules are not modelled.
- `JsStrings.Join`: numbers are converted by the abstract `Host.numberText`; the Number-to-String algorithm is not modelled.
- `Js.Value`: `Num` holds the finite double that `JSON.parse` produced, as an exact real. Two numerals that round to the same double therefore give one Set entry, as in JavaScript. A numeral such as `1e400`, which parses to Infinity, cannot be represented.
- `Js.Value`: `Str` holds a sequence of Unicode scalar values, while a JavaScript string is a sequence of UTF-16 code units. A JSON string holding a lone surrogate such as `"\ud800"` cannot be represented. On well-formed text `includes` and `===` give the same answers in both views.
- `Js.Prop`: only the seven property names the page reads are modelled. None of them exists on the Object, String or Array prototypes, so a missing own property reads as undefined.
- `CategoryList.SetAdd`: arrays and objects are never found in the Set. This holds because each category object comes from a distinct node of the parsed JSON; object identity itself is not modelled.
