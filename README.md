# Store directory: listing, registration and review forms

This project models the core of a small restaurant directory built with
Next.js and Prisma. It covers four things:

- `GET /api/stores` lists stores page by page. A store is listed when it is
  not deleted and, for a non-empty query, the query occurs in its name,
  address or genre. Pages are ordered newest update first, and each store
  carries its review count and its average rating, rounded to one decimal
  place.
- `POST /api/stores` registers a store. It requires a name and an address,
  issues a random 16-character hex edit key, stores only the SHA-256 digest
  of the key, and returns the plaintext key exactly once.
- The `/stores` server page shows the same listing with a default page size
  of 12 and unrounded averages. It shows a "no match" message on an empty
  page and a previous/next pagination bar.
- The store form and the review form validate their fields and send POST,
  PATCH or DELETE requests. Edits and deletes need the edit key. After a
  successful registration or post, the form is replaced by a panel showing
  the issued key (the store form's panel uses a `Link` it never imports; see
  "## Left out").

The database is a sequence of `StoreRow`s. `findMany`/`count` are functions
over it. Clocks, randomness, hashing and the schema library's URL check are
parameters.

Modules:

- `Text`: substring search, decimal and hex text.
- `Urls`: how a link is assembled and how its query string is read back.
- `Records`: the rows.
- `Listing`: parameters, filter, order, paging and statistics, shared by
  the API and the page.
- `StoresApi`, `StoresPage`, `Requests`, `StoreForm` and `ReviewForm`.

The page's pagination links are modelled twice: once as written and once
corrected (see "## Findings"). The pager and the page take a `LinkStyle`:
`AsWritten` builds the links the page builds, `Corrected` the links it
evidently intends.

## Model

| member | source | states |
|---|---|---|
| Text.ContainsIff | app/api/stores/route.ts:19-21 | `contains` holds exactly when the query occurs at some position of the column |
| Text.DecimalRoundTrip | app/stores/page.tsx:15 | parsing the decimal text of a page number gives the number back |
| Text.HexRoundTrip | app/api/stores/route.ts:83 | the hex text of the random bytes decodes back to those bytes |
| Text.HexEncodeInjective | app/api/stores/route.ts:83 | different random bytes give different hex keys |
| Listing.PositiveParam | app/api/stores/route.ts:7-8 | an absent or empty parameter takes the default; otherwise the result is the parsed digits, and it is absent exactly when they are not a positive integer |
| Listing.Resolve | app/api/stores/route.ts:7-9 | `page` defaults to 1, `limit` to the caller's default, `query` to the empty string; it resolves exactly when both numbers are positive, and then to exactly the parsed page, the parsed limit and the query |
| Listing.Skip | app/api/stores/route.ts:10 | `skip` is a whole number of pages, namely `page - 1` pages, and it is 0 on page 1 |
| Listing.BuildWhere | app/api/stores/route.ts:13-23 | the `where` object excludes deleted stores, and a row satisfies it exactly when the listing rule lists it |
| Listing.FilterWhere | app/api/stores/route.ts:39 | the counted rows are exactly the table's rows that satisfy `where` |
| Listing.ListedIn | app/api/stores/route.ts:13-23 | the listed rows are exactly the table's rows the listing rule accepts |
| Listing.FilterIsListing | app/api/stores/route.ts:26-39 | filtering by the built `where` gives the listed rows |
| Listing.InsertByRecency | app/api/stores/route.ts:31 | inserting into a newest-first sequence keeps it newest-first and adds exactly that row |
| Listing.InsertBehindHead | app/api/stores/route.ts:31 | a row older than the head goes after it without breaking the order |
| Listing.ByRecency | app/api/stores/route.ts:31 | `orderBy: updatedAt desc` gives a newest-first permutation of the rows |
| Listing.Window | app/api/stores/route.ts:29-30 | `skip`/`take` gives at most `take` rows, namely those from position `skip` on |
| Listing.FindMany | app/api/stores/route.ts:27-38 | exactly the `skip`/`take` window of the matching rows ordered newest first: `take` rows when enough match past `skip`, the rest otherwise, none past the end; each a table row satisfying `where` |
| Listing.OrderedWindow | app/api/stores/route.ts:29-31 | a window of a newest-first permutation of the matches is newest first and holds only matches |
| Listing.Shown | app/api/stores/route.ts:27-39 | the listed stores, newest first, as many as are counted |
| Listing.TotalPages | app/api/stores/route.ts:64 | `Math.ceil(total / limit)` is the least number of pages that holds every row |
| Listing.TotalPagesExample | app/api/stores/route.ts:64 | 25 rows at limit 10 make 3 pages; no rows make none |
| Listing.PageSize | app/api/stores/route.ts:10-30 | every page up to the last has rows left, a full page before the last, at most a page on the last |
| Listing.LastPageOfTwentyFive | app/api/stores/route.ts:29-30 | page 3 of 25 rows at limit 10 holds 5 |
| Listing.ValidReviews | app/api/stores/route.ts:33-36 | exactly the non-deleted reviews, each as many times as it occurs in the store's reviews |
| Listing.MeanRating | app/api/stores/route.ts:44-48 | the average is the rating sum over the count, and 0 without reviews |
| Listing.RoundToTenths | app/api/stores/route.ts:54 | `toFixed(1)` gives the nearest tenth, with halves rounded away from zero |
| Listing.SumBounds | app/api/stores/route.ts:47 | ratings from 1 to 5 sum to between `n` and `5n` |
| Listing.ValidReviewsInRange | app/api/stores/route.ts:33-36 | dropping deleted reviews keeps every rating in 1..5 |
| Listing.MeanInRange | app/api/stores/route.ts:46-48 | a store with reviews rated 1..5 averages between 1 and 5 |
| Listing.TenthsInRange | app/api/stores/route.ts:54 | ... and its rounded average lies between 1.0 and 5.0 |
| Listing.StatsExample | app/api/stores/route.ts:43-56 | ratings 5, 3 and 4 give 3 reviews averaging 4.0; no reviews give 0 |
| StoresApi.Summarize | app/api/stores/route.ts:43-56 | the summary keeps the public columns, counts the non-deleted reviews and gives a nearest tenth of their mean (1.0 to 5.0 for ratings in range) |
| StoresApi.AverageFacts | app/api/stores/route.ts:46-54 | the rounded average is 0 without reviews and a nearest tenth of the mean otherwise |
| StoresApi.SummarizeAll | app/api/stores/route.ts:43 | one summary per loaded row, in order |
| StoresApi.Get | app/api/stores/route.ts:5-66 | the response carries the resolved page and limit, the number of listed stores, the page count for it, and the summaries of that page of the listing |
| StoresApi.ResponsePageSize | app/api/stores/route.ts:26-40 | a response page holds `limit` stores, or what is left after `skip` |
| StoresApi.PageNewestFirst | app/api/stores/route.ts:31 | a response page is ordered newest update first |
| StoresApi.PageFromListed | app/api/stores/route.ts:26-56 | every summary on a page is that of a listed store of the table |
| StoresApi.TwentyFiveStores | app/api/stores/route.ts:58-65 | 25 listed stores at limit 10 make 3 pages, and the third holds 5 |
| StoresApi.Post | app/api/stores/route.ts:73-107 | 400 exactly when the name or the address is missing or empty, and nothing is stored; otherwise one row is appended with the body's columns and the digest of a 16-character lower-case hex key that decodes to the random bytes, and that key is returned |
| StoresApi.OnlyIssuedKeyMatches | app/api/stores/route.ts:83-84 | with an injective digest, the stored digest matches exactly the returned key |
| StoresApi.DistinctBytesDistinctKeys | app/api/stores/route.ts:83 | different random bytes give different edit keys |
| StoresPage.MeanFacts | app/stores/page.tsx:53-55 | an average over reviews rated 1..5 lies between 1 and 5 |
| StoresPage.WithStats | app/stores/page.tsx:50-62 | the store keeps every loaded field, counts its non-deleted reviews and carries their exact mean (0 without reviews) |
| StoresPage.WithStatsAll | app/stores/page.tsx:50 | one entry per loaded row, in order |
| StoresPage.DecimalReadsBack | app/stores/page.tsx:15 | a page number written into a link is read back as that number |
| StoresPage.PageHrefRoundTrip | app/stores/page.tsx:97 | a corrected page link opens the `/stores` page at the page, query and page size it names, for any query |
| StoresPage.PageLinksResolve | app/stores/page.tsx:117 | the same holds for every page number (in JavaScript, only below the number-width bounds under "## Left out") |
| StoresPage.Pagination | app/stores/page.tsx:89-127 | the bar is shown exactly when there is more than one page and names the current page and the page count; "previous" is a link exactly after page 1, "next" exactly before the last page; each links to the neighbouring page in the chosen style, and in the corrected style opens it with the same query and page size |
| StoresPage.AsWrittenPagerCutsAmpersand | app/stores/page.tsx:116-117 | the pager as written, on the query `A&W`, links "next" to the next page at the default size searching for `A` |
| StoresPage.Render | app/stores/page.tsx:10-129 | the page shows the listed stores of its page with their statistics, shows "no match" exactly when there are none, and renders the pagination bar for the listing's page count; in the `AsWritten` style the bar's links are the page's own |
| StoresPage.NoMatchPastTheEnd | app/stores/page.tsx:76-79 | "no match" appears exactly when the page starts past the last listed store |
| StoresPage.FirstPageNoMatch | app/stores/page.tsx:76-79 | on page 1, "no match" means that no store in the table is listed |
| StoresPage.NextPageNotEmpty | app/stores/page.tsx:116-117 | before the last page, the next page at the same query and page size (the corrected link's target) holds stores |
| StoresPage.PreviousPageNotEmpty | app/stores/page.tsx:96-97 | from page 2 up to one page past the last, the previous page at the same query and page size (the corrected link's target) holds stores |
| StoresPage.AsWrittenNextPageEmpty | app/stores/page.tsx:116-117 | as written, with 7 listed stores at `?limit=5`, "next" on page 1 opens page 2 at size 12, which is empty, while page 2 at size 5 holds stores |
| StoresPage.AsWrittenLinkDropsLimit | app/stores/page.tsx:97 | as written, a link opens the default page size of 12 whatever the current size, and the query percent-decoded rather than as typed |
| StoresPage.AsWrittenParams | app/stores/page.tsx:97 | as written, a link carries `page` and the decoded query and no `limit` |
| StoresPage.AsWrittenLinkTurnsPlusIntoSpace | app/stores/page.tsx:117 | as written, the query `C++` comes back as `C` followed by two spaces |
| StoresPage.AsWrittenHrefWithTail | app/stores/page.tsx:97 | as written, a query containing `&` splits the link into a shorter query plus extra parameters |
| StoresPage.AsWrittenLinkCutsQuery | app/stores/page.tsx:97 | as written, everything after the query's first `&` is lost from the query and read as other parameters |
| StoresPage.AsWrittenLinkCutsAmpersand | app/stores/page.tsx:117 | as written, the query `A&W` comes back as `A` |
| StoresPage.ReadsAsOnePiece | app/stores/page.tsx:97 | a tail like `W` carries no `limit` |
| Requests.KeyReadsBack | components/features/store/StoreForm.tsx:103 | a `?key=` URL is read back as its path and the percent-decoded key |
| Requests.IssuedKeyReadsBack | components/features/store/StoreForm.tsx:103 | an issued hex key is read back unchanged |
| Requests.FailureIsExplained | components/features/store/StoreForm.tsx:75-92 | a failed request always shows a non-empty message: the server's error, or the fallback when the server sent none |
| StoreForm.Issues | components/features/store/StoreForm.tsx:19-29 | each schema message is raised exactly when its rule is broken: name 1..80, address 1..120, website URL empty or a URL |
| StoreForm.ValidValues | components/features/store/StoreForm.tsx:19-29 | the values pass exactly when every bound holds |
| StoreForm.Decide | components/features/store/StoreForm.tsx:55-71 | invalid values are rejected with their messages; in edit mode an empty key stops the request; otherwise the values go as the body, by PATCH to the store's URL when editing and by POST to `/api/stores` when creating |
| StoreForm.DeleteRequest | components/features/store/StoreForm.tsx:95-103 | a DELETE with no body goes to `/api/stores/{id}?key={key}` exactly when the user confirms and a key is typed |
| StoreForm.DeleteCarriesIssuedKey | components/features/store/StoreForm.tsx:103 | the delete URL reaches the store's path with the issued key unchanged |
| StoreForm.EditStartsFromRegistered | components/features/store/StoreForm.tsx:42-52 | editing a store registered from valid values starts from exactly those values, with an empty key |
| StoreForm.StoredStoreIsValid | components/features/store/StoreForm.tsx:42-64 | a stored store within the schema's bounds starts an edit whose values pass the schema, so only the missing key stops it |
| StoreForm.StoreFormState.constructor | components/features/store/StoreForm.tsx:35-53 | the form starts from its defaults with no key panel |
| StoreForm.StoreFormState.Fill | components/features/store/StoreForm.tsx:40-53 | typing changes the values and nothing else |
| StoreForm.StoreFormState.Submit | components/features/store/StoreForm.tsx:55-93 | the decision is taken on the current values; a successful registration keeps the returned key and resets the fields, and the key panel appears exactly when that key is non-empty; a successful edit opens the store's page; a failure shows the server's message or a fallback; nothing else changes |
| StoreForm.StoreFormState.Delete | components/features/store/StoreForm.tsx:95-116 | the delete request uses the typed key; success returns to the listing; failure shows the message |
| StoreForm.RegisterThenShowKey | components/features/store/StoreForm.tsx:84-118 | a valid registration answered with an issued key shows that key in the panel, with the fields reset (the panel as intended; see "## Left out") |
| StoreForm.EditWithoutKey | components/features/store/StoreForm.tsx:62-65 | in edit mode an empty key sends nothing and changes nothing |
| StoreForm.DeleteWithIssuedKey | components/features/store/StoreForm.tsx:95-110 | deleting with the issued key reaches the store's path with that key and returns to the listing |
| ReviewForm.Issues | components/features/review/ReviewForm.tsx:20-26 | each schema message is raised exactly when its rule is broken: a rating chosen, body 10..1000, author name at most 30 |
| ReviewForm.ValidValues | components/features/review/ReviewForm.tsx:20-26 | the values pass exactly when every bound holds |
| ReviewForm.RatingChoices | components/features/review/ReviewForm.tsx:173-174 | there are five options |
| ReviewForm.RatingChoicesCoverOneToFive | components/features/review/ReviewForm.tsx:173-174 | the options read back as 5 down to 1, each passes the rating rule, and every rating from 1 to 5 is offered |
| ReviewForm.DefaultsOf | components/features/review/ReviewForm.tsx:40-48 | the fields start from the stored review, with the rating as text and the visit date formatted, or empty; the key starts empty |
| ReviewForm.StoredRatingIsOffered | components/features/review/ReviewForm.tsx:41 | a stored rating from 1 to 5 starts on one of the offered options, which passes the rule |
| ReviewForm.Decide | components/features/review/ReviewForm.tsx:51-66 | invalid values are rejected; in edit mode an empty key stops the request; otherwise PATCH `/api/reviews/{id}` when editing and POST `/api/stores/{storeId}/reviews` when posting, with the values as the body |
| ReviewForm.PostTargetsStore | components/features/review/ReviewForm.tsx:53 | a new review goes to its store's reviews URL |
| ReviewForm.DeleteRequest | components/features/review/ReviewForm.tsx:89-97 | a DELETE with no body goes to `/api/reviews/{id}?key={key}` exactly when the user confirms and a key is typed |
| ReviewForm.DeleteCarriesIssuedKey | components/features/review/ReviewForm.tsx:97 | the delete URL reaches the review's path with the issued key unchanged |
| ReviewForm.ReviewFormState.constructor | components/features/review/ReviewForm.tsx:34-49 | the form starts from its defaults with no key panel |
| ReviewForm.ReviewFormState.Fill | components/features/review/ReviewForm.tsx:38-49 | typing changes the values and nothing else |
| ReviewForm.ReviewFormState.Submit | components/features/review/ReviewForm.tsx:51-87 | a successful post keeps the returned key and resets the fields, and the key panel replaces the form exactly when that key is non-empty; a successful edit opens the page of the store named in the reply; a failure shows the message; nothing else changes |
| ReviewForm.ReviewFormState.Delete | components/features/review/ReviewForm.tsx:89-110 | the delete request uses the typed key; success opens the review's store page; failure shows the message |
| ReviewForm.PostThenShowKey | components/features/review/ReviewForm.tsx:78-119 | posting a valid review with an offered rating sends a POST to the store's reviews URL and shows the issued key, with the fields cleared |

## Left out

- Database and network failures (the 500 responses) and the `try`/`catch` around them: the model's database cannot fail.
- Prisma and JavaScript string lengths count UTF-16 code units. The model counts characters, so the 80/120/10/1000/30 bounds apply to `seq<char>` lengths.
- `contains` is modelled as an exact substring test. Whether the database ignores case depends on its provider and collation, and that is not modelled.
- Listing.PositiveParam: `parseInt`'s leniency is not modelled. Leading spaces, signs, trailing junk and `NaN` are not parsed. A parameter that is not a positive digit string resolves to `None`, and `Get` and `Render` require a resolved parameter set. Behaviour with `NaN`, 0 or negative pages is therefore outside the model.
- StoresApi.Get: requires parameters that resolve, that is a `page` and a `limit` that are absent, empty or positive digit strings. This excludes two kinds of input. First, parameters that `parseInt` reads as `NaN`, 0 or a negative number, which send `NaN` or a non-positive `skip`/`take` to the database. Second, strings that `parseInt` leniently reads as positive numbers (`'2abc'`, `' 2'` and `'+2'` all give 2); the source serves these as ordinary pages, and the model does not cover them.
- StoresPage.Render: requires parameters that resolve, with the same two exclusions as StoresApi.Get: non-positive or `NaN` values, and leniently parsed strings such as `'2abc'`, `' 2'` or `'+2'` that the page serves as page 2.
- StoreForm.StoreFormState.Submit: the key panel (components/features/store/StoreForm.tsx:118-147) uses `Link` at line 141, but the imports at lines 3-17 never import it. As written the panel fails to build, or throws when it renders. The model's `KeyPanel` outcome and StoreForm.RegisterThenShowKey describe the panel the code evidently intends, not the one it would show.
- Number width: JavaScript numbers are doubles, the model's integers are unbounded. Above 2^53 `parseInt` rounds (`page=9007199254740993` reads as 9007199254740992) and `(page - 1) * limit` loses precision. `${n}` writes n ≥ 10^21 in exponent form (`1e+21`), which `parseInt` reads as 1, so a pager link from such a page reopens page 1. Listing.PositiveParam, Listing.Skip, Text.NatToDecimal, Text.DecimalRoundTrip, StoresPage.PageHrefRoundTrip and StoresPage.PageLinksResolve describe the source only below these bounds.
- `Promise.all([findMany, count])` (app/api/stores/route.ts:26-40, app/stores/page.tsx:33-47) runs two queries outside a transaction, so a write between them can make `total` and `totalPages` disagree with the page's rows. StoresApi.Get and StoresPage.Render read one table for both, so they do not model that interleaving.
- Listing.RoundToTenths: `toFixed(1)` acts on a binary floating-point value. The model rounds the exact mean, so it can differ when the mean is a decimal half that the float stores just below or above it.
- Equal `updatedAt` values: the database leaves their order open. The model keeps table order.
- Urls: percent escapes are decoded one byte to one character. Multi-byte UTF-8 sequences and repeated keys beyond the first are not modelled.
- `crypto.randomBytes`, SHA-256, the database's id and timestamp, and the clock are parameters. SHA-256 is an arbitrary `string -> string` function.
- The schema library's URL check is the `isUrl` parameter.
- Date formatting (`yyyy-MM-dd`) is the `formatDate` parameter.
- Toast texts, `router.refresh`, the `confirm` dialog (a `confirmed` flag), the clipboard copy button and all markup other than what each control does.
- The edit-key verification and the PATCH/DELETE handlers under `app/api/stores/[id]` and `app/api/reviews/[id]`, and the review POST handler. These are not part of this model; the forms model only the requests they send.

## Findings

| source | as written | input that shows it | evidently intended | confidence | as-written member | corrected member |
|---|---|---|---|---|---|---|
| app/stores/page.tsx:97-117 | the pagination links interpolate the raw query into the URL | query `A&W`: the linked page searches for `A` (`W` becomes a parameter of its own) | escape the query, as the search form does with `encodeURIComponent` (components/features/store/SearchForm.tsx:17) | high (not executed) | StoresPage.AsWrittenLinkCutsAmpersand | StoresPage.PageHrefRoundTrip |
| app/stores/page.tsx:97-117 | same interpolation; `+` in a query string reads back as a space | query `C++`: the linked page searches for `C` followed by two spaces | the same escaping | high (not executed) | StoresPage.AsWrittenLinkTurnsPlusIntoSpace | StoresPage.PageHrefRoundTrip |
| app/stores/page.tsx:97-117 | the links carry only `page` and `query` | 7 listed stores opened at `/stores?limit=5`: "next" on page 1 opens page 2 at 12 stores per page, which skips 12 stores instead of 5 and is empty | carry the current `limit` | medium (not executed) | StoresPage.AsWrittenNextPageEmpty | StoresPage.Pagination |
