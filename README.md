# A URL shortener's link lifecycle, in Dafny

This project models the core of a Supabase-backed URL shortener and proves
properties of the model.

- **Issuance** (`shorten` edge function). It checks that the long URL is an
  http(s) URL. It validates an optional custom alias: reserved words first,
  then the `[A-Za-z0-9_-]{3,50}` format. It rejects an alias that is already
  taken. It then picks the short id: the alias itself, or a random Base62
  code. A random code is re-drawn on collision, at most five checks in all,
  and grows longer every second re-draw. Finally it computes the expiry,
  inserts the link, and maps every error to status 400.
- **Resolution** (`redirect` edge function). It follows a fixed chain: a falsy
  id, then no single row matching the id's text as `short_id` or as
  `custom_alias`, then disabled, then expired. Otherwise it answers with the
  long URL. Every failure is a 404. The same file holds `lookupCountry`, a
  read-through cache in `geo_cache` in front of a geolocation service.
- **Analytics** (the stats page). One pass over a link's clicks, newest
  first, fills a country tally and a referrer tally. The page then shows the
  click total, the 20 most recent clicks, and the five largest entries of
  each tally.

Files:

- `wrappers.dfy`: `Option` and `Result`.
- `http.dfy`: JavaScript values and their truthiness, and the JSON
  responses.
- `store.dfy`: the `links` table. Rows are kept in insertion order. It is
  read through equality filters and `.single()`, and written by an insert
  that its unique constraints may reject.
- `shorten.dfy`, `redirect.dfy`, `stats.dfy`: the three parts above.
- `lifecycle.dfy`: what issuance writes is what resolution later reads.

The random bytes, the current time, the result of WHATWG URL parsing and the
geolocation service's answer are all parameters. The issuance handler takes
six buffers of random bytes, `draws[k]` for the k-th call of
`generateShortId`. The handler makes that many calls when all five checks
collide: it draws a sixth code and never checks it.

A JavaScript `Record<string, number>` is a sequence of entries in insertion
order. The top lists are a stable sort of that sequence, by count
descending, cut to five entries.

## Model

| member | source | states |
|---|---|---|
| Shorten.GenerateShortId | supabase/functions/shorten/index.ts:11-21 | The code has exactly `length` characters, and character `i` is `BASE62[bytes[i] % 62]`. |
| Shorten.EncodeDecode | supabase/functions/shorten/index.ts:9-18 | A code keeps each byte's residue modulo 62, recoverable by symbol position. Two draws therefore give the same code exactly when they agree modulo 62 at every position. |
| Shorten.EncodeAlphabet | supabase/functions/shorten/index.ts:9-18 | Every character of a generated code is an ASCII digit or letter. |
| Shorten.Base62Literal | supabase/functions/shorten/index.ts:9 | The alphabet, built as three runs of characters, is exactly the source's 62-character string: the ten digits, then the 26 upper-case letters, then the 26 lower-case letters. |
| Shorten.Base62Indexing | supabase/functions/shorten/index.ts:9 | The alphabet has 62 distinct symbols: digits, then upper case, then lower case. |
| Shorten.ModuloBias | supabase/functions/shorten/index.ts:13-17 | A byte selects symbol `j` exactly when it is one of `j`, `j+62`, `j+124`, `j+186`, or also `j+248` for `j < 8`. So the first eight symbols are drawn 5 times in 256 and the others 4 times. |
| Shorten.ValidateCustomAlias | supabase/functions/shorten/index.ts:23-38 | No alias, or an empty one, is valid. Rejections are only "reserved" or "malformed". A non-empty alias that is valid matches the pattern and is no reserved word once lower-cased. |
| Shorten.ReservedBeforeFormat | supabase/functions/shorten/index.ts:27-35 | Any casing of a reserved word is rejected as reserved, even though it would pass the format check. |
| Shorten.ValidIffPattern | supabase/functions/shorten/index.ts:32-37 | A non-empty, non-reserved alias is valid if and only if it is 3-50 characters of `[A-Za-z0-9_-]`. Otherwise it is rejected as malformed. |
| Shorten.CheckLongUrl | supabase/functions/shorten/index.ts:54-66 | Accepted if and only if the URL is a non-empty string whose parsed protocol is `http:` or `https:`. An empty or non-string value fails with 'Invalid URL'. Any other failure, including a wrong scheme, fails with 'Invalid URL format'. |
| Shorten.CheckAlias | supabase/functions/shorten/index.ts:68-85 | No alias is requested exactly when the value is falsy. A truthy non-string fails. A string the validator rejects fails with the validator's own error. A valid string that `.single()` finds as some row's `custom_alias` fails with 'This alias is already taken'. Otherwise the alias is accepted. An accepted alias is a string, passes validation, and matches no row's `custom_alias`. |
| Shorten.ShortenResponse | supabase/functions/shorten/index.ts:140-149 | Status 400 if and only if the request failed, with `{error: message}`. Success is status 200 with the short id. |
| Shorten.Collisions | supabase/functions/shorten/index.ts:92-105 | Over the list of candidate codes, the count of collisions is at most 5. Every candidate before it is taken, and the candidate it stops at is free unless all five were taken. |
| Shorten.TakenIffHeld | supabase/functions/shorten/index.ts:94-100 | Under the table's invariants, the collision check finds a row exactly when some row holds the code as its short id. |
| Shorten.FirstFreeCandidate | supabase/functions/shorten/index.ts:92-105 | Every candidate before the one the loop stops at is held by some row. The one it stops at, when it is among the first five, is held by no row and is 6-7 Base62 characters. |
| Shorten.Candidate | supabase/functions/shorten/index.ts:88-103 | Candidate `k` has length 6 for `k = 0` and `6 + floor((k-1)/2)` afterwards. Candidate `k >= 1` is drawn after `k` collisions, when `attempts` is `k-1`, so the lengths are 6, 6, 6, 7, 7, 8. |
| Shorten.ChooseShortId | supabase/functions/shorten/index.ts:88-110 | With an alias, the alias is the short id. Without one, the choice fails with 'Failed to generate unique short ID' exactly when all five checked candidates are taken. Otherwise it is a free candidate of 6-7 symbols, and every candidate before it is taken. |
| Shorten.PickShortId | supabase/functions/shorten/index.ts:88-109 | The loop checks at most 5 candidates. It returns the first free one, of length 6 or 7, which the store showed absent. It fails with 'Failed to generate unique short ID' after five collisions. |
| Shorten.ExpiryFor | supabase/functions/shorten/index.ts:112-118 | An expiry is set if and only if `expiryDays` is a number greater than 0. It then lies `expiryDays` days after now, strictly in the future. |
| Shorten.ExpiryRange | supabase/functions/shorten/index.ts:114-117 | From any instant after the epoch, more than 100 000 000 days lies outside the Date range, so `toISOString` throws. From the epoch, up to 100 000 000 days is printable. |
| Shorten.Issue | supabase/functions/shorten/index.ts:52-149 | A URL error takes precedence over every other error. A failure writes nothing. A success has a printable expiry and appends exactly one row: the code, the URL, the alias when one was given, and the expiry, not disabled. |
| Shorten.HandleShorten | supabase/functions/shorten/index.ts:52-149 | The handler, run step by step against the store, leaves exactly the rows and gives exactly the response `Issue` describes. It keeps the store's invariant: unique keys, and every alias equal to its row's short id. |
| Shorten.IssueKeepsInvariants | supabase/functions/shorten/index.ts:120-131 | Issuance keeps `short_id` and `custom_alias` unique. It also keeps every alias equal to its row's short id. |
| Shorten.IssueWithAlias | supabase/functions/shorten/index.ts:69-92 | With an alias, the random draws play no part because no loop runs. A success returns the alias itself as the short id. |
| Shorten.IssueAliasOutcome | supabase/functions/shorten/index.ts:68-136 | For a string alias and an accepted URL, under the table's invariants: a validator rejection is the response's error and nothing is written. A valid alias some row holds as alias fails as taken and nothing is written. A valid alias no row holds as short id becomes the short id of the one appended row, unless the expiry cannot be printed. |
| Shorten.IssueWithoutAlias | supabase/functions/shorten/index.ts:87-136 | Without an alias and with an accepted URL, all five candidates taken gives 'Failed to generate unique short ID'. Otherwise the first free candidate is inserted. The request then fails only with 'Invalid time value' for an unprintable expiry, or with 'Failed to create short link' for a rejected insert. |
| Shorten.IssueGeneratedCode | supabase/functions/shorten/index.ts:88-131 | Without an alias, a success returns the first candidate no row holds. It is 6-7 Base62 characters. Every earlier candidate is held by some row, and the insert is never rejected. |
| Shorten.IssueExhausted | supabase/functions/shorten/index.ts:92-109 | Without an alias, 'Failed to generate unique short ID' happens if and only if all five checked candidates are held by existing rows. |
| Shorten.AliasShadowingCode | supabase/functions/shorten/index.ts:75-136 | An alias equal to another link's generated short id passes the alias-taken check, which only looks at `custom_alias`. The insert then fails with 'Failed to create short link' and writes nothing. |
| Store.Select | supabase/functions/redirect/index.ts:61-65 | The selected rows are exactly the table's rows that satisfy the filter. The selection is empty if and only if no row does. |
| Store.SelectAtMostOne | supabase/functions/redirect/index.ts:61-65 | With unique keys and aliases equal to short ids, no filter the core uses selects more than one row. |
| Store.SingleFindsPresent | supabase/functions/shorten/index.ts:76-82 | Under those invariants, `.single()` finds a row if and only if some row satisfies the filter, and that row is the one found. |
| Store.SelectAppend | supabase/functions/shorten/index.ts:121-131 | A newly inserted row is selected after all the existing rows. |
| Store.InsertKeepsInvariants | supabase/functions/shorten/index.ts:121-136 | An insert that the unique constraints admit keeps both table invariants. |
| Store.LinkStore.SelectSingle | supabase/functions/shorten/index.ts:94-98 | Returns a row if and only if exactly one row matches the filter, and that row is in the table and matches. |
| Store.LinkStore.Insert | supabase/functions/shorten/index.ts:121-136 | Succeeds if and only if the unique constraints admit the row. On success the table gains exactly that row at the end; otherwise it is unchanged. |
| Redirect.Resolve | supabase/functions/redirect/index.ts:54-85 | 'Short ID required' if and only if the id is falsy, whatever JSON value it is. 'Link not found' if and only if the id's text matches zero or several rows. Disabled, expired and success each require exactly one matching row in the corresponding state. Success carries its long URL. |
| Redirect.SameTextSameResolution | supabase/functions/redirect/index.ts:56-64 | Two truthy ids with the same text resolve alike. |
| Redirect.NumericIdIsItsText | supabase/functions/redirect/index.ts:56-64 | A non-zero number id resolves exactly as its decimal text does. |
| Http.TemplateText | supabase/functions/redirect/index.ts:64 | A string's text is the string itself, and a number's text is its decimal digits, with a minus sign when negative. A truthy value never has empty text. |
| Http.DecimalRoundTrip | supabase/functions/redirect/index.ts:64 | Reading a number's decimal digits back gives the number. |
| Redirect.RedirectResponse | supabase/functions/redirect/index.ts:83-92 | Status 404 if and only if resolution failed, with `{error: message}`. Otherwise the response carries the URL. |
| Redirect.HandleRedirect | supabase/functions/redirect/index.ts:54-92 | The handler, run against the store, answers exactly what `Resolve` decides. It gives 404 if and only if resolution fails. On a store that keeps its invariant, a truthy id gives 'Link not found' exactly when no row has its text as short id or alias. |
| Redirect.DisabledBeforeExpired | supabase/functions/redirect/index.ts:72-79 | A disabled link reports 'This link has been disabled', whether or not it has also expired. |
| Redirect.ExpiryIsStrict | supabase/functions/redirect/index.ts:76-85 | A link without an expiry always resolves. At its expiry instant it still resolves. Any later instant reports it expired. |
| Redirect.NotFoundIffAbsent | supabase/functions/redirect/index.ts:61-69 | Under the table invariants, 'Link not found' means exactly that no row has the key as short id or as alias. |
| Redirect.AmbiguousKeyNotFound | supabase/functions/redirect/index.ts:61-69 | In any table, a key that is one row's short id and another row's alias matches two rows, and `.single()` reports 'Link not found', whatever state either link is in. |
| Redirect.AmbiguousTableExample | supabase/functions/redirect/index.ts:61-69 | The unique constraints alone admit such a table: two rows with distinct short ids, the second with the first's short id as alias. In it, the key is not found. |
| Store.SelectKeepsBoth | supabase/functions/redirect/index.ts:61-65 | Two distinct rows that satisfy a filter are both selected, so the selection has at least two rows. |
| Redirect.LookupCountrySpec | supabase/functions/redirect/index.ts:9-40 | A hit returns the cached country without a fetch or a write. An ok miss returns the body's country, or 'Unknown' when it is missing or empty, and writes exactly one entry for the IP holding that country with `last_seen` = now. A failed miss returns 'Unknown' and writes nothing. Other entries never change. |
| Redirect.GeoCache.LookupCountry | supabase/functions/redirect/index.ts:9-40 | The imperative lookup returns the country and leaves the cache exactly as `LookupCountrySpec` describes. |
| Redirect.LookupKeepsCountriesNamed | supabase/functions/redirect/index.ts:26-31 | If every cached country is non-empty, it stays so after a lookup, and the lookup never answers with an empty country. |
| Redirect.SecondLookupHits | supabase/functions/redirect/index.ts:11-33 | After an ok miss, the next lookup of the same IP is a hit: same country, no fetch, no write. |
| Redirect.CacheEntriesAreStable | supabase/functions/redirect/index.ts:11-39 | Over any run of lookups, cached entries are never overwritten or removed. Every IP added was a miss whose lookup was answered ok. |
| Stats.Aggregate | src/pages/Stats.tsx:46-64 | `totalClicks` is the number of clicks. `recentClicks` is the first min(20, n) clicks. `countryCounts[c]` is the number of clicks from a non-empty `c`. Referrers `direct` and `Direct` count under `Direct`, and `direct` and the empty string are never keys. Keys are distinct, each total is at most `totalClicks`, and zero clicks give empty results. |
| Stats.TallyCounts | src/pages/Stats.tsx:49-57 | Each key's count in a tally is the number of times it occurs among the clicks' keys. |
| Stats.TallyShape | src/pages/Stats.tsx:49-57 | A tally has one entry per distinct key that occurs. Its values add up to the number of clicks with a truthy field. |
| Stats.TallyTotalBound | src/pages/Stats.tsx:49-61 | The sum of a tally's values is at most the number of clicks. |
| Stats.CountryCountsAreClicks | src/pages/Stats.tsx:50-52 | The country tally holds, for each country, the number of clicks from it. It holds nothing under the empty string. |
| Stats.CountryKeysOccurrences | src/pages/Stats.tsx:50-52 | Over the clicks, a country occurs as a tally key as many times as clicks come from it. The empty string never occurs. |
| Stats.ReferrerCountsAreClicks | src/pages/Stats.tsx:53-56 | The referrer tally holds `direct` plus `Direct` clicks under `Direct`, nothing under `direct` or the empty string, and any other referrer's own clicks under its name. |
| Stats.ReferrerKeysOccurrences | src/pages/Stats.tsx:53-56 | The same, stated for the sequence of referrer keys. |
| Stats.BumpCounts | src/pages/Stats.tsx:51 | `counts[k] = (counts[k] \|\| 0) + 1` adds one to that key and to no other. |
| Stats.BumpKeys | src/pages/Stats.tsx:51-55 | An update adds the key if it was missing, keeps keys distinct, and adds one to the total. |
| Stats.BumpOrder | src/pages/Stats.tsx:51-55 | An existing key is updated where it stands. A new key is appended with count 1, in insertion order. |
| Stats.RecentAreLatest | src/pages/Stats.tsx:41-64 | On clicks delivered newest first, the recent slice holds the latest clicks, newest first. |
| Stats.InsertByCount | src/pages/Stats.tsx:172 | Inserting into a sorted list adds exactly that entry. |
| Stats.InsertByCountSorted | src/pages/Stats.tsx:172 | Inserting into a list ordered by count keeps it ordered. |
| Stats.SortByCount | src/pages/Stats.tsx:171-172 | The sort is a permutation of the entries, with the largest count first. |
| Stats.InsertByCountStable | src/pages/Stats.tsx:172 | An inserted entry goes in front of the other entries with its count. |
| Stats.SortByCountStable | src/pages/Stats.tsx:171-172 | The sort is stable: entries with equal counts keep their insertion order. |
| Stats.TopIsOrderedPart | src/pages/Stats.tsx:171-173 | The top list is ordered by count and drawn from the tally. A tally of at most five entries is listed whole. |
| Stats.TopIsLargest | src/pages/Stats.tsx:207-209 | No entry left out of the top list has a larger count than an entry in it. |
| Stats.Top | src/pages/Stats.tsx:171-173 | The top list has min(5, n) entries. |
| Lifecycle.IssuedCodeNonEmpty | supabase/functions/redirect/index.ts:56-58 | In any table, a code that issuance returns is never empty, so resolution accepts it as an id. |
| Lifecycle.AppendedRowIsSoleMatch | supabase/functions/redirect/index.ts:61-65 | A row appended under the table's invariants is the only row its short id matches, as short id or as alias. |
| Lifecycle.AppendedLinkResolves | supabase/functions/redirect/index.ts:61-85 | Such an appended, enabled link with a non-empty code resolves to its URL unless its expiry is strictly before now, in which case it is reported expired. |
| Lifecycle.IssuedLinkResolves | supabase/functions/redirect/index.ts:61-85 | A just-issued link resolves to its URL forever when issued without an expiry. With `expiryDays` = d, it resolves until d days after issuance, inclusive, and is reported expired after that. |
| Lifecycle.AliasReuseTaken | supabase/functions/shorten/index.ts:75-84 | Once an alias has been issued, a second request for it fails with 'This alias is already taken' and writes nothing. |

## Left out

- The Supabase client, PostgREST, `Deno.serve`, `req.json` and the CORS
  preflight and headers. The store is a sequence of rows in memory.
- Store I/O errors. A failed query is treated as "no row", as the handlers
  do. An insert fails only on the unique constraints on `short_id` and
  `custom_alias`; the schema itself is not part of this model.
- The PostgREST filter string built at
  supabase/functions/redirect/index.ts:64. It is modelled as exact equality
  on either column, so an id containing a character PostgREST reserves in
  `.or()` values (`,`, `.`, `:`, `(`, `)` or `"`) is not modelled.
- The `console.log` and `console.error` calls
  (supabase/functions/shorten/index.ts:134, 138 and 145;
  supabase/functions/redirect/index.ts:36, 81 and 88). They only write logs.
- The check-then-insert race between the alias-taken check or the collision
  check and the insert. It is concurrency; the unique constraint decides.
- `crypto.getRandomValues`, `new URL` and `fetch` to the geolocation
  service. They are parameters: byte buffers, a protocol oracle, and a reply.
- Shorten.ExpiryFor: does not model calendar arithmetic (`setDate`,
  daylight saving, ISO strings) or fractional `expiryDays`. A day is a fixed
  86 400 000 ms and a number of days is an integer. An expiry past the Date
  range makes `toISOString` throw; this is modelled as 'Invalid time value'
  with status 400 and nothing inserted. `expiryDays` of `1e400`, which JSON
  reads as Infinity, is no integer; it takes the same path as any integer
  large enough.
- Shorten.ToLower lower-cases ASCII letters only. For the reserved check this
  is exact: no non-ASCII character lower-cases to an ASCII letter except the
  Kelvin sign and the dotted capital I, and neither gives a reserved word.
- Shorten.CheckAlias: a truthy non-string alias fails with the runtime's
  TypeError message, as the source does. The message is modelled as one fixed
  string.
- Http.TemplateText: a number is printed in plain decimal however large it
  is, where JavaScript prints 1e21 and above in exponent notation. Every
  object or array is printed as `[object Object]`, where JavaScript joins an
  array's elements. JSON numbers are integers in this model, so a fractional
  or infinite `shortId` (`1.5` looked up as "1.5", `1e400` as "Infinity") is
  not represented. The app's own redirect page sends the route parameter,
  a string (src/pages/Redirect.tsx:16).
- The `created_by_ip`, `id`, `created_at` and `click_count` columns, and the
  `link` object the insert returns. No operation of the core reads them.
- Redirect.LookupCountrySpec: a hit does not refresh `last_seen`; the source
  upserts only on a miss. `lookupCountry` is defined but not called by the
  redirect handler, and the browser-side click insert that records country
  'Unknown' is not part of this model.
- Stats: the null click list. `clicksData?.forEach`, `?.length || 0` and
  `?.slice(0, 20) || []` treat it as the empty list, which the model takes.
- Stats: the fetch of the link and of its clicks. The clicks are a parameter
  in the order the query returns them, newest first.
- Stats: `Object.entries` lists integer-like keys first, in numeric order, and
  a key named like an `Object.prototype` member reads an inherited value. The
  model keeps insertion order and plain keys.
- The floating-point bar widths, the page rendering, the toasts and the
  loading state of the stats page.
- Admin actions (`toggleDisabled`, `deleteLink`) and the client-side alias
  schema. They are single store updates behind auth, and a looser copy of the
  server check.
