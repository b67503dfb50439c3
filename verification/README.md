# Domain price comparison: a Dafny model of its query rules and table state

The application compares what registrars charge to register, renew and
transfer domain extensions (`.com`, `.net`, ...). This project models its
small amount of real logic as pure functions over sequences and maps, and
proves properties of those functions:

- **`GET /api/cheapest-tlds`** (module `CheapestRoute`). The model covers:
  - reading `page`, `limit`, `sortBy`, `sortOrder` and `tldName` with
    JavaScript `parseInt` semantics, and capping the limit at 20;
  - the `ROW_NUMBER() ... rn = 1` reduction to the cheapest row per
    extension;
  - the two inner joins and the `LIKE '%x%'` filter;
  - the `ORDER BY` column mapping and the `LIMIT`/`OFFSET` page;
  - the separate `COUNT(DISTINCT tld_id)` query and the pagination
    envelope, including the `catch` answer.
- **`GET /api/prices`** (module `PricesRoute`). The model covers:
  - the latest-registrars branch;
  - the extension lookup with dot normalisation;
  - the empty answers when the extension is not found or has no prices;
  - formatting each row with its registrar and a logo address whose slug
    drops only the first space.
- **`GET /api/tlds`** (module `TldsRoute`). The model covers:
  - the latest-extensions branch;
  - the lookup of one extension and its price rows, newest first;
  - the de-duplicated registrar ids;
  - the id-to-name map with its `'Unknown'` fallback.
- **`CheapestTLDTable`** (module `CheapestTable`). The model covers:
  - sort toggling and Clear;
  - the debounce reset;
  - reading the state from the URL and writing it back, omitting defaults;
  - the request it sends;
  - the five-button page window and the "Showing X to Y" range.
- **`RealTimePriceTable`** (module `RealTimeTable`). The model covers:
  - sort toggling, Clear and Expand;
  - the reset when filters or sort change;
  - the URL encoding, which does not round-trip an empty extension;
  - the request it sends;
  - taking in an answer, and the `hasMore` rule;
  - splitting promotions into the three price columns by type.

Shared pieces:
- `Store` holds the rows of the `tld`, `reg` and `price` tables and first-match lookups.
- `QueryString` models `URLSearchParams`.
- `Text` holds the string helpers and a model of `parseInt`.
- `Ordering` holds a stable insertion sort and top-N over a comparable key.
- `Paging` models `LIMIT`/`OFFSET` and `Math.ceil`.
- `Seqs` holds filter and de-duplication.
- `SortToggle` is the header sort control the two tables share.

Modelling conventions:
- Prices are integer cents and timestamps are integers; only comparisons
  matter.
- The database is a value of type `Store.Db`. Whether it answers at all is
  the boolean parameter `available`: `false` stands for any thrown error
  and leads to each handler's `catch` answer.
- Ids are primary keys: the joins and the `where id` lookups are modelled
  as the first row with that id, which is the only one when ids are unique.
  Lemmas that depend on this say so (`Store.UniqueRegIds`).
- Where the database leaves an order open, the order of the input
  sequences decides. This covers `findFirst`, `findMany` without
  `orderBy`, and ties under `ROW_NUMBER` or `ORDER BY`. Contracts about one
  query promise nothing about the order of tied rows. The paging lemmas
  combine several queries and rely on one tie order shared by all of them;
  "## Left out" says what that leaves open.
- Invalid SQL text (`NaN` for page or limit) and a negative `LIMIT` or
  `OFFSET` are rejected by the database, so they lead to the `catch`
  answer. With a limit of 0, `totalPages` is `Infinity`, `-Infinity` or
  `NaN`, and the model says which. `-Infinity` comes from `?limit=-0` (also
  `-00` or ` -0`): `parseInt` returns negative zero, `Math.min(-0, 20)`
  keeps it, the SQL text still reads `LIMIT 0`, and a positive count divided
  by `-0` is `-Infinity`, so `hasNext` is false. The limit's sign is carried
  beside its value (`CheapestRoute.LimitIsNegativeZero`).

Behaviour of the code worth knowing, as modelled:
- **No page clamping.** The route does not clamp the page: a page below 1
  gives a negative `OFFSET`, which the database rejects.
- **Cheapest-row ties.** Ties for the cheapest row of an extension are left
  to the database.
- **The count query.** The count query skips the registrar join, so an
  extension whose cheapest row names a missing registrar is counted but not
  listed (`CheapestRoute.CountWithMissingRegistrar`).
- **The real-time table and `/api/prices`.** `RealTimePriceTable` sends
  `registrar`, `sortBy`, `limit` and `page`, but `/api/prices` reads only
  `domain` and `extension` and answers without `pagination`. The table is
  therefore modelled against its own reading of an answer
  (`RealTimeTable.ApplyReply`), not against that route.

## Model

| member | source | states |
|---|---|---|
| `Text.ParseInt` | next-pro/src/app/api/cheapest-tlds/route.ts:6-7 | `parseInt` reads a number only from text that holds a digit character; text without one, such as the empty string, reads as `NaN` |
| `Text.ParseIntReads` | next-pro/src/app/api/cheapest-tlds/route.ts:6-7 | `parseInt` skips leading white space, takes one optional sign, and reads the decimal numeral that follows up to the first non-digit, so `' -7'` is -7 and `'3abc'` is 3 |
| `Text.ReadsNegativeZero` | next-pro/src/app/api/cheapest-tlds/route.ts:7 | text that `parseInt` reads as negative zero reads as the value 0 |
| `Text.NegativeZeroReads` | next-pro/src/app/api/cheapest-tlds/route.ts:7 | on white space, an optional sign and a decimal numeral, `parseInt` gives negative zero exactly when the sign is a minus and the numeral is 0 |
| `Text.NatToDecimal` | next-pro/src/components/CheapestTLDTable.tsx:89 | `page.toString()` is all digits, has no leading zero, and denotes the page |
| `Text.ParseDecimal` | next-pro/src/components/CheapestTLDTable.tsx:60-89 | reading back a written page number gives the same number |
| `Text.ParseNumeral` | next-pro/src/components/CheapestTLDTable.tsx:125 | a digit string without a leading zero, such as `'20'`, is read as the number it denotes |
| `Text.NormalizeExtension` | next-pro/src/app/api/prices/route.ts:40 | the looked-up name always starts with a dot; a name that has one is kept, otherwise exactly one dot is put in front |
| `Text.NormalizeIdempotent` | next-pro/src/app/api/tlds/route.ts:37 | normalising twice is normalising once |
| `Text.ContainsIffOccurs` | next-pro/src/app/api/cheapest-tlds/route.ts:20 | the substring test of `LIKE '%x%'` holds exactly when the needle occurs at some position |
| `Text.ToLower` | next-pro/src/app/api/prices/route.ts:83 | the model's lower-casing, which covers ASCII `A`-`Z` only, keeps the length and maps each character on its own |
| `Text.IndexOf` | next-pro/src/app/api/prices/route.ts:83 | the position found holds the character and none occurs before it; none is found exactly when it is absent |
| `Text.RemoveFirstSpace` | next-pro/src/app/api/prices/route.ts:83 | `replace(' ', '')` removes the first space and only it, and is the identity without a space |
| `Text.TrimStart` | next-pro/src/app/api/cheapest-tlds/route.ts:6 | the white space `parseInt` skips is a prefix of the text, and what remains does not start with white space |
| `Text.DigitPrefix` | next-pro/src/app/api/cheapest-tlds/route.ts:6 | `parseInt` reads the longest run of digits and stops at the first non-digit |
| `QueryString.Get` | next-pro/src/app/api/prices/route.ts:6-7 | `get` returns a value exactly when the name is present, and then its value |
| `QueryString.GetOr` | next-pro/src/app/api/cheapest-tlds/route.ts:6-9 | `get(name) \|\| default` gives the stored value when it is non-empty and the default otherwise |
| `QueryString.SetOrDelete` | next-pro/src/components/CheapestTLDTable.tsx:88-110 | `set` stores the value, `delete` removes the name, and every other name is untouched |
| `Seqs.First` | next-pro/src/app/api/tlds/route.ts:35-39 | `findFirst` finds a matching row exactly when one exists, and the earliest one in scan order |
| `Seqs.Filter` | next-pro/src/app/api/tlds/route.ts:52-55 | `where` keeps only matching rows taken from the table |
| `Seqs.FilterCounts` | next-pro/src/app/api/prices/route.ts:56-59 | `where` keeps every copy of a matching row and no copy of any other |
| `Seqs.Distinct` | next-pro/src/app/api/tlds/route.ts:62 | `[...new Set(ids)]` has no duplicates and holds exactly the values of the input |
| `Seqs.NoDuplicatesCard` | next-pro/src/app/api/cheapest-tlds/route.ts:40 | a duplicate-free list has as many elements as its set of values, which links `COUNT(DISTINCT ...)` to a list length |
| `Store.FindTld` | next-pro/src/app/api/cheapest-tlds/route.ts:33 | joining on `tld.id` finds a row with that id, or none when no row has it |
| `Store.FindReg` | next-pro/src/app/api/cheapest-tlds/route.ts:32 | joining on `reg.id` finds a row with that id, or none when no row has it |
| `Store.FindTldByName` | next-pro/src/app/api/tlds/route.ts:35-39 | the extension found has the requested name; none is found exactly when no extension has it |
| `Store.FindRegUnique` | next-pro/src/app/api/prices/route.ts:60-62 | with unique ids, the registrar joined to an id is the one that holds it |
| `Ordering.Sort` | next-pro/src/app/api/cheapest-tlds/route.ts:35 | `ORDER BY` returns a permutation of its input, sorted by the key in the requested direction |
| `Ordering.Insert` | next-pro/src/app/api/cheapest-tlds/route.ts:35 | inserting into a sorted list keeps it sorted and adds exactly one element |
| `Ordering.SortDistinct` | next-pro/src/app/api/cheapest-tlds/route.ts:35 | ordering never makes two rows share an extension |
| `Ordering.TopN` | next-pro/src/app/api/tlds/route.ts:11-16 | `orderBy ... take: n` yields `min(n, size)` rows from the table, sorted, and no row left out comes before a row kept |
| `Ordering.KeyLeTransitive` | next-pro/src/app/api/cheapest-tlds/route.ts:35 | the sort key order (numbers, then text compared lexicographically) is transitive |
| `Ordering.KeyLeTotal` | next-pro/src/app/api/cheapest-tlds/route.ts:35 | any two sort keys are comparable |
| `Paging.Window` | next-pro/src/app/api/cheapest-tlds/route.ts:36 | `LIMIT l OFFSET o` yields at most `l` rows, exactly `min(l, size - o)` of them when `o` is inside, and the rows at positions `o`, `o + 1`, ... |
| `Paging.CeilDiv` | next-pro/src/app/api/cheapest-tlds/route.ts:67 | `Math.ceil(a / b)` is the least number of pages of `b` rows that hold `a` rows |
| `Paging.ConcatPagesPrefix` | next-pro/src/app/api/cheapest-tlds/route.ts:13-36 | cutting one fixed listing into pages: the first `n` pages, one after another, are exactly its first `n * limit` rows, with no gap or overlap |
| `Paging.AllPagesCover` | next-pro/src/app/api/cheapest-tlds/route.ts:13-67 | cutting one fixed listing into pages: pages 1 to `ceil(size / limit)` reproduce the whole listing |
| `CheapestRoute.RankOneFrom` | next-pro/src/app/api/cheapest-tlds/route.ts:28-31 | the positions ranked first are increasing, each ranked first, and every position ranked first is among them |
| `CheapestRoute.Cheapest` | next-pro/src/app/api/cheapest-tlds/route.ts:29 | within a partition, the row found is one no other row of the partition undercuts; none is found exactly when the partition is empty |
| `CheapestRoute.RankOneExists` | next-pro/src/app/api/cheapest-tlds/route.ts:29 | every partition with a row has a row ranked first |
| `CheapestRoute.RankOneStored` | next-pro/src/app/api/cheapest-tlds/route.ts:28-31 | every row with `rn = 1` is a stored row |
| `CheapestRoute.RankOneMinimal` | next-pro/src/app/api/cheapest-tlds/route.ts:29 | no stored row of the same extension has a lower registration price than a row with `rn = 1` |
| `CheapestRoute.RankOneDistinct` | next-pro/src/app/api/cheapest-tlds/route.ts:29 | at most one row per extension has `rn = 1` |
| `CheapestRoute.RankOneCovers` | next-pro/src/app/api/cheapest-tlds/route.ts:29 | every extension that has a stored price row has a row with `rn = 1` |
| `CheapestRoute.RankOneUnique` | next-pro/src/app/api/cheapest-tlds/route.ts:29 | two rows ranked first in the same partition are the same row |
| `CheapestRoute.Select` | next-pro/src/app/api/cheapest-tlds/route.ts:32-34 | the joined rows are exactly the ranked rows whose registrar and extension exist and whose extension passes the filter, with the joined names |
| `CheapestRoute.SelectDistinct` | next-pro/src/app/api/cheapest-tlds/route.ts:32-34 | the joins and the filter never make two rows share an extension |
| `CheapestRoute.ColumnOf` | next-pro/src/app/api/cheapest-tlds/route.ts:35 | `'tld'` orders by extension name and `'registrar'` by registrar name; every other value orders by price |
| `CheapestRoute.Listing` | next-pro/src/app/api/cheapest-tlds/route.ts:25-35 | the full listing before paging is in the requested order |
| `CheapestRoute.ListingSpec` | next-pro/src/app/api/cheapest-tlds/route.ts:25-35 | the listing has one row per extension at most and is sorted; each row is stored and no stored row of its extension is cheaper; it carries its registrar's and extension's names, and the name passes the filter |
| `CheapestRoute.SelectedIds` | next-pro/src/app/api/cheapest-tlds/route.ts:40 | there is one extension id per joined row |
| `CheapestRoute.CountedAreSelected` | next-pro/src/app/api/cheapest-tlds/route.ts:39-48 | when every registrar exists, each extension the count query sees is listed |
| `CheapestRoute.SelectedAreCounted` | next-pro/src/app/api/cheapest-tlds/route.ts:39-48 | each listed extension is one the count query sees |
| `CheapestRoute.SelectedIdsDistinct` | next-pro/src/app/api/cheapest-tlds/route.ts:40 | the listed extension ids are all different |
| `CheapestRoute.SelectedIdsAreCounted` | next-pro/src/app/api/cheapest-tlds/route.ts:39-48 | when every registrar exists, the listed extension ids form exactly the set the count query counts |
| `CheapestRoute.CountMatchesListing` | next-pro/src/app/api/cheapest-tlds/route.ts:39-66 | when every row's registrar exists, `totalCount` equals the number of rows the listing has before paging |
| `CheapestRoute.CountWithMissingRegistrar` | next-pro/src/app/api/cheapest-tlds/route.ts:32-46 | when a registrar is missing, the count and the listing disagree: one extension is counted and none is listed |
| `CheapestRoute.TotalPages` | next-pro/src/app/api/cheapest-tlds/route.ts:67 | with a positive limit, `totalPages` is the least page count that holds every row; with limit 0 it is `NaN` when there are no rows, and otherwise `-Infinity` when the limit is `-0` and `Infinity` when it is `+0` |
| `CheapestRoute.Format` | next-pro/src/app/api/cheapest-tlds/route.ts:55-64 | each row is shown in USD with its id, its three prices and its creation time, and an empty registrar or extension name becomes `'Unknown'` |
| `CheapestRoute.LimitParam` | next-pro/src/app/api/cheapest-tlds/route.ts:7 | the limit used is the parsed number capped at 20 (`Math.min(parseInt(...), 20)`), and is a number exactly when the parameter parses |
| `CheapestRoute.LimitIsNegativeZero` | next-pro/src/app/api/cheapest-tlds/route.ts:7 | the limit is `-0` only when the parameter reads as negative zero, and its value is then 0 |
| `CheapestRoute.FilterParam` | next-pro/src/app/api/cheapest-tlds/route.ts:10-19 | the filter is applied exactly when `tldName` is present and non-empty, and then it is that text |
| `CheapestRoute.Respond` | next-pro/src/app/api/cheapest-tlds/route.ts:13-80 | the rows are the page of the listing that starts at the offset, with at most `limit` rows; `totalCount` comes from the count query; `hasPrev` holds exactly when `page > 1`, and `totalPages` and `hasNext` are derived from the count, the limit and the limit's sign |
| `CheapestRoute.PageRows` | next-pro/src/app/api/cheapest-tlds/route.ts:36-64 | the page shows the formatted rows of the listing from the offset on, one for each row in the window |
| `CheapestRoute.Get` | next-pro/src/app/api/cheapest-tlds/route.ts:4-97 | the answer is 200 exactly when the database answers and the page and limit make valid SQL (numbers, no negative `LIMIT` or `OFFSET`); otherwise it is the fixed error envelope with status 500; a 200 answer is the page at `(page - 1) * limit`; with a limit of 0 and rows counted, `hasNext` holds exactly when the limit is `+0` rather than `-0` |
| `CheapestRoute.MinusZeroLimit` | next-pro/src/app/api/cheapest-tlds/route.ts:7-76 | `?limit=-0` is answered with status 200 and limit 0, and when rows are counted `totalPages` is `-Infinity` and `hasNext` is false |
| `CheapestRoute.ZeroLimit` | next-pro/src/app/api/cheapest-tlds/route.ts:7-76 | `?limit=0` is answered with status 200 and limit 0, and when rows are counted `totalPages` is `Infinity` and `hasNext` is true |
| `CheapestRoute.ReturnedRowsMatchFilter` | next-pro/src/app/api/cheapest-tlds/route.ts:19-58 | every returned extension name contains the requested filter text |
| `CheapestRoute.RespondMatchesFilter` | next-pro/src/app/api/cheapest-tlds/route.ts:20-58 | on any page with a non-empty filter, every shown extension name contains it |
| `CheapestRoute.ListedNameMatches` | next-pro/src/app/api/cheapest-tlds/route.ts:20 | every listed extension name passes the filter |
| `CheapestRoute.DefaultOrder` | next-pro/src/app/api/cheapest-tlds/route.ts:8-35 | without `sortBy` and `sortOrder` the listing is ordered by extension name, ascending |
| `PricesRoute.NewestRegistrars` | next-pro/src/app/api/prices/route.ts:12-17 | the latest registrars are at most 20 taken from the table, newest first, and none left out is newer than one kept |
| `PricesRoute.Slug` | next-pro/src/app/api/prices/route.ts:83 | in the model (ASCII lower-casing), a name without a space is only lower-cased; otherwise the slug is one character shorter |
| `PricesRoute.SlugRemovesOnlyFirstSpace` | next-pro/src/app/api/prices/route.ts:83 | the slug is the lower-cased text before the first space followed by the lower-cased text after it, so later spaces stay |
| `PricesRoute.Format` | next-pro/src/app/api/prices/route.ts:77-84 | each entry carries its registrar's name and the row's three prices, in USD |
| `PricesRoute.PricesOf` | next-pro/src/app/api/prices/route.ts:56-63 | every row looked up belongs to the extension asked for |
| `PricesRoute.FormatAll` | next-pro/src/app/api/prices/route.ts:77-84 | there is one formatted entry per row, in order |
| `PricesRoute.Get` | next-pro/src/app/api/prices/route.ts:4-106 | the registrar list is returned exactly when `domain` or `extension` is missing or empty; a missing extension gives 200 with no prices, and so does a found extension with no rows, exactly then; a found extension with rows gives 200 with its prices exactly when every row's registrar exists, and 500 otherwise; a store failure gives 500 and counts nothing; `totalResults` always counts what is returned; `domain` is the two texts joined |
| `PricesRoute.FoundPricesAreTheTldsRows` | next-pro/src/app/api/prices/route.ts:56-92 | a found extension's answer formats exactly its stored rows, in order and without de-duplication, each with its own registrar |
| `PricesRoute.EntriesAreUsd` | next-pro/src/app/api/prices/route.ts:82 | every returned entry is in USD |
| `TldsRoute.NewestTlds` | next-pro/src/app/api/tlds/route.ts:11-16 | the latest extensions are at most 20 taken from the table, newest first, and none left out is newer than one kept |
| `TldsRoute.Latest` | next-pro/src/app/api/tlds/route.ts:19-31 | the list answer shows the latest extensions as stored and counts them |
| `TldsRoute.PricesNewestFirst` | next-pro/src/app/api/tlds/route.ts:52-59 | the extension's rows are a permutation of its stored rows, all of that extension, newest first |
| `TldsRoute.RowsOfTld` | next-pro/src/app/api/tlds/route.ts:52-55 | reordering rows of one extension keeps them rows of that extension |
| `TldsRoute.RegistrarIds` | next-pro/src/app/api/tlds/route.ts:62 | the registrar ids have no duplicates and are exactly the ids the rows name |
| `TldsRoute.RegistrarsOf` | next-pro/src/app/api/tlds/route.ts:63-67 | the registrars fetched are stored registrars whose id some row names |
| `TldsRoute.NameMap` | next-pro/src/app/api/tlds/route.ts:69 | the map has a key exactly for each fetched registrar's id |
| `TldsRoute.NameMapLookup` | next-pro/src/app/api/tlds/route.ts:69 | with unique ids, the map sends each registrar's id to its name |
| `TldsRoute.FilterUniqueRegIds` | next-pro/src/app/api/tlds/route.ts:63-67 | fetching a subset of registrars keeps their ids unique |
| `TldsRoute.RegistrarName` | next-pro/src/app/api/tlds/route.ts:87 | a mapped non-empty name is shown; an id missing from the map shows `'Unknown'` |
| `TldsRoute.Format` | next-pro/src/app/api/tlds/route.ts:79-89 | each row keeps its ids, prices and time, is in USD, and shows its registrar's name |
| `TldsRoute.FormatAll` | next-pro/src/app/api/tlds/route.ts:79 | there is one formatted entry per row, in order |
| `TldsRoute.Detail` | next-pro/src/app/api/tlds/route.ts:72-97 | the detail answer has as many entries as the extension has stored rows, all of that extension, in USD, newest first, and counts them |
| `TldsRoute.DetailEntries` | next-pro/src/app/api/tlds/route.ts:52-89 | the detail's entries are the extension's stored rows, rearranged and each formatted on its own, once per stored copy |
| `TldsRoute.DetailRegistrars` | next-pro/src/app/api/tlds/route.ts:62-87 | each entry shows the name of the registrar with its id, and `'Unknown'` exactly when no registrar has that id or its name is empty |
| `TldsRoute.Get` | next-pro/src/app/api/tlds/route.ts:4-110 | a store failure gives 500 with nothing; without `name` the answer is the latest list; otherwise the normalised name is looked up, and a missing extension gives 200 with no extension and no prices; `totalResults` always counts what is returned |
| `SortToggle.Flip` | next-pro/src/components/CheapestTLDTable.tsx:156 | flipping always changes the direction |
| `SortToggle.Toggle` | next-pro/src/components/CheapestTLDTable.tsx:154-160 | clicking the current column flips its direction; clicking another column selects it ascending |
| `SortToggle.ToggleChanges` | next-pro/src/components/RealTimePriceTable.tsx:185-192 | a click always changes the sort |
| `SortToggle.ToggleTwice` | next-pro/src/components/CheapestTLDTable.tsx:155-156 | clicking the current column twice restores its direction |
| `SortToggle.Icon` | next-pro/src/components/CheapestTLDTable.tsx:169-172 | another column shows `⇅`; the current one shows `↑` when ascending and `↓` when descending |
| `SortToggle.ParseOrder` | next-pro/src/components/CheapestTLDTable.tsx:73-77 | only `'asc'` and `'desc'` are accepted as a direction |
| `SortToggle.ParseOrderName` | next-pro/src/components/CheapestTLDTable.tsx:73-104 | a written direction reads back as itself |
| `CheapestTable.ParseColumn` | next-pro/src/components/CheapestTLDTable.tsx:67-71 | only `'tld'`, `'registrar'` and `'price'` are accepted as a column, each read as the column of that name |
| `CheapestTable.HandleSort` | next-pro/src/components/CheapestTLDTable.tsx:154-162 | the clicked column becomes current, flipped if it already was and ascending otherwise, and the page goes back to 1 |
| `CheapestTable.SortTwice` | next-pro/src/components/CheapestTLDTable.tsx:154-162 | clicking the current column twice restores the sort and leaves the page at 1 |
| `CheapestTable.HandleClear` | next-pro/src/components/CheapestTLDTable.tsx:174-177 | Clear empties the filter box and goes back to page 1, leaving the sort |
| `CheapestTable.HandlePageChange` | next-pro/src/components/CheapestTLDTable.tsx:164-167 | changing the page changes nothing else |
| `CheapestTable.EventsKeepPageValid` | next-pro/src/components/CheapestTLDTable.tsx:154-177 | sorting, Clear and the debounce never make the page non-positive, and neither does a page change to a positive page |
| `CheapestTable.ReadUrl` | next-pro/src/components/CheapestTLDTable.tsx:53-82 | the URL's page is taken only when it parses to a positive integer, and the column and direction only when they are accepted names; anything else keeps the default; the filter box takes a non-empty `tldName` |
| `CheapestTable.WriteUrl` | next-pro/src/components/CheapestTLDTable.tsx:85-114 | each value is written unless it is the default (page 1, `'tld'`, `'asc'`, no filter), in which case it is removed; other parameters are kept |
| `CheapestTable.UrlRoundTrip` | next-pro/src/components/CheapestTLDTable.tsx:53-114 | writing a state with a positive page and reading it back gives the same page, sort and filter |
| `CheapestTable.SettleAsWritten` | next-pro/src/components/CheapestTLDTable.tsx:44-50 | when the debounce timer fires, the typed filter is applied and the page becomes 1 |
| `CheapestTable.MountAsWritten` | next-pro/src/components/CheapestTLDTable.tsx:44-82 | after mounting, the page is always 1, whatever the URL said |
| `CheapestTable.MountLosesPage` | next-pro/src/components/CheapestTLDTable.tsx:44-82 | `?page=3` is read as page 3 and then reset to page 1, so a page written to the URL does not survive a reload |
| `CheapestTable.Settle` | next-pro/src/components/CheapestTLDTable.tsx:44-50 | intended debounce: the page goes back to 1 only when the applied filter actually changes |
| `CheapestTable.Mount` | next-pro/src/components/CheapestTLDTable.tsx:53-82 | intended mount: the filter read from the URL is applied at once, so the debounce has nothing to change and the page stays positive |
| `CheapestTable.MountRoundTrip` | next-pro/src/components/CheapestTLDTable.tsx:53-114 | with the intended mount, reloading restores every settled state exactly |
| `CheapestTable.RequestParams` | next-pro/src/components/CheapestTLDTable.tsx:121-129 | the request carries the column, the direction, the page, a limit of `'20'`, and `tldName` exactly when the applied filter is non-empty |
| `CheapestTable.RouteReadsRequest` | next-pro/src/components/CheapestTLDTable.tsx:121-131 | the route reads the table's request as that page, 20 rows, that column and direction, and that filter, and accepts it |
| `CheapestTable.PageWindow` | next-pro/src/components/CheapestTLDTable.tsx:324-334 | there are `min(totalPages, 5)` page buttons (none for no pages), numbered consecutively upwards and all within `1..totalPages`; they include the current page whenever it is a real page |
| `CheapestTable.RangeEnd` | next-pro/src/components/CheapestTLDTable.tsx:310 | the last record number shown never exceeds the total |
| `CheapestTable.RangeCountsShownRows` | next-pro/src/components/CheapestTLDTable.tsx:309-310 | when every registrar exists, "Showing X to Y" counts exactly the rows the route returned for that page, and none past the end |
| `RealTimeTable.ParseColumn` | next-pro/src/components/RealTimePriceTable.tsx:97-102 | only the four column names are accepted, each read as the column of that name |
| `RealTimeTable.ReadUrl` | next-pro/src/components/RealTimePriceTable.tsx:78-109 | a missing or empty extension reads as `'com'` and a missing registrar as none; the column and direction are taken only when they are accepted names |
| `RealTimeTable.WriteUrl` | next-pro/src/components/RealTimePriceTable.tsx:112-141 | `extension` is omitted when empty or `'com'`, `registrar` when empty, `sortBy` when `'registrar'` and `sortOrder` when `'asc'`; other parameters are kept |
| `RealTimeTable.UrlRoundTrip` | next-pro/src/components/RealTimePriceTable.tsx:85-137 | filters with a non-empty extension survive a write and a read |
| `RealTimeTable.EmptyExtensionReadsCom` | next-pro/src/components/RealTimePriceTable.tsx:85-118 | an empty extension is written as absent and read back as `'com'`, so it does not round-trip |
| `RealTimeTable.ClearIsLostOnReload` | next-pro/src/components/RealTimePriceTable.tsx:198-201 | after Clear, a reload shows `'com'` and no registrar |
| `RealTimeTable.Mount` | next-pro/src/components/RealTimePriceTable.tsx:78-109 | on mount the boxes, the sort and the heading take what the URL says |
| `RealTimeTable.Apply` | next-pro/src/components/RealTimePriceTable.tsx:72-75 | any change of the applied filters or the sort leaves the expanded mode and clears the rows shown, and nothing else changes; no change leaves everything as it was |
| `RealTimeTable.Settle` | next-pro/src/components/RealTimePriceTable.tsx:56-75 | when the debounce timers fire, the typed filters are applied, and if they differ from the applied ones the table resets; the sort and everything else are kept |
| `RealTimeTable.HandleSort` | next-pro/src/components/RealTimePriceTable.tsx:185-192 | the clicked column becomes current, flipped if it already was and ascending otherwise, and the table always resets; the filters and everything else are kept |
| `RealTimeTable.HandleClear` | next-pro/src/components/RealTimePriceTable.tsx:198-201 | Clear empties both filter boxes and changes nothing else |
| `RealTimeTable.HandleExpand` | next-pro/src/components/RealTimePriceTable.tsx:194-196 | Expand asks for every row and changes nothing else |
| `RealTimeTable.TogglePromo` | next-pro/src/components/RealTimePriceTable.tsx:209-211 | clicking a promotion opens its details unless they are already open, in which case they close |
| `RealTimeTable.RequestParams` | next-pro/src/components/RealTimePriceTable.tsx:147-161 | `registrar` and `extension` are sent exactly when non-empty; the page is always `'1'`; the limit is `'20'`, or `'10000'` once expanded |
| `RealTimeTable.ApplyReply` | next-pro/src/components/RealTimePriceTable.tsx:166-175 | `hasMore` holds exactly when the answer has a total above 20; the total defaults to 0 and the rows to none, and nothing else changes; a failure only clears the rows |
| `RealTimeTable.ExpandOffered` | next-pro/src/components/RealTimePriceTable.tsx:420 | the Show All button appears exactly when the total exceeds 20 and the table is not expanded |
| `RealTimeTable.PromosOfKind` | next-pro/src/components/RealTimePriceTable.tsx:296-376 | each column shows only promotions of its type taken from the row's list |
| `RealTimeTable.PromoColumnCount` | next-pro/src/components/RealTimePriceTable.tsx:296-376 | each column shows every promotion of its type as often as it is listed, and nothing else |
| `RealTimeTable.PromoInOneColumn` | next-pro/src/components/RealTimePriceTable.tsx:296-376 | a listed promotion appears under exactly the column of its own type, and under none of the three when its type is not 0, 1 or 2 |
| `RealTimeTable.PromoColumnsPartition` | next-pro/src/components/RealTimePriceTable.tsx:296-376 | the three columns together show exactly the promotions of types 0, 1 and 2 |

## Left out

- JSX rendering, styling, `window.scrollTo`, `window.history.replaceState`
  and the URL's path are left out. Only the state the URL carries is
  modelled.
- Timers are left out. The 300 ms debounce is an explicit `Settle` event
  (`CheapestTable.Settle`, `RealTimeTable.Settle`), and the `fetch` calls
  are explicit request/answer values.
- Prisma, SQL execution and `Promise.all` are left out. The tables are
  sequences. The `tldName` text spliced into the SQL is treated as a plain
  substring. SQL injection, `LIKE` wildcards inside the filter, and
  database collation or case rules are not modelled. Text ordering is
  plain character-code order.
- Number conversion of `Decimal` and `BigInt` values is left out; prices
  are integer cents and ids are integers. This includes the `BigInt` ids
  in the raw registrar rows of the `/api/prices` registrar branch, whose
  serialisation depends on `next-pro/src/lib/prisma.ts`, which is not part
  of this model. `toFixed` formatting is left out for the same reason.
- The `message` and `error` texts of the answers are left out. A message
  is modelled as which outcome it reports, and an error detail is not
  modelled.
- `Text.ParseInt` does not model `parseInt`'s loss of precision above 2^53,
  because page numbers never get there. Its contract says only that a
  number needs a digit. The value read is stated for decimal text
  (`Text.ParseIntReads`, `Text.ParseNumeral`) but not for the `0x` base-16
  form, which the function computes without a stated property.
- `CheapestRoute.Get` treats every non-negative `LIMIT`/`OFFSET` as valid
  SQL. The database's 64-bit integer bound is not modelled: an `OFFSET`
  above 2^63 - 1 (a page above about 4.6e17 with limit 20) is rejected by
  the database, giving 500 where the model gives 200.
- `Text.ToLower` lowers ASCII `A`-`Z` only. JavaScript `toLowerCase()`
  lowers every Unicode letter, can change the length (`'İ'` becomes two
  characters) and depends on context (final sigma). The model does not
  cover Unicode case mapping.
- `PricesRoute.Slug` inherits the ASCII-only lower-casing: for a registrar
  named `Ärzte Domains` the code's slug is `ärztedomains` and the model's
  is `Ärztedomains`. Its length statement holds for the model, not for
  names with length-changing letters.
- `Paging.AllPagesCover` holds for one fixed listing. The route runs a
  separate query per page, and when `sortBy` is `registrar` or `price` the
  `ORDER BY` key has ties (many extensions share a registrar or a price).
  The database may order tied rows differently in each query, and
  `ROW_NUMBER` may pick a different cheapest row, so pages of the real
  route can repeat or skip an extension. The model gives every query the
  same tie order and does not cover this. The lemma's page count is
  `ceil(size / limit)`; it equals the route's `totalPages` only when
  every registrar exists (`CheapestRoute.CountMatchesListing`).
- `Paging.ConcatPagesPrefix` is likewise about one fixed listing, and does
  not cover tie order differing between page queries.
- `QueryString.Get` sees one value per name. Repeated names
  (`?page=2&page=3`) are not modelled; `get` would return the first value,
  and `set`/`delete` act on every copy.
- `CheapestTable.PageWindow` takes the page count as an integer. The
  route's `Infinity`, `-Infinity` and `NaN` only arise with limit 0, and the table
  always asks for 20 (`CheapestTable.RouteReadsRequest`).
- The condition for drawing the pagination bar
  (`totalPages > 1 || totalCount > 0`) and the empty-table messages are
  left out. They are rendering.
- `RealTimeTable.ApplyReply` takes the answer as already parsed JSON. It
  is not derived from `PricesRoute.Get`, because that route's answer has
  no `pagination` and a different row shape.
- `RealTimeTable.ApplyReply` and `CheapestTable` do not model answers that
  arrive out of order. Each answer applies to the state that asked for it.
- The seed script and the other components (`TldPriceTable`,
  `PriceTable`, `DomainSearch`, `TldPriceFilter`) are not part of this
  model.

## Findings

| source | as written | input that shows it | evidently intended | confidence | as-written member | corrected member |
|---|---|---|---|---|---|---|
| next-pro/src/components/CheapestTLDTable.tsx:44-65 | the debounce effect also runs on mount and calls `setPage(1)` 300 ms later, after the URL effect has set the page from `?page=N` | opening the table at `?page=3` shows page 1, and the URL is rewritten without `page` | a page read from the URL survives the mount; the page resets only when the filter text actually changes | not executed; medium | `CheapestTable.MountLosesPage` | `CheapestTable.MountRoundTrip` |
