# Affiliate crawlers and catalog feed, modelled in Dafny

The repository is a set of Python scripts for an affiliate store. Two crawlers
find product pages through search engines. An ingestion script turns a CSV
feed of affiliate products into WooCommerce products. A migration script
pushes a WooCommerce-style CSV to a store. This project models the
deterministic part of those scripts and proves what they promise:

- `py_str.dfy` (module `PyStr`): the Python string operations the scripts
  use. This covers `str.strip` over Python's exact `isspace` set, `split`,
  `in`, `startswith`/`endswith`, ASCII `lower`/`upper`/`capitalize`, and the
  "split on commas, strip, drop blanks" list idiom. It also holds the CSV
  row type and `row.get` / `or`.
- `price_rx.dfy` (module `PriceRx`): the two `PRICE_RX` regular expressions.
  Each is a greedy hand-written scanner next to a declarative grammar of
  the strings it matches. They are proved sound, complete and
  longest-at-position, and `re.search` is proved to return the leftmost
  match.
- `crawler.dfy` (module `Crawler`, crawler.py): the URL gate `allowed`, link
  collection and fragment de-duplication in `search_links`, `extract_meta`
  with the AttributeError its title lookup can raise, and the capped run
  loop `crawl_once`, which an exception in any link it reaches ends.
- `crawler_v2.dfy` (module `CrawlerV2`, crawler_v2.py): `norm_space`,
  `ok_url`, `extract_price`, `search_once`, the title and price precedence
  of `fetch_product_page`, and the assembly loop `crawl_queries`.
- `ingest.dfy` (module `Ingest`, scripts/ingest.py): `parse_price`, with
  `float()` as an exact decimal parser; the `sku` and `button_text`
  properties; `read_feed`'s row filter and field fallbacks; and the payload
  and write decision of `ensure_product`.
- `migrate_wc.dfy` (module `MigrateWc`, migrate_wc.py): the name lists of
  `ensure_categories`/`ensure_tags`, the reuse-or-create decision of
  `ensure_category`/`ensure_tag`, `parse_images`, `html.escape` and
  `fallback_description`, and the payload and write decision of `upsert`.

Everything outside the program is a function argument or an input sequence:

- the network;
- the HTML parser's lookups;
- `urlparse`, which may raise ValueError, `slugify`, MD5 and `html.unescape`;
- the clock, the shuffle and the random engine choice;
- the store's answers.

Every operation is therefore stated for all possible answers of those
functions. Loops that build lists in the source (`search_links`,
`crawl_once`, `search_once`, `crawl_queries`, `read_feed`) are methods with
loop invariants. Each is proved equal to a recursive specification
function, and lemmas state the properties of that function.

Some behaviours the code shows are modelled as written:

- In crawler_v2.py the number part of `PRICE_RX` is
  `\d{1,3}(?:[.,]\d{3})*|\d+`. The first alternative succeeds whenever a
  digit follows the prefix, so the `\d+` alternative never decides a
  match. "R$ 1234" yields "R$ 123" (`CrawlerV2.ExtractPriceFourDigits`).
- In `fetch_product_page`, `A or B if C else ""` parses as
  `(A or B) if C else ""`, so og:title is read only when a `<title>` exists.
  `select_one("h1") or select_one("h2")` tests whether the element exists,
  not its text, so the h2 is used only when there is no h1 at all.
- The `sku` prefix is "AFF" only when `merchant_domain` is empty. A domain
  starting with "." gives an empty prefix.
- `read_feed` filters on the raw `affiliate_url` cell. A cell of blanks
  passes and becomes "" after stripping.
- In `read_feed`, `(a or b or "BRL").strip()` strips after the fallback. A
  currency cell of blanks therefore gives "", not "BRL". The same holds for
  the button text in `upsert`.
- In `extract_meta`, `soup.title.string.strip()` raises AttributeError when
  the `<title>` holds no single string, for instance when it is empty.
  Nothing catches it, so without a truthy og:title such a page ends
  `crawl_once` (`Crawler.TitleWithoutStringAbortsRun`).
- `ok_url` tests the denylist on the whole lower-cased URL. The token
  "enter" therefore rejects every URL containing "center".

## Model

| member | source | states |
|---|---|---|
| Crawler.AllowedIff | crawler.py:58-64 | `allowed` holds exactly when no denylisted token occurs in the lower-cased path and the lower-cased host ends with one of the allowed domains |
| Crawler.AllowedHostPrefix | crawler.py:64 | the host test is a plain suffix test: putting anything in front of an allowed host keeps it allowed, so `xamazon.com.br` passes |
| Crawler.AllowedExampleHost | crawler.py:58-64 | amazon.com.br with path /dp is allowed |
| Crawler.AllowedExamplePrefixed | crawler.py:64 | any prefix of amazon.com.br is allowed with path /dp |
| Crawler.AllowedExampleLogin | crawler.py:61-63 | a path holding LOGIN in upper case is refused whatever the host |
| Crawler.HttpIsNotRelative | crawler.py:76-79 | an href starting with "http" never starts with "/", so the relative-link skip never drops a collected link |
| Crawler.PageLinksSpec | crawler.py:74-79 | a page contributes exactly its hrefs starting with "http"; none starts with "/" |
| Crawler.CollectedSpec | crawler.py:69-79 | the collected links over all result pages are http links, and every http href of a fetched page is collected; failed pages contribute nothing |
| Crawler.DedupMembers | crawler.py:81-87 | de-duplication keeps exactly the links it was given |
| Crawler.DedupDistinct | crawler.py:81-87 | the de-duplicated list holds no link twice |
| Crawler.DedupFirstSeenOrder | crawler.py:81-87 | the de-duplicated list is in order of each link's first occurrence |
| Crawler.SearchResultSpec | crawler.py:66-88 | `search_links` returns each fragment-stripped collected link exactly once, none holding '#', in first-seen order, and nothing else |
| Crawler.CollectLinks | crawler.py:69-79 | the collecting loop builds the collected links of the result pages |
| Crawler.DedupFragments | crawler.py:80-88 | the de-duplicating loop with its seen set returns the de-duplication of the fragment-stripped links |
| Crawler.SearchLinks | crawler.py:66-88 | the method returns the search result of its pages |
| Crawler.PriceTextSpec | crawler.py:50-54 | an empty page has no price text; a price text starts with R$ (either case of R), is a match of the pattern and occurs in the page; when there is none, no substring of the page matches |
| Crawler.ExtractMetaSpec | crawler.py:39-56 | `extract_meta` raises exactly when there is no truthy og:title and the `<title>` has no string; otherwise a truthy og:title wins, else the stripped `<title>` string, and the title is truthy exactly when one of them has a non-whitespace character; image, description and price text pass through |
| Crawler.LinkAbortIff | crawler.py:100-110 | a link ends the run exactly when `urlparse` raises on it, or it is allowed, fetched with a non-empty body, and its page has a `<title>` without a string and no truthy og:title |
| Crawler.LinkItem | crawler.py:103-121 | one link raises, is skipped, or yields its item timestamped by the clock at the current count, as its outcome says |
| Crawler.CrawlQuery | crawler.py:100-124 | the inner loop raises exactly when a link it reaches before the cap raises; otherwise it extends the emitted items by the query's items, stamped, with the whole run capped at 20 |
| Crawler.CrawlOnce | crawler.py:93-125 | for any shuffled order of the queries, the run raises exactly when a link it reaches raises; otherwise it returns the first 20 items its queries yield, each stamped with its index; at most 20, each with a title and a price text or an image |
| Crawler.RunRaisesIff | crawler.py:93-125 | a run raises exactly when some link raises while the links before it, over all queries, yield fewer than 20 items |
| Crawler.TitleWithoutStringAbortsRun | crawler.py:93-110 | a first fetched page whose `<title>` has no string and which has no truthy og:title ends the whole run, whatever the other links hold |
| Crawler.RunItemsFrom | crawler.py:97-110 | every item comes from an allowed link of some query's search result whose fetch succeeded with a non-empty body, with the final URL and the query recorded |
| Crawler.RunItemsEmittable | crawler.py:109-110 | every item of a run has a title and a price text or an image |
| PriceRx.SpaceEnd | crawler.py:24 | `\s*` takes the whole whitespace run and stops at the first non-space |
| PriceRx.GroupsCentsSound | crawler.py:24 | the greedy scan of thousands groups and cents matches the grammar of those parts |
| PriceRx.GroupsCentsLongest | crawler.py:24 | no grammatical groups-and-cents run from the same point is longer than the greedy one |
| PriceRx.NumberEndSound | crawler.py:24 | a number the scanner finds is an amount of the grammar |
| PriceRx.NumberEndComplete | crawler.py:24 | wherever an amount starts, the scanner finds a number at least as long |
| PriceRx.MatchEnd1Sound | crawler.py:24 | a match of crawler.py's pattern found at a position is a token of its grammar |
| PriceRx.MatchEnd1Complete | crawler.py:24 | wherever a token starts, crawler.py's pattern matches there, with a match at least as long |
| PriceRx.MatchEnd2Sound | crawler_v2.py:28-31 | a match of crawler_v2.py's pattern found at a position is a token of its grammar, through the first number alternative |
| PriceRx.MatchEnd2Complete | crawler_v2.py:28-31 | wherever a token of either alternative starts, crawler_v2.py's pattern matches there, and no first-alternative token from there is longer |
| PriceRx.SearchFrom | crawler_v2.py:47 | the search returns the first position with a match, and no match at any position when there is none |
| PriceRx.Search1Spec | crawler.py:52 | `PRICE_RX.search` returns a token at the leftmost position where one exists, the longest there; when it finds none, the text holds no token |
| PriceRx.Search2Spec | crawler_v2.py:47 | `PRICE_RX.search` returns a token at the leftmost position where one exists, longest among first-alternative tokens; when it finds none, the text holds no token |
| CrawlerV2.CollapseShape | crawler_v2.py:34 | replacing whitespace runs by one space leaves no two adjacent whitespace characters, keeps every other character in order, and keeps a non-whitespace first character |
| CrawlerV2.CollapseWord | crawler_v2.py:34 | a run without whitespace passes through the substitution unchanged |
| CrawlerV2.CollapseRun | crawler_v2.py:34 | a maximal whitespace run of any length and any whitespace characters becomes exactly one space |
| CrawlerV2.CollapseWords | crawler_v2.py:34 | from a non-whitespace start, the substitution gives the text's words joined by single spaces, plus one space exactly when the text ends in whitespace |
| CrawlerV2.CollapseSingleSpaced | crawler_v2.py:34 | already single-spaced text is unchanged by the substitution |
| CrawlerV2.NormSpace | crawler_v2.py:33-34 | `norm_space` has no leading or trailing whitespace, never two whitespace characters in a row, and keeps every other character in order |
| CrawlerV2.NormSpaceWords | crawler_v2.py:33-34 | `norm_space(s)` equals `" ".join(s.split())`: the whitespace-separated words of the text, in order, one space apart; None reads as "" |
| CrawlerV2.NormSpaceEmptyIff | crawler_v2.py:33-34 | `norm_space` gives "" exactly for None and all-whitespace text |
| CrawlerV2.NormSpaceIdempotent | crawler_v2.py:33-34 | applying `norm_space` twice equals applying it once |
| CrawlerV2.OkUrl | crawler_v2.py:36-44 | `ok_url` holds exactly for a non-empty URL of at most 512 characters with no denylisted token anywhere in its lower-cased form, and, when domains are configured, containing one of them |
| CrawlerV2.OkUrlRejectsCenter | crawler_v2.py:23-26 | a URL containing "center" is refused, because it contains the token "enter" |
| CrawlerV2.OkUrlDomainsNarrow | crawler_v2.py:42-44 | configuring domains only ever refuses more URLs than the empty list does |
| CrawlerV2.ExtractPriceSpec | crawler_v2.py:46-48 | a found price starts with R$, US$, € or £, is a token of the pattern, holds a digit and occurs in the text; when none is found no substring is a token |
| CrawlerV2.ExtractPriceNoneIff | crawler_v2.py:46-48 | `extract_price` returns None exactly when no substring of the text is a money amount |
| CrawlerV2.ExtractPriceFourDigits | crawler_v2.py:28-31 | "R$ 1234…" yields "R$ 123": the three-digit alternative wins |
| CrawlerV2.OkHitsSpec | crawler_v2.py:66-71 | the uncapped hits are exactly the anchors whose href passes `ok_url`, with their normalised text |
| CrawlerV2.OkHitsUrls | crawler_v2.py:69-71 | every hit's URL passes `ok_url` |
| CrawlerV2.SearchHitsSpec | crawler_v2.py:50-74 | `search_once` fails exactly when its request raises; otherwise it returns at most 20 hits, each URL passing `ok_url`, each hit an accepted anchor with its normalised text, taken from the Bing selectors whenever they select anything and from the DuckDuckGo ones only otherwise |
| CrawlerV2.SearchOnce | crawler_v2.py:50-74 | the loop with its break at 20 returns the first 20 accepted hits in selector order |
| CrawlerV2.PageTitle | crawler_v2.py:84-90 | a page title, when present, is non-empty, stripped and single-spaced |
| CrawlerV2.PageTitlePrecedence | crawler_v2.py:84-90 | og:title counts only when a `<title>` exists, and a non-empty og:title beats the `<title>` string; a non-empty head title is the title; an empty one falls to the h1 text, and to the h2 text only when there is no h1; the title is None exactly when all these are empty |
| CrawlerV2.PagePriceSpec | crawler_v2.py:92-97 | a non-empty price meta content is the price, as written; otherwise a found price is a money amount with a currency prefix that occurs in the page text; the price is None exactly when there is no such meta content and no substring of the text is a money amount |
| CrawlerV2.FetchProductPage | crawler_v2.py:76-103 | the page record keeps the URL and is a failure exactly when the request raised |
| CrawlerV2.QueryEntriesSpec | crawler_v2.py:109-113 | one entry per hit, in order, each the fetched page tagged with the query and the hit title, failures included |
| CrawlerV2.GatheredFailsIff | crawler_v2.py:107-108 | gathering the per-query outcomes fails exactly when one query failed |
| CrawlerV2.CrawledFailsIff | crawler_v2.py:105-116 | `crawl_queries` raises exactly when the search of some query raises |
| CrawlerV2.AppendEntries | crawler_v2.py:109-113 | the inner loop keeps what was collected and appends exactly `QueryEntries` of the hits: one entry per hit, in hit order, the fetched page tagged with the query and the hit title |
| CrawlerV2.CrawlQueries | crawler_v2.py:105-116 | the nested loops return the concatenation of every query's entries, or the first search error |
| Ingest.ParseFloatDecStr | scripts/ingest.py:97-98 | `float()` reads back the exact value of any decimal spelled out as a sign, digits, the mark 'e' and an exponent |
| Ingest.RemoveSpec | scripts/ingest.py:89 | `replace(c, "")` leaves no `c` behind and leaves text without `c` unchanged |
| Ingest.ParsePriceBlank | scripts/ingest.py:86-91 | None and text that is blank once U+00A0 is removed give 0 |
| Ingest.ParsePricePoint | scripts/ingest.py:92-98 | digits, a point and digits are read as that decimal |
| Ingest.ParsePriceComma | scripts/ingest.py:93-98 | with a comma, the points are dropped and the comma becomes the decimal point |
| Ingest.CommaToPointAppend | scripts/ingest.py:93-96 | the separator rewrite works character by character: '.' is deleted, ',' becomes '.', the rest stays |
| Ingest.ParsePriceExampleComma | scripts/ingest.py:92-98 | "849,00" gives 849 |
| Ingest.ParsePriceExampleGrouped | scripts/ingest.py:92-98 | "1.234,56" gives 1234.56 |
| Ingest.ParsePriceExamplePoint | scripts/ingest.py:92-98 | "849.00" gives 849 |
| Ingest.ParsePriceExampleThousands | scripts/ingest.py:92-98 | "1.234" gives 1.234 |
| Ingest.SkuPartsSpec | scripts/ingest.py:62-66 | the SKU's middle part holds no point, its last part at most 40 characters, and neither a lower-case letter |
| Ingest.SkuSpec | scripts/ingest.py:62-66 | every SKU starts "AFF-" and has no lower-case letter; without a domain it starts "AFF-AFF-", without a name it ends "-SEM_NOME" |
| Ingest.SkuFirstLabelOnly | scripts/ingest.py:64 | two products with the same name whose domains share the first label get the same SKU |
| Ingest.ButtonTextSpec | scripts/ingest.py:68-71 | the label is "Comprar na " and the capitalised first label of the domain, or "Comprar na loja" without a domain |
| Ingest.ToProductFallbacks | scripts/ingest.py:105-118 | the currency falls back from currency to moeda to BRL and the domain from merchant_domain to the Portuguese column; only a non-empty cell counts |
| Ingest.ToProductStripped | scripts/ingest.py:105-118 | every text field of a read product is stripped; a missing price column gives 0 |
| Ingest.FeedProductsSpec | scripts/ingest.py:82-119 | the feed's products are exactly the kept rows' products, in row order, one per kept row; reading splits over concatenated rows |
| Ingest.ReadFeed | scripts/ingest.py:74-120 | the reading loop returns the feed's products, or nothing when the file is missing |
| Ingest.PriceOrSpec | scripts/ingest.py:143-144 | the first non-zero of the two prices is sent, and none when both are zero |
| Ingest.BasePayloadSpec | scripts/ingest.py:140-154 | the payload is an external product; the description defaults to the name; images are empty exactly without an image URL; regular price prefers the old price and sale price the price |
| Ingest.TagNamesSpec | scripts/ingest.py:157-160 | the tag names are non-blank, stripped and comma-free |
| Ingest.ProductWriteSpec | scripts/ingest.py:132-175 | a failed lookup writes nothing, a listed product is updated without a SKU, otherwise it is created with its SKU; tags are sent exactly when some tag name remains |
| Ingest.UpdateCreateAgree | scripts/ingest.py:162-170 | update and create send the same data apart from the SKU |
| Ingest.EnsureProduct | scripts/ingest.py:132-175 | the method, which adds tags and SKU to its data step by step, makes the write the decision describes for the lookup of the product's SKU |
| MigrateWc.NamesSpec | migrate_wc.py:28-43 | the category list is never empty and defaults to Afiliados; the tag list has no default; every name is non-blank, stripped and comma-free |
| MigrateWc.CellNamesAppend | migrate_wc.py:29 | names on either side of a comma are listed in cell order |
| MigrateWc.EnsureTermSpec | migrate_wc.py:21-26 | the first search hit is reused exactly when its name equals the requested one up to case; otherwise a term is created |
| MigrateWc.EnsureTermsSpec | migrate_wc.py:21-32 | one decision per name, in order: the first search hit's id is reused exactly when its name equals the name up to case; otherwise a term of that name is created |
| MigrateWc.ParseImagesSpec | migrate_wc.py:45-47 | one image per non-blank comma-separated piece, stripped, in order; None and "" give none |
| MigrateWc.ParseImagesAppend | migrate_wc.py:45-47 | images on either side of a comma come in cell order |
| MigrateWc.HtmlEscapeRoundTrip | migrate_wc.py:51 | decoding the five references `html.escape` writes gives the name back |
| MigrateWc.HtmlEscapeSafe | migrate_wc.py:51 | the escaped name holds no angle bracket and no quote |
| MigrateWc.FallbackDescriptionSpec | migrate_wc.py:49-52 | the fallback starts with "<p>" and the escaped name, and ends with the content-egg shortcode holding the raw name |
| MigrateWc.UpsertSkipIff | migrate_wc.py:54-57 | a row is skipped exactly when its Name/Nome is blank; it is updated exactly when the name search finds a product |
| MigrateWc.RowPayloadSpec | migrate_wc.py:72-85 | the product is external exactly when it has an external URL, which is non-empty and stripped, and only then carries a button text (default Comprar); a regular price is non-empty; it is always visible and published, in at least one category |
| MigrateWc.RowPayloadCells | migrate_wc.py:55-85 | the payload's name is the row's name; it is external exactly when the External URL (else Link) cell is non-blank and then carries that cell stripped; the regular price is the stripped price cell, None exactly when that cell is missing or blank; every category it creates is a well-formed name |
| MigrateWc.RowPayloadDescriptions | migrate_wc.py:67-70 | an empty description becomes the fallback description and an empty short description the fixed template |
| MigrateWc.Upsert | migrate_wc.py:54-93 | the method, which reassigns the descriptions step by step, makes the write the decision describes |

## Left out

- HTTP of every kind is not modelled: `http_get`, the requests of `search_once` and `fetch_product_page`, `wc_request` and `api`. The answers are function arguments, and a request that raises is a `Raised` response.
- HTML parsing and CSS selectors are not modelled. Their results are inputs: anchor lists, the meta, title and heading lookups, and page text.
- `urlparse` is not modelled. It is a function argument that gives the netloc and the path, or None for the ValueError it raises on a malformed URL.
- Randomness, sleeps and the clock are not modelled. The shuffled query order, the engine choice and the timestamps are parameters.
- `hashlib.md5`, `slugify`, `html.unescape` and `csv.DictReader` are not modelled. The first three are function arguments; a CSV row is a map, and short rows whose cells are None are not covered.
- `print` and the logging calls are not modelled, and neither is the `SystemExit` of `api`.
- Module-level configuration is not modelled: the environment variables and the exits in scripts/ingest.py and migrate_wc.py.
- `run` of migrate_wc.py and `main` of scripts/ingest.py and the crawlers are not modelled. They only loop over the modelled operations.
- crawler_v3.py, scrapper_automatico.py and app.py are not part of this model.
- Ingest.BasePayload: prices are kept as numbers. The `:.2f` formatting is not modelled, so its rounding is not captured.
- Ingest.ParseFloat: `float()` is modelled for ASCII decimal literals (sign, digits, point, exponent). inf, nan, underscores and non-ASCII digits are read as rejected, so they give 0.
- PyStr.Lower: lower and upper case, `capitalize` and `\d` are modelled on ASCII only; Python also maps other Unicode letters and digits.
- MigrateWc.Upsert: whatever the store does between two calls is not modelled; the store's answers are fixed functions.
