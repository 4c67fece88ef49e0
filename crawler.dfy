/** crawler.py: the first crawler. A URL gate over the merchant allowlist,
    link collection and de-duplication over search-engine result pages, the
    money pattern searched over a fetched page, and the run loop that emits at
    most `MaxPerRun` product items.

    The network, the HTML parser, `urlparse`, MD5, `slugify` and the clock are
    not modelled: they are the fields of a `World` of functions the run
    receives, so every call of them gives the same answer for the same input.
    `urlparse` may answer None, for the ValueError it raises on a malformed
    URL; that exception, and the AttributeError of a `<title>` without a
    string, end the run (`Attempt.Raises`). */
module Crawler {
  import opened PyStr
  import PriceRx

  const MaxPerRun: nat := 20

  const DomainsOk: seq<string> := [
    "amazon.com.br", "mercadolivre.com.br", "shopee.com.br", "shein.com",
    "aliexpress.com", "magazineluiza.com.br", "americanas.com.br", "submarino.com.br",
    "kabum.com.br", "casasbahia.com.br"
  ]

  const BadPath: seq<string> := [
    "login", "cart", "checkout", "track", "seller", "support", "help", "mailto:",
    "account", "orders", "wishlist", "entrar", "minha-conta"
  ]

  const Queries: seq<string> := [
    "iphone 14 128gb preço", "notebook i5 16gb ssd 512",
    "smart tv 50 4k", "ssd nvme 1tb", "roteador wi-fi 6 ax3000"
  ]

  // ---------------------------------------------------------------------
  // The URL gate.

  /** `allowed(url)`, given the netloc and path `urlparse` splits the URL into:
      no denylisted token in the lower-cased path, and a lower-cased host that
      ends with an allowlisted domain (a plain suffix, not a label boundary). */
  function Allowed(netloc: string, path: string): bool
  {
    if AnyContained(BadPath, Lower(path)) then false
    else AnySuffix(DomainsOk, Lower(netloc))
  }

  /** The gate in words: no denylisted token occurs in the lower-cased path,
      and the lower-cased host ends with one of the allowlisted domains. */
  lemma AllowedIff(netloc: string, path: string)
    ensures Allowed(netloc, path) <==>
      (forall k :: 0 <= k < |BadPath| ==> !Contains(Lower(path), BadPath[k]))
      && (exists k :: 0 <= k < |DomainsOk| && EndsWith(Lower(netloc), DomainsOk[k]))
  {
  }

  lemma LowerAppend(a: string, b: string)
    ensures Lower(a + b) == Lower(a) + Lower(b)
  {
  }

  /** Putting anything in front of an allowed host keeps it allowed: subdomains pass,
      and so do hosts that merely end with the domain's letters. */
  lemma AllowedHostPrefix(prefix: string, netloc: string, path: string)
    requires Allowed(netloc, path)
    ensures Allowed(prefix + netloc, path)
  {
    AllowedIff(netloc, path);
    AllowedIff(prefix + netloc, path);
    var k :| 0 <= k < |DomainsOk| && EndsWith(Lower(netloc), DomainsOk[k]);
    LowerAppend(prefix, netloc);
    var h := Lower(prefix + netloc);
    assert h[|h| - |DomainsOk[k]|..] == Lower(netloc)[|Lower(netloc)| - |DomainsOk[k]|..];
  }

  /** A short path holds none of the denylisted tokens, all of which are longer. */
  lemma ShortPathClean(path: string)
    requires |path| < 4
    ensures !AnyContained(BadPath, Lower(path))
  {
    forall k | 0 <= k < |BadPath| ensures !Contains(Lower(path), BadPath[k]) {
      assert |BadPath[k]| >= 4;
    }
  }

  lemma AllowedExampleHost()
    ensures Allowed("amazon.com.br", "/dp")
  {
    var host := "amazon.com.br";
    assert forall i | 0 <= i < |host| :: !('A' <= host[i] <= 'Z');
    assert Lower(host) == host;
    assert EndsWith(Lower(host), DomainsOk[0]);
    ShortPathClean("/dp");
    AllowedIff(host, "/dp");
  }

  /** "www.amazon.com.br" passes the gate, and so does "xamazon.com.br". */
  lemma AllowedExamplePrefixed(prefix: string)
    ensures Allowed(prefix + "amazon.com.br", "/dp")
  {
    AllowedExampleHost();
    AllowedHostPrefix(prefix, "amazon.com.br", "/dp");
  }

  lemma AllowedExampleLogin()
    ensures !Allowed("www.amazon.com.br", "/LOGIN")
  {
    assert Lower("/LOGIN") == "/login";
    assert OccursAt("/login", BadPath[0], 1);
    AllowedIff("www.amazon.com.br", "/LOGIN");
  }

  // ---------------------------------------------------------------------
  // search_links: collect absolute links, strip fragments, drop repeats.

  /** The hrefs kept from one result page, in document order: relative ones
      ("/...") are skipped and only those starting with "http" are kept. */
  function PageLinks(hrefs: seq<string>): seq<string>
  {
    if hrefs == [] then []
    else
      var h := hrefs[|hrefs| - 1];
      PageLinks(hrefs[..|hrefs| - 1]) + (if !StartsWith(h, "/") && StartsWith(h, "http") then [h] else [])
  }

  /** Links gathered over the engines' result pages in engine order;
      `None` stands for a page whose fetch failed or came back empty. */
  function Collected(pages: seq<Option<seq<string>>>): seq<string>
  {
    if pages == [] then []
    else
      var last := pages[|pages| - 1];
      Collected(pages[..|pages| - 1]) + (if last.Some? then PageLinks(last.value) else [])
  }

  /** `l.split("#")[0]` of every link. */
  function Defragment(links: seq<string>): seq<string>
  {
    seq(|links|, i requires 0 <= i < |links| => Head(links[i], '#'))
  }

  /** The first occurrence of each element, in order of first occurrence. */
  function Dedup(xs: seq<string>): seq<string>
  {
    if xs == [] then []
    else
      var r := Dedup(xs[..|xs| - 1]);
      var x := xs[|xs| - 1];
      if x in r then r else r + [x]
  }

  /** What `search_links` returns for the given engine result pages. */
  function SearchResult(pages: seq<Option<seq<string>>>): seq<string>
  {
    Dedup(Defragment(Collected(pages)))
  }

  /** `search_links(query)`, with the result pages of the two engines (in
      `SEARCH_ENGINES` order) given as input: the collecting loop, then the
      de-duplicating loop. */
  method SearchLinks(pages: seq<Option<seq<string>>>) returns (out: seq<string>)
    ensures out == SearchResult(pages)
  {
    var links := CollectLinks(pages);
    out := DedupFragments(links);
  }

  /** The first loop of `search_links`: append every absolute href of every fetched page. */
  method CollectLinks(pages: seq<Option<seq<string>>>) returns (links: seq<string>)
    ensures links == Collected(pages)
  {
    links := [];
    for e := 0 to |pages|
      invariant links == Collected(pages[..e])
    {
      assert pages[..e + 1][..e] == pages[..e];
      if pages[e].None? {
        continue;
      }
      var hrefs := pages[e].value;
      for k := 0 to |hrefs|
        invariant links == Collected(pages[..e]) + PageLinks(hrefs[..k])
      {
        assert hrefs[..k + 1][..k] == hrefs[..k];
        var href := hrefs[k];
        if StartsWith(href, "/") {
          continue;
        }
        if StartsWith(href, "http") {
          links := links + [href];
        }
      }
      assert hrefs[..|hrefs|] == hrefs;
    }
    assert pages[..|pages|] == pages;
  }

  /** The second loop of `search_links`: strip the fragment, keep what `seen` does not hold yet. */
  method DedupFragments(links: seq<string>) returns (out: seq<string>)
    ensures out == Dedup(Defragment(links))
  {
    var seen: set<string> := {};
    out := [];
    for i := 0 to |links|
      invariant out == Dedup(Defragment(links[..i]))
      invariant forall x :: x in seen <==> x in out
    {
      ghost var d := Defragment(links[..i + 1]);
      assert d[..i] == Defragment(links[..i]);
      var u := Head(links[i], '#');
      assert d[i] == u;
      if u !in seen {
        seen := seen + {u};
        out := out + [u];
      }
    }
    assert links[..|links|] == links;
  }

  lemma HttpIsNotRelative(h: string)
    requires StartsWith(h, "http")
    ensures !StartsWith(h, "/")
  {
    assert h[0] == h[..4][0];
  }

  lemma {:induction false} PageLinksSpec(hrefs: seq<string>)
    ensures forall x :: x in PageLinks(hrefs) ==> StartsWith(x, "http") && !StartsWith(x, "/")
    ensures forall k :: 0 <= k < |hrefs| && StartsWith(hrefs[k], "http") ==> hrefs[k] in PageLinks(hrefs)
    decreases |hrefs|
  {
    if hrefs != [] {
      var init := hrefs[..|hrefs| - 1];
      PageLinksSpec(init);
      forall k | 0 <= k < |hrefs| && StartsWith(hrefs[k], "http") ensures hrefs[k] in PageLinks(hrefs) {
        HttpIsNotRelative(hrefs[k]);
        if k < |init| { assert hrefs[k] == init[k]; }
      }
    }
  }

  /** Only links starting with "http" are collected (so none starting with "/"),
      and every such link of every fetched page is collected. */
  lemma {:induction false} CollectedSpec(pages: seq<Option<seq<string>>>)
    ensures forall x :: x in Collected(pages) ==> StartsWith(x, "http") && !StartsWith(x, "/")
    ensures forall e, k ::
      (0 <= e < |pages| && pages[e].Some? && 0 <= k < |pages[e].value| && StartsWith(pages[e].value[k], "http"))
      ==> pages[e].value[k] in Collected(pages)
    decreases |pages|
  {
    if pages != [] {
      var init := pages[..|pages| - 1];
      var last := pages[|pages| - 1];
      CollectedSpec(init);
      if last.Some? { PageLinksSpec(last.value); }
      forall e, k | 0 <= e < |pages| && pages[e].Some? && 0 <= k < |pages[e].value|
        && StartsWith(pages[e].value[k], "http")
        ensures pages[e].value[k] in Collected(pages)
      {
        if e < |init| { assert pages[e] == init[e]; }
      }
    }
  }

  /** De-duplication keeps exactly the elements of its input: nothing lost, nothing invented. */
  lemma {:induction false} DedupMembers(xs: seq<string>)
    ensures forall x :: x in Dedup(xs) <==> x in xs
    decreases |xs|
  {
    if xs != [] {
      var init := xs[..|xs| - 1];
      DedupMembers(init);
      assert xs == init + [xs[|xs| - 1]];
    }
  }

  /** No element is kept twice. */
  lemma {:induction false} DedupDistinct(xs: seq<string>)
    ensures forall i, j :: 0 <= i < j < |Dedup(xs)| ==> Dedup(xs)[i] != Dedup(xs)[j]
    decreases |xs|
  {
    if xs != [] {
      DedupDistinct(xs[..|xs| - 1]);
    }
  }

  /** `d` lists elements of `xs` in the order of their first occurrence in `xs`. */
  predicate FirstSeenOrdered(xs: seq<string>, d: seq<string>) {
    forall i, j :: 0 <= i < j < |d| ==>
      d[i] in xs && d[j] in xs && FirstIndex(xs, d[i]) < FirstIndex(xs, d[j])
  }

  /** One more element keeps a first-seen-ordered selection first-seen-ordered. */
  lemma DedupOrderStep(init: seq<string>, x: string, r: seq<string>)
    requires forall y :: y in r <==> y in init
    requires FirstSeenOrdered(init, r)
    ensures FirstSeenOrdered(init + [x], if x in r then r else r + [x])
  {
    var d := if x in r then r else r + [x];
    forall i, j | 0 <= i < j < |d|
      ensures d[i] in init + [x] && d[j] in init + [x]
      ensures FirstIndex(init + [x], d[i]) < FirstIndex(init + [x], d[j])
    {
      assert d[i] == r[i];
      FirstIndexExtend(init, d[i], x);
      if j < |r| {
        assert d[j] == r[j];
        FirstIndexExtend(init, d[j], x);
      } else {
        assert d[j] == x && x !in init;
        FirstIndexAfter(init, x, []);
        assert init + [x] + [] == init + [x];
      }
    }
  }

  /** Kept elements appear in the order of their first occurrence in the input. */
  lemma {:induction false} DedupFirstSeenOrder(xs: seq<string>)
    ensures FirstSeenOrdered(xs, Dedup(xs))
    decreases |xs|
  {
    if xs != [] {
      var init, x := xs[..|xs| - 1], xs[|xs| - 1];
      DedupFirstSeenOrder(init);
      DedupMembers(init);
      assert xs == init + [x];
      DedupOrderStep(init, x, Dedup(init));
    }
  }

  /** What `search_links` promises: no repeats, no fragments, exactly the
      fragment-stripped collected links, in order of first occurrence. */
  lemma SearchResultSpec(pages: seq<Option<seq<string>>>)
    ensures forall i, j :: 0 <= i < j < |SearchResult(pages)| ==> SearchResult(pages)[i] != SearchResult(pages)[j]
    ensures forall x :: x in SearchResult(pages) ==> '#' !in x
    ensures forall x :: x in SearchResult(pages) <==> x in Defragment(Collected(pages))
    ensures forall i, j :: 0 <= i < j < |SearchResult(pages)| ==>
      FirstIndex(Defragment(Collected(pages)), SearchResult(pages)[i])
      < FirstIndex(Defragment(Collected(pages)), SearchResult(pages)[j])
  {
    var d := Defragment(Collected(pages));
    DedupDistinct(d);
    DedupMembers(d);
    DedupFirstSeenOrder(d);
    forall x | x in SearchResult(pages) ensures '#' !in x {
      var i :| 0 <= i < |d| && d[i] == x;
    }
  }

  // ---------------------------------------------------------------------
  // extract_meta and crawl_once.

  /** A Python call that either raises an exception or returns a value. */
  datatype Attempt<T> = Raises | Returns(value: T)

  /** What BeautifulSoup finds in a page. `ogTitle`, `image` and
      `description` are what the `m` helper of `extract_meta` returns for
      og:title, og:image and og:description (else the description meta): the
      stripped `content`, or None. `titleTag` is the `<title>` element: None
      when the page has none, else its `.string`, which is None when the
      element does not hold exactly one string (`<title></title>`, say). */
  datatype SoupMeta = SoupMeta(
    ogTitle: Option<string>,
    titleTag: Option<Option<string>>,
    image: Option<string>,
    description: Option<string>)

  datatype Meta = Meta(title: Option<string>, image: Option<string>, description: Option<string>, priceText: Option<string>)

  /** The `price_text` of `extract_meta`: the leftmost match of crawler.py's
      money pattern; an empty page is not searched. */
  function PriceText(html: string): Option<string>
  {
    if html == [] then None else PriceRx.FindText(PriceRx.Crawler, html)
  }

  /** A price text is an "R$" money token (either case of the R) found in the page;
      there is none only when the page is empty or holds no such token anywhere. */
  lemma PriceTextSpec(html: string)
    ensures html == [] ==> PriceText(html).None?
    ensures PriceText(html).Some? ==> var t := PriceText(html).value;
      |t| >= 3 && PriceRx.IsR(t[0]) && t[1] == '$' && PriceRx.Token1(t) && Contains(html, t)
    ensures html != [] && PriceText(html).None? ==>
      forall i, e :: 0 <= i <= e <= |html| ==> !PriceRx.Token1(html[i..e])
  {
    if html != [] {
      PriceRx.Search1Spec(html);
      var found := PriceRx.FindText(PriceRx.Crawler, html);
      if found.Some? {
        PriceRx.Token1Length(found.value);
        PriceRx.FindTextOccurs(PriceRx.Crawler, html);
      }
    }
  }

  /** The `title` of `extract_meta`: a truthy og:title, else the stripped
      `<title>` string, else None. Calling `.strip()` on the `.string` of a
      `<title>` that has none raises AttributeError. */
  function MetaTitle(soup: SoupMeta): Attempt<Option<string>>
  {
    if Truthy(soup.ogTitle) then Returns(soup.ogTitle)
    else
      match soup.titleTag
      case None => Returns(None)
      case Some(None) => Raises
      case Some(Some(t)) => Returns(Some(Strip(t)))
  }

  /** `extract_meta(html)`. */
  function ExtractMeta(html: string, soup: SoupMeta): Attempt<Meta>
  {
    match MetaTitle(soup)
    case Raises => Raises
    case Returns(title) => Returns(Meta(title, soup.image, soup.description, PriceText(html)))
  }

  /** `extract_meta` raises exactly when the page has no truthy og:title and a
      `<title>` without a string. Otherwise its title is truthy exactly when
      the og:title is, or the `<title>` string holds a non-whitespace
      character; a truthy og:title wins, and the `<title>` string is stripped. */
  lemma ExtractMetaSpec(html: string, soup: SoupMeta)
    ensures ExtractMeta(html, soup).Raises? <==> !Truthy(soup.ogTitle) && soup.titleTag == Some(None)
    ensures ExtractMeta(html, soup).Returns? ==>
              var m := ExtractMeta(html, soup).value;
              && (Truthy(m.title) <==>
                    Truthy(soup.ogTitle)
                    || (soup.titleTag.Some? && soup.titleTag.value.Some? && !AllSpace(soup.titleTag.value.value)))
              && (Truthy(soup.ogTitle) ==> m.title == soup.ogTitle)
              && (!Truthy(soup.ogTitle) && m.title.Some? ==> Stripped(m.title.value))
              && m.image == soup.image && m.description == soup.description && m.priceText == PriceText(html)
  {
    if soup.titleTag.Some? && soup.titleTag.value.Some? {
      StripEmptyIff(soup.titleTag.value.value);
    }
  }

  /** `http_get`'s successful answer: the page text and the URL after redirects. */
  datatype Fetched = Fetched(text: string, finalUrl: string)

  /** Everything a run consults outside this model. */
  datatype World = World(
    engines: string -> seq<Option<seq<string>>>,  // result pages of the two engines for a query
    split: string -> Option<(string, string)>,   // urlparse: (netloc, path); None when it raises ValueError
    fetch: string -> Option<Fetched>,              // http_get; None when it failed
    soup: string -> SoupMeta,                      // the BeautifulSoup lookups of extract_meta
    md5: string -> string,                         // sku_from_url
    slugify: string -> string,
    clock: nat -> int                              // int(time.time()) when the k-th item is built
  )

  datatype Item = Item(
    sku: string, url: string, query: string, title: string,
    image: Option<string>, priceText: Option<string>, description: Option<string>,
    slug: string, ts: int)

  /** Python's truthiness of an optional string. */
  predicate Truthy(o: Option<string>) {
    o.Some? && o.value != []
  }

  /** What one link comes to in the inner loop of `crawl_once`: an exception
      that ends the run, a `continue`, or an item. */
  datatype Outcome = Abort | Skip | Emit(item: Item)

  /** The outcome of one link of query `q`, before the item's timestamp is
      taken. `urlparse` raising ValueError, or the title lookup raising,
      aborts; the link is skipped when it is not allowed, the fetch failed or
      returned nothing, or the page lacks a title or both price and image. */
  function LinkOutcome(w: World, q: string, ln: string): Outcome
  {
    match w.split(ln)
    case None => Abort
    case Some(parts) =>
      if !Allowed(parts.0, parts.1) then Skip
      else
        match w.fetch(ln)
        case None => Skip
        case Some(f) =>
          if f.text == [] then Skip
          else
            match ExtractMeta(f.text, w.soup(f.text))
            case Raises => Abort
            case Returns(meta) =>
              if !(Truthy(meta.title) && (Truthy(meta.priceText) || Truthy(meta.image))) then Skip
              else
                Emit(Item(w.md5(f.finalUrl), f.finalUrl, q, meta.title.value, meta.image,
                          meta.priceText, meta.description, Take(w.slugify(meta.title.value), 80), 0))
  }

  /** A link aborts the run exactly when `urlparse` raises on it, or it is
      allowed and fetched with a non-empty body whose page has no truthy
      og:title and a `<title>` without a string. */
  lemma LinkAbortIff(w: World, q: string, ln: string)
    ensures LinkOutcome(w, q, ln).Abort? <==>
              w.split(ln).None?
              || (&& Allowed(w.split(ln).value.0, w.split(ln).value.1)
                  && w.fetch(ln).Some? && w.fetch(ln).value.text != []
                  && var soup := w.soup(w.fetch(ln).value.text);
                     !Truthy(soup.ogTitle) && soup.titleTag == Some(None))
  {
    if w.fetch(ln).Some? {
      var text := w.fetch(ln).value.text;
      ExtractMetaSpec(text, w.soup(text));
    }
  }

  /** The item one link yields, if any. */
  function Candidate(w: World, q: string, ln: string): Option<Item>
  {
    var o := LinkOutcome(w, q, ln);
    if o.Emit? then Some(o.item) else None
  }

  /** The drafts `cand` makes of `links`, in link order; a link it rejects adds nothing. */
  function Drafts(cand: string -> Option<Item>, links: seq<string>): seq<Item>
  {
    if links == [] then []
    else
      var c := cand(links[|links| - 1]);
      Drafts(cand, links[..|links| - 1]) + (if c.Some? then [c.value] else [])
  }

  /** `Candidate` for query `q`, as a function of the link. */
  function CandidateOf(w: World, q: string): string -> Option<Item> {
    ln => Candidate(w, q, ln)
  }

  /** The items the links of one query yield, uncapped. */
  function QueryItems(w: World, q: string, links: seq<string>): seq<Item>
  {
    Drafts(CandidateOf(w, q), links)
  }

  /** The items the queries in `order` yield, each query's through `run`, in order. */
  function Concat(run: string -> seq<Item>, order: seq<string>): seq<Item>
  {
    if order == [] then []
    else Concat(run, order[..|order| - 1]) + run(order[|order| - 1])
  }

  /** The uncapped items of one query: those of the links its search returns. */
  function QueryRunOf(w: World): string -> seq<Item> {
    q => QueryItems(w, q, SearchResult(w.engines(q)))
  }

  /** The items all queries yield in order, uncapped. */
  function RunItems(w: World, order: seq<string>): seq<Item>
  {
    Concat(QueryRunOf(w), order)
  }

  /** `items` are `drafts` with the k-th one stamped by the clock's k-th reading. */
  predicate Stamped(items: seq<Item>, drafts: seq<Item>, clock: nat -> int) {
    |items| == |drafts| && forall k :: 0 <= k < |items| ==> items[k] == drafts[k].(ts := clock(k))
  }

  /** What an emitted item always has: a title, and a price text or an image. */
  predicate Emittable(it: Item) {
    it.title != [] && (Truthy(it.priceText) || Truthy(it.image))
  }

  lemma {:induction false} DraftsAppend(cand: string -> Option<Item>, a: seq<string>, b: seq<string>)
    ensures Drafts(cand, a + b) == Drafts(cand, a) + Drafts(cand, b)
    decreases |b|
  {
    if b == [] {
      assert a + b == a;
    } else {
      assert (a + b)[..|a + b| - 1] == a + b[..|b| - 1];
      DraftsAppend(cand, a, b[..|b| - 1]);
    }
  }

  /** One more link of the current query, while fewer than `MaxPerRun` items exist. */
  lemma CrawlStep(items: seq<Item>, before: seq<Item>, c: Option<Item>, clock: nat -> int)
    requires Stamped(items, Take(before, MaxPerRun), clock) && |before| < MaxPerRun
    ensures Stamped(items + (if c.Some? then [c.value.(ts := clock(|items|))] else []),
                    Take(before + (if c.Some? then [c.value] else []), MaxPerRun), clock)
  {
  }

  /** An outcome whose item, if any, carries timestamp `ts`. */
  function Stamp(o: Outcome, ts: int): Outcome {
    if o.Emit? then Emit(o.item.(ts := ts)) else o
  }

  /** The body of the inner loop of `crawl_once()` for one link: the item it
      builds, stamped with `clock(created)`, a `continue`, or the exception
      that ends the run. */
  method LinkItem(w: World, q: string, ln: string, created: nat) returns (r: Outcome)
    ensures r == Stamp(LinkOutcome(w, q, ln), w.clock(created))
  {
    var parts := w.split(ln);
    if parts.None? {
      return Abort;
    }
    var (netloc, path) := parts.value;
    if !Allowed(netloc, path) {
      return Skip;
    }
    var fetched := w.fetch(ln);
    if fetched.None? || fetched.value.text == [] {
      return Skip;
    }
    var meta := ExtractMeta(fetched.value.text, w.soup(fetched.value.text));
    if meta.Raises? {
      return Abort;
    }
    var m := meta.value;
    if !(Truthy(m.title) && (Truthy(m.priceText) || Truthy(m.image))) {
      return Skip;
    }
    var finalUrl := fetched.value.finalUrl;
    r := Emit(Item(w.md5(finalUrl), finalUrl, q, m.title.value, m.image, m.priceText,
                   m.description, Take(w.slugify(m.title.value), 80), w.clock(created)));
  }

  /** One link extends the stamped prefix by its candidate. */
  lemma CrawlQueryStep(cand: string -> Option<Item>, links: seq<string>, j: nat,
                       items: seq<Item>, done: seq<Item>, clock: nat -> int)
    requires j < |links| && |items| < MaxPerRun
    requires Stamped(items, Take(done + Drafts(cand, links[..j]), MaxPerRun), clock)
    ensures var c := cand(links[j]);
            Stamped(items + (if c.Some? then [c.value.(ts := clock(|items|))] else []),
                    Take(done + Drafts(cand, links[..j + 1]), MaxPerRun), clock)
  {
    var c := cand(links[j]);
    var before := done + Drafts(cand, links[..j]);
    assert links[..j + 1][..j] == links[..j];
    assert done + Drafts(cand, links[..j + 1]) == before + (if c.Some? then [c.value] else []);
    CrawlStep(items, before, c, clock);
  }

  /** Once `MaxPerRun` items are stamped, later drafts do not matter. */
  lemma StampedCapped(items: seq<Item>, xs: seq<Item>, ys: seq<Item>, clock: nat -> int)
    requires ys == [] || |items| >= MaxPerRun
    requires Stamped(items, Take(xs, MaxPerRun), clock)
    ensures Stamped(items, Take(xs + ys, MaxPerRun), clock)
  {
    if ys == [] {
      assert xs + ys == xs;
    } else {
      TakeLonger(xs, ys, MaxPerRun);
    }
  }

  /** Leaving the links of a query early (the cap is reached) changes nothing. */
  lemma CrawlQueryEnd(cand: string -> Option<Item>, links: seq<string>, j: nat,
                      items: seq<Item>, done: seq<Item>, clock: nat -> int)
    requires j <= |links| && (j == |links| || |items| >= MaxPerRun)
    requires Stamped(items, Take(done + Drafts(cand, links[..j]), MaxPerRun), clock)
    ensures Stamped(items, Take(done + Drafts(cand, links), MaxPerRun), clock)
  {
    if j == |links| {
      assert links[..j] == links;
    } else {
      var xs := done + Drafts(cand, links[..j]);
      var ys := Drafts(cand, links[j..]);
      assert |xs| >= MaxPerRun;
      assert Take(done + Drafts(cand, links), MaxPerRun) == Take(xs, MaxPerRun) by {
        assert links[..j] + links[j..] == links;
        DraftsAppend(cand, links[..j], links[j..]);
        TakeLonger(xs, ys, MaxPerRun);
      }
    }
  }

  /** Stamping keeps what makes an item emittable. */
  lemma StampedEmittable(items: seq<Item>, drafts: seq<Item>, clock: nat -> int)
    requires forall it :: it in drafts ==> Emittable(it)
    requires Stamped(items, Take(drafts, MaxPerRun), clock)
    ensures |items| <= MaxPerRun
    ensures forall k :: 0 <= k < |items| ==> Emittable(items[k])
  {
    forall k | 0 <= k < |items|
      ensures Emittable(items[k])
    {
      assert Take(drafts, MaxPerRun)[k] == drafts[k];
      assert drafts[k] in drafts;
    }
  }

  /** Leaving the queries early (the cap is reached) changes nothing. */
  lemma CrawlOnceEnd(w: World, order: seq<string>, i: nat, items: seq<Item>)
    requires i <= |order| && (i == |order| || |items| >= MaxPerRun)
    requires Stamped(items, Take(RunItems(w, order[..i]), MaxPerRun), w.clock)
    ensures Stamped(items, Take(RunItems(w, order), MaxPerRun), w.clock)
  {
    var xs := RunItems(w, order[..i]);
    var ys := RunItems(w, order[i..]);
    assert order[..i] + order[i..] == order;
    ConcatAppend(QueryRunOf(w), order[..i], order[i..]);
    assert ys != [] ==> i < |order| by {
      if i == |order| {
        assert order[i..] == [];
      }
    }
    StampedCapped(items, xs, ys, w.clock);
  }

  // ---------------------------------------------------------------------
  // Where a run raises.

  /** Whether processing `links`, with `n` items made before them, reaches a
      link that `raises`: one met while fewer than `MaxPerRun` items exist. */
  function Interrupted(cand: string -> Option<Item>, raises: string -> bool, n: nat, links: seq<string>): bool
  {
    if links == [] then false
    else
      var init := links[..|links| - 1];
      Interrupted(cand, raises, n, init) || (n + |Drafts(cand, init)| < MaxPerRun && raises(links[|links| - 1]))
  }

  /** Whether a link of query `q` aborts, as a function of the link. */
  function RaisesOf(w: World, q: string): string -> bool {
    ln => LinkOutcome(w, q, ln).Abort?
  }

  /** Whether the links of query `q`, after `n` items, reach an aborting link. */
  function QueryRaises(w: World, q: string, n: nat, links: seq<string>): bool
  {
    Interrupted(CandidateOf(w, q), RaisesOf(w, q), n, links)
  }

  /** Whether some query in `order` raises, each after the items `run`
      gives the queries before it. */
  function Raised(run: string -> seq<Item>, raises: (string, nat) -> bool, order: seq<string>): bool
  {
    if order == [] then false
    else
      var init := order[..|order| - 1];
      Raised(run, raises, init) || raises(order[|order| - 1], |Concat(run, init)|)
  }

  /** Whether the search result of query `q` reaches an aborting link after `n` items. */
  function QueryRaisesOf(w: World): (string, nat) -> bool {
    (q: string, n: nat) => QueryRaises(w, q, n, SearchResult(w.engines(q)))
  }

  /** Whether the queries in `order` reach an aborting link. */
  function RunRaises(w: World, order: seq<string>): bool
  {
    Raised(QueryRunOf(w), QueryRaisesOf(w), order)
  }

  /** A query raising within the first `i` queries is a query raising in all. */
  lemma {:induction false} RaisedPrefix(run: string -> seq<Item>, raises: (string, nat) -> bool,
                                        order: seq<string>, i: nat)
    requires i <= |order| && Raised(run, raises, order[..i])
    ensures Raised(run, raises, order)
    decreases |order|
  {
    if i == |order| {
      assert order[..i] == order;
    } else {
      var init := order[..|order| - 1];
      assert init[..i] == order[..i];
      RaisedPrefix(run, raises, init, i);
    }
  }

  /** Query `order[i]` raising after the items of the queries before it makes the run raise. */
  lemma RaisedAt(run: string -> seq<Item>, raises: (string, nat) -> bool, order: seq<string>, i: nat)
    requires i < |order| && raises(order[i], |Concat(run, order[..i])|)
    ensures Raised(run, raises, order)
  {
    assert order[..i + 1][..i] == order[..i];
    RaisedPrefix(run, raises, order, i + 1);
  }

  /** The run raises at some query, after the items of the queries before it. */
  lemma {:induction false} RaisedWitness(run: string -> seq<Item>, raises: (string, nat) -> bool,
                                         order: seq<string>) returns (i: nat)
    requires Raised(run, raises, order)
    ensures i < |order| && raises(order[i], |Concat(run, order[..i])|)
    decreases |order|
  {
    var init := order[..|order| - 1];
    if Raised(run, raises, init) {
      i := RaisedWitness(run, raises, init);
      assert init[..i] == order[..i];
    } else {
      i := |order| - 1;
    }
  }

  /** When no query raises once `MaxPerRun` items exist, reaching that many
      items ends the raising. */
  lemma {:induction false} RaisedAfterCap(run: string -> seq<Item>, raises: (string, nat) -> bool,
                                          order: seq<string>, i: nat)
    requires forall q, n: nat :: n >= MaxPerRun ==> !raises(q, n)
    requires i <= |order| && !Raised(run, raises, order[..i])
    requires |Concat(run, order[..i])| >= MaxPerRun
    ensures !Raised(run, raises, order)
    decreases |order|
  {
    if i == |order| {
      assert order[..i] == order;
    } else {
      var init := order[..|order| - 1];
      assert init[..i] == order[..i];
      RaisedAfterCap(run, raises, init, i);
      assert init == order[..i] + init[i..];
      ConcatAppend(run, order[..i], init[i..]);
    }
  }

  /** No query raises once `MaxPerRun` items exist. */
  lemma QueryRaisesCapped(w: World)
    ensures forall q, n: nat :: n >= MaxPerRun ==> !QueryRaisesOf(w)(q, n)
  {
    forall q, n: nat | n >= MaxPerRun
      ensures !QueryRaisesOf(w)(q, n)
    {
      var links := SearchResult(w.engines(q));
      assert links[..0] == [];
      InterruptedAfterCap(CandidateOf(w, q), RaisesOf(w, q), n, links, 0);
    }
  }

  /** Reaching an aborting link among the first `j` links reaches it among all. */
  lemma {:induction false} InterruptedPrefix(cand: string -> Option<Item>, raises: string -> bool, n: nat,
                                             links: seq<string>, j: nat)
    requires j <= |links| && Interrupted(cand, raises, n, links[..j])
    ensures Interrupted(cand, raises, n, links)
    decreases |links|
  {
    if j == |links| {
      assert links[..j] == links;
    } else {
      var init := links[..|links| - 1];
      assert init[..j] == links[..j];
      InterruptedPrefix(cand, raises, n, init, j);
    }
  }

  /** Once `MaxPerRun` items exist, no later link is reached. */
  lemma {:induction false} InterruptedAfterCap(cand: string -> Option<Item>, raises: string -> bool, n: nat,
                                               links: seq<string>, j: nat)
    requires j <= |links| && !Interrupted(cand, raises, n, links[..j])
    requires n + |Drafts(cand, links[..j])| >= MaxPerRun
    ensures !Interrupted(cand, raises, n, links)
    decreases |links|
  {
    if j == |links| {
      assert links[..j] == links;
    } else {
      var init := links[..|links| - 1];
      assert init[..j] == links[..j];
      InterruptedAfterCap(cand, raises, n, init, j);
      assert init == links[..j] + init[j..];
      DraftsAppend(cand, links[..j], init[j..]);
    }
  }

  /** A link that raises while fewer than `MaxPerRun` items exist interrupts. */
  lemma InterruptedAt(cand: string -> Option<Item>, raises: string -> bool, n: nat, links: seq<string>, j: nat)
    requires j < |links| && raises(links[j]) && n + |Drafts(cand, links[..j])| < MaxPerRun
    ensures Interrupted(cand, raises, n, links)
  {
    assert links[..j + 1][..j] == links[..j];
    InterruptedPrefix(cand, raises, n, links, j + 1);
  }

  /** An interruption happens at some link that raises while fewer than
      `MaxPerRun` items exist. */
  lemma {:induction false} InterruptedWitness(cand: string -> Option<Item>, raises: string -> bool, n: nat,
                                              links: seq<string>) returns (j: nat)
    requires Interrupted(cand, raises, n, links)
    ensures j < |links| && raises(links[j]) && n + |Drafts(cand, links[..j])| < MaxPerRun
    decreases |links|
  {
    var init := links[..|links| - 1];
    if Interrupted(cand, raises, n, init) {
      j := InterruptedWitness(cand, raises, n, init);
      assert init[..j] == links[..j];
    } else {
      j := |links| - 1;
    }
  }

  /** Link `j` of query `order[i]` aborts, and the links before it yield
      fewer than `MaxPerRun` items, so the cap does not stop the run first.
      An earlier link may abort as well; then that one ends the run. */
  predicate ReachedAbort(w: World, order: seq<string>, i: nat, j: nat) {
    && i < |order|
    && j < |SearchResult(w.engines(order[i]))|
    && LinkOutcome(w, order[i], SearchResult(w.engines(order[i]))[j]).Abort?
    && |RunItems(w, order[..i])| + |QueryItems(w, order[i], SearchResult(w.engines(order[i]))[..j])| < MaxPerRun
  }

  /** A run raises exactly when one of its links aborts while the links
      before it yield fewer than `MaxPerRun` items: `urlparse` raises on it,
      or its page has a `<title>` without a string and no truthy og:title. */
  lemma RunRaisesIff(w: World, order: seq<string>)
    ensures RunRaises(w, order) <==> exists i: nat, j: nat :: ReachedAbort(w, order, i, j)
  {
    if exists i: nat, j: nat :: ReachedAbort(w, order, i, j) {
      var i: nat, j: nat :| ReachedAbort(w, order, i, j);
      var q := order[i];
      InterruptedAt(CandidateOf(w, q), RaisesOf(w, q), |RunItems(w, order[..i])|, SearchResult(w.engines(q)), j);
      RaisedAt(QueryRunOf(w), QueryRaisesOf(w), order, i);
    }
    if RunRaises(w, order) {
      var i := RaisedWitness(QueryRunOf(w), QueryRaisesOf(w), order);
      var q := order[i];
      var j := InterruptedWitness(CandidateOf(w, q), RaisesOf(w, q), |RunItems(w, order[..i])|,
                                  SearchResult(w.engines(q)));
      assert ReachedAbort(w, order, i, j);
    }
  }

  /** A page whose `<title>` has no string and which has no truthy og:title
      ends the whole run with AttributeError when it is the first page the
      run fetches, whatever the later links hold. */
  lemma TitleWithoutStringAbortsRun(w: World, order: seq<string>)
    requires order != [] && SearchResult(w.engines(order[0])) != []
    requires var ln := SearchResult(w.engines(order[0]))[0];
      && w.split(ln).Some? && Allowed(w.split(ln).value.0, w.split(ln).value.1)
      && w.fetch(ln).Some? && w.fetch(ln).value.text != []
      && !Truthy(w.soup(w.fetch(ln).value.text).ogTitle)
      && w.soup(w.fetch(ln).value.text).titleTag == Some(None)
    ensures RunRaises(w, order)
  {
    var links := SearchResult(w.engines(order[0]));
    LinkAbortIff(w, order[0], links[0]);
    assert order[..0] == [] && links[..0] == [];
    assert ReachedAbort(w, order, 0, 0);
    RunRaisesIff(w, order);
  }

  /** Link `j` of the current query aborts while fewer than `MaxPerRun` items exist. */
  lemma QueryRaiseAt(w: World, q: string, links: seq<string>, j: nat, items: seq<Item>, done: seq<Item>)
    requires j < |links| && |items| < MaxPerRun && LinkOutcome(w, q, links[j]).Abort?
    requires Stamped(items, Take(done + QueryItems(w, q, links[..j]), MaxPerRun), w.clock)
    ensures QueryRaises(w, q, |done|, links)
  {
    InterruptedAt(CandidateOf(w, q), RaisesOf(w, q), |done|, links, j);
  }

  /** A link that does not abort keeps the query from raising so far. */
  lemma QueryNoRaiseStep(w: World, q: string, links: seq<string>, j: nat, n: nat)
    requires j < |links| && !LinkOutcome(w, q, links[j]).Abort?
    requires !QueryRaises(w, q, n, links[..j])
    ensures !QueryRaises(w, q, n, links[..j + 1])
  {
    assert links[..j + 1][..j] == links[..j];
  }

  /** Leaving the links of a query early (the cap is reached) raises nothing later. */
  lemma QueryRaisesEnd(w: World, q: string, links: seq<string>, j: nat, items: seq<Item>, done: seq<Item>)
    requires j <= |links| && (j == |links| || |items| >= MaxPerRun)
    requires Stamped(items, Take(done + QueryItems(w, q, links[..j]), MaxPerRun), w.clock)
    requires !QueryRaises(w, q, |done|, links[..j])
    ensures !QueryRaises(w, q, |done|, links)
  {
    if j == |links| {
      assert links[..j] == links;
    } else {
      InterruptedAfterCap(CandidateOf(w, q), RaisesOf(w, q), |done|, links, j);
    }
  }

  /** The inner loop of `crawl_once()`: the links of query `q`, appended to
      the `items` built so far (stamped drafts of `done`) until `MaxPerRun`
      items exist, or the exception a link raises. */
  method CrawlQuery(w: World, q: string, links: seq<string>, items0: seq<Item>, ghost done: seq<Item>)
    returns (r: Attempt<seq<Item>>)
    requires Stamped(items0, Take(done, MaxPerRun), w.clock)
    ensures r.Raises? <==> QueryRaises(w, q, |done|, links)
    ensures r.Returns? ==> Stamped(r.value, Take(done + QueryItems(w, q, links), MaxPerRun), w.clock)
  {
    var items := items0;
    var j := 0;
    assert links[..0] == [];
    while j < |links|
      invariant 0 <= j <= |links|
      invariant Stamped(items, Take(done + QueryItems(w, q, links[..j]), MaxPerRun), w.clock)
      invariant !QueryRaises(w, q, |done|, links[..j])
    {
      if |items| >= MaxPerRun {
        break;
      }
      var out := LinkItem(w, q, links[j], |items|);
      if out.Abort? {
        QueryRaiseAt(w, q, links, j, items, done);
        return Raises;
      }
      CrawlQueryStep(CandidateOf(w, q), links, j, items, done, w.clock);
      QueryNoRaiseStep(w, q, links, j, |done|);
      if out.Emit? {
        items := items + [out.item];
      }
      j := j + 1;
    }
    CrawlQueryEnd(CandidateOf(w, q), links, j, items, done, w.clock);
    QueryRaisesEnd(w, q, links, j, items, done);
    r := Returns(items);
  }

  /** `crawl_once()`. `order` is `QUERIES` after `random.shuffle`. Unless a
      link it reaches aborts, the run emits, in order, the first `MaxPerRun`
      items the queries' links yield, each stamped when it is built
      (`created` is `|items|`). */
  method CrawlOnce(w: World, order: seq<string>) returns (r: Attempt<seq<Item>>)
    requires multiset(order) == multiset(Queries)
    ensures r.Raises? <==> RunRaises(w, order)
    ensures r.Returns? ==> Stamped(r.value, Take(RunItems(w, order), MaxPerRun), w.clock)
    ensures r.Returns? ==> |r.value| <= MaxPerRun
    ensures r.Returns? ==> forall k :: 0 <= k < |r.value| ==> Emittable(r.value[k])
  {
    var items := [];
    var i := 0;
    assert order[..0] == [];
    while i < |order|
      invariant 0 <= i <= |order|
      invariant Stamped(items, Take(RunItems(w, order[..i]), MaxPerRun), w.clock)
      invariant !RunRaises(w, order[..i])
    {
      if |items| >= MaxPerRun {
        break;
      }
      var q := order[i];
      var links := SearchLinks(w.engines(q));
      var res := CrawlQuery(w, q, links, items, RunItems(w, order[..i]));
      CrawlOnceStep(w, order, i, res);
      if res.Raises? {
        return Raises;
      }
      items := res.value;
      i := i + 1;
    }
    CrawlOnceEnd(w, order, i, items);
    RunRaisesEnd(w, order, i, items);
    RunItemsEmittable(w, order);
    StampedEmittable(items, RunItems(w, order), w.clock);
    r := Returns(items);
  }

  /** One query of the outer loop: its raising is the run's, and otherwise
      its stamped items extend the run's. */
  lemma CrawlOnceStep(w: World, order: seq<string>, i: nat, res: Attempt<seq<Item>>)
    requires i < |order| && !RunRaises(w, order[..i])
    requires var q := order[i];
      && (res.Raises? <==> QueryRaises(w, q, |RunItems(w, order[..i])|, SearchResult(w.engines(q))))
      && (res.Returns? ==>
            Stamped(res.value, Take(RunItems(w, order[..i]) + QueryItems(w, q, SearchResult(w.engines(q))), MaxPerRun),
                    w.clock))
    ensures res.Raises? ==> RunRaises(w, order)
    ensures res.Returns? ==>
              !RunRaises(w, order[..i + 1]) && Stamped(res.value, Take(RunItems(w, order[..i + 1]), MaxPerRun), w.clock)
  {
    RunItemsStep(w, order, i);
    RunRaisesStep(w, order, i);
    if res.Raises? {
      RaisedPrefix(QueryRunOf(w), QueryRaisesOf(w), order, i + 1);
    }
  }

  /** The queries up to `order[i]` raise exactly when those before it do, or
      `order[i]` does after their items. */
  lemma RunRaisesStep(w: World, order: seq<string>, i: nat)
    requires i < |order|
    ensures RunRaises(w, order[..i + 1]) <==>
              RunRaises(w, order[..i])
              || QueryRaises(w, order[i], |RunItems(w, order[..i])|, SearchResult(w.engines(order[i])))
  {
    RaisedStep(QueryRunOf(w), QueryRaisesOf(w), order, i);
  }

  /** One more query raises the prefix exactly when it or an earlier one raises. */
  lemma RaisedStep(run: string -> seq<Item>, raises: (string, nat) -> bool, order: seq<string>, i: nat)
    requires i < |order|
    ensures Raised(run, raises, order[..i + 1]) <==>
              Raised(run, raises, order[..i]) || raises(order[i], |Concat(run, order[..i])|)
  {
    assert order[..i + 1][..i] == order[..i];
  }

  /** Leaving the queries early (the cap is reached) raises nothing later. */
  lemma RunRaisesEnd(w: World, order: seq<string>, i: nat, items: seq<Item>)
    requires i <= |order| && (i == |order| || |items| >= MaxPerRun)
    requires Stamped(items, Take(RunItems(w, order[..i]), MaxPerRun), w.clock)
    requires !RunRaises(w, order[..i])
    ensures !RunRaises(w, order)
  {
    if i == |order| {
      assert order[..i] == order;
    } else {
      QueryRaisesCapped(w);
      RaisedAfterCap(QueryRunOf(w), QueryRaisesOf(w), order, i);
    }
  }

  lemma {:induction false} ConcatAppend(run: string -> seq<Item>, a: seq<string>, b: seq<string>)
    ensures Concat(run, a + b) == Concat(run, a) + Concat(run, b)
    decreases |b|
  {
    if b == [] {
      assert a + b == a;
    } else {
      assert (a + b)[..|a + b| - 1] == a + b[..|b| - 1];
      assert (a + b)[|a + b| - 1] == b[|b| - 1];
      ConcatAppend(run, a, b[..|b| - 1]);
    }
  }

  /** One more query adds the items of its search result. */
  lemma RunItemsStep(w: World, order: seq<string>, i: nat)
    requires i < |order|
    ensures RunItems(w, order[..i + 1])
         == RunItems(w, order[..i]) + QueryItems(w, order[i], SearchResult(w.engines(order[i])))
  {
    assert order[..i + 1][..i] == order[..i];
  }

  /** The link an item came from: allowed, fetched successfully, and the item
      carries the final URL of that fetch and the query it was found for. */
  predicate FromLink(w: World, it: Item, q: string, ln: string) {
    && w.split(ln).Some? && Allowed(w.split(ln).value.0, w.split(ln).value.1)
    && w.fetch(ln).Some? && w.fetch(ln).value.text != []
    && it.url == w.fetch(ln).value.finalUrl
    && it.query == q
    && Emittable(it)
  }

  lemma {:induction false} QueryItemsFrom(w: World, q: string, links: seq<string>)
    ensures forall it :: it in QueryItems(w, q, links) ==> exists ln :: ln in links && FromLink(w, it, q, ln)
    decreases |links|
  {
    if links != [] {
      var init := links[..|links| - 1];
      var ln := links[|links| - 1];
      QueryItemsFrom(w, q, init);
      forall it | it in QueryItems(w, q, links) ensures exists l :: l in links && FromLink(w, it, q, l) {
        if it in QueryItems(w, q, init) {
          var l :| l in init && FromLink(w, it, q, l);
          assert l in links;
        } else {
          assert FromLink(w, it, q, ln);
        }
      }
    }
  }

  /** Every item a run yields is emittable and comes from an allowed, fetched
      link that the search for one of the run's queries returned. */
  lemma {:induction false} RunItemsFrom(w: World, order: seq<string>)
    ensures forall it :: it in RunItems(w, order) ==>
      exists q, ln :: q in order && ln in SearchResult(w.engines(q)) && FromLink(w, it, q, ln)
    decreases |order|
  {
    if order != [] {
      var init := order[..|order| - 1];
      var q := order[|order| - 1];
      RunItemsFrom(w, init);
      QueryItemsFrom(w, q, SearchResult(w.engines(q)));
      forall it | it in RunItems(w, order)
        ensures exists q', ln :: q' in order && ln in SearchResult(w.engines(q')) && FromLink(w, it, q', ln)
      {
        if it in RunItems(w, init) {
          var q', ln :| q' in init && ln in SearchResult(w.engines(q')) && FromLink(w, it, q', ln);
          assert q' in order;
        } else {
          var ln :| ln in SearchResult(w.engines(q)) && FromLink(w, it, q, ln);
        }
      }
    }
  }

  lemma {:induction false} QueryItemsEmittable(w: World, q: string, links: seq<string>)
    ensures forall it :: it in QueryItems(w, q, links) ==> Emittable(it)
    decreases |links|
  {
    if links != [] {
      QueryItemsEmittable(w, q, links[..|links| - 1]);
    }
  }

  /** Every item a run yields has a title and a price text or an image. */
  lemma {:induction false} RunItemsEmittable(w: World, order: seq<string>)
    ensures forall it :: it in RunItems(w, order) ==> Emittable(it)
    decreases |order|
  {
    if order != [] {
      var q := order[|order| - 1];
      RunItemsEmittable(w, order[..|order| - 1]);
      QueryItemsEmittable(w, q, SearchResult(w.engines(q)));
    }
  }
}
