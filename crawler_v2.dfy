/** crawler_v2.py: the second crawler. Whitespace normalisation, a URL gate
    over the whole lowercased URL, the multi-currency money pattern, one
    search-engine query capped at `MaxHits` results, the title and price
    precedence of a product page, and the loop that fetches every hit of
    every query.

    The network, the HTML parser, `requests.utils.quote` and the choice of
    engine are not modelled: the parser's answers and the responses are the
    fields of a `World`, and the engine picked for each query is an argument. */
module CrawlerV2 {
  import opened PyStr
  import PriceRx

  const MaxHits: nat := 20
  const MaxUrlLength: nat := 512

  const Engines: seq<string> := [
    "https://www.bing.com/search?q=",
    "https://duckduckgo.com/html/?q="
  ]

  /** Empty: results are accepted from any site. */
  const Domains: seq<string> := []

  const BadPath: seq<string> := [
    "login", "cart", "checkout", "track", "seller", "support", "help", "mailto:",
    "account", "orders", "wishlist", "enter", "minha-conta"
  ]

  datatype Result<T> = Success(value: T) | Failure(error: string)

  // ---------------------------------------------------------------------
  // norm_space

  /** The non-whitespace characters of `s`, in order. */
  function NonSpace(s: string): string
  {
    if s == [] then []
    else (if IsSpace(s[0]) then [] else [s[0]]) + NonSpace(s[1..])
  }

  /** Every whitespace character is a plain space and is not followed by another. */
  predicate SingleSpaced(r: string) {
    forall i :: 0 <= i < |r| && IsSpace(r[i]) ==> r[i] == ' ' && (i + 1 == |r| || !IsSpace(r[i + 1]))
  }

  lemma {:induction false} NonSpaceAppend(a: string, b: string)
    ensures NonSpace(a + b) == NonSpace(a) + NonSpace(b)
    decreases |a|
  {
    if a != [] {
      assert (a + b)[1..] == a[1..] + b;
      NonSpaceAppend(a[1..], b);
    } else {
      assert a + b == b;
    }
  }

  lemma {:induction false} NonSpaceEmptyIff(s: string)
    ensures NonSpace(s) == [] <==> AllSpace(s)
    decreases |s|
  {
    if s != [] {
      NonSpaceEmptyIff(s[1..]);
      assert AllSpace(s) <==> IsSpace(s[0]) && AllSpace(s[1..]);
    }
  }

  /** `re.sub(r"\s+", " ", s)`: every maximal whitespace run becomes one space. */
  function Collapse(s: string): string
    decreases |s|
  {
    if s == [] then []
    else if !IsSpace(s[0]) then [s[0]] + Collapse(s[1..])
    else " " + Collapse(LStrip(s[1..]))
  }

  /** The substitution leaves no two adjacent whitespace characters, turns
      every whitespace character it keeps into a plain space, keeps every
      other character in order, and keeps a non-whitespace first character. */
  lemma {:induction false} CollapseShape(s: string)
    ensures SingleSpaced(Collapse(s))
    ensures NonSpace(Collapse(s)) == NonSpace(s)
    ensures s != [] && !IsSpace(s[0]) ==> Collapse(s) != [] && Collapse(s)[0] == s[0]
    decreases |s|
  {
    if s == [] {
    } else if !IsSpace(s[0]) {
      var rest := Collapse(s[1..]);
      CollapseShape(s[1..]);
      SingleSpacedCons(s[0], rest);
      NonSpaceAppend([s[0]], rest);
      assert s == [s[0]] + s[1..];
      NonSpaceAppend([s[0]], s[1..]);
    } else {
      var t := LStrip(s[1..]);
      var rest := Collapse(t);
      CollapseShape(t);
      assert rest == [] || !IsSpace(rest[0]) by {
        if t == [] { assert rest == []; }
      }
      SingleSpacedCons(' ', rest);
      LStripNonSpace(s[1..]);
      NonSpaceAppend(" ", rest);
      assert s == [s[0]] + s[1..];
      NonSpaceAppend([s[0]], s[1..]);
    }
  }

  /** One more character in front keeps a string single-spaced when it is not
      whitespace, or is a space in front of a non-whitespace start. */
  lemma SingleSpacedCons(c: char, rest: string)
    requires SingleSpaced(rest)
    requires IsSpace(c) ==> c == ' ' && (rest == [] || !IsSpace(rest[0]))
    ensures SingleSpaced([c] + rest)
  {
    var r := [c] + rest;
    forall i | 0 <= i < |r| && IsSpace(r[i])
      ensures r[i] == ' ' && (i + 1 == |r| || !IsSpace(r[i + 1]))
    {
      if i > 0 {
        assert r[i] == rest[i - 1];
        assert i + 1 < |r| ==> r[i + 1] == rest[i];
      }
    }
  }

  /** `lstrip()` keeps the non-whitespace characters. */
  lemma LStripNonSpace(x: string)
    ensures NonSpace(LStrip(x)) == NonSpace(x)
  {
    var t := LStrip(x);
    var w := x[..|x| - |t|];
    assert x == w + t by {
      assert t == x[|x| - |t|..];
    }
    NonSpaceAppend(w, t);
    NonSpaceEmptyIff(w);
  }

  /** A single-spaced string is already collapsed. */
  lemma {:induction false} CollapseSingleSpaced(s: string)
    requires SingleSpaced(s)
    ensures Collapse(s) == s
    decreases |s|
  {
    if s != [] {
      assert SingleSpaced(s[1..]);
      CollapseSingleSpaced(s[1..]);
      if IsSpace(s[0]) {
        assert LStrip(s[1..]) == s[1..];
      }
    }
  }

  lemma SingleSpacedSlice(s: string, a: nat, b: nat)
    requires a <= b <= |s| && SingleSpaced(s)
    ensures SingleSpaced(s[a..b])
  {
    var t := s[a..b];
    forall i | 0 <= i < |t| && IsSpace(t[i])
      ensures t[i] == ' ' && (i + 1 == |t| || !IsSpace(t[i + 1]))
    {
      assert t[i] == s[a + i];
      assert i + 1 < |t| ==> t[i + 1] == s[a + i + 1];
    }
  }

  /** Whitespace around `b` adds no non-whitespace characters. */
  lemma NonSpaceAround(a: string, b: string, c: string)
    requires AllSpace(a) && AllSpace(c)
    ensures NonSpace(a + b + c) == NonSpace(b)
  {
    NonSpaceAppend(a + b, c);
    NonSpaceAppend(a, b);
    NonSpaceEmptyIff(a);
    NonSpaceEmptyIff(c);
  }

  /** `strip()` keeps the non-whitespace characters. */
  lemma StripKeepsNonSpace(s: string)
    ensures NonSpace(Strip(s)) == NonSpace(s)
  {
    var r, i := Strip(s), StripStart(s);
    StripCutAt(s);
    assert s == s[..i] + r + s[i + |r|..];
    NonSpaceAround(s[..i], r, s[i + |r|..]);
  }

  /** `strip()` keeps single spacing. */
  lemma StripKeepsSpacing(s: string)
    requires SingleSpaced(s)
    ensures SingleSpaced(Strip(s))
  {
    var k := StripStart(s);
    StripCutAt(s);
    SingleSpacedSlice(s, k, k + |Strip(s)|);
  }

  /** A run of characters without whitespace passes through the substitution unchanged. */
  lemma {:induction false} CollapseWord(w: string, rest: string)
    requires forall i :: 0 <= i < |w| ==> !IsSpace(w[i])
    ensures Collapse(w + rest) == w + Collapse(rest)
    decreases |w|
  {
    if w == [] {
      assert w + rest == rest;
    } else {
      var x, tail := w + rest, w[1..];
      assert x[0] == w[0] && x[1..] == tail + rest;
      assert Collapse(x) == [w[0]] + Collapse(tail + rest);
      assert forall i :: 0 <= i < |tail| ==> !IsSpace(tail[i]) by {
        assert forall i :: 0 <= i < |tail| ==> tail[i] == w[i + 1];
      }
      CollapseWord(tail, rest);
      assert [w[0]] + (tail + Collapse(rest)) == ([w[0]] + tail) + Collapse(rest);
      assert [w[0]] + tail == w;
    }
  }

  /** A maximal whitespace run, however long and whatever its characters,
      becomes one plain space in its place. */
  lemma CollapseRun(a: string, t: string)
    requires a != [] && AllSpace(a)
    requires t == [] || !IsSpace(t[0])
    ensures Collapse(a + t) == " " + Collapse(t)
  {
    assert (a + t)[0] == a[0];
    assert (a + t)[1..] == a[1..] + t;
    LStripSpaces(a[1..], t);
  }

  /** From a non-whitespace start, the substitution gives the words joined
      by single spaces, plus one space when the text ends in whitespace. */
  lemma {:induction false} CollapseWords(t: string)
    requires t == [] || !IsSpace(t[0])
    ensures Collapse(t) == Join(Words(t), ' ') + (if t != [] && IsSpace(t[|t| - 1]) then " " else "")
    decreases |t|
  {
    if t != [] {
      var w, a, v := WordStep(t);
      CollapseWord(w, a + v);
      if a == [] {
        assert v == [] && t == w;
        assert Words(v) == [];
        assert Collapse(t) == Join(Words(t), ' ');
      } else {
        CollapseRun(a, v);
        if v != [] {
          CollapseWords(v);
          JoinCons(w, Words(v), ' ');
          var post := if IsSpace(v[|v| - 1]) then " " else "";
          ConcatAssoc(w, " ", Join(Words(v), ' '), post);
          assert Collapse(t) == Join(Words(t), ' ') + post;
        } else {
          assert Words(v) == [];
          assert Collapse(t) == Join(Words(t), ' ') + " ";
        }
      }
    }
  }

  /** `norm_space(s)`: whitespace runs collapsed to one space, both ends
      stripped; `None` reads as "". */
  function NormSpace(s: Option<string>): (r: string)
    ensures Stripped(r) && SingleSpaced(r)
    ensures NonSpace(r) == NonSpace(OrEmpty(s))
  {
    var c := Collapse(OrEmpty(s));
    CollapseShape(OrEmpty(s));
    StripKeepsNonSpace(c);
    StripKeepsSpacing(c);
    Strip(c)
  }

  /** The substitution gives the words joined by single spaces, with at
      most one space in front and one behind. */
  lemma CollapseAround(x: string) returns (pre: string, post: string)
    ensures Collapse(x) == pre + Join(Words(x), ' ') + post
    ensures AllSpace(pre) && AllSpace(post)
  {
    var a, t := LeadingSpace(x);
    var j := Join(Words(t), ' ');
    post := if t != [] && IsSpace(t[|t| - 1]) then " " else "";
    pre := if a != [] then " " else "";
    CollapseWords(t);
    ConcatAssoc3(pre, j, post);
    OneSpace(pre);
    OneSpace(post);
    if a != [] {
      CollapseRun(a, t);
    } else {
      assert x == t;
    }
  }

  lemma OneSpace(s: string)
    requires s == " " || s == ""
    ensures AllSpace(s)
  {
  }

  /** `norm_space(s)` is `" ".join(s.split())`: the whitespace-separated
      words of the text, in order, with one space between neighbours. */
  lemma NormSpaceWords(s: Option<string>)
    ensures NormSpace(s) == Join(Words(OrEmpty(s)), ' ')
  {
    var x := OrEmpty(s);
    var pre, post := CollapseAround(x);
    WordsShape(x);
    JoinWordsStripped(Words(x));
    StripAround(pre, Join(Words(x), ' '), post);
  }

  /** A normalised title is empty exactly when the input held only whitespace. */
  lemma NormSpaceEmptyIff(s: Option<string>)
    ensures NormSpace(s) == [] <==> AllSpace(OrEmpty(s))
  {
    var r := NormSpace(s);
    NonSpaceEmptyIff(r);
    NonSpaceEmptyIff(OrEmpty(s));
    assert r != [] ==> !IsSpace(r[0]);
  }

  lemma NormSpaceIdempotent(s: Option<string>)
    ensures NormSpace(Some(NormSpace(s))) == NormSpace(s)
  {
    var r := NormSpace(s);
    CollapseSingleSpaced(r);
    StripOfStripped(r);
  }

  // ---------------------------------------------------------------------
  // ok_url

  /** `ok_url(u)` when `DOMAINS` is `domains`. */
  function OkUrl(u: Option<string>, domains: seq<string>): (b: bool)
    ensures b <==>
      && u.Some? && u.value != [] && |u.value| <= MaxUrlLength
      && (forall k :: 0 <= k < |BadPath| ==> !Contains(Lower(u.value), BadPath[k]))
      && (domains == [] || exists k :: 0 <= k < |domains| && Contains(Lower(u.value), domains[k]))
  {
    if u.None? || u.value == [] || |u.value| > MaxUrlLength then false
    else
      var low := Lower(u.value);
      if AnyContained(BadPath, low) then false
      else if domains != [] then AnyContained(domains, low)
      else true
  }

  lemma ContainsTrans(s: string, t: string, x: string)
    requires Contains(s, t) && Contains(t, x)
    ensures Contains(s, x)
  {
    var i :| OccursAt(s, t, i);
    var j :| OccursAt(t, x, j);
    assert forall m :: 0 <= m < |x| ==> s[i + j + m] == t[j + m] == x[m];
    assert OccursAt(s, x, i + j);
  }

  /** The gate looks at the whole URL: "enter" in the list rejects any URL
      that mentions "center", in the host as well as in the path. */
  lemma OkUrlRejectsCenter(u: string, domains: seq<string>)
    requires Contains(Lower(u), "center")
    ensures !OkUrl(Some(u), domains)
  {
    assert OccursAt("center", "enter", 1);
    ContainsTrans(Lower(u), "center", BadPath[11]);
  }

  /** A domain list only ever narrows the gate. */
  lemma OkUrlDomainsNarrow(u: Option<string>, domains: seq<string>)
    ensures OkUrl(u, domains) ==> OkUrl(u, [])
  {
  }

  // ---------------------------------------------------------------------
  // extract_price

  lemma Token2HasDigit(t: string)
    requires PriceRx.Token2(t)
    ensures exists k :: 0 <= k < |t| && IsDigit(t[k])
  {
    var p := PriceRx.PrefixLen2(t);
    if PriceRx.Amount(t[p..], PriceRx.Seps2, PriceRx.Seps2) {
      PriceRx.AmountHasDigit(t[p..], PriceRx.Seps2, PriceRx.Seps2);
      assert IsDigit(t[p]);
    } else if PriceRx.LongNumber(t[p..]) {
      PriceRx.LongNumberHasDigit(t[p..]);
      assert IsDigit(t[p]);
    } else if PriceRx.Amount(t[p + 1..], PriceRx.Seps2, PriceRx.Seps2) {
      PriceRx.AmountHasDigit(t[p + 1..], PriceRx.Seps2, PriceRx.Seps2);
      assert IsDigit(t[p + 1]);
    } else {
      PriceRx.LongNumberHasDigit(t[p + 1..]);
      assert IsDigit(t[p + 1]);
    }
  }

  /** `extract_price(txt)`: the text of the leftmost match of the pattern, if any. */
  function ExtractPrice(txt: Option<string>): Option<string>
  {
    PriceRx.FindText(PriceRx.CrawlerV2, OrEmpty(txt))
  }

  /** What `extract_price` returns starts with R$, US$, € or £, holds a digit
      and occurs in the text; it returns None only when no substring matches. */
  lemma ExtractPriceSpec(txt: Option<string>)
    ensures var r := ExtractPrice(txt);
            r.Some? ==> PriceRx.PrefixLen2(r.value) > 0 && PriceRx.Token2(r.value)
    ensures var r := ExtractPrice(txt);
            r.Some? ==> exists k :: 0 <= k < |r.value| && IsDigit(r.value[k])
    ensures var r := ExtractPrice(txt);
            r.Some? ==> Contains(OrEmpty(txt), r.value)
    ensures ExtractPrice(txt).None? ==>
              forall i, e :: 0 <= i <= e <= |OrEmpty(txt)| ==> !PriceRx.Token2(OrEmpty(txt)[i..e])
  {
    var s := OrEmpty(txt);
    PriceRx.Search2Spec(s);
    var found := PriceRx.FindText(PriceRx.CrawlerV2, s);
    if found.Some? {
      PriceRx.FindTextOccurs(PriceRx.CrawlerV2, s);
      Token2HasDigit(found.value);
    }
  }

  /** `extract_price` finds nothing exactly when no substring of the text is
      a money amount. */
  lemma ExtractPriceNoneIff(txt: Option<string>)
    ensures ExtractPrice(txt).None? <==>
              forall i, e :: 0 <= i <= e <= |OrEmpty(txt)| ==> !PriceRx.Token2(OrEmpty(txt)[i..e])
  {
    ExtractPriceSpec(txt);
    var found := ExtractPrice(txt);
    if found.Some? {
      OccurrenceWitness(OrEmpty(txt), found.value, PriceRx.Token2);
    }
  }

  /** A string with property `p` that occurs in `s` is a substring of `s` with `p`. */
  lemma OccurrenceWitness(s: string, t: string, p: string -> bool)
    requires Contains(s, t) && p(t)
    ensures exists i, e :: 0 <= i <= e <= |s| && p(s[i..e])
  {
    var i :| OccursAt(s, t, i);
    assert p(s[i..i + |t|]);
  }

  /** The `\d{1,3}` alternative is tried first and wins: "R$ 1234" yields "R$ 123". */
  lemma ExtractPriceFourDigits(rest: string)
    ensures ExtractPrice(Some("R$ 1234" + rest)) == Some("R$ 123")
  {
    var s := "R$ 1234" + rest;
    assert s[..7] == "R$ 1234";
    assert PriceRx.PrefixLen2(s[0..]) == 2;
    assert PriceRx.DigitRun(s, 3, 3) == 3;
    assert !PriceRx.GroupAt(s, 6, PriceRx.Seps2) && !PriceRx.CentsAt(s, 6, PriceRx.Seps2);
    assert PriceRx.MatchEnd2(s, 0) == Some(6);
    assert PriceRx.Search(PriceRx.CrawlerV2, s) == Some((0, 6));
    assert s[0..6] == "R$ 123";
  }

  // ---------------------------------------------------------------------
  // The world a run talks to

  /** `requests.get` followed by `raise_for_status()`: the exception's text, or the body. */
  datatype Response = Raised(error: string) | Body(text: string)

  /** One `<a>` of a result page: its `href` attribute and `get_text()`. */
  datatype Anchor = Anchor(href: Option<string>, text: string)

  /** A result page: what the Bing selector list and the DuckDuckGo one select, in document order. */
  datatype Serp = Serp(primary: seq<Anchor>, fallback: seq<Anchor>)

  /** What `fetch_product_page` reads from a product page.
      `titleTag` is `soup.title`, holding its `.string`; `ogTitle` and
      `metaPrice` are the `content` attribute of the first matching `<meta>`
      (None when there is none or it lacks the attribute); `h1` and `h2` are
      the text of the first such element; `text` is `get_text(" ", strip=True)`. */
  datatype ProductSoup = ProductSoup(
    titleTag: Option<Option<string>>,
    ogTitle: Option<string>,
    h1: Option<string>,
    h2: Option<string>,
    metaPrice: Option<string>,
    text: string)

  datatype World = World(
    quote: string -> string,
    get: string -> Response,
    serp: string -> Serp,
    product: string -> ProductSoup)

  /** An entry of `search_once`'s result. */
  datatype Hit = Hit(title: string, url: string)

  /** `fetch_product_page`'s dict: failed, or the page's title and price. */
  datatype Page =
    | FailedPage(url: string, error: string)
    | ProductPage(url: string, title: Option<string>, price: Option<string>)

  /** A page dict after `crawl_queries` adds "query" and "hit_title". */
  datatype Entry = Entry(page: Page, query: string, hitTitle: string)

  // ---------------------------------------------------------------------
  // search_once

  /** The hit one anchor gives: one when `ok_url` accepts its `href`, with
      the normalised link text. */
  function AnchorHit(a: Anchor): Option<Hit> {
    if OkUrl(a.href, Domains) then Some(Hit(NormSpace(Some(a.text)), a.href.value)) else None
  }

  /** The hits `f` gives for the anchors, in order. */
  function Picked(f: Anchor -> Option<Hit>, anchors: seq<Anchor>): seq<Hit>
  {
    if anchors == [] then []
    else
      var y := f(anchors[|anchors| - 1]);
      Picked(f, anchors[..|anchors| - 1]) + (if y.Some? then [y.value] else [])
  }

  /** The hits the anchors yield before the cap. */
  function OkHits(anchors: seq<Anchor>): seq<Hit>
  {
    Picked(AnchorHit, anchors)
  }

  lemma {:induction false} PickedAppend(f: Anchor -> Option<Hit>, xs: seq<Anchor>, ys: seq<Anchor>)
    ensures Picked(f, xs + ys) == Picked(f, xs) + Picked(f, ys)
    decreases |ys|
  {
    if ys == [] {
      assert xs + ys == xs;
    } else {
      assert (xs + ys)[..|xs + ys| - 1] == xs + ys[..|ys| - 1];
      PickedAppend(f, xs, ys[..|ys| - 1]);
    }
  }

  /** A hit is picked exactly when some anchor gives it. */
  lemma {:induction false} PickedMembers(f: Anchor -> Option<Hit>, anchors: seq<Anchor>)
    ensures forall h :: h in Picked(f, anchors) <==> exists k :: 0 <= k < |anchors| && f(anchors[k]) == Some(h)
    decreases |anchors|
  {
    if anchors != [] {
      var init := anchors[..|anchors| - 1];
      PickedMembers(f, init);
      forall h | h in Picked(f, anchors)
        ensures exists k :: 0 <= k < |anchors| && f(anchors[k]) == Some(h)
      {
        if h in Picked(f, init) {
          var k :| 0 <= k < |init| && f(init[k]) == Some(h);
          assert anchors[k] == init[k];
        } else {
          assert f(anchors[|anchors| - 1]) == Some(h);
        }
      }
      forall h | exists k :: 0 <= k < |anchors| && f(anchors[k]) == Some(h)
        ensures h in Picked(f, anchors)
      {
        var k :| 0 <= k < |anchors| && f(anchors[k]) == Some(h);
        if k < |init| {
          assert anchors[k] == init[k];
        }
      }
    }
  }

  /** A hit is exactly an anchor that passes `ok_url`, with its text normalised. */
  lemma OkHitsSpec(anchors: seq<Anchor>)
    ensures forall h :: h in OkHits(anchors) <==>
      exists k :: 0 <= k < |anchors| && OkUrl(anchors[k].href, Domains)
                  && h == Hit(NormSpace(Some(anchors[k].text)), anchors[k].href.value)
  {
    PickedMembers(AnchorHit, anchors);
  }

  /** Every hit's URL passes `ok_url`. */
  lemma OkHitsUrls(anchors: seq<Anchor>)
    ensures forall k :: 0 <= k < |OkHits(anchors)| ==> OkUrl(Some(OkHits(anchors)[k].url), Domains)
  {
    PickedMembers(AnchorHit, anchors);
    forall k | 0 <= k < |OkHits(anchors)|
      ensures OkUrl(Some(OkHits(anchors)[k].url), Domains)
    {
      var h := OkHits(anchors)[k];
      assert h in Picked(AnchorHit, anchors);
      var j :| 0 <= j < |anchors| && AnchorHit(anchors[j]) == Some(h);
    }
  }

  lemma OkHitsStep(anchors: seq<Anchor>, i: nat)
    requires i < |anchors|
    ensures OkHits(anchors[..i + 1]) == OkHits(anchors[..i])
      + (if OkUrl(anchors[i].href, Domains) then [Hit(NormSpace(Some(anchors[i].text)), anchors[i].href.value)] else [])
  {
    assert anchors[..i + 1][..i] == anchors[..i];
  }

  /** Stopping once `MaxHits` hits are collected returns the capped list. */
  lemma OkHitsCapped(anchors: seq<Anchor>, i: nat)
    requires i <= |anchors| && |OkHits(anchors[..i])| == MaxHits
    ensures Take(OkHits(anchors), MaxHits) == OkHits(anchors[..i])
  {
    PickedAppend(AnchorHit, anchors[..i], anchors[i..]);
    assert anchors[..i] + anchors[i..] == anchors;
    TakeLonger(OkHits(anchors[..i]), OkHits(anchors[i..]), MaxHits);
  }

  /** The selector list `search_once` reads: the DuckDuckGo one only when Bing's selects nothing. */
  function Results(s: Serp): seq<Anchor>
  {
    if s.primary != [] then s.primary else s.fallback
  }

  /** What `search_once(query)` returns when engine `pick` is chosen. */
  function SearchHits(w: World, query: string, pick: nat): Result<seq<Hit>>
    requires pick < |Engines|
  {
    match w.get(Engines[pick] + w.quote(query))
    case Raised(e) => Failure(e)
    case Body(text) => Success(Take(OkHits(Results(w.serp(text))), MaxHits))
  }

  /** Hit `h` is what one of the anchors gives: one whose `href` passes
      `ok_url`, with its text normalised. */
  predicate FromAnchor(h: Hit, anchors: seq<Anchor>) {
    exists k :: 0 <= k < |anchors| && OkUrl(anchors[k].href, Domains)
                && anchors[k].href == Some(h.url) && h.title == NormSpace(Some(anchors[k].text))
  }

  /** A search fails exactly when its request raises; it returns at most
      `MaxHits` hits, each of whose URL `ok_url` accepts. The hits come from
      the Bing selectors whenever those select anything, and from the
      DuckDuckGo ones only otherwise. */
  lemma SearchHitsSpec(w: World, query: string, pick: nat)
    requires pick < |Engines|
    ensures SearchHits(w, query, pick).Failure? <==> w.get(Engines[pick] + w.quote(query)).Raised?
    ensures SearchHits(w, query, pick).Success? ==> |SearchHits(w, query, pick).value| <= MaxHits
    ensures SearchHits(w, query, pick).Success? ==>
      forall k :: 0 <= k < |SearchHits(w, query, pick).value| ==>
        OkUrl(Some(SearchHits(w, query, pick).value[k].url), Domains)
    ensures var response := w.get(Engines[pick] + w.quote(query));
      response.Body? && w.serp(response.text).primary != [] ==>
        forall h :: h in SearchHits(w, query, pick).value ==> FromAnchor(h, w.serp(response.text).primary)
    ensures var response := w.get(Engines[pick] + w.quote(query));
      response.Body? && w.serp(response.text).primary == [] ==>
        forall h :: h in SearchHits(w, query, pick).value ==> FromAnchor(h, w.serp(response.text).fallback)
  {
    var response := w.get(Engines[pick] + w.quote(query));
    if response.Body? {
      var results := Results(w.serp(response.text));
      OkHitsUrls(results);
      OkHitsSpec(results);
      var hits := Take(OkHits(results), MaxHits);
      forall h | h in hits
        ensures FromAnchor(h, results)
      {
        assert h in OkHits(results);
      }
    }
  }

  /** `search_once(query)`: the first `MaxHits` hits of the selected anchors;
      a failed request raises. */
  method SearchOnce(w: World, query: string, pick: nat) returns (r: Result<seq<Hit>>)
    requires pick < |Engines|
    ensures r == SearchHits(w, query, pick)
  {
    var response := w.get(Engines[pick] + w.quote(query));
    if response.Raised? {
      return Failure(response.error);
    }
    var results := Results(w.serp(response.text));
    var out: seq<Hit> := [];
    var i := 0;
    while i < |results|
      invariant 0 <= i <= |results|
      invariant out == OkHits(results[..i]) && |out| < MaxHits
    {
      var a := results[i];
      var title := NormSpace(Some(a.text));
      OkHitsStep(results, i);
      if !OkUrl(a.href, Domains) {
        i := i + 1;
        continue;
      }
      out := out + [Hit(title, a.href.value)];
      if |out| >= MaxHits {
        OkHitsCapped(results, i + 1);
        return Success(out);
      }
      i := i + 1;
    }
    assert results[..i] == results;
    r := Success(out);
  }

  // ---------------------------------------------------------------------
  // fetch_product_page

  /** `title` after line 87: `norm_space(og or soup.title.string)` when the
      page has a `<title>`, else "". */
  function HeadTitle(soup: ProductSoup): string
  {
    match soup.titleTag
    case None => ""
    case Some(titleString) =>
      NormSpace(if soup.ogTitle.Some? && soup.ogTitle.value != [] then soup.ogTitle else titleString)
  }

  /** The title `fetch_product_page` reports: the head's title, else the first
      `<h1>`'s text, else the first `<h2>`'s, normalised; None when empty. */
  function PageTitle(soup: ProductSoup): (r: Option<string>)
    ensures r.Some? ==> r.value != [] && Stripped(r.value) && SingleSpaced(r.value)
  {
    var head := HeadTitle(soup);
    var title :=
      if head != [] then head
      else
        var h := if soup.h1.Some? then soup.h1 else soup.h2;
        if h.Some? then NormSpace(h) else "";
    if title == [] then None else Some(title)
  }

  /** The precedence of the title sources. The `og:title` content is only
      read when the page has a `<title>` element, and the `<title>` string
      only when `og:title` is missing or empty. A head title that normalises
      to "" falls to the `<h1>` text, and to an `<h2>` only when the page has
      no `<h1>` at all, even one whose text normalises to "". */
  lemma PageTitlePrecedence(soup: ProductSoup)
    ensures soup.titleTag.None? && soup.h1.Some? ==> PageTitle(soup) == NonEmpty(NormSpace(soup.h1))
    ensures soup.titleTag.None? && soup.h1.None? ==> PageTitle(soup) == NonEmpty(NormSpace(soup.h2))
    ensures soup.titleTag.Some? && soup.ogTitle.Some? && NormSpace(soup.ogTitle) != [] ==>
              PageTitle(soup) == Some(NormSpace(soup.ogTitle))
    ensures PageTitle(soup).None? <==>
              HeadTitle(soup) == [] && NormSpace(if soup.h1.Some? then soup.h1 else soup.h2) == []
    ensures HeadTitle(soup) != [] ==> PageTitle(soup) == Some(HeadTitle(soup))
    ensures HeadTitle(soup) == [] ==>
              PageTitle(soup) == NonEmpty(NormSpace(if soup.h1.Some? then soup.h1 else soup.h2))
    ensures soup.titleTag.Some? && !(soup.ogTitle.Some? && soup.ogTitle.value != []) ==>
              HeadTitle(soup) == NormSpace(soup.titleTag.value)
  {
    if soup.titleTag.Some? && soup.ogTitle.Some? && NormSpace(soup.ogTitle) != [] {
      assert soup.ogTitle.value != [];
    }
  }

  /** `x or None` for a string. */
  function NonEmpty(x: string): (r: Option<string>)
    ensures r.None? <==> x == []
    ensures r.Some? ==> r.value == x
  {
    if x == [] then None else Some(x)
  }

  /** The price `fetch_product_page` reports: a non-empty meta price wins,
      else the first money amount in the page text. */
  function PagePrice(soup: ProductSoup): Option<string>
  {
    if soup.metaPrice.Some? && soup.metaPrice.value != [] then soup.metaPrice
    else ExtractPrice(Some(soup.text))
  }

  /** The reported price: the meta price whenever its content is non-empty,
      kept as written; otherwise a money amount (a currency prefix, then a
      number) that occurs in the page text. It is None exactly when there is
      no such meta content and no substring of the text is a money amount. */
  lemma PagePriceSpec(soup: ProductSoup)
    ensures soup.metaPrice.Some? && soup.metaPrice.value != [] ==> PagePrice(soup) == soup.metaPrice
    ensures !(soup.metaPrice.Some? && soup.metaPrice.value != []) && PagePrice(soup).Some? ==>
              PriceRx.PrefixLen2(PagePrice(soup).value) > 0 && PriceRx.Token2(PagePrice(soup).value)
              && Contains(soup.text, PagePrice(soup).value)
    ensures PagePrice(soup).None? <==>
              !(soup.metaPrice.Some? && soup.metaPrice.value != [])
              && forall i, e :: 0 <= i <= e <= |soup.text| ==> !PriceRx.Token2(soup.text[i..e])
  {
    ExtractPriceSpec(Some(soup.text));
    ExtractPriceNoneIff(Some(soup.text));
  }

  /** `fetch_product_page(u)`. */
  function FetchProductPage(w: World, u: string): (r: Page)
    ensures r.url == u
    ensures r.FailedPage? <==> w.get(u).Raised?
  {
    match w.get(u)
    case Raised(e) => FailedPage(u, e)
    case Body(text) =>
      var soup := w.product(text);
      ProductPage(u, PageTitle(soup), PagePrice(soup))
  }

  // ---------------------------------------------------------------------
  // crawl_queries

  /** The entries for the hits of query `q`, in hit order. */
  function QueryEntries(w: World, q: string, hits: seq<Hit>): seq<Entry>
  {
    if hits == [] then []
    else
      var h := hits[|hits| - 1];
      QueryEntries(w, q, hits[..|hits| - 1]) + [Entry(FetchProductPage(w, h.url), q, h.title)]
  }

  /** One entry per hit, in order: the hit's fetched page, the query and the hit's title. */
  lemma {:induction false} QueryEntriesSpec(w: World, q: string, hits: seq<Hit>)
    ensures |QueryEntries(w, q, hits)| == |hits|
    ensures forall k :: 0 <= k < |hits| ==>
      QueryEntries(w, q, hits)[k] == Entry(FetchProductPage(w, hits[k].url), q, hits[k].title)
    decreases |hits|
  {
    if hits != [] {
      var init := hits[..|hits| - 1];
      QueryEntriesSpec(w, q, init);
      assert forall k :: 0 <= k < |init| ==> init[k] == hits[k];
    }
  }

  predicate PicksOk(picks: seq<nat>) {
    forall k :: 0 <= k < |picks| ==> picks[k] < |Engines|
  }

  /** What one query contributes: the entries for its hits, or the error of its search. */
  function Outcome(w: World, q: string, pick: nat): Result<seq<Entry>>
    requires pick < |Engines|
  {
    match SearchHits(w, q, pick)
    case Failure(e) => Failure(e)
    case Success(hits) => Success(QueryEntries(w, q, hits))
  }

  /** The outcome of each query, engine `picks[k]` serving query `k`. */
  function Outcomes(w: World, queries: seq<string>, picks: seq<nat>): (r: seq<Result<seq<Entry>>>)
    requires |picks| == |queries| && PicksOk(picks)
    ensures |r| == |queries|
  {
    seq(|queries|, k requires 0 <= k < |queries| => Outcome(w, queries[k], picks[k]))
  }

  /** The outcomes run in order: their entries concatenated, or the first error. */
  function Gathered(outs: seq<Result<seq<Entry>>>): Result<seq<Entry>>
  {
    if outs == [] then Success([])
    else
      match Gathered(outs[..|outs| - 1])
      case Failure(e) => Failure(e)
      case Success(prev) =>
        match outs[|outs| - 1]
        case Failure(e) => Failure(e)
        case Success(es) => Success(prev + es)
  }

  /** What `crawl_queries(queries)` returns; the first failed search aborts the whole call. */
  function Crawled(w: World, queries: seq<string>, picks: seq<nat>): Result<seq<Entry>>
    requires |picks| == |queries| && PicksOk(picks)
  {
    Gathered(Outcomes(w, queries, picks))
  }

  /** Gathering fails exactly when one of the outcomes is a failure. */
  lemma {:induction false} GatheredFailsIff(outs: seq<Result<seq<Entry>>>)
    ensures Gathered(outs).Failure? <==> exists k :: 0 <= k < |outs| && outs[k].Failure?
    decreases |outs|
  {
    if outs != [] {
      var init := outs[..|outs| - 1];
      GatheredFailsIff(init);
      if Gathered(init).Failure? {
        var k :| 0 <= k < |init| && init[k].Failure?;
        assert outs[k].Failure?;
      }
      assert forall k :: 0 <= k < |init| ==> init[k] == outs[k];
    }
  }

  /** The call fails exactly when one of its searches does. */
  lemma CrawledFailsIff(w: World, queries: seq<string>, picks: seq<nat>)
    requires |picks| == |queries| && PicksOk(picks)
    ensures Crawled(w, queries, picks).Failure? <==>
      exists k :: 0 <= k < |queries| && SearchHits(w, queries[k], picks[k]).Failure?
  {
    var outs := Outcomes(w, queries, picks);
    GatheredFailsIff(outs);
    assert forall k :: 0 <= k < |queries| ==>
      (outs[k].Failure? <==> SearchHits(w, queries[k], picks[k]).Failure?);
  }

  lemma QueryEntriesStep(w: World, q: string, hits: seq<Hit>, j: nat)
    requires j < |hits|
    ensures QueryEntries(w, q, hits[..j + 1])
      == QueryEntries(w, q, hits[..j]) + [Entry(FetchProductPage(w, hits[j].url), q, hits[j].title)]
  {
    assert hits[..j + 1][..j] == hits[..j];
  }

  /** A successful outcome appends its entries. */
  lemma GatheredStep(outs: seq<Result<seq<Entry>>>, i: nat, prev: seq<Entry>, es: seq<Entry>)
    requires i < |outs| && Gathered(outs[..i]) == Success(prev) && outs[i] == Success(es)
    ensures Gathered(outs[..i + 1]) == Success(prev + es)
  {
    assert outs[..i + 1][..i] == outs[..i];
  }

  /** A failed outcome after a successful prefix is the error of the whole. */
  lemma GatheredStepFails(outs: seq<Result<seq<Entry>>>, i: nat)
    requires i < |outs| && Gathered(outs[..i]).Success? && outs[i].Failure?
    ensures Gathered(outs) == Failure(outs[i].error)
  {
    assert outs[..i + 1][..i] == outs[..i];
    GatheredPrefixFails(outs, i + 1);
  }

  /** Once a prefix of the outcomes fails, the whole fails with its error. */
  lemma {:induction false} GatheredPrefixFails(outs: seq<Result<seq<Entry>>>, i: nat)
    requires i <= |outs| && Gathered(outs[..i]).Failure?
    ensures Gathered(outs) == Gathered(outs[..i])
    decreases |outs|
  {
    if i < |outs| {
      var n := |outs| - 1;
      assert outs[..n][..i] == outs[..i];
      GatheredPrefixFails(outs[..n], i);
    } else {
      assert outs[..i] == outs;
    }
  }

  /** The inner loop of `crawl_queries`: one entry per hit appended to `all0`,
      the fetched page tagged with the query and the hit's title. */
  method AppendEntries(w: World, q: string, hits: seq<Hit>, all0: seq<Entry>) returns (all: seq<Entry>)
    ensures all == all0 + QueryEntries(w, q, hits)
  {
    all := all0;
    var j := 0;
    while j < |hits|
      invariant 0 <= j <= |hits|
      invariant all == all0 + QueryEntries(w, q, hits[..j])
    {
      var info := FetchProductPage(w, hits[j].url);
      QueryEntriesStep(w, q, hits, j);
      all := all + [Entry(info, q, hits[j].title)];
      j := j + 1;
    }
    assert hits[..j] == hits;
  }

  /** `crawl_queries(queries)`, engine `picks[k]` serving query `k`. */
  method CrawlQueries(w: World, queries: seq<string>, picks: seq<nat>) returns (r: Result<seq<Entry>>)
    requires |picks| == |queries| && PicksOk(picks)
    ensures r == Crawled(w, queries, picks)
  {
    ghost var outs := Outcomes(w, queries, picks);
    var all: seq<Entry> := [];
    var i := 0;
    while i < |queries|
      invariant 0 <= i <= |queries|
      invariant Gathered(outs[..i]) == Success(all)
    {
      var q := queries[i];
      var found := SearchOnce(w, q, picks[i]);
      assert outs[i] == Outcome(w, q, picks[i]);
      if found.Failure? {
        GatheredStepFails(outs, i);
        return Failure(found.error);
      }
      var hits := found.value;
      ghost var prev := all;
      all := AppendEntries(w, q, hits, all);
      GatheredStep(outs, i, prev, QueryEntries(w, q, hits));
      i := i + 1;
    }
    assert outs[..i] == outs;
    r := Success(all);
  }
}
