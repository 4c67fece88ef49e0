/** migrate_wc.py: pushes the rows of a product CSV (WooCommerce export
    columns) to a WooCommerce store, creating categories and tags on the way.

    The store is not modelled: what its searches answer is given as
    functions, and each operation returns the write it would send. The CSV
    download, the credentials check of `run()` and the `SystemExit` of
    `api()` on an error status are left out. `html.unescape`, which needs
    the whole HTML5 entity table, is a function argument; `html.escape` is
    modelled exactly. */
module MigrateWc {
  import opened PyStr

  const DefaultCategory: string := "Afiliados"

  // ---------------------------------------------------------------------
  // Name lists

  /** `[x.strip() for x in (cell or "").split(",") if x.strip()]`. */
  function CellNames(cell: Option<string>): seq<string> {
    NonBlankPieces(OrEmpty(cell), ',')
  }

  /** The category names of `ensure_categories(cell)`: the cell's names, or
      the default category when it names none. */
  function CategoryNames(cell: Option<string>): seq<string> {
    var names := CellNames(cell);
    if names == [] then [DefaultCategory] else names
  }

  /** The tag names of `ensure_tags(cell)`: the cell's names, with no default. */
  function TagNames(cell: Option<string>): seq<string> {
    CellNames(cell)
  }

  /** The category list is never empty and holds the cell's names when it has
      any; the tag list may be empty. Every listed name is non-blank, stripped
      and comma-free. */
  lemma NamesSpec(cell: Option<string>)
    ensures CategoryNames(cell) != []
    ensures CellNames(cell) != [] ==> CategoryNames(cell) == CellNames(cell)
    ensures CellNames(cell) == [] ==> CategoryNames(cell) == ["Afiliados"]
    ensures forall k :: 0 <= k < |CategoryNames(cell)| ==> IsName(CategoryNames(cell)[k], ',')
    ensures forall k :: 0 <= k < |TagNames(cell)| ==> IsName(TagNames(cell)[k], ',')
    ensures cell.None? || (AllSpace(cell.value) && ',' !in cell.value) ==> TagNames(cell) == []
  {
    NonBlankPiecesShape(OrEmpty(cell), ',');
    if CellNames(cell) == [] {
      assert IsName(DefaultCategory, ',') by {
        assert Stripped(DefaultCategory);
      }
    }
    if cell.None? || (AllSpace(cell.value) && ',' !in cell.value) {
      NonBlankPiecesSingle(OrEmpty(cell), ',');
    }
  }

  /** Names on either side of a comma are listed in cell order. */
  lemma CellNamesAppend(a: string, b: string)
    ensures CellNames(Some(a + "," + b)) == CellNames(Some(a)) + CellNames(Some(b))
  {
    assert a + "," + b == a + [','] + b;
    NonBlankPiecesAppend(a, b, ',');
  }

  // ---------------------------------------------------------------------
  // ensure_category / ensure_tag

  /** A category or tag as the store's search lists it. */
  datatype Term = Term(id: int, name: string)

  /** What `ensure_category(name)` or `ensure_tag(name)` does: reuse the id of
      the first search hit, or create a term with that name. */
  datatype TermChoice = Reuse(id: int) | CreateTerm(name: string)

  /** `name.lower() == other.lower()`, on ASCII letters. */
  predicate SameName(a: string, b: string) {
    Lower(a) == Lower(b)
  }

  /** The decision of `ensure_category(name)` / `ensure_tag(name)` when the
      search for `name` lists `hits`. */
  function EnsureTerm(name: string, hits: seq<Term>): TermChoice {
    if hits != [] && SameName(hits[0].name, name) then Reuse(hits[0].id) else CreateTerm(name)
  }

  /** ASCII lower-casing is idempotent. */
  lemma LowerIdempotent(s: string)
    ensures Lower(Lower(s)) == Lower(s)
  {
    forall i | 0 <= i < |s| ensures Lower(Lower(s))[i] == Lower(s)[i] {
      assert Lower(s)[i] == LowerChar(s[i]);
    }
  }

  /** Only the first hit is looked at; it is reused exactly when its name equals
      the requested one up to case, and a name that differs only in case makes
      the same decision. */
  lemma EnsureTermSpec(name: string, other: string, hits: seq<Term>)
    ensures EnsureTerm(name, hits).Reuse? <==> hits != [] && Lower(hits[0].name) == Lower(name)
    ensures EnsureTerm(name, hits).Reuse? ==> EnsureTerm(name, hits).id == hits[0].id
    ensures EnsureTerm(name, hits).CreateTerm? ==> EnsureTerm(name, hits).name == name
    ensures hits != [] && hits[0].name == name ==> EnsureTerm(name, hits) == Reuse(hits[0].id)
    ensures Lower(other) == Lower(name) ==> EnsureTerm(other, hits).Reuse? == EnsureTerm(name, hits).Reuse?
    ensures hits != [] ==> EnsureTerm(Lower(hits[0].name), hits) == Reuse(hits[0].id)
  {
    if hits != [] {
      LowerIdempotent(hits[0].name);
    }
  }

  /** `ensure_categories(cell)` / `ensure_tags(cell)`: one decision per name, in order. */
  function EnsureTerms(names: seq<string>, search: string -> seq<Term>): seq<TermChoice>
  {
    seq(|names|, k requires 0 <= k < |names| => EnsureTerm(names[k], search(names[k])))
  }

  /** Each name gets its own decision, in order: the id of the first hit of
      that name's search when the hit's name equals it up to case, and
      otherwise a new term under exactly that name. */
  lemma EnsureTermsSpec(names: seq<string>, search: string -> seq<Term>)
    ensures |EnsureTerms(names, search)| == |names|
    ensures forall k :: 0 <= k < |names| ==>
              (EnsureTerms(names, search)[k].Reuse? <==>
                 search(names[k]) != [] && Lower(search(names[k])[0].name) == Lower(names[k]))
    ensures forall k :: 0 <= k < |names| && EnsureTerms(names, search)[k].Reuse? ==>
              EnsureTerms(names, search)[k].id == search(names[k])[0].id
    ensures forall k :: 0 <= k < |names| && EnsureTerms(names, search)[k].CreateTerm? ==>
              EnsureTerms(names, search)[k].name == names[k]
  {
    forall k | 0 <= k < |names|
      ensures EnsureTerms(names, search)[k] == EnsureTerm(names[k], search(names[k]))
    {
      EnsureTermSpec(names[k], names[k], search(names[k]));
    }
  }

  // ---------------------------------------------------------------------
  // parse_images

  datatype Image = Image(src: string)

  /** `parse_images(cell)`. */
  function ParseImages(cell: Option<string>): seq<Image> {
    var urls := CellNames(cell);
    seq(|urls|, k requires 0 <= k < |urls| => Image(urls[k]))
  }

  /** One image per non-blank comma-separated piece, its source stripped, in
      order; None and "" give none. */
  lemma ParseImagesSpec(cell: Option<string>)
    ensures |ParseImages(cell)| == |CellNames(cell)|
    ensures forall k :: 0 <= k < |ParseImages(cell)| ==>
      ParseImages(cell)[k].src == CellNames(cell)[k] && IsName(ParseImages(cell)[k].src, ',')
    ensures cell.None? || cell.value == "" ==> ParseImages(cell) == []
  {
    NonBlankPiecesShape(OrEmpty(cell), ',');
    if cell.None? || cell.value == "" {
      NonBlankPiecesSingle("", ',');
    }
  }

  /** Images on either side of a comma come in cell order. */
  lemma ParseImagesAppend(a: string, b: string)
    ensures ParseImages(Some(a + "," + b)) == ParseImages(Some(a)) + ParseImages(Some(b))
  {
    CellNamesAppend(a, b);
  }

  // ---------------------------------------------------------------------
  // html.escape and fallback_description

  /** `html.escape` of one character (with `quote=True`). */
  function EscapeChar(c: char): string {
    if c == '&' then "&amp;"
    else if c == '<' then "&lt;"
    else if c == '>' then "&gt;"
    else if c == '"' then "&quot;"
    else if c == '\'' then "&#x27;"
    else [c]
  }

  /** `html.escape(s)`. */
  function HtmlEscape(s: string): string {
    if s == [] then [] else EscapeChar(s[0]) + HtmlEscape(s[1..])
  }

  /** Decodes the five references `html.escape` writes and nothing else. */
  function UnescapeFive(s: string): string
    decreases |s|
  {
    if s == [] then []
    else if StartsWith(s, "&amp;") then "&" + UnescapeFive(s[5..])
    else if StartsWith(s, "&lt;") then "<" + UnescapeFive(s[4..])
    else if StartsWith(s, "&gt;") then ">" + UnescapeFive(s[4..])
    else if StartsWith(s, "&quot;") then "\"" + UnescapeFive(s[6..])
    else if StartsWith(s, "&#x27;") then "'" + UnescapeFive(s[6..])
    else [s[0]] + UnescapeFive(s[1..])
  }

  lemma StartsWithJoin(p: string, rest: string)
    ensures StartsWith(p + rest, p) && (p + rest)[|p|..] == rest
  {
    assert (p + rest)[..|p|] == p;
  }

  lemma StartsDiffer(s: string, p: string, i: nat)
    requires i < |s| && i < |p| && s[i] != p[i]
    ensures !StartsWith(s, p)
  {
  }

  /** The escape of one character followed by anything decodes to that character first. */
  lemma UnescapeFiveChar(c: char, rest: string)
    ensures UnescapeFive(EscapeChar(c) + rest) == [c] + UnescapeFive(rest)
  {
    var e := EscapeChar(c);
    var s := e + rest;
    StartsWithJoin(e, rest);
    assert s[0] == e[0];
    if c == '&' {
    } else if c == '<' {
      assert s[1] == 'l';
      StartsDiffer(s, "&amp;", 1);
    } else if c == '>' {
      assert s[1] == 'g';
      StartsDiffer(s, "&amp;", 1);
      StartsDiffer(s, "&lt;", 1);
    } else if c == '"' {
      assert s[1] == 'q';
      StartsDiffer(s, "&amp;", 1);
      StartsDiffer(s, "&lt;", 1);
      StartsDiffer(s, "&gt;", 1);
    } else if c == '\'' {
      assert s[1] == '#';
      StartsDiffer(s, "&amp;", 1);
      StartsDiffer(s, "&lt;", 1);
      StartsDiffer(s, "&gt;", 1);
      StartsDiffer(s, "&quot;", 1);
    } else {
      assert s[0] == c;
      StartsDiffer(s, "&amp;", 0);
      StartsDiffer(s, "&lt;", 0);
      StartsDiffer(s, "&gt;", 0);
      StartsDiffer(s, "&quot;", 0);
      StartsDiffer(s, "&#x27;", 0);
    }
  }

  /** Escaping loses nothing: decoding the five references gives the text back. */
  lemma {:induction false} HtmlEscapeRoundTrip(s: string)
    ensures UnescapeFive(HtmlEscape(s)) == s
    decreases |s|
  {
    if s != [] {
      HtmlEscapeRoundTrip(s[1..]);
      UnescapeFiveChar(s[0], HtmlEscape(s[1..]));
      assert s == [s[0]] + s[1..];
    }
  }

  /** The escaped text holds no markup character and no quote. */
  lemma {:induction false} HtmlEscapeSafe(s: string)
    ensures forall i :: 0 <= i < |HtmlEscape(s)| ==> HtmlEscape(s)[i] !in {'<', '>', '"', '\''}
    decreases |s|
  {
    if s != [] {
      HtmlEscapeSafe(s[1..]);
      var e, r := EscapeChar(s[0]), HtmlEscape(s[1..]);
      assert forall i :: 0 <= i < |e| ==> e[i] !in {'<', '>', '"', '\''};
      forall i | 0 <= i < |e + r| ensures (e + r)[i] !in {'<', '>', '"', '\''} {
        if i < |e| { assert (e + r)[i] == e[i]; } else { assert (e + r)[i] == r[i - |e|]; }
      }
    }
  }

  /** The text between the escaped name and the shortcode. */
  const FallbackMiddle: string :=
    " — oferta de parceiro. Clique em Comprar para ver detalhes na loja parceira.</p>\n\n"

  /** The content-egg shortcode for `name`, which embeds it unescaped. */
  function Shortcode(name: string): string {
    ShortcodeHead + name + ShortcodeTail
  }

  const ShortcodeHead: string := "[content-egg module=\"GoogleImages\" keyword=\""
  const ShortcodeTail: string := "\" limit=\"6\"]"

  /** `fallback_description(name)`. */
  function FallbackDescription(name: string): string {
    "<p>" + HtmlEscape(name) + FallbackMiddle + Shortcode(name)
  }

  /** The fallback opens a paragraph with the escaped name, which decodes back
      to the name, and ends with the shortcode holding the raw name. */
  lemma FallbackDescriptionSpec(name: string)
    ensures StartsWith(FallbackDescription(name), "<p>" + HtmlEscape(name))
    ensures EndsWith(FallbackDescription(name), Shortcode(name))
    ensures UnescapeFive(FallbackDescription(name)[3..3 + |HtmlEscape(name)|]) == name
  {
    Framed("<p>", HtmlEscape(name), FallbackMiddle, Shortcode(name));
    HtmlEscapeRoundTrip(name);
  }

  /** Where the parts of `p + e + m + c` sit. */
  lemma Framed(p: string, e: string, m: string, c: string)
    ensures StartsWith(p + e + m + c, p + e)
    ensures EndsWith(p + e + m + c, c)
    ensures (p + e + m + c)[|p|..|p| + |e|] == e
  {
    var d := p + e + m + c;
    assert d == (p + e) + (m + c);
    StartsWithJoin(p + e, m + c);
    assert d[|p|..|p| + |e|] == (p + e)[|p|..];
    assert d[|d| - |c|..] == c;
  }

  // ---------------------------------------------------------------------
  // upsert

  /** The `payload` dict. */
  datatype Payload = Payload(
    name: string,
    kind: string,
    regularPrice: Option<string>,
    externalUrl: Option<string>,
    buttonText: Option<string>,
    images: seq<Image>,
    categories: seq<TermChoice>,
    tags: seq<TermChoice>,
    description: string,
    shortDescription: string,
    catalogVisibility: string,
    status: string)

  /** What `upsert(row)` sends: nothing, a PUT of an existing product, or a POST. */
  datatype Action = Skip | Put(id: int, payload: Payload) | Post(payload: Payload)

  /** `(row.get(a) or row.get(b) or "").strip()`. */
  function Cell2(row: Row, a: string, b: string): string {
    Strip(Or(GetOr(row, a, ""), GetOr(row, b, "")))
  }

  /** The product name `upsert` reads: "Name", else "Nome". */
  function RowName(row: Row): string {
    Cell2(row, "Name", "Nome")
  }

  /** The short description used when the row has none. */
  function ShortTemplate(name: string): string {
    name + ShortTail
  }

  const ShortTail: string := " — produto afiliado. Compare o preço e compre com segurança."

  /** The store's answers `upsert` depends on: the term searches and the product search by name. */
  datatype Store = Store(
    searchCategories: string -> seq<Term>,
    searchTags: string -> seq<Term>,
    findByName: string -> Option<int>)

  /** The payload `upsert` builds for a row with a non-empty name. */
  function RowPayload(row: Row, unescape: string -> string, store: Store): Payload {
    var name := RowName(row);
    var price := Strip(GetOr(row, "Regular price", ""));
    var ext := Cell2(row, "External URL", "Link");
    var btn := Strip(Or(GetOr(row, "Button text", ""), "Comprar"));
    var desc := Strip(GetOr(row, "Description", ""));
    var sdesc := Strip(GetOr(row, "Short description", ""));
    Payload(
      name := name,
      kind := if ext != [] then "external" else "simple",
      regularPrice := if price != [] then Some(price) else None,
      externalUrl := if ext != [] then Some(ext) else None,
      buttonText := if ext != [] then Some(btn) else None,
      images := ParseImages(Some(GetOr(row, "Images", ""))),
      categories := EnsureTerms(CategoryNames(Some(GetOr(row, "Categories", ""))), store.searchCategories),
      tags := EnsureTerms(TagNames(Some(GetOr(row, "Tags", ""))), store.searchTags),
      description := unescape(if desc != [] then desc else FallbackDescription(name)),
      shortDescription := unescape(if sdesc != [] then sdesc else ShortTemplate(name)),
      catalogVisibility := "visible",
      status := "publish")
  }

  /** What `upsert(row)` does. */
  function UpsertAction(row: Row, unescape: string -> string, store: Store): Action {
    var name := RowName(row);
    if name == [] then Skip
    else
      var payload := RowPayload(row, unescape, store);
      match store.findByName(name)
      case Some(id) => Put(id, payload)
      case None => Post(payload)
  }

  /** `upsert(row)`: the store's answers given, the write returned. */
  method Upsert(row: Row, unescape: string -> string, store: Store) returns (action: Action)
    ensures action == UpsertAction(row, unescape, store)
  {
    var name := RowName(row);
    if name == [] {
      return Skip;
    }
    var price := Strip(GetOr(row, "Regular price", ""));
    var ext := Cell2(row, "External URL", "Link");
    var btn := Strip(Or(GetOr(row, "Button text", ""), "Comprar"));
    var desc := Strip(GetOr(row, "Description", ""));
    var sdesc := Strip(GetOr(row, "Short description", ""));
    var imgs := ParseImages(Some(GetOr(row, "Images", "")));
    var cats := EnsureTerms(CategoryNames(Some(GetOr(row, "Categories", ""))), store.searchCategories);
    var tags := EnsureTerms(TagNames(Some(GetOr(row, "Tags", ""))), store.searchTags);
    if desc == [] {
      desc := FallbackDescription(name);
    }
    if sdesc == [] {
      sdesc := ShortTemplate(name);
    }
    var payload := Payload(
      name := name,
      kind := if ext != [] then "external" else "simple",
      regularPrice := if price != [] then Some(price) else None,
      externalUrl := if ext != [] then Some(ext) else None,
      buttonText := if ext != [] then Some(btn) else None,
      images := imgs,
      categories := cats,
      tags := tags,
      description := unescape(desc),
      shortDescription := unescape(sdesc),
      catalogVisibility := "visible",
      status := "publish");
    assert payload == RowPayload(row, unescape, store);
    var exist := store.findByName(name);
    if exist.Some? {
      action := Put(exist.value, payload);
    } else {
      action := Post(payload);
    }
  }

  /** A row without a name (blank after stripping) is skipped; any other row
      is written, updated when the name search finds a product and created
      otherwise. */
  lemma UpsertSkipIff(row: Row, unescape: string -> string, store: Store)
    ensures UpsertAction(row, unescape, store).Skip? <==>
              AllSpace(Or(GetOr(row, "Name", ""), GetOr(row, "Nome", "")))
    ensures UpsertAction(row, unescape, store).Put? <==>
              RowName(row) != [] && store.findByName(RowName(row)).Some?
  {
    StripEmptyIff(Or(GetOr(row, "Name", ""), GetOr(row, "Nome", "")));
  }

  /** Every product is published and visible, in at least one category; it
      is external exactly when it carries a URL, which is non-empty and
      stripped, and only then a button text. The button text defaults to
      "Comprar" when the cell is missing or empty. */
  lemma RowPayloadSpec(row: Row, unescape: string -> string, store: Store)
    ensures var p := RowPayload(row, unescape, store);
            && (p.kind == "external" <==> p.externalUrl.Some?)
            && (p.kind == "external" || p.kind == "simple")
            && (p.externalUrl.None? <==> p.buttonText.None?)
            && (p.externalUrl.Some? ==> p.externalUrl.value != [] && Stripped(p.externalUrl.value))
            && (p.regularPrice.Some? ==> p.regularPrice.value != [])
            && p.catalogVisibility == "visible" && p.status == "publish"
            && |p.categories| >= 1
    ensures GetOr(row, "Button text", "") == [] && Cell2(row, "External URL", "Link") != [] ==>
              RowPayload(row, unescape, store).buttonText == Some("Comprar")
  {
    NamesSpec(Some(GetOr(row, "Categories", "")));
    assert Strip("Comprar") == "Comprar" by { StripOfStripped("Comprar"); }
  }

  /** The payload's fields come from the row's cells: the name is the row's
      name; the product is external exactly when the "External URL" (else
      "Link") cell is non-blank, and then carries that cell stripped; the
      regular price is the stripped price cell, None exactly when that cell
      is missing or blank; every category created is a well-formed name. */
  lemma RowPayloadCells(row: Row, unescape: string -> string, store: Store)
    ensures RowPayload(row, unescape, store).name == RowName(row)
    ensures RowPayload(row, unescape, store).kind == "external" <==> Cell2(row, "External URL", "Link") != []
    ensures Cell2(row, "External URL", "Link") != [] ==>
              RowPayload(row, unescape, store).externalUrl == Some(Cell2(row, "External URL", "Link"))
    ensures RowPayload(row, unescape, store).regularPrice.None? <==> AllSpace(GetOr(row, "Regular price", ""))
    ensures !AllSpace(GetOr(row, "Regular price", "")) ==>
              RowPayload(row, unescape, store).regularPrice == Some(Strip(GetOr(row, "Regular price", "")))
    ensures forall k :: 0 <= k < |RowPayload(row, unescape, store).categories| ==>
              var c := RowPayload(row, unescape, store).categories[k];
              c.CreateTerm? ==> IsName(c.name, ',')
  {
    NamesSpec(Some(GetOr(row, "Categories", "")));
    StripEmptyIff(GetOr(row, "Regular price", ""));
    EnsureTermsSpec(CategoryNames(Some(GetOr(row, "Categories", ""))), store.searchCategories);
  }

  /** An empty description is replaced by the fallback for the name, an empty
      short description by the template; both pass through `unescape`. */
  lemma RowPayloadDescriptions(row: Row, unescape: string -> string, store: Store)
    ensures AllSpace(GetOr(row, "Description", "")) ==>
              RowPayload(row, unescape, store).description == unescape(FallbackDescription(RowName(row)))
    ensures !AllSpace(GetOr(row, "Description", "")) ==>
              RowPayload(row, unescape, store).description == unescape(Strip(GetOr(row, "Description", "")))
    ensures AllSpace(GetOr(row, "Short description", "")) ==>
              RowPayload(row, unescape, store).shortDescription == unescape(ShortTemplate(RowName(row)))
  {
    StripEmptyIff(GetOr(row, "Description", ""));
    StripEmptyIff(GetOr(row, "Short description", ""));
  }
}
