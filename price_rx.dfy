/** The two money patterns the crawlers search page text with, as hand-written
    scanners over `string`, next to a declarative grammar for each pattern.

    crawler.py:     R\$\s*\d{1,3}(\.\d{3})*(,\d{2})?                 (ignore case)
    crawler_v2.py:  (?:R\$\s?|US\$\s?|€\s?|£\s?)
                    (?:\d{1,3}(?:[\.\,]\d{3})*|\d+)(?:[\.\,]\d{2})?   (ignore case)

    Everything after the first digit is optional, so the match Python's
    backtracking engine returns at a position is the one a greedy scanner
    finds: take as many characters as each piece allows, in order, and never
    undo a piece that completed. `search` returns that match at the leftmost
    position where one exists. */
module PriceRx {
  import opened PyStr

  /** `R` under IGNORECASE. */
  predicate IsR(c: char) { c == 'R' || c == 'r' }

  /** `U` under IGNORECASE. */
  predicate IsU(c: char) { c == 'U' || c == 'u' }

  /** `S` under IGNORECASE: Python's engine also folds U+017F (long s) onto it. */
  predicate IsS(c: char) { c == 'S' || c == 's' || c == '\U{17f}' }

  /** Separators of the thousands groups and of the cents in each pattern. */
  const GroupSeps1: set<char> := {'.'}
  const CentSeps1: set<char> := {','}
  const Seps2: set<char> := {'.', ','}

  // ---------------------------------------------------------------------
  // The grammar: which strings each pattern matches.

  /** A cents part: one separator, then two digits. */
  predicate Cents(x: string, cs: set<char>) {
    |x| == 3 && x[0] in cs && IsDigit(x[1]) && IsDigit(x[2])
  }

  /** Zero or more thousands groups (separator and three digits), then an optional cents part. */
  predicate GroupsCents(x: string, gs: set<char>, cs: set<char>)
    decreases |x|
  {
    x == [] || Cents(x, cs)
    || (|x| >= 4 && x[0] in gs && IsDigit(x[1]) && IsDigit(x[2]) && IsDigit(x[3])
        && GroupsCents(x[4..], gs, cs))
  }

  /** `\d{1,3}` followed by groups and cents. */
  predicate Amount(a: string, gs: set<char>, cs: set<char>) {
    exists d :: 1 <= d <= 3 && d <= |a| && AllDigits(a[..d]) && GroupsCents(a[d..], gs, cs)
  }

  /** The `\d+` alternative of crawler_v2.py followed by the optional cents. */
  predicate LongNumber(a: string) {
    exists d :: 1 <= d <= |a| && AllDigits(a[..d]) && (a[d..] == [] || Cents(a[d..], Seps2))
  }

  /** A string matched by crawler.py's pattern. */
  predicate Token1(t: string) {
    |t| >= 2 && IsR(t[0]) && t[1] == '$'
    && exists w :: 2 <= w <= |t| && AllSpace(t[2..w]) && Amount(t[w..], GroupSeps1, CentSeps1)
  }

  /** Length of the currency prefix crawler_v2.py's pattern starts with, 0 if none. */
  function PrefixLen2(t: string): (p: nat)
    ensures p <= |t|
  {
    if |t| >= 2 && IsR(t[0]) && t[1] == '$' then 2
    else if |t| >= 3 && IsU(t[0]) && IsS(t[1]) && t[2] == '$' then 3
    else if |t| >= 1 && (t[0] == '€' || t[0] == '£') then 1
    else 0
  }

  /** A string matched by crawler_v2.py's pattern when the number uses its FIRST alternative. */
  predicate Token2First(t: string) {
    var p := PrefixLen2(t);
    p > 0 && (Amount(t[p..], Seps2, Seps2) || (p < |t| && IsSpace(t[p]) && Amount(t[p + 1..], Seps2, Seps2)))
  }

  /** A string matched by crawler_v2.py's pattern, either alternative of the number. */
  predicate Token2(t: string) {
    var p := PrefixLen2(t);
    p > 0 && (
      Amount(t[p..], Seps2, Seps2) || LongNumber(t[p..])
      || (p < |t| && IsSpace(t[p]) && (Amount(t[p + 1..], Seps2, Seps2) || LongNumber(t[p + 1..]))))
  }

  // ---------------------------------------------------------------------
  // The greedy scanner pieces.

  /** End of the whitespace run starting at `i` (`\s*`). */
  function SpaceEnd(s: string, i: nat): (j: nat)
    requires i <= |s|
    ensures i <= j <= |s| && AllSpace(s[i..j]) && (j == |s| || !IsSpace(s[j]))
    decreases |s| - i
  {
    if i < |s| && IsSpace(s[i]) then SpaceEnd(s, i + 1) else i
  }

  /** Number of digits `\d{1,max}` takes at `i` (0 when there is none). */
  function DigitRun(s: string, i: nat, max: nat): (n: nat)
    requires i <= |s|
    ensures n <= max && i + n <= |s| && AllDigits(s[i..i + n])
    ensures n < max ==> i + n == |s| || !IsDigit(s[i + n])
    decreases max
  {
    if max > 0 && i < |s| && IsDigit(s[i]) then
      var n := DigitRun(s, i + 1, max - 1);
      assert s[i..i + 1 + n] == [s[i]] + s[i + 1..i + 1 + n];
      1 + n
    else 0
  }

  predicate GroupAt(s: string, p: nat, gs: set<char>) {
    p + 4 <= |s| && s[p] in gs && IsDigit(s[p + 1]) && IsDigit(s[p + 2]) && IsDigit(s[p + 3])
  }

  predicate CentsAt(s: string, p: nat, cs: set<char>) {
    p + 3 <= |s| && s[p] in cs && IsDigit(s[p + 1]) && IsDigit(s[p + 2])
  }

  /** End of the thousands groups taken greedily from `p`. */
  function GroupsEnd(s: string, p: nat, gs: set<char>): (g: nat)
    requires p <= |s|
    ensures p <= g <= |s|
    decreases |s| - p
  {
    if GroupAt(s, p, gs) then GroupsEnd(s, p + 4, gs) else p
  }

  /** End after the optional cents part at `p`. */
  function CentsEnd(s: string, p: nat, cs: set<char>): (c: nat)
    requires p <= |s|
    ensures c == p || c == p + 3
    ensures c <= |s|
  {
    if CentsAt(s, p, cs) then p + 3 else p
  }

  /** End of the number part (digits, groups, cents) starting at `j`, if a digit is there. */
  function NumberEnd(s: string, j: nat, gs: set<char>, cs: set<char>): (r: Option<nat>)
    requires j <= |s|
    ensures r.Some? ==> j < r.value <= |s|
  {
    var d := DigitRun(s, j, 3);
    if d == 0 then None else Some(CentsEnd(s, GroupsEnd(s, j + d, gs), cs))
  }

  /** crawler.py's pattern anchored at `i`: the end of its match, if it matches there. */
  function MatchEnd1(s: string, i: nat): (r: Option<nat>)
    requires i <= |s|
    ensures r.Some? ==> i < r.value <= |s|
  {
    if i + 2 <= |s| && IsR(s[i]) && s[i + 1] == '$' then
      NumberEnd(s, SpaceEnd(s, i + 2), GroupSeps1, CentSeps1)
    else None
  }

  /** crawler_v2.py's pattern anchored at `i`. `\s?` takes one whitespace when present;
      giving it back cannot help, since a digit must follow. */
  function MatchEnd2(s: string, i: nat): (r: Option<nat>)
    requires i <= |s|
    ensures r.Some? ==> i < r.value <= |s|
  {
    var p := PrefixLen2(s[i..]);
    if p == 0 then None
    else
      var j := if i + p < |s| && IsSpace(s[i + p]) then i + p + 1 else i + p;
      NumberEnd(s, j, Seps2, Seps2)
  }

  /** Which of the two patterns a search uses. */
  datatype Pattern = Crawler | CrawlerV2

  function MatchEnd(pat: Pattern, s: string, i: nat): (r: Option<nat>)
    requires i <= |s|
    ensures r.Some? ==> i < r.value <= |s|
  {
    match pat
    case Crawler => MatchEnd1(s, i)
    case CrawlerV2 => MatchEnd2(s, i)
  }

  predicate IsToken(pat: Pattern, t: string) {
    match pat
    case Crawler => Token1(t)
    case CrawlerV2 => Token2(t)
  }

  /** The first position in `i..n` where `f` finds a match, with that match. */
  function Scan(f: nat -> Option<nat>, i: nat, n: nat): (r: Option<(nat, nat)>)
    requires i <= n
    ensures r.Some? ==> i <= r.value.0 <= n && f(r.value.0) == Some(r.value.1)
    ensures r.Some? ==> forall k :: i <= k < r.value.0 ==> f(k).None?
    ensures r.None? ==> forall k :: i <= k <= n ==> f(k).None?
    decreases n - i
  {
    if f(i).Some? then Some((i, f(i).value))
    else if i == n then None
    else Scan(f, i + 1, n)
  }

  /** The anchored matcher of a pattern over `s`, as a function of the position. */
  function MatchOf(pat: Pattern, s: string): nat -> Option<nat>
  {
    (k: nat) => if k <= |s| then MatchEnd(pat, s, k) else None
  }

  /** `re.search` from position `i` on: the first position where the pattern matches, with its match. */
  function SearchFrom(pat: Pattern, s: string, i: nat): (r: Option<(nat, nat)>)
    requires i <= |s|
    ensures r.Some? ==> i <= r.value.0 < r.value.1 <= |s| && MatchEnd(pat, s, r.value.0) == Some(r.value.1)
    ensures r.Some? ==> forall k :: i <= k < r.value.0 ==> MatchOf(pat, s)(k).None?
    ensures r.None? ==> forall k :: i <= k <= |s| ==> MatchOf(pat, s)(k).None?
  {
    Scan(MatchOf(pat, s), i, |s|)
  }

  /** `PRICE_RX.search(s)`: start and end of the match, if any. */
  function Search(pat: Pattern, s: string): Option<(nat, nat)>
  {
    SearchFrom(pat, s, 0)
  }

  /** `m.group(0)` of the search, if any. */
  function FindText(pat: Pattern, s: string): (r: Option<string>)
  {
    match Search(pat, s)
    case None => None
    case Some((a, b)) => Some(s[a..b])
  }

  /** The text a search returns is the slice at its match, so it occurs in `s` there. */
  lemma FindTextOccurs(pat: Pattern, s: string)
    ensures FindText(pat, s).Some? <==> Search(pat, s).Some?
    ensures FindText(pat, s).Some? ==>
      var (a, b) := Search(pat, s).value;
      FindText(pat, s).value == s[a..b] && OccursAt(s, s[a..b], a)
  {
  }

  // ---------------------------------------------------------------------
  // The scanners agree with the grammar.

  lemma {:induction false} GroupsCentsSound(s: string, p: nat, gs: set<char>, cs: set<char>)
    requires p <= |s|
    ensures GroupsCents(s[p..CentsEnd(s, GroupsEnd(s, p, gs), cs)], gs, cs)
    decreases |s| - p
  {
    var e := CentsEnd(s, GroupsEnd(s, p, gs), cs);
    if GroupAt(s, p, gs) {
      GroupsCentsSound(s, p + 4, gs, cs);
      assert s[p..e][4..] == s[p + 4..e];
    } else if CentsAt(s, p, cs) {
      assert Cents(s[p..e], cs);
    } else {
      assert s[p..e] == [];
    }
  }

  /** No groups-and-cents tail starting at `p` reaches past the greedy one. */
  lemma {:induction false} GroupsCentsLongest(s: string, p: nat, e: nat, gs: set<char>, cs: set<char>)
    requires p <= e <= |s| && GroupsCents(s[p..e], gs, cs)
    ensures e <= CentsEnd(s, GroupsEnd(s, p, gs), cs)
    decreases e - p
  {
    var x := s[p..e];
    if x != [] && !Cents(x, cs) {
      assert GroupAt(s, p, gs) by {
        assert x[0] == s[p] && x[1] == s[p + 1] && x[2] == s[p + 2] && x[3] == s[p + 3];
      }
      assert x[4..] == s[p + 4..e];
      GroupsCentsLongest(s, p + 4, e, gs, cs);
    } else if x != [] && !GroupAt(s, p, gs) {
      assert CentsAt(s, p, cs) by {
        assert x[0] == s[p] && x[1] == s[p + 1] && x[2] == s[p + 2];
      }
    }
  }

  /** A digit run of 1-3 followed by groups and cents is an `Amount`. */
  lemma AmountJoin(s: string, j: nat, d: nat, e: nat, gs: set<char>, cs: set<char>)
    requires 1 <= d <= 3 && j + d <= e <= |s|
    requires AllDigits(s[j..j + d]) && GroupsCents(s[j + d..e], gs, cs)
    ensures Amount(s[j..e], gs, cs)
  {
    var a := s[j..e];
    assert a[..d] == s[j..j + d];
    assert a[d..] == s[j + d..e];
  }

  /** An `Amount` splits into its digit run and its groups and cents. */
  lemma AmountSplit(s: string, j: nat, e: nat, gs: set<char>, cs: set<char>) returns (d: nat)
    requires j <= e <= |s| && Amount(s[j..e], gs, cs)
    ensures 1 <= d <= 3 && j + d <= e
    ensures AllDigits(s[j..j + d]) && GroupsCents(s[j + d..e], gs, cs)
  {
    var a := s[j..e];
    d :| 1 <= d <= 3 && d <= |a| && AllDigits(a[..d]) && GroupsCents(a[d..], gs, cs);
    assert a[..d] == s[j..j + d];
    assert a[d..] == s[j + d..e];
  }

  lemma NumberEndSound(s: string, j: nat, gs: set<char>, cs: set<char>)
    requires j <= |s| && NumberEnd(s, j, gs, cs).Some?
    ensures Amount(s[j..NumberEnd(s, j, gs, cs).value], gs, cs)
  {
    var d := DigitRun(s, j, 3);
    var e := CentsEnd(s, GroupsEnd(s, j + d, gs), cs);
    assert NumberEnd(s, j, gs, cs) == Some(e);
    GroupsCentsSound(s, j + d, gs, cs);
    AmountJoin(s, j, d, e, gs, cs);
  }

  /** Separators are never digits. */
  predicate DigitFree(cs: set<char>) {
    forall c :: c in cs ==> !IsDigit(c)
  }

  /** A groups-and-cents tail never starts with a digit. */
  lemma GroupsCentsStart(s: string, p: nat, e: nat, gs: set<char>, cs: set<char>)
    requires DigitFree(gs) && DigitFree(cs)
    requires p <= e <= |s| && GroupsCents(s[p..e], gs, cs)
    ensures p < e ==> !IsDigit(s[p])
  {
    if p < e {
      assert s[p..e][0] == s[p];
    }
  }

  /** `\d{1,3}` takes at least the digits that are there. */
  lemma DigitRunCovers(s: string, j: nat, d: nat)
    requires d <= 3 && j + d <= |s| && AllDigits(s[j..j + d])
    ensures d <= DigitRun(s, j, 3)
  {
    assert forall k :: j <= k < j + d ==> IsDigit(s[k]) by {
      forall k | j <= k < j + d ensures IsDigit(s[k]) { assert s[j..j + d][k - j] == s[k]; }
    }
  }

  /** A number part starting at `j` forces the scanner to find one that is at least as long. */
  lemma NumberEndComplete(s: string, j: nat, e: nat, gs: set<char>, cs: set<char>)
    requires DigitFree(gs) && DigitFree(cs)
    requires j <= e <= |s| && Amount(s[j..e], gs, cs)
    ensures NumberEnd(s, j, gs, cs).Some? && e <= NumberEnd(s, j, gs, cs).value
  {
    var d := AmountSplit(s, j, e, gs, cs);
    DigitsThenTailComplete(s, j, d, e, gs, cs);
  }

  lemma DigitsThenTailComplete(s: string, j: nat, d: nat, e: nat, gs: set<char>, cs: set<char>)
    requires DigitFree(gs) && DigitFree(cs)
    requires 1 <= d <= 3 && j + d <= e <= |s|
    requires AllDigits(s[j..j + d]) && GroupsCents(s[j + d..e], gs, cs)
    ensures NumberEnd(s, j, gs, cs).Some? && e <= NumberEnd(s, j, gs, cs).value
  {
    GroupsCentsLongest(s, j + d, e, gs, cs);
    GroupsCentsStart(s, j + d, e, gs, cs);
    NumberEndReaches(s, j, d, e, gs, cs);
  }

  /** `d` digits at `j`, and an end `e` that the greedy tail after them reaches and
      that stops right there if a digit follows: the scanner gets to `e`. */
  lemma NumberEndReaches(s: string, j: nat, d: nat, e: nat, gs: set<char>, cs: set<char>)
    requires 1 <= d <= 3 && j + d <= e <= |s| && AllDigits(s[j..j + d])
    requires e <= CentsEnd(s, GroupsEnd(s, j + d, gs), cs)
    requires j + d < e ==> !IsDigit(s[j + d])
    ensures NumberEnd(s, j, gs, cs).Some? && e <= NumberEnd(s, j, gs, cs).value
  {
    DigitRunCovers(s, j, d);
    var n := DigitRun(s, j, 3);
    assert NumberEnd(s, j, gs, cs) == Some(CentsEnd(s, GroupsEnd(s, j + n, gs), cs));
    if n > d {
      assert IsDigit(s[j + d]) by { assert s[j..j + n][d] == s[j + d]; }
    }
  }

  lemma {:induction false} SpaceEndExact(s: string, i: nat, j: nat)
    requires i <= j < |s| && AllSpace(s[i..j]) && !IsSpace(s[j])
    ensures SpaceEnd(s, i) == j
    decreases j - i
  {
    if i < j {
      assert IsSpace(s[i]) by { assert s[i..j][0] == s[i]; }
      assert s[i + 1..j] == s[i..j][1..];
      SpaceEndExact(s, i + 1, j);
    }
  }

  /** A crawler.py match found by the scanner is in the pattern's language. */
  lemma MatchEnd1Sound(s: string, i: nat)
    requires i <= |s| && MatchEnd1(s, i).Some?
    ensures Token1(s[i..MatchEnd1(s, i).value])
  {
    var e := MatchEnd1(s, i).value;
    var j := SpaceEnd(s, i + 2);
    assert MatchEnd1(s, i) == NumberEnd(s, j, GroupSeps1, CentSeps1);
    assert i + 2 <= j < e <= |s|;
    NumberEndSound(s, j, GroupSeps1, CentSeps1);
    var t := s[i..e];
    var w := j - i;
    assert t[0] == s[i] && t[1] == s[i + 1];
    assert t[2..w] == s[i + 2..j];
    assert t[w..] == s[j..e];
  }

  lemma Token1Parts(t: string) returns (w: nat)
    requires Token1(t)
    ensures 2 <= w < |t| && AllSpace(t[2..w]) && Amount(t[w..], GroupSeps1, CentSeps1) && IsDigit(t[w])
  {
    w :| 2 <= w <= |t| && AllSpace(t[2..w]) && Amount(t[w..], GroupSeps1, CentSeps1);
    AmountHasDigit(t[w..], GroupSeps1, CentSeps1);
  }

  lemma Token1Length(t: string)
    requires Token1(t)
    ensures |t| >= 3
  {
    var w := Token1Parts(t);
  }

  /** Any crawler.py token at `i` makes the scanner match at `i`, at least as far. */
  lemma SliceOfSlice(s: string, i: nat, e: nat, a: nat, b: nat)
    requires i <= e <= |s| && a <= b <= e - i
    ensures s[i..e][a..b] == s[i + a..i + b]
  {
    assert forall k :: 0 <= k < b - a ==> s[i..e][a..b][k] == s[i + a..i + b][k];
  }

  /** Where a crawler.py token's parts sit in `s`: the prefix at `i`, the blanks the
      scanner skips, and the number from `j` on. */
  lemma Token1At(s: string, i: nat, e: nat) returns (j: nat)
    requires i <= e <= |s| && Token1(s[i..e])
    ensures i + 2 <= j <= e && IsR(s[i]) && s[i + 1] == '$'
    ensures SpaceEnd(s, i + 2) == j && Amount(s[j..e], GroupSeps1, CentSeps1)
  {
    var t := s[i..e];
    var w := Token1Parts(t);
    assert t[0] == s[i] && t[1] == s[i + 1];
    SliceOfSlice(s, i, e, 2, w);
    SliceOfSlice(s, i, e, w, |t|);
    assert s[i + w] == t[w];
    SpaceEndExact(s, i + 2, i + w);
    j := i + w;
  }

  lemma MatchEnd1Complete(s: string, i: nat, e: nat)
    requires i <= e <= |s| && Token1(s[i..e])
    ensures MatchEnd1(s, i).Some? && e <= MatchEnd1(s, i).value
  {
    var j := Token1At(s, i, e);
    NumberEndComplete(s, j, e, GroupSeps1, CentSeps1);
  }

  /** The scanner's currency prefix is kept by any slice that reaches past it. */
  lemma PrefixLen2Shrinks(s: string, i: nat, e: nat)
    requires i <= e <= |s| && PrefixLen2(s[i..]) < e - i
    ensures PrefixLen2(s[i..e]) == PrefixLen2(s[i..])
  {
    assert forall k :: 0 <= k < e - i ==> s[i..e][k] == s[i..][k];
  }

  /** Where the scanner of crawler_v2.py's pattern reads the number: after the
      currency prefix and the blank, when there is one. */
  lemma MatchEnd2Parts(s: string, i: nat) returns (j: nat)
    requires i <= |s| && MatchEnd2(s, i).Some?
    ensures var p := PrefixLen2(s[i..]);
      && p > 0 && i + p <= j <= |s|
      && (j == i + p || (j == i + p + 1 && IsSpace(s[i + p])))
      && MatchEnd2(s, i) == NumberEnd(s, j, Seps2, Seps2)
  {
    var p := PrefixLen2(s[i..]);
    j := if i + p < |s| && IsSpace(s[i + p]) then i + p + 1 else i + p;
  }

  /** A currency prefix, the optional blank, and an `Amount` make a first-alternative token. */
  lemma Token2FirstAt(s: string, i: nat, j: nat, e: nat)
    requires i <= j <= e <= |s|
    requires var p := PrefixLen2(s[i..e]);
      p > 0 && (j == i + p || (j == i + p + 1 && IsSpace(s[i + p])))
    requires Amount(s[j..e], Seps2, Seps2)
    ensures Token2First(s[i..e])
  {
    var t := s[i..e];
    var p := PrefixLen2(t);
    assert t[j - i..] == s[j..e];
    if j == i + p + 1 {
      assert t[p] == s[i + p];
    }
  }

  /** The number after the optional blank of crawler_v2.py's pattern. */
  lemma MatchEnd2Sound(s: string, i: nat)
    requires i <= |s| && MatchEnd2(s, i).Some?
    ensures Token2First(s[i..MatchEnd2(s, i).value])
  {
    var e := MatchEnd2(s, i).value;
    var j := MatchEnd2Parts(s, i);
    NumberEndSound(s, j, Seps2, Seps2);
    PrefixLen2Shrinks(s, i, e);
    Token2FirstAt(s, i, j, e);
  }

  /** The `\d+` alternative matches only where the first alternative does. */
  lemma LongNumberHasDigit(a: string)
    requires LongNumber(a)
    ensures |a| >= 1 && IsDigit(a[0])
  {
    var d :| 1 <= d <= |a| && AllDigits(a[..d]) && (a[d..] == [] || Cents(a[d..], Seps2));
    assert a[..d][0] == a[0];
  }

  lemma AmountHasDigit(a: string, gs: set<char>, cs: set<char>)
    requires Amount(a, gs, cs)
    ensures |a| >= 1 && IsDigit(a[0])
  {
    var d :| 1 <= d <= 3 && d <= |a| && AllDigits(a[..d]) && GroupsCents(a[d..], gs, cs);
    assert a[..d][0] == a[0];
  }

  /** A currency prefix of a token is also the prefix the scanner sees at its start. */
  lemma PrefixLen2Extends(s: string, i: nat, e: nat)
    requires i <= e <= |s| && PrefixLen2(s[i..e]) > 0
    ensures PrefixLen2(s[i..]) == PrefixLen2(s[i..e])
  {
    var t := s[i..e];
    var p := PrefixLen2(t);
    assert t[..p] == s[i..][..p];
    if |t| < 3 && |s[i..]| >= 3 { assert s[i..][0] == t[0]; }
  }

  /** After the prefix and the optional space the scanner takes, a token has a digit. */
  lemma Token2Digit(s: string, i: nat, e: nat)
    requires i <= e <= |s| && Token2(s[i..e])
    ensures var p := PrefixLen2(s[i..e]);
            var j := if i + p < |s| && IsSpace(s[i + p]) then i + p + 1 else i + p;
            j < |s| && IsDigit(s[j])
  {
    var t := s[i..e];
    var p := PrefixLen2(t);
    assert t[p..] == s[i + p..e];
    if Amount(t[p..], Seps2, Seps2) { AmountHasDigit(t[p..], Seps2, Seps2); }
    if LongNumber(t[p..]) { LongNumberHasDigit(t[p..]); }
    if p < |t| && IsSpace(t[p]) {
      assert t[p + 1..] == s[i + p + 1..e];
      if Amount(t[p + 1..], Seps2, Seps2) { AmountHasDigit(t[p + 1..], Seps2, Seps2); }
      if LongNumber(t[p + 1..]) { LongNumberHasDigit(t[p + 1..]); }
    }
  }

  /** A first-alternative token's number starts where the scanner looks for it. */
  lemma Token2FirstNumber(s: string, i: nat, e: nat)
    requires i <= e <= |s| && Token2First(s[i..e])
    ensures var p := PrefixLen2(s[i..e]);
            var j := if i + p < |s| && IsSpace(s[i + p]) then i + p + 1 else i + p;
            j <= e && Amount(s[j..e], Seps2, Seps2)
  {
    var t := s[i..e];
    var p := PrefixLen2(t);
    assert t[p..] == s[i + p..e];
    if p < |t| && IsSpace(t[p]) {
      assert t[p + 1..] == s[i + p + 1..e];
      if Amount(t[p..], Seps2, Seps2) { AmountHasDigit(t[p..], Seps2, Seps2); }
    } else if p < |t| {
      assert s[i + p] == t[p];
    }
  }

  /** Where the scanner of crawler_v2.py's pattern reads the number, once a currency prefix is at `i`. */
  lemma MatchEnd2At(s: string, i: nat) returns (j: nat)
    requires i <= |s| && PrefixLen2(s[i..]) > 0
    ensures var p := PrefixLen2(s[i..]);
      j == if i + p < |s| && IsSpace(s[i + p]) then i + p + 1 else i + p
    ensures j <= |s| && MatchEnd2(s, i) == NumberEnd(s, j, Seps2, Seps2)
  {
    var p := PrefixLen2(s[i..]);
    j := if i + p < |s| && IsSpace(s[i + p]) then i + p + 1 else i + p;
  }

  /** Where the scanner reads the number of a crawler_v2.py token at `i`: a digit is there,
      and for a first-alternative token the rest of the token is an `Amount`. */
  lemma Token2At(s: string, i: nat, e: nat) returns (j: nat)
    requires i <= e <= |s| && Token2(s[i..e])
    ensures j <= |s| && MatchEnd2(s, i) == NumberEnd(s, j, Seps2, Seps2)
    ensures NumberEnd(s, j, Seps2, Seps2).Some?
    ensures Token2First(s[i..e]) ==> j <= e && Amount(s[j..e], Seps2, Seps2)
  {
    PrefixLen2Extends(s, i, e);
    j := MatchEnd2At(s, i);
    Token2Digit(s, i, e);
    assert DigitRun(s, j, 3) >= 1;
    if Token2First(s[i..e]) {
      Token2FirstNumber(s, i, e);
    }
  }

  /** Any crawler_v2.py token at `i`, whichever alternative its number uses,
      makes the scanner match at `i`; a first-alternative token is never longer. */
  lemma MatchEnd2Complete(s: string, i: nat, e: nat)
    requires i <= e <= |s| && Token2(s[i..e])
    ensures MatchEnd2(s, i).Some?
    ensures Token2First(s[i..e]) ==> e <= MatchEnd2(s, i).value
  {
    var j := Token2At(s, i, e);
    if Token2First(s[i..e]) {
      NumberEndComplete(s, j, e, Seps2, Seps2);
    }
  }

  // ---------------------------------------------------------------------
  // What the search returns.

  /** crawler.py: the search finds the leftmost token, and the longest one there;
      it finds nothing exactly when no substring is a token. */
  lemma {:induction false} Search1Spec(s: string)
    ensures Search(Crawler, s).Some? ==>
      var (a, b) := Search(Crawler, s).value;
      && Token1(s[a..b])
      && (forall i, e :: 0 <= i < a && i <= e <= |s| ==> !Token1(s[i..e]))
      && (forall e :: a <= e <= |s| && Token1(s[a..e]) ==> e <= b)
    ensures Search(Crawler, s).None? ==> forall i, e :: 0 <= i <= e <= |s| ==> !Token1(s[i..e])
  {
    var r := Search(Crawler, s);
    forall i, e | 0 <= i <= e <= |s| && Token1(s[i..e])
      ensures r.Some? && r.value.0 <= i
      ensures r.Some? && r.value.0 == i ==> e <= r.value.1
    {
      MatchEnd1Complete(s, i, e);
      assert MatchOf(Crawler, s)(i) == MatchEnd1(s, i);
    }
    if r.Some? {
      MatchEnd1Sound(s, r.value.0);
    }
  }

  /** crawler_v2.py: the search finds the leftmost token; there, no token whose number
      uses the first alternative is longer. It finds nothing exactly when no substring
      is a token of either alternative. */
  lemma {:induction false} Search2Spec(s: string)
    ensures Search(CrawlerV2, s).Some? ==>
      var (a, b) := Search(CrawlerV2, s).value;
      && Token2First(s[a..b]) && Token2(s[a..b])
      && (forall i, e :: 0 <= i < a && i <= e <= |s| ==> !Token2(s[i..e]))
      && (forall e :: a <= e <= |s| && Token2First(s[a..e]) ==> e <= b)
    ensures Search(CrawlerV2, s).None? ==> forall i, e :: 0 <= i <= e <= |s| ==> !Token2(s[i..e])
  {
    var r := Search(CrawlerV2, s);
    forall i, e | 0 <= i <= e <= |s| && Token2(s[i..e])
      ensures r.Some? && r.value.0 <= i
      ensures r.Some? && r.value.0 == i && Token2First(s[i..e]) ==> e <= r.value.1
    {
      MatchEnd2Complete(s, i, e);
      assert MatchOf(CrawlerV2, s)(i) == MatchEnd2(s, i);
    }
    if r.Some? {
      MatchEnd2Sound(s, r.value.0);
    }
  }
}
