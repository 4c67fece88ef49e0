/** The few pieces of Python's `str` that the crawler and feed scripts lean on:
    whitespace as `str.isspace` and the regex class `\s` see it, `strip`,
    `split` on a one-character separator, `in`, `startswith`/`endswith`,
    ASCII case mapping and the "split, strip, drop blanks" list idiom. */
module PyStr {

  datatype Option<T> = None | Some(value: T)

  /** `str.isspace()` for one character; `\s`, `strip()` and `split()` use this set. */
  predicate IsSpace(c: char) {
    c == ' ' || ('\t' <= c <= '\r') || ('\U{1c}' <= c <= '\U{1f}')
    || c == '\U{85}' || c == '\U{a0}' || c == '\U{1680}'
    || ('\U{2000}' <= c <= '\U{200a}')
    || c == '\U{2028}' || c == '\U{2029}' || c == '\U{202f}' || c == '\U{205f}' || c == '\U{3000}'
  }

  predicate AllSpace(s: string) {
    forall i :: 0 <= i < |s| ==> IsSpace(s[i])
  }

  /** Neither end of `s` is whitespace: what `strip()` guarantees. */
  predicate Stripped(s: string) {
    s == [] || (!IsSpace(s[0]) && !IsSpace(s[|s| - 1]))
  }

  predicate IsDigit(c: char) {
    '0' <= c <= '9'
  }

  predicate AllDigits(s: string) {
    forall i :: 0 <= i < |s| ==> IsDigit(s[i])
  }

  /** `s.lstrip()`: the suffix left after dropping leading whitespace. */
  function LStrip(s: string): (r: string)
    ensures |r| <= |s| && r == s[|s| - |r|..]
    ensures AllSpace(s[..|s| - |r|])
    ensures r == [] || !IsSpace(r[0])
  {
    if s != [] && IsSpace(s[0]) then
      var r := LStrip(s[1..]);
      var n := |s| - |r|;
      assert s[1..][n - 1..] == s[n..];
      assert forall k :: 1 <= k < n ==> s[..n][k] == s[1..][..n - 1][k - 1];
      r
    else
      s
  }

  /** `s.strip()`: whitespace dropped from both ends. */
  function Strip(s: string): (r: string)
    ensures Stripped(r)
    ensures |r| <= |s|
    decreases |s|
  {
    if s != [] && IsSpace(s[0]) then Strip(s[1..])
    else if s != [] && IsSpace(s[|s| - 1]) then Strip(s[..|s| - 1])
    else s
  }

  /** `r` sits at offset `i` of `s` and everything around it is whitespace. */
  predicate StripCut(s: string, r: string, i: int)
    requires 0 <= i <= |s| - |r|
  {
    s[i..i + |r|] == r && AllSpace(s[..i]) && AllSpace(s[i + |r|..])
  }

  /** How much leading whitespace `strip()` drops. */
  function StripStart(s: string): (i: nat)
    ensures i + |Strip(s)| <= |s|
    decreases |s|
  {
    if s != [] && IsSpace(s[0]) then 1 + StripStart(s[1..])
    else if s != [] && IsSpace(s[|s| - 1]) then StripStart(s[..|s| - 1])
    else 0
  }

  /** A cut of `t = s[1..]` is a cut of `s` one further on, when `s[0]` is whitespace. */
  lemma StripCutFront(s: string, r: string, i: nat)
    requires s != [] && IsSpace(s[0]) && i + |r| <= |s| - 1
    requires StripCut(s[1..], r, i)
    ensures StripCut(s, r, i + 1)
  {
    var t := s[1..];
    assert s[i + 1..i + 1 + |r|] == t[i..i + |r|];
    assert s[..i + 1] == [s[0]] + t[..i];
    assert s[i + 1 + |r|..] == t[i + |r|..];
  }

  /** A cut of `t = s[..|s| - 1]` is a cut of `s`, when the last character is whitespace. */
  lemma StripCutBack(s: string, r: string, i: nat)
    requires s != [] && IsSpace(s[|s| - 1]) && i + |r| <= |s| - 1
    requires StripCut(s[..|s| - 1], r, i)
    ensures StripCut(s, r, i)
  {
    var t := s[..|s| - 1];
    assert s[i..i + |r|] == t[i..i + |r|];
    assert s[..i] == t[..i];
    assert s[i + |r|..] == t[i + |r|..] + [s[|s| - 1]];
  }

  /** `strip()` returns a middle slice of `s` and cuts only whitespace. */
  lemma {:induction false} StripCutAt(s: string)
    ensures StripCut(s, Strip(s), StripStart(s))
    decreases |s|
  {
    if s != [] && IsSpace(s[0]) {
      StripCutAt(s[1..]);
      StripCutFront(s, Strip(s), StripStart(s[1..]));
    } else if s != [] && IsSpace(s[|s| - 1]) {
      StripCutAt(s[..|s| - 1]);
      StripCutBack(s, Strip(s), StripStart(s));
    } else {
      assert s[..0] == [] && s[|s|..] == [] && s[0..|s|] == s;
    }
  }

  /** `strip()` yields "" exactly for all-whitespace strings. */
  lemma {:induction false} StripEmptyIff(s: string)
    ensures Strip(s) == [] <==> AllSpace(s)
    decreases |s|
  {
    if s != [] && IsSpace(s[0]) {
      StripEmptyIff(s[1..]);
      assert AllSpace(s) <==> AllSpace(s[1..]) by {
        assert forall k :: 1 <= k < |s| ==> s[k] == s[1..][k - 1];
      }
    } else if s != [] && IsSpace(s[|s| - 1]) {
      StripEmptyIff(s[..|s| - 1]);
      assert AllSpace(s) <==> AllSpace(s[..|s| - 1]) by {
        assert forall k :: 0 <= k < |s| - 1 ==> s[k] == s[..|s| - 1][k];
      }
    }
  }

  /** Stripping a stripped string changes nothing, so `strip()` is idempotent. */
  lemma StripOfStripped(s: string)
    requires Stripped(s)
    ensures Strip(s) == s
  {
  }

  lemma StripIdempotent(s: string)
    ensures Strip(Strip(s)) == Strip(s)
  {
    StripOfStripped(Strip(s));
  }

  /** `lstrip()` leaves a string that does not start with whitespace as it is. */
  lemma LStripNoLead(t: string)
    requires t == [] || !IsSpace(t[0])
    ensures LStrip(t) == t
  {
  }

  /** `lstrip()` drops exactly a whitespace prefix in front of a non-whitespace start. */
  lemma {:induction false} LStripSpaces(a: string, t: string)
    requires AllSpace(a)
    requires t == [] || !IsSpace(t[0])
    ensures LStrip(a + t) == t
    decreases |a|
  {
    if a == [] {
      assert a + t == t;
      LStripNoLead(t);
    } else {
      assert (a + t)[0] == a[0];
      assert (a + t)[1..] == a[1..] + t;
      LStripSpaces(a[1..], t);
    }
  }

  /** Whitespace around a stripped string is exactly what `strip()` removes. */
  lemma {:induction false} StripAround(a: string, j: string, c: string)
    requires AllSpace(a) && AllSpace(c) && Stripped(j)
    ensures Strip(a + j + c) == j
    decreases |a| + |c|
  {
    var x := a + j + c;
    if a != [] {
      assert x[0] == a[0];
      assert x[1..] == a[1..] + j + c;
      StripAround(a[1..], j, c);
    } else if x != [] && IsSpace(x[0]) {
      assert j == [] && x == c;
      assert x[1..] == [] + j + c[1..];
      StripAround(a, j, c[1..]);
    } else if c != [] {
      assert x[|x| - 1] == c[|c| - 1];
      assert x[..|x| - 1] == a + j + c[..|c| - 1];
      StripAround(a, j, c[..|c| - 1]);
    } else {
      assert x == j;
    }
  }

  /** A text is its leading whitespace followed by the rest, which has the same words. */
  lemma LeadingSpace(x: string) returns (a: string, t: string)
    ensures x == a + t && AllSpace(a)
    ensures t == [] || !IsSpace(t[0])
    ensures Words(x) == Words(t)
  {
    t := LStrip(x);
    a := x[..|x| - |t|];
    assert x == a + t;
    LStripNoLead(t);
  }

  /** A word of `split()`: non-empty, without whitespace. */
  predicate IsWord(w: string) {
    w != [] && forall i :: 0 <= i < |w| ==> !IsSpace(w[i])
  }

  /** How many characters of `t` come before its first whitespace character. */
  function WordLen(t: string): (k: nat)
    ensures k <= |t| && (k < |t| ==> IsSpace(t[k]))
    ensures forall i :: 0 <= i < k ==> !IsSpace(t[i])
  {
    if t == [] || IsSpace(t[0]) then 0
    else
      var k := 1 + WordLen(t[1..]);
      assert forall i :: 1 <= i < k ==> t[i] == t[1..][i - 1];
      k
  }

  /** `s.split()` with no separator: the maximal runs of non-whitespace characters, in order. */
  function Words(s: string): seq<string>
    decreases |s|
  {
    var t := LStrip(s);
    if t == [] then []
    else
      var k := WordLen(t);
      [t[..k]] + Words(t[k..])
  }

  /** A text starting with a word is that word followed by the rest, which
      is empty or starts with whitespace. */
  lemma WordSplit(t: string) returns (w: string, u: string)
    requires t != [] && !IsSpace(t[0])
    ensures t == w + u && w != []
    ensures forall i :: 0 <= i < |w| ==> !IsSpace(w[i])
    ensures u == [] || IsSpace(u[0])
    ensures Words(t) == [w] + Words(u)
  {
    LStripNoLead(t);
    var k := WordLen(t);
    w, u := t[..k], t[k..];
    assert t == w + u;
  }

  /** A text starting with a word splits into that word, the whitespace run
      after it and the rest, whose words follow the first. */
  lemma WordStep(t: string) returns (w: string, a: string, v: string)
    requires t != [] && !IsSpace(t[0])
    ensures t == w + (a + v) && |v| < |t|
    ensures forall i :: 0 <= i < |w| ==> !IsSpace(w[i])
    ensures AllSpace(a) && (a == [] ==> v == [])
    ensures v == [] || !IsSpace(v[0])
    ensures Words(t) == [w] + Words(v)
    ensures v != [] ==> Words(v) != [] && t[|t| - 1] == v[|v| - 1]
    ensures v == [] ==> (IsSpace(t[|t| - 1]) <==> a != [])
  {
    var u;
    w, u := WordSplit(t);
    a, v := LeadingSpace(u);
    if v != [] {
      WordsNonEmpty(v);
    }
    LastOfPieces(t, w, a, v);
  }

  /** The last character of a word, a whitespace run and a rest that starts
      with a word comes from the rest, or else from the run if there is one. */
  lemma LastOfPieces(t: string, w: string, a: string, v: string)
    requires t == w + (a + v) && t != []
    requires forall i :: 0 <= i < |w| ==> !IsSpace(w[i])
    requires AllSpace(a) && (a == [] ==> v == [])
    ensures v != [] ==> t[|t| - 1] == v[|v| - 1]
    ensures v == [] ==> (IsSpace(t[|t| - 1]) <==> a != [])
  {
    if v != [] {
      LastOfConcat(a, v);
      LastOfConcat(w, a + v);
    } else if a != [] {
      assert a + v == a;
      LastOfConcat(w, a);
    } else {
      assert t == w;
    }
  }

  /** A text starting with a non-whitespace character has a word. */
  lemma WordsNonEmpty(v: string)
    requires v != [] && !IsSpace(v[0])
    ensures Words(v) != []
  {
    LStripNoLead(v);
  }

  /** The last element of a concatenation with a non-empty tail is the tail's. */
  lemma LastOfConcat<T>(x: seq<T>, y: seq<T>)
    requires y != []
    ensures x + y != [] && (x + y)[|x + y| - 1] == y[|y| - 1]
  {
  }

  lemma ConcatAssoc<T>(a: seq<T>, b: seq<T>, c: seq<T>, d: seq<T>)
    ensures a + (b + (c + d)) == a + b + c + d
  {
  }

  lemma ConcatAssoc3<T>(a: seq<T>, b: seq<T>, c: seq<T>)
    ensures a + (b + c) == a + b + c
    ensures a == [] ==> a + b + c == b + c
  {
  }

  /** Joining one more piece in front of a non-empty list adds it and a separator. */
  lemma JoinCons(x: string, ws: seq<string>, sep: char)
    requires ws != []
    ensures Join([x] + ws, sep) == x + [sep] + Join(ws, sep)
  {
    assert ([x] + ws)[1..] == ws;
  }

  /** Every piece of `split()` is a word. */
  lemma {:induction false} WordsShape(s: string)
    ensures forall i :: 0 <= i < |Words(s)| ==> IsWord(Words(s)[i])
    decreases |s|
  {
    var t := LStrip(s);
    if t != [] {
      var k := WordLen(t);
      var rest := Words(t[k..]);
      WordsShape(t[k..]);
      assert Words(s) == [t[..k]] + rest;
      forall i | 0 <= i < |Words(s)|
        ensures IsWord(Words(s)[i])
      {
        if i > 0 {
          assert Words(s)[i] == rest[i - 1];
        }
      }
    }
  }

  /** Words separated by single spaces neither start nor end with whitespace. */
  lemma {:induction false} JoinWordsStripped(ws: seq<string>)
    requires forall i :: 0 <= i < |ws| ==> IsWord(ws[i])
    ensures Stripped(Join(ws, ' '))
    ensures ws != [] ==> Join(ws, ' ') != []
  {
    if |ws| > 1 {
      var rest := Join(ws[1..], ' ');
      JoinWordsStripped(ws[1..]);
      assert IsWord(ws[1..][0]);
      var j := ws[0] + [' '] + rest;
      assert j[0] == ws[0][0];
      assert j[|j| - 1] == rest[|rest| - 1];
    } else if |ws| == 1 {
      assert IsWord(ws[0]);
    }
  }

  /** Python's `t in s` on strings. */
  predicate OccursAt(s: string, t: string, i: int) {
    0 <= i <= |s| - |t| && s[i..i + |t|] == t
  }

  function Contains(s: string, t: string): (b: bool)
    ensures b <==> exists i :: OccursAt(s, t, i)
    decreases |s|
  {
    if |t| > |s| then false
    else if s[..|t|] == t then
      assert OccursAt(s, t, 0);
      true
    else
      var rest := Contains(s[1..], t);
      if rest then
        var i :| OccursAt(s[1..], t, i);
        OccursShift(s, t, i);
        true
      else
        assert !OccursAt(s, t, 0);
        assert forall i | 1 <= i :: !OccursAt(s, t, i) by {
          forall i | 1 <= i ensures !OccursAt(s, t, i) {
            OccursShift(s, t, i - 1);
          }
        }
        false
  }

  /** An occurrence in the tail is an occurrence one place further in the text. */
  lemma OccursShift(s: string, t: string, i: int)
    requires s != [] && i >= 0
    ensures OccursAt(s, t, i + 1) <==> OccursAt(s[1..], t, i)
  {
    if i + |t| <= |s| - 1 {
      assert s[1..][i..i + |t|] == s[i + 1..i + 1 + |t|];
    }
  }

  predicate StartsWith(s: string, t: string) {
    |t| <= |s| && s[..|t|] == t
  }

  predicate EndsWith(s: string, t: string) {
    |t| <= |s| && s[|s| - |t|..] == t
  }

  /** `s[:n]`. */
  function Take<T>(s: seq<T>, n: nat): (r: seq<T>)
    ensures |r| <= n && |r| <= |s| && r == s[..|r|]
    ensures |s| <= n ==> r == s
    ensures |s| >= n ==> |r| == n
  {
    if |s| <= n then s else s[..n]
  }

  /** Cutting a longer sequence at `n` sees only its first `n` elements. */
  lemma TakeLonger<T>(xs: seq<T>, ys: seq<T>, n: nat)
    requires |xs| >= n
    ensures Take(xs + ys, n) == Take(xs, n)
  {
    assert (xs + ys)[..n] == xs[..n];
  }

  /** `any(t in s for t in tokens)`. */
  function AnyContained(tokens: seq<string>, s: string): (b: bool)
    ensures b <==> exists k :: 0 <= k < |tokens| && Contains(s, tokens[k])
  {
    if tokens == [] then false
    else Contains(s, tokens[0]) || AnyContained(tokens[1..], s)
  }

  /** `any(s.endswith(t) for t in tokens)`. */
  function AnySuffix(tokens: seq<string>, s: string): (b: bool)
    ensures b <==> exists k :: 0 <= k < |tokens| && EndsWith(s, tokens[k])
  {
    if tokens == [] then false
    else EndsWith(s, tokens[0]) || AnySuffix(tokens[1..], s)
  }

  function LowerChar(c: char): char {
    if 'A' <= c <= 'Z' then (c as int + 32) as char else c
  }

  function UpperChar(c: char): char {
    if 'a' <= c <= 'z' then (c as int - 32) as char else c
  }

  /** `s.lower()` on the ASCII letters. */
  function Lower(s: string): (r: string)
    ensures |r| == |s|
  {
    seq(|s|, i requires 0 <= i < |s| => LowerChar(s[i]))
  }

  /** `s.upper()` on the ASCII letters. */
  function Upper(s: string): (r: string)
    ensures |r| == |s|
  {
    seq(|s|, i requires 0 <= i < |s| => UpperChar(s[i]))
  }

  /** `s.capitalize()`: first character upper case, the rest lower case. */
  function Capitalize(s: string): (r: string)
    ensures |r| == |s|
  {
    if s == [] then [] else [UpperChar(s[0])] + Lower(s[1..])
  }

  /** Position of the first `c` in `s`. */
  function FirstIndex<T(==)>(s: seq<T>, c: T): (k: nat)
    requires c in s
    ensures k < |s| && s[k] == c && c !in s[..k]
  {
    if s[0] == c then 0 else FirstIndex(s[1..], c) + 1
  }

  /** Appending never moves the first occurrence of something already present. */
  lemma {:induction false} FirstIndexExtend<T>(s: seq<T>, c: T, x: T)
    requires c in s
    ensures FirstIndex(s + [x], c) == FirstIndex(s, c)
  {
    if s[0] != c {
      assert (s + [x])[1..] == s[1..] + [x];
      FirstIndexExtend(s[1..], c, x);
    }
  }

  /** `sep.join(pieces)`. */
  function Join(pieces: seq<string>, sep: char): string
  {
    if pieces == [] then []
    else if |pieces| == 1 then pieces[0]
    else pieces[0] + [sep] + Join(pieces[1..], sep)
  }

  /** `s.split(sep)` for a one-character separator: the pieces between separators. */
  function Split(s: string, sep: char): (r: seq<string>)
    ensures |r| >= 1
    ensures forall k :: 0 <= k < |r| ==> sep !in r[k]
    ensures Join(r, sep) == s
    decreases |s|
  {
    if sep !in s then [s]
    else
      var k := FirstIndex(s, sep);
      var rest := Split(s[k + 1..], sep);
      assert s == s[..k] + [sep] + s[k + 1..];
      [s[..k]] + rest
  }

  /** `s.split(sep)[0]`: everything before the first separator. */
  function Head(s: string, sep: char): (r: string)
    ensures sep !in r
    ensures r == s || (|r| < |s| && r == s[..|r|] && s[|r|] == sep)
  {
    var pieces := Split(s, sep);
    if sep in s then
      var k := FirstIndex(s, sep);
      assert pieces[0] == s[..k];
      pieces[0]
    else
      pieces[0]
  }

  /** The first `c` in `a + [c] + b` is the one after `a` when `a` has none. */
  lemma {:induction false} FirstIndexAfter<T>(a: seq<T>, c: T, b: seq<T>)
    requires c !in a
    ensures c in a + [c] + b && FirstIndex(a + [c] + b, c) == |a|
    decreases |a|
  {
    var s := a + [c] + b;
    assert s[|a|] == c;
    if a != [] {
      assert s[1..] == a[1..] + [c] + b;
      FirstIndexAfter(a[1..], c, b);
    }
  }

  /** Joining separator-free pieces and splitting again gives the pieces back. */
  lemma {:induction false} SplitJoin(pieces: seq<string>, sep: char)
    requires |pieces| >= 1
    requires forall k :: 0 <= k < |pieces| ==> sep !in pieces[k]
    ensures Split(Join(pieces, sep), sep) == pieces
    decreases |pieces|
  {
    var s := Join(pieces, sep);
    if |pieces| > 1 {
      var tail := Join(pieces[1..], sep);
      assert s == pieces[0] + [sep] + tail;
      FirstIndexAfter(pieces[0], sep, tail);
      assert s[..|pieces[0]|] == pieces[0];
      assert s[|pieces[0]| + 1..] == tail;
      SplitJoin(pieces[1..], sep);
    }
  }

  lemma {:induction false} JoinAppend(x: seq<string>, y: seq<string>, sep: char)
    requires |x| >= 1 && |y| >= 1
    ensures Join(x + y, sep) == Join(x, sep) + [sep] + Join(y, sep)
    decreases |x|
  {
    if |x| > 1 {
      assert (x + y)[1..] == x[1..] + y;
      JoinAppend(x[1..], y, sep);
    } else {
      assert (x + y)[1..] == y;
    }
  }

  /** Splitting is a homomorphism: a separator between two strings separates their pieces. */
  lemma SplitAppend(a: string, b: string, sep: char)
    ensures Split(a + [sep] + b, sep) == Split(a, sep) + Split(b, sep)
  {
    var pa, pb := Split(a, sep), Split(b, sep);
    JoinAppend(pa, pb, sep);
    assert forall k :: 0 <= k < |pa + pb| ==> sep !in (pa + pb)[k] by {
      forall k | 0 <= k < |pa + pb| ensures sep !in (pa + pb)[k] {
        if k < |pa| { assert (pa + pb)[k] == pa[k]; } else { assert (pa + pb)[k] == pb[k - |pa|]; }
      }
    }
    SplitJoin(pa + pb, sep);
  }

  /** `[x.strip() for x in pieces if x.strip()]`. */
  function StripNonBlank(pieces: seq<string>): seq<string>
  {
    if pieces == [] then []
    else
      var t := Strip(pieces[0]);
      (if t == [] then [] else [t]) + StripNonBlank(pieces[1..])
  }

  /** `[x.strip() for x in s.split(sep) if x.strip()]`, the list idiom of the feed scripts. */
  function NonBlankPieces(s: string, sep: char): seq<string>
  {
    StripNonBlank(Split(s, sep))
  }

  lemma {:induction false} StripNonBlankAppend(x: seq<string>, y: seq<string>)
    ensures StripNonBlank(x + y) == StripNonBlank(x) + StripNonBlank(y)
    decreases |x|
  {
    if x != [] {
      assert (x + y)[1..] == x[1..] + y;
      StripNonBlankAppend(x[1..], y);
    } else {
      assert x + y == y;
    }
  }

  /** What every entry of the "split, strip, drop blanks" list looks like. */
  predicate IsName(e: string, sep: char) {
    e != [] && Stripped(e) && sep !in e
  }

  lemma StripKeepsOut(s: string, c: char)
    requires c !in s
    ensures c !in Strip(s)
  {
    var t, i := Strip(s), StripStart(s);
    StripCutAt(s);
    assert forall j :: 0 <= j < |t| ==> t[j] == s[i + j];
  }

  lemma {:induction false} StripNonBlankShape(pieces: seq<string>, sep: char)
    requires forall k :: 0 <= k < |pieces| ==> sep !in pieces[k]
    ensures forall k :: 0 <= k < |StripNonBlank(pieces)| ==> IsName(StripNonBlank(pieces)[k], sep)
    ensures |StripNonBlank(pieces)| <= |pieces|
    decreases |pieces|
  {
    if pieces != [] {
      StripNonBlankShape(pieces[1..], sep);
      StripKeepsOut(pieces[0], sep);
      var t := Strip(pieces[0]);
      var head: seq<string> := if t == [] then [] else [t];
      var rest := StripNonBlank(pieces[1..]);
      assert StripNonBlank(pieces) == head + rest;
      forall k | 0 <= k < |head + rest| ensures IsName((head + rest)[k], sep) {
        if k < |head| { assert (head + rest)[k] == t; } else { assert (head + rest)[k] == rest[k - |head|]; }
      }
    }
  }

  /** Every listed name is non-blank, already stripped and free of the separator;
      there are never more names than pieces. */
  lemma NonBlankPiecesShape(s: string, sep: char)
    ensures forall k :: 0 <= k < |NonBlankPieces(s, sep)| ==> IsName(NonBlankPieces(s, sep)[k], sep)
    ensures |NonBlankPieces(s, sep)| <= |Split(s, sep)|
  {
    StripNonBlankShape(Split(s, sep), sep);
  }

  /** A string with no separator contributes its stripped self, unless it is blank. */
  lemma NonBlankPiecesSingle(s: string, sep: char)
    requires sep !in s
    ensures NonBlankPieces(s, sep) == if AllSpace(s) then [] else [Strip(s)]
  {
    StripEmptyIff(s);
    assert Split(s, sep) == [s];
    assert StripNonBlank([s]) == (if Strip(s) == [] then [] else [Strip(s)]) + StripNonBlank([]) by {
      assert [s][1..] == [];
    }
  }

  /** The names on either side of a separator are listed in order, left ones first. */
  lemma NonBlankPiecesAppend(a: string, b: string, sep: char)
    ensures NonBlankPieces(a + [sep] + b, sep) == NonBlankPieces(a, sep) + NonBlankPieces(b, sep)
  {
    SplitAppend(a, b, sep);
    StripNonBlankAppend(Split(a, sep), Split(b, sep));
  }

  /** `o or ""` for an optional string. */
  function OrEmpty(o: Option<string>): string {
    if o.Some? then o.value else ""
  }

  /** A CSV row as `csv.DictReader` yields it: column name to cell text. */
  type Row = map<string, string>

  /** `row.get(key, default)`. */
  function GetOr(row: Row, key: string, default: string): string {
    if key in row then row[key] else default
  }

  /** `a or b` on strings. */
  function Or(a: string, b: string): string {
    if a != [] then a else b
  }
}
