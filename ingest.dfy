/** scripts/ingest.py: reads the affiliate feed (a CSV file) into products
    and pushes each one to a WooCommerce store as an external product.

    Prices are read by `parse_price`, whose `float()` is modelled as a parser
    of decimal literals into an exact decimal `Dec`. The CSV reader, the file
    system, `slugify` and the store's REST API are not modelled: the feed
    arrives as its rows, `slugify` is a function argument, and the store's
    answer to the SKU lookup is a function argument too. */
module Ingest {
  import opened PyStr

  // ---------------------------------------------------------------------
  // Numbers

  /** The decimal number `units * 10^exp`. */
  datatype Dec = Dec(units: int, exp: int)

  const Zero: Dec := Dec(0, 0)

  /** Python truthiness of the float: everything but zero. */
  predicate Truthy(d: Dec) {
    d.units != 0
  }

  function Pow10(k: nat): (r: nat)
    ensures r >= 1
  {
    if k == 0 then 1 else 10 * Pow10(k - 1)
  }

  /** `n * 10^k`: `n` with `k` zeros appended. */
  function Scaled(n: nat, k: nat): nat {
    n * Pow10(k)
  }

  function DigitValue(c: char): nat
    requires IsDigit(c)
  {
    (c as int - '0' as int) as nat
  }

  function DigitChar(d: nat): (c: char)
    requires d < 10
    ensures IsDigit(c) && DigitValue(c) == d
  {
    ('0' as int + d) as char
  }

  /** The number a run of decimal digits spells; "" spells 0. */
  function DigitsValue(s: string): nat
    requires AllDigits(s)
  {
    if s == [] then 0 else DigitsValue(s[..|s| - 1]) * 10 + DigitValue(s[|s| - 1])
  }

  lemma DigitsValueSnoc(s: string, c: char)
    requires AllDigits(s) && IsDigit(c)
    ensures AllDigits(s + [c]) && DigitsValue(s + [c]) == DigitsValue(s) * 10 + DigitValue(c)
  {
    assert (s + [c])[..|s|] == s;
  }

  /** `str(n)` for a natural number. */
  function NatStr(n: nat): (r: string)
    ensures r != [] && AllDigits(r) && DigitsValue(r) == n
  {
    if n < 10 then [DigitChar(n)]
    else
      var r := NatStr(n / 10) + [DigitChar(n % 10)];
      assert r[..|r| - 1] == NatStr(n / 10);
      r
  }

  /** An optional leading sign: whether it is '-', and the rest. */
  function Unsign(t: string): (r: (bool, string))
    ensures r.0 ==> t != [] && t[0] == '-' && r.1 == t[1..]
    ensures !r.0 ==> r.1 == t || (t != [] && t[0] == '+' && r.1 == t[1..])
  {
    if t != [] && (t[0] == '+' || t[0] == '-') then (t[0] == '-', t[1..]) else (false, t)
  }

  /** Position of the first exponent mark 'e' or 'E', or the length when there is none. */
  function ExpIndex(s: string): (k: nat)
    ensures k <= |s|
    ensures forall i :: 0 <= i < k ==> s[i] != 'e' && s[i] != 'E'
    ensures k < |s| ==> s[k] == 'e' || s[k] == 'E'
  {
    if s == [] || s[0] == 'e' || s[0] == 'E' then 0 else 1 + ExpIndex(s[1..])
  }

  /** The exponent after the mark: a sign and at least one digit. */
  function ParseExponent(s: string): Option<int>
  {
    var (neg, ds) := Unsign(s);
    if ds != [] && AllDigits(ds) then
      var v: int := DigitsValue(ds);
      Some(if neg then -v else v)
    else None
  }

  /** Position of the first '.', or the length when there is none. */
  function PointIndex(s: string): (k: nat)
    ensures k <= |s|
    ensures forall i :: 0 <= i < k ==> s[i] != '.'
    ensures k < |s| ==> s[k] == '.'
  {
    if s == [] || s[0] == '.' then 0 else 1 + PointIndex(s[1..])
  }

  /** The digits before and after the point, as `Dec(n, -|frac|)`; at least one digit. */
  function MantissaValue(whole: string, frac: string): (r: Option<Dec>)
    ensures r.Some? ==> r.value.units >= 0
  {
    if AllDigits(whole) && AllDigits(frac) && |whole| + |frac| >= 1 then
      Some(Dec(Scaled(DigitsValue(whole), |frac|) + DigitsValue(frac), -|frac|))
    else None
  }

  /** Digits with at most one '.' and at least one digit. */
  function ParseMantissa(mant: string): (r: Option<Dec>)
    ensures r.Some? ==> r.value.units >= 0
  {
    var dot := PointIndex(mant);
    MantissaValue(mant[..dot], if dot < |mant| then mant[dot + 1..] else [])
  }

  /** A literal without its sign: mantissa, then an optional exponent. */
  function ParseUnsigned(body: string): (r: Option<Dec>)
    ensures r.Some? ==> r.value.units >= 0
  {
    var k := ExpIndex(body);
    var m := ParseMantissa(body[..k]);
    var e := if k < |body| then ParseExponent(body[k + 1..]) else Some(0);
    if m.Some? && e.Some? then Some(Dec(m.value.units, m.value.exp + e.value)) else None
  }

  /** `float(s)` for decimal literals: surrounding whitespace, a sign, digits
      with at most one '.', at least one digit, and an optional exponent.
      None where `float` raises. */
  function ParseFloat(s: string): Option<Dec>
  {
    var (neg, body) := Unsign(Strip(s));
    Negated(neg, ParseUnsigned(body))
  }

  /** The value with the sign applied. */
  function Negated(neg: bool, u: Option<Dec>): Option<Dec> {
    match u
    case None => None
    case Some(d) => Some(if neg then Dec(-d.units, d.exp) else d)
  }

  /** Digits alone are a mantissa without a fraction. */
  lemma MantissaDigits(n: string)
    requires n != [] && AllDigits(n)
    ensures ParseMantissa(n) == Some(Dec(DigitsValue(n), 0))
  {
    assert forall i :: 0 <= i < |n| ==> IsDigit(n[i]);
    assert PointIndex(n) == |n|;
    assert n[..|n|] == n;
  }

  /** Digits, a point and digits: the point splits the mantissa. */
  lemma MantissaPoint(a: string, f: string)
    requires AllDigits(a)
    ensures ParseMantissa(a + "." + f) == MantissaValue(a, f)
  {
    var m := a + "." + f;
    assert m[|a|] == '.';
    assert forall i :: 0 <= i < |a| ==> IsDigit(m[i]);
    var dot := PointIndex(m);
    assert dot == |a|;
    assert m[..dot] == a;
    assert m[dot + 1..] == f;
  }

  lemma MantissaValueDigits(a: string, f: string)
    requires AllDigits(a) && AllDigits(f) && |a| + |f| >= 1
    ensures MantissaValue(a, f) == Some(Dec(Scaled(DigitsValue(a), |f|) + DigitsValue(f), -|f|))
  {
  }

  predicate NoExpMark(s: string) {
    forall i :: 0 <= i < |s| ==> s[i] != 'e' && s[i] != 'E'
  }

  lemma UnsignedNoExp(m: string)
    requires NoExpMark(m)
    ensures ParseUnsigned(m) == ParseMantissa(m)
  {
    assert m[..|m|] == m;
  }

  /** Digits, points and commas are not whitespace. */
  lemma EndsStripped(s: string)
    requires s != [] && IsDigit(s[0])
    requires IsDigit(s[|s| - 1]) || s[|s| - 1] == '.' || s[|s| - 1] == ','
    ensures Stripped(s)
  {
  }

  /** A stripped literal that starts with a digit has no sign to take off. */
  lemma ParseFloatDigitFirst(s: string)
    requires s != [] && IsDigit(s[0]) && Stripped(s)
    ensures ParseFloat(s) == ParseUnsigned(s)
  {
    StripOfStripped(s);
  }

  function Abs(x: int): nat {
    if x < 0 then -x else x
  }

  function SignStr(x: int): string {
    if x < 0 then "-" else ""
  }

  /** The spelling of an integer: its sign and its digits. */
  function IntStr(x: int): (r: string)
    ensures r != [] && IsDigit(r[|r| - 1])
  {
    var n := NatStr(Abs(x));
    assert IsDigit(n[|n| - 1]);
    SignStr(x) + n
  }

  /** The digits of the units, 'e', and the exponent. */
  function UnsignedStr(d: Dec): (r: string)
    ensures r != [] && IsDigit(r[0]) && IsDigit(r[|r| - 1])
  {
    var n := NatStr(Abs(d.units));
    var r := n + "e" + IntStr(d.exp);
    assert r[0] == n[0] && r[|r| - 1] == IntStr(d.exp)[|IntStr(d.exp)| - 1];
    r
  }

  /** A literal that spells `d` exactly: its sign, its units, 'e', its exponent. */
  function DecStr(d: Dec): string {
    SignStr(d.units) + UnsignedStr(d)
  }

  lemma ParseExponentSpells(x: int)
    ensures ParseExponent(IntStr(x)) == Some(x)
  {
    var n := NatStr(Abs(x));
    var s := SignStr(x) + n;
    assert IsDigit(n[0]);
    if x < 0 {
      assert s[0] == '-' && s[1..] == n;
      assert Unsign(s) == (true, n);
    } else {
      assert s == n;
      assert Unsign(s) == (false, n);
    }
  }

  /** The first exponent mark is where `ExpIndex` stops. */
  lemma ExpIndexAt(s: string, k: nat)
    requires k < |s| && (s[k] == 'e' || s[k] == 'E')
    requires forall i :: 0 <= i < k ==> s[i] != 'e' && s[i] != 'E'
    ensures ExpIndex(s) == k
  {
  }

  /** A mantissa, the mark 'e' and an exponent. */
  lemma UnsignedWithExp(m: string, ex: string)
    requires NoExpMark(m)
    ensures ParseUnsigned(m + "e" + ex)
      == (var mv := ParseMantissa(m); var ev := ParseExponent(ex);
          if mv.Some? && ev.Some? then Some(Dec(mv.value.units, mv.value.exp + ev.value)) else None)
  {
    var body := m + "e" + ex;
    assert ExpIndex(body) == |m| by {
      assert body[|m|] == 'e';
      assert forall i :: 0 <= i < |m| ==> body[i] == m[i];
      ExpIndexAt(body, |m|);
    }
    assert body[..|m|] == m;
    assert body[|m| + 1..] == ex;
  }

  /** The unsigned part of a `DecStr` literal reads back as the magnitude. */
  lemma UnsignedDecStr(d: Dec)
    ensures ParseUnsigned(UnsignedStr(d)) == Some(Dec(Abs(d.units), d.exp))
  {
    var n := NatStr(Abs(d.units));
    assert NoExpMark(n) by {
      assert forall i :: 0 <= i < |n| ==> IsDigit(n[i]);
    }
    UnsignedWithExp(n, IntStr(d.exp));
    MantissaDigits(n);
    ParseExponentSpells(d.exp);
  }

  /** A body that starts and ends with a digit, after the sign of `x`. */
  lemma ParseFloatSigned(x: int, body: string)
    requires body != [] && IsDigit(body[0]) && IsDigit(body[|body| - 1])
    ensures ParseFloat(SignStr(x) + body) == Negated(x < 0, ParseUnsigned(body))
  {
    var s := SignStr(x) + body;
    assert Strip(s) == s by {
      assert s[0] == '-' || IsDigit(s[0]);
      assert s[|s| - 1] == body[|body| - 1];
      StripOfStripped(s);
    }
    assert Unsign(s) == (x < 0, body) by {
      if x < 0 {
        assert s[1..] == body;
      } else {
        assert s == body;
      }
    }
  }

  /** `float` reads back every number `DecStr` spells. */
  lemma ParseFloatDecStr(d: Dec)
    ensures ParseFloat(DecStr(d)) == Some(d)
  {
    var u := UnsignedStr(d);
    assert ParseUnsigned(u) == Some(Dec(Abs(d.units), d.exp)) by { UnsignedDecStr(d); }
    assert Negated(d.units < 0, Some(Dec(Abs(d.units), d.exp))) == Some(d);
    ParseFloatSigned(d.units, u);
  }

  // ---------------------------------------------------------------------
  // parse_price

  /** `s.replace(c, "")`. */
  function Remove(s: string, c: char): string
  {
    if s == [] then []
    else (if s[0] == c then [] else [s[0]]) + Remove(s[1..], c)
  }

  /** `replace(c, "")` leaves no `c` behind and changes nothing when there is none. */
  lemma {:induction false} RemoveSpec(s: string, c: char)
    ensures c !in Remove(s, c)
    ensures c !in s ==> Remove(s, c) == s
    decreases |s|
  {
    if s != [] {
      RemoveSpec(s[1..], c);
      assert s == [s[0]] + s[1..];
    }
  }

  /** `s.replace(a, b)` for single characters. */
  function Replace(s: string, a: char, b: char): (r: string)
    ensures |r| == |s|
  {
    if s == [] then []
    else [if s[0] == a then b else s[0]] + Replace(s[1..], a, b)
  }

  lemma {:induction false} RemoveAppend(x: string, y: string, c: char)
    ensures Remove(x + y, c) == Remove(x, c) + Remove(y, c)
    decreases |x|
  {
    if x == [] {
      assert x + y == y;
    } else {
      var h := RemoveFront(x, y, c);
      RemoveAppend(x[1..], y, c);
      assert h + (Remove(x[1..], c) + Remove(y, c)) == (h + Remove(x[1..], c)) + Remove(y, c);
    }
  }

  /** `Remove` of a non-empty string starts with what it makes of the first character. */
  lemma RemoveFront(x: string, y: string, c: char) returns (h: string)
    requires x != []
    ensures Remove(x + y, c) == h + Remove(x[1..] + y, c)
    ensures Remove(x, c) == h + Remove(x[1..], c)
  {
    h := if x[0] == c then [] else [x[0]];
    assert (x + y)[0] == x[0];
    assert (x + y)[1..] == x[1..] + y;
  }

  lemma {:induction false} ReplaceAppend(x: string, y: string, a: char, b: char)
    ensures Replace(x + y, a, b) == Replace(x, a, b) + Replace(y, a, b)
    decreases |x|
  {
    if x == [] {
      assert x + y == y;
    } else {
      assert (x + y)[1..] == x[1..] + y;
      ReplaceAppend(x[1..], y, a, b);
    }
  }

  lemma {:induction false} ReplaceAbsent(s: string, a: char, b: char)
    requires a !in s
    ensures Replace(s, a, b) == s
    decreases |s|
  {
    if s != [] {
      ReplaceAbsent(s[1..], a, b);
    }
  }

  /** The decimal-comma rewrite: `s.replace(".", "").replace(",", ".")`. */
  function CommaToPoint(s: string): string {
    Replace(Remove(s, '.'), ',', '.')
  }

  /** What the rewrite makes of one character. */
  function RewriteChar(c: char): string {
    if c == '.' then [] else if c == ',' then "." else [c]
  }

  /** The rewrite works character by character: it deletes every '.', turns
      every ',' into '.', and keeps every other character in place. */
  lemma CommaToPointAppend(x: string, y: string)
    ensures CommaToPoint(x + y) == CommaToPoint(x) + CommaToPoint(y)
    ensures |x| == 1 ==> CommaToPoint(x) == RewriteChar(x[0])
  {
    RemoveAppend(x, y, '.');
    ReplaceAppend(Remove(x, '.'), Remove(y, '.'), ',', '.');
    if |x| == 1 {
      assert x[1..] == [];
    }
  }

  /** `str(v).replace("\xa0", "").strip()`. */
  function Cleaned(v: string): string {
    Strip(Remove(v, '\U{a0}'))
  }

  /** The rewrite before `float`: only when there is a comma. The source's two
      branches (a comma and a point, a comma alone) do the same thing. */
  function Rewritten(s: string): string {
    if ',' in s then CommaToPoint(s) else s
  }

  /** `float(t)`, with the `ValueError` caught and read as 0. */
  function FloatOrZero(t: string): Dec {
    match ParseFloat(t)
    case Some(d) => d
    case None => Zero
  }

  /** `parse_price(v)`. */
  function ParsePrice(v: Option<string>): Dec
  {
    if v.None? then Zero
    else
      var s := Cleaned(v.value);
      if s == [] then Zero else FloatOrZero(Rewritten(s))
  }

  /** None, and strings that are blank once U+00A0 is removed, read as 0. */
  lemma ParsePriceBlank(v: Option<string>)
    requires v.Some? ==> AllSpace(Remove(v.value, '\U{a0}'))
    ensures ParsePrice(v) == Zero
  {
    if v.Some? {
      StripEmptyIff(Remove(v.value, '\U{a0}'));
    }
  }

  predicate DigitsOrPoints(s: string) {
    forall i :: 0 <= i < |s| ==> IsDigit(s[i]) || s[i] == '.'
  }

  /** Digits, a point and digits hold no exponent mark, no comma and no U+00A0. */
  lemma DigitsPointDigits(a: string, f: string)
    requires AllDigits(a) && AllDigits(f)
    ensures NoExpMark(a + "." + f)
    ensures ',' !in a + "." + f && '\U{a0}' !in a + "." + f
  {
    var s := a + "." + f;
    forall i | 0 <= i < |s|
      ensures s[i] != 'e' && s[i] != 'E' && s[i] != ',' && s[i] != '\U{a0}'
    {
      if i < |a| { assert s[i] == a[i]; } else if i > |a| { assert s[i] == f[i - |a| - 1]; }
    }
  }

  /** `float` of digits, a point and digits. */
  lemma PointNumeral(a: string, f: string)
    requires a != [] && AllDigits(a) && AllDigits(f)
    ensures ParseFloat(a + "." + f) == Some(Dec(Scaled(DigitsValue(a), |f|) + DigitsValue(f), -|f|))
  {
    var s := a + "." + f;
    assert ParseFloat(s) == ParseUnsigned(s) by {
      assert s[0] == a[0];
      EndsStripped(s);
      ParseFloatDigitFirst(s);
    }
    DigitsPointDigits(a, f);
    UnsignedNoExp(s);
    MantissaPoint(a, f);
    MantissaValueDigits(a, f);
  }

  /** Digits, a point and digits are already clean and need no rewrite. */
  lemma CleanedPoint(a: string, f: string)
    requires a != [] && AllDigits(a) && AllDigits(f)
    ensures Cleaned(a + "." + f) == a + "." + f
    ensures Rewritten(a + "." + f) == a + "." + f
  {
    var s := a + "." + f;
    DigitsPointDigits(a, f);
    RemoveSpec(s, '\U{a0}');
    assert s[0] == a[0];
    EndsStripped(s);
    StripOfStripped(s);
  }

  /** A price written with a decimal point and no comma is read as it stands. */
  lemma ParsePricePoint(a: string, f: string)
    requires a != [] && AllDigits(a) && AllDigits(f)
    ensures ParsePrice(Some(a + "." + f)) == Dec(Scaled(DigitsValue(a), |f|) + DigitsValue(f), -|f|)
  {
    CleanedPoint(a, f);
    PointNumeral(a, f);
  }

  /** Digits and points with a comma and digits: the rewrite drops the points
      and turns the comma into the decimal point. */
  lemma RewrittenComma(g: string, f: string)
    requires DigitsOrPoints(g) && AllDigits(f)
    ensures AllDigits(Remove(g, '.'))
    ensures Rewritten(g + "," + f) == Remove(g, '.') + "." + f
  {
    var s := g + "," + f;
    assert s[|g|] == ',';
    var a := Remove(g, '.');
    AllDigitsRemovePoints(g);
    assert '.' !in f && ',' !in f && ',' !in a by {
      forall i | 0 <= i < |f| ensures f[i] != '.' && f[i] != ',' { assert IsDigit(f[i]); }
      forall i | 0 <= i < |a| ensures a[i] != ',' { assert IsDigit(a[i]); }
    }
    assert Remove(s, '.') == a + "," + f by {
      RemoveAppend(g + ",", f, '.');
      RemoveAppend(g, ",", '.');
      RemoveSpec(f, '.');
      assert Remove(",", '.') == ",";
    }
    assert Replace(a + "," + f, ',', '.') == a + "." + f by {
      ReplaceAppend(a + ",", f, ',', '.');
      ReplaceAppend(a, ",", ',', '.');
      ReplaceAbsent(a, ',', '.');
      ReplaceAbsent(f, ',', '.');
      assert Replace(",", ',', '.') == ".";
    }
  }

  /** Digits and points, a comma and digits, are already clean. */
  lemma CleanedComma(g: string, f: string)
    requires g != [] && IsDigit(g[0]) && DigitsOrPoints(g) && AllDigits(f)
    ensures Cleaned(g + "," + f) == g + "," + f
  {
    var s := g + "," + f;
    assert '\U{a0}' !in s by {
      forall i | 0 <= i < |s| ensures s[i] != '\U{a0}' {
        if i < |g| { assert s[i] == g[i]; } else if i > |g| { assert s[i] == f[i - |g| - 1]; }
      }
    }
    RemoveSpec(s, '\U{a0}');
    assert s[0] == g[0];
    EndsStripped(s);
    StripOfStripped(s);
  }

  /** A price written the Brazilian way, points between thousands and a
      decimal comma, is read with the points dropped and the comma as the
      decimal point. */
  lemma ParsePriceComma(g: string, f: string)
    requires g != [] && IsDigit(g[0]) && DigitsOrPoints(g) && AllDigits(f)
    ensures AllDigits(Remove(g, '.'))
    ensures ParsePrice(Some(g + "," + f))
      == Dec(Scaled(DigitsValue(Remove(g, '.')), |f|) + DigitsValue(f), -|f|)
  {
    var a := Remove(g, '.');
    CleanedComma(g, f);
    RewrittenComma(g, f);
    RemovePointsNonEmpty(g);
    PointNumeral(a, f);
  }

  lemma RemovePointsNonEmpty(g: string)
    requires g != [] && IsDigit(g[0])
    ensures Remove(g, '.') != []
  {
    assert Remove(g, '.') == [g[0]] + Remove(g[1..], '.');
  }

  lemma {:induction false} AllDigitsRemovePoints(g: string)
    requires DigitsOrPoints(g)
    ensures AllDigits(Remove(g, '.'))
    decreases |g|
  {
    if g != [] {
      AllDigitsRemovePoints(g[1..]);
    }
  }

  lemma Digits849()
    ensures AllDigits("849") && AllDigits("00")
    ensures DigitsValue("849") == 849 && DigitsValue("00") == 0
  {
    DigitsValueSnoc("8", '4');
    assert "8" + ['4'] == "84";
    DigitsValueSnoc("84", '9');
    assert "84" + ['9'] == "849";
    DigitsValueSnoc("0", '0');
    assert "0" + ['0'] == "00";
  }

  /** "849,00" is 849.00. */
  lemma ParsePriceExampleComma()
    ensures ParsePrice(Some("849,00")) == Dec(84900, -2)
  {
    var g, f := "849", "00";
    assert g + "," + f == "849,00";
    Digits849();
    assert DigitsOrPoints(g) && Remove(g, '.') == g;
    assert Scaled(849, 2) == 84900;
    ParsePriceComma(g, f);
  }

  /** Dropping the one point between two point-free parts joins them. */
  lemma RemovePointBetween(a: string, b: string)
    requires '.' !in a && '.' !in b
    ensures Remove(a + "." + b, '.') == a + b
  {
    var pb := "." + b;
    RemoveSpec(a, '.');
    RemoveSpec(b, '.');
    assert Remove(pb, '.') == b by {
      assert pb[0] == '.' && pb[1..] == b;
    }
    assert Remove(a + pb, '.') == a + b by {
      RemoveAppend(a, pb, '.');
    }
    assert a + "." + b == a + pb;
  }

  lemma GroupedPoints()
    ensures DigitsOrPoints("1.234") && Remove("1.234", '.') == "1234"
  {
    var a, b := "1", "234";
    RemovePointBetween(a, b);
    assert a + "." + b == "1.234";
    assert a + b == "1234";
  }

  lemma GroupedDigits()
    ensures AllDigits("1234") && AllDigits("56")
    ensures DigitsValue("1234") == 1234 && DigitsValue("56") == 56
  {
    DigitsValueSnoc("1", '2');
    assert "1" + ['2'] == "12";
    DigitsValueSnoc("12", '3');
    assert "12" + ['3'] == "123";
    DigitsValueSnoc("123", '4');
    assert "123" + ['4'] == "1234";
    DigitsValueSnoc("5", '6');
    assert "5" + ['6'] == "56";
  }

  /** "1.234,56" is 1234.56. */
  lemma ParsePriceExampleGrouped()
    ensures ParsePrice(Some("1.234,56")) == Dec(123456, -2)
  {
    var g, f := "1.234", "56";
    assert g + "," + f == "1.234,56";
    GroupedPoints();
    GroupedDigits();
    assert Scaled(1234, 2) == 123400;
    ParsePriceComma(g, f);
  }

  /** "849.00" is 849.00. */
  lemma ParsePriceExamplePoint()
    ensures ParsePrice(Some("849.00")) == Dec(84900, -2)
  {
    var a, f := "849", "00";
    assert a + "." + f == "849.00";
    Digits849();
    assert Scaled(849, 2) == 84900;
    ParsePricePoint(a, f);
  }

  /** "1.234", a thousands point with no comma, is read as 1.234. */
  lemma ParsePriceExampleThousands()
    ensures ParsePrice(Some("1.234")) == Dec(1234, -3)
  {
    var a, f := "1", "234";
    assert a + "." + f == "1.234";
    assert AllDigits(a) && AllDigits(f);
    DigitsValueSnoc("2", '3');
    DigitsValueSnoc("23", '4');
    assert DigitsValue(a) == 1;
    assert DigitsValue(f) == 234;
    assert |f| == 3;
    assert Scaled(1, 3) == 1000;
    ParsePricePoint(a, f);
    assert ParsePrice(Some(a + "." + f)) == Dec(1234, -3);
  }

  // ---------------------------------------------------------------------
  // Products

  /** An `AffiliateProduct` record. */
  datatype Product = Product(
    merchantDomain: string,
    affiliateUrl: string,
    name: string,
    price: Dec,
    oldPrice: Dec,
    currency: string,
    category: string,
    tags: string,
    imageUrl: string,
    description: string,
    source: string)

  /** No lower-case ASCII letter. */
  predicate NoLower(s: string) {
    forall i :: 0 <= i < |s| ==> !('a' <= s[i] <= 'z')
  }

  lemma UpperNoLower(s: string)
    ensures NoLower(Upper(s))
  {
    forall i | 0 <= i < |s| ensures !('a' <= Upper(s)[i] <= 'z') {
      assert Upper(s)[i] == UpperChar(s[i]);
    }
  }

  lemma NoLowerAppend(a: string, b: string)
    requires NoLower(a) && NoLower(b)
    ensures NoLower(a + b)
  {
    forall i | 0 <= i < |a + b| ensures !('a' <= (a + b)[i] <= 'z') {
      if i < |a| { assert (a + b)[i] == a[i]; } else { assert (a + b)[i] == b[i - |a|]; }
    }
  }

  /** The `sku` property's middle part: the first label of the merchant
      domain in upper case, or "AFF" when there is no domain. */
  function SkuPrefix(merchantDomain: string): string {
    if merchantDomain != [] then Upper(Head(merchantDomain, '.')) else "AFF"
  }

  /** The `sku` property's last part: the first 40 characters of the name's
      slug in upper case, or "SEM_NOME" when there is no name. */
  function SkuBase(name: string, slugify: string -> string): string {
    if name != [] then Upper(Take(slugify(name), 40)) else "SEM_NOME"
  }

  /** `p.sku`, with `slugify` given. */
  function Sku(p: Product, slugify: string -> string): string {
    "AFF-" + SkuPrefix(p.merchantDomain) + "-" + SkuBase(p.name, slugify)
  }

  /** The middle part of a SKU has no point, and its last part keeps at most
      40 characters of the slug. */
  lemma SkuPartsSpec(p: Product, slugify: string -> string)
    ensures '.' !in SkuPrefix(p.merchantDomain)
    ensures |SkuBase(p.name, slugify)| <= 40
    ensures NoLower(SkuPrefix(p.merchantDomain)) && NoLower(SkuBase(p.name, slugify))
  {
    if p.merchantDomain != [] {
      var h := Head(p.merchantDomain, '.');
      UpperNoLower(h);
      forall i | 0 <= i < |h| ensures Upper(h)[i] != '.' {
        assert Upper(h)[i] == UpperChar(h[i]);
        assert h[i] != '.';
      }
    } else {
      assert NoLower("AFF");
    }
    if p.name != [] {
      UpperNoLower(Take(slugify(p.name), 40));
    } else {
      assert NoLower("SEM_NOME");
    }
  }

  /** The frame of a SKU around any two upper-case parts has no lower-case letter. */
  lemma SkuShapeNoLower(pre: string, base: string)
    requires NoLower(pre) && NoLower(base)
    ensures NoLower("AFF-" + pre + "-" + base)
  {
    var x, y := "AFF-" + pre, "-" + base;
    assert "AFF-" + pre + "-" + base == x + y;
    assert NoLower(x) by {
      assert NoLower("AFF-");
      NoLowerAppend("AFF-", pre);
    }
    assert NoLower(y) by {
      assert NoLower("-");
      NoLowerAppend("-", base);
    }
    NoLowerAppend(x, y);
  }

  /** Where the frame of a SKU puts its fixed parts. */
  lemma SkuShapeEnds(pre: string, base: string)
    ensures var sku := "AFF-" + pre + "-" + base;
            && |sku| >= 4 && sku[..4] == "AFF-"
            && (pre == "AFF" ==> sku[..8] == "AFF-AFF-")
            && (base == "SEM_NOME" ==> sku[|sku| - 9..] == "-SEM_NOME")
  {
    var sku := "AFF-" + pre + "-" + base;
    assert sku[..4] == "AFF-";
    if pre == "AFF" {
      assert sku[..8] == "AFF-" + "AFF-";
    }
    if base == "SEM_NOME" {
      assert sku == ("AFF-" + pre) + "-SEM_NOME";
    }
  }

  /** A SKU starts with "AFF-" and has no lower-case letter; with no domain it
      starts with "AFF-AFF-", and with no name it ends with "-SEM_NOME". */
  lemma SkuSpec(p: Product, slugify: string -> string)
    ensures |Sku(p, slugify)| >= 4 && Sku(p, slugify)[..4] == "AFF-"
    ensures NoLower(Sku(p, slugify))
    ensures p.merchantDomain == [] ==> Sku(p, slugify)[..8] == "AFF-AFF-"
    ensures p.name == [] ==> Sku(p, slugify)[|Sku(p, slugify)| - 9..] == "-SEM_NOME"
  {
    SkuPartsSpec(p, slugify);
    SkuShapeNoLower(SkuPrefix(p.merchantDomain), SkuBase(p.name, slugify));
    SkuShapeEnds(SkuPrefix(p.merchantDomain), SkuBase(p.name, slugify));
  }

  /** Two domains with the same first label give the same SKU to the same name. */
  lemma SkuFirstLabelOnly(p: Product, q: Product, slugify: string -> string)
    requires p.name == q.name && p.merchantDomain != [] && q.merchantDomain != []
    requires Head(p.merchantDomain, '.') == Head(q.merchantDomain, '.')
    ensures Sku(p, slugify) == Sku(q, slugify)
  {
  }

  /** `p.button_text`. */
  function ButtonText(p: Product): string {
    "Comprar na " + (if p.merchantDomain != [] then Capitalize(Head(p.merchantDomain, '.')) else "loja")
  }

  /** The label names the store by the first label of its domain, its first
      letter in upper case and the rest in lower case. */
  lemma ButtonTextSpec(p: Product)
    ensures |ButtonText(p)| >= 11 && ButtonText(p)[..11] == "Comprar na "
    ensures p.merchantDomain == [] ==> ButtonText(p) == "Comprar na loja"
    ensures p.merchantDomain != [] ==>
      var h := Head(p.merchantDomain, '.');
      |ButtonText(p)| == 11 + |h| && '.' !in ButtonText(p)[11..]
      && (h != [] ==> ButtonText(p)[11] == UpperChar(h[0]))
      && forall i :: 12 <= i < |ButtonText(p)| ==> ButtonText(p)[i] == LowerChar(h[i - 11])
  {
    var b := ButtonText(p);
    if p.merchantDomain != [] {
      var h := Head(p.merchantDomain, '.');
      var c := Capitalize(h);
      assert b[11..] == c;
      forall i | 11 <= i < |b| ensures b[i] != '.' {
        assert b[i] == c[i - 11];
        assert h[i - 11] != '.';
        if i > 11 { assert c[i - 11] == Lower(h[1..])[i - 12]; }
      }
      forall i | 12 <= i < |b| ensures b[i] == LowerChar(h[i - 11]) {
        assert b[i] == c[i - 11] == Lower(h[1..])[i - 12];
      }
    }
  }

  // ---------------------------------------------------------------------
  // read_feed

  /** The rows `read_feed` keeps: those with a non-empty `affiliate_url` cell. */
  predicate Kept(row: Row) {
    GetOr(row, "affiliate_url", "") != []
  }

  /** The product `read_feed` builds from a kept row. */
  function ToProduct(row: Row): Product {
    Product(
      merchantDomain := Strip(Or(GetOr(row, "merchant_domain", ""), GetOr(row, "dom\U{ed}nio_do_comerciante", ""))),
      affiliateUrl := Strip(GetOr(row, "affiliate_url", "")),
      name := Strip(GetOr(row, "name", "")),
      price := ParsePrice(Some(GetOr(row, "price", ""))),
      oldPrice := ParsePrice(Some(GetOr(row, "old_price", ""))),
      currency := Strip(Or(Or(GetOr(row, "currency", ""), GetOr(row, "moeda", "")), "BRL")),
      category := Strip(GetOr(row, "category", "")),
      tags := Strip(GetOr(row, "tags", "")),
      imageUrl := Strip(GetOr(row, "image_url", "")),
      description := Strip(GetOr(row, "description", "")),
      source := Strip(GetOr(row, "source", "")))
  }

  /** The currency falls back from "currency" to "moeda" to "BRL", and the
      merchant domain from "merchant_domain" to "dom\U{ed}nio_do_comerciante" to "";
      a cell counts only when it is non-empty before stripping. */
  lemma ToProductFallbacks(row: Row)
    ensures "currency" in row && row["currency"] != [] ==> ToProduct(row).currency == Strip(row["currency"])
    ensures ("currency" !in row || row["currency"] == []) && "moeda" in row && row["moeda"] != [] ==>
              ToProduct(row).currency == Strip(row["moeda"])
    ensures ("currency" !in row || row["currency"] == []) && ("moeda" !in row || row["moeda"] == []) ==>
              ToProduct(row).currency == "BRL"
    ensures "merchant_domain" in row && row["merchant_domain"] != [] ==>
              ToProduct(row).merchantDomain == Strip(row["merchant_domain"])
    ensures ("merchant_domain" !in row || row["merchant_domain"] == []) ==>
              ToProduct(row).merchantDomain == Strip(GetOr(row, "dom\U{ed}nio_do_comerciante", ""))
    ensures ToProduct(row).currency == [] <==>
              AllSpace(Or(Or(GetOr(row, "currency", ""), GetOr(row, "moeda", "")), "BRL"))
  {
    assert Strip("BRL") == "BRL" by { StripOfStripped("BRL"); }
    StripEmptyIff(Or(Or(GetOr(row, "currency", ""), GetOr(row, "moeda", "")), "BRL"));
  }

  /** Every text field of a product is stripped, and a missing price reads as 0. */
  lemma ToProductStripped(row: Row)
    ensures var p := ToProduct(row);
            && Stripped(p.merchantDomain) && Stripped(p.affiliateUrl) && Stripped(p.name)
            && Stripped(p.currency) && Stripped(p.category) && Stripped(p.tags)
            && Stripped(p.imageUrl) && Stripped(p.description) && Stripped(p.source)
    ensures "price" !in row ==> ToProduct(row).price == Zero
    ensures "old_price" !in row ==> ToProduct(row).oldPrice == Zero
  {
    if "price" !in row { ParsePriceBlank(Some("")); }
    if "old_price" !in row { ParsePriceBlank(Some("")); }
  }

  /** `f` of each kept row, in row order. */
  function MapKept(f: Row -> Product, rows: seq<Row>): seq<Product>
  {
    if rows == [] then []
    else
      var last := rows[|rows| - 1];
      MapKept(f, rows[..|rows| - 1]) + (if Kept(last) then [f(last)] else [])
  }

  /** What `read_feed` returns for the rows of the feed: one product per kept row, in order. */
  function FeedProducts(rows: seq<Row>): seq<Product>
  {
    MapKept(ToProduct, rows)
  }

  /** Reading two stretches of rows one after the other reads their products in the same order. */
  lemma {:induction false} MapKeptAppend(f: Row -> Product, a: seq<Row>, b: seq<Row>)
    ensures MapKept(f, a + b) == MapKept(f, a) + MapKept(f, b)
    decreases |b|
  {
    if b == [] {
      assert a + b == a;
    } else {
      assert (a + b)[..|a + b| - 1] == a + b[..|b| - 1];
      MapKeptAppend(f, a, b[..|b| - 1]);
    }
  }

  /** An element is listed exactly when some kept row maps to it. */
  lemma {:induction false} MapKeptMembers(f: Row -> Product, rows: seq<Row>)
    ensures |MapKept(f, rows)| <= |rows|
    ensures forall p :: p in MapKept(f, rows) <==> exists k :: 0 <= k < |rows| && Kept(rows[k]) && f(rows[k]) == p
    decreases |rows|
  {
    if rows != [] {
      var init := rows[..|rows| - 1];
      MapKeptMembers(f, init);
      forall p | p in MapKept(f, rows)
        ensures exists k :: 0 <= k < |rows| && Kept(rows[k]) && f(rows[k]) == p
      {
        if p in MapKept(f, init) {
          var k :| 0 <= k < |init| && Kept(init[k]) && f(init[k]) == p;
          assert rows[k] == init[k];
        } else {
          assert Kept(rows[|rows| - 1]) && f(rows[|rows| - 1]) == p;
        }
      }
      forall p | exists k :: 0 <= k < |rows| && Kept(rows[k]) && f(rows[k]) == p
        ensures p in MapKept(f, rows)
      {
        var k :| 0 <= k < |rows| && Kept(rows[k]) && f(rows[k]) == p;
        if k < |init| {
          assert init[k] == rows[k];
        }
      }
    }
  }

  /** With every row kept, the k-th element is `f` of the k-th row; with none kept, nothing. */
  lemma {:induction false} MapKeptAll(f: Row -> Product, rows: seq<Row>)
    ensures (forall k :: 0 <= k < |rows| ==> Kept(rows[k])) ==>
              |MapKept(f, rows)| == |rows| && forall k :: 0 <= k < |rows| ==> MapKept(f, rows)[k] == f(rows[k])
    ensures (forall k :: 0 <= k < |rows| ==> !Kept(rows[k])) ==> MapKept(f, rows) == []
    decreases |rows|
  {
    if rows != [] {
      var init := rows[..|rows| - 1];
      MapKeptAll(f, init);
      assert forall k :: 0 <= k < |init| ==> init[k] == rows[k];
    }
  }

  /** `read_feed` reads rows in order, reads a product exactly for each kept
      row, never more products than rows, and every row when all are kept. */
  lemma FeedProductsSpec(a: seq<Row>, b: seq<Row>)
    ensures FeedProducts(a + b) == FeedProducts(a) + FeedProducts(b)
    ensures |FeedProducts(a)| <= |a|
    ensures forall p :: p in FeedProducts(a) <==> exists k :: 0 <= k < |a| && Kept(a[k]) && ToProduct(a[k]) == p
    ensures (forall k :: 0 <= k < |a| ==> Kept(a[k])) ==>
              |FeedProducts(a)| == |a| && forall k :: 0 <= k < |a| ==> FeedProducts(a)[k] == ToProduct(a[k])
    ensures (forall k :: 0 <= k < |a| ==> !Kept(a[k])) ==> FeedProducts(a) == []
  {
    MapKeptAppend(ToProduct, a, b);
    MapKeptMembers(ToProduct, a);
    MapKeptAll(ToProduct, a);
  }

  /** One more row adds its image under `f` exactly when it is kept. */
  lemma MapKeptStep(f: Row -> Product, rows: seq<Row>, i: nat)
    requires i < |rows|
    ensures MapKept(f, rows[..i + 1]) == MapKept(f, rows[..i]) + (if Kept(rows[i]) then [f(rows[i])] else [])
  {
    assert rows[..i + 1][..i] == rows[..i];
  }

  /** `read_feed(path)`, with the rows of the file given; `present` says whether the file exists. */
  method ReadFeed(present: bool, rows: seq<Row>) returns (products: seq<Product>)
    ensures products == if present then FeedProducts(rows) else []
  {
    if !present {
      return [];
    }
    products := [];
    var i := 0;
    while i < |rows|
      invariant 0 <= i <= |rows|
      invariant products == FeedProducts(rows[..i])
    {
      var row := rows[i];
      MapKeptStep(ToProduct, rows, i);
      if GetOr(row, "affiliate_url", "") == [] {
        i := i + 1;
        continue;
      }
      products := products + [ToProduct(row)];
      i := i + 1;
    }
    assert rows[..i] == rows;
  }

  // ---------------------------------------------------------------------
  // ensure_product

  /** The store's answer to the SKU lookup: a status other than 200 or 201, or the ids of the listed products. */
  datatype Lookup = LookupFailed | Listed(ids: seq<int>)

  /** The `data` dict sent to the store. A price is None where the source
      sends "", and otherwise the number `f"{x:.2f}"` formats. */
  datatype Payload = Payload(
    name: string,
    kind: string,
    regularPrice: Option<Dec>,
    salePrice: Option<Dec>,
    externalUrl: string,
    buttonText: string,
    description: string,
    shortDescription: string,
    images: seq<string>,
    meta: seq<(string, string)>,
    tags: Option<seq<string>>,
    sku: Option<string>)

  /** The write `ensure_product` makes: none, a PUT of the first listed id, or a POST. */
  datatype Write = NoWrite | Update(id: int, data: Payload) | Create(data: Payload)

  /** `f"{(a or b):.2f}" if (a or b) else ""`. */
  function PriceOr(a: Dec, b: Dec): Option<Dec> {
    var x := if Truthy(a) then a else b;
    if Truthy(x) then Some(x) else None
  }

  /** The `data` dict as first built, before the tags and the SKU are added. */
  function BasePayload(p: Product): Payload {
    Payload(
      name := p.name,
      kind := "external",
      regularPrice := PriceOr(p.oldPrice, p.price),
      salePrice := PriceOr(p.price, p.oldPrice),
      externalUrl := p.affiliateUrl,
      buttonText := ButtonText(p),
      description := Or(p.description, p.name),
      shortDescription := p.name,
      images := if p.imageUrl != [] then [p.imageUrl] else [],
      meta := [("_ctctech_source", Or(p.source, p.merchantDomain)), ("_ctctech_merchant_domain", p.merchantDomain)],
      tags := None,
      sku := None)
  }

  /** The tag names of a product: its comma-separated, stripped, non-blank pieces. */
  function TagNames(p: Product): seq<string> {
    if p.tags != [] then NonBlankPieces(p.tags, ',') else []
  }

  /** The data sent, and where, for the answer `found` to the SKU lookup. */
  function ProductWrite(p: Product, slugify: string -> string, found: Lookup): Write {
    match found
    case LookupFailed => NoWrite
    case Listed(ids) =>
      var names := TagNames(p);
      var data := if names != [] then BasePayload(p).(tags := Some(names)) else BasePayload(p);
      if ids != [] then Update(ids[0], data) else Create(data.(sku := Some(Sku(p, slugify))))
  }

  /** `ensure_product(p)`, with `slugify` and the store's answer to the lookup by SKU given. */
  method EnsureProduct(p: Product, slugify: string -> string, lookup: string -> Lookup) returns (w: Write)
    ensures w == ProductWrite(p, slugify, lookup(Sku(p, slugify)))
  {
    var sku := Sku(p, slugify);
    var found := lookup(sku);
    if found.LookupFailed? {
      return NoWrite;
    }
    var data := BasePayload(p);
    if p.tags != [] {
      var names := NonBlankPieces(p.tags, ',');
      if names != [] {
        data := data.(tags := Some(names));
      }
    }
    if found.ids != [] {
      w := Update(found.ids[0], data);
    } else {
      data := data.(sku := Some(sku));
      w := Create(data);
    }
  }

  /** The regular price prefers the old price and the sale price the current
      one; each falls back on the other, and both are "" exactly when both are 0. */
  lemma PriceOrSpec(a: Dec, b: Dec)
    ensures Truthy(a) ==> PriceOr(a, b) == Some(a)
    ensures !Truthy(a) && Truthy(b) ==> PriceOr(a, b) == Some(b)
    ensures PriceOr(a, b).None? <==> !Truthy(a) && !Truthy(b)
    ensures PriceOr(a, b).None? <==> PriceOr(b, a).None?
    ensures PriceOr(a, b).Some? ==> Truthy(PriceOr(a, b).value)
  {
  }

  /** A blank tag field lists no names; otherwise every name is non-blank, stripped and comma-free. */
  lemma TagNamesSpec(p: Product)
    ensures AllSpace(p.tags) && ',' !in p.tags ==> TagNames(p) == []
    ensures forall k :: 0 <= k < |TagNames(p)| ==> IsName(TagNames(p)[k], ',')
  {
    if p.tags != [] {
      NonBlankPiecesShape(p.tags, ',');
      if AllSpace(p.tags) && ',' !in p.tags { NonBlankPiecesSingle(p.tags, ','); }
    }
  }

  /** A failed lookup writes nothing; a listed product is updated under the
      first listed id and without a SKU; otherwise the product is created with
      its SKU. The "tags" key is there exactly when some tag name is. */
  lemma ProductWriteSpec(p: Product, slugify: string -> string, found: Lookup)
    ensures ProductWrite(p, slugify, found).NoWrite? <==> found.LookupFailed?
    ensures ProductWrite(p, slugify, found).Update? <==> found.Listed? && found.ids != []
    ensures ProductWrite(p, slugify, found).Update? ==>
              ProductWrite(p, slugify, found).id == found.ids[0] && ProductWrite(p, slugify, found).data.sku.None?
    ensures ProductWrite(p, slugify, found).Create? ==>
              ProductWrite(p, slugify, found).data.sku == Some(Sku(p, slugify))
    ensures !ProductWrite(p, slugify, found).NoWrite? ==>
              var d := ProductWrite(p, slugify, found).data;
              && (d.tags.Some? <==> TagNames(p) != [])
              && (d.tags.Some? ==> d.tags.value == TagNames(p))
              && d.(tags := None, sku := None) == BasePayload(p)
  {
  }

  /** What the payload says about a product: an external product whose
      description defaults to its name and whose images are its one image URL, if any. */
  lemma BasePayloadSpec(p: Product)
    ensures BasePayload(p).kind == "external"
    ensures BasePayload(p).description == (if p.description != [] then p.description else p.name)
    ensures |BasePayload(p).images| <= 1 && (BasePayload(p).images == [] <==> p.imageUrl == [])
    ensures BasePayload(p).regularPrice.None? <==> !Truthy(p.price) && !Truthy(p.oldPrice)
    ensures BasePayload(p).regularPrice.None? <==> BasePayload(p).salePrice.None?
    ensures Truthy(p.price) && Truthy(p.oldPrice) ==>
              BasePayload(p).regularPrice == Some(p.oldPrice) && BasePayload(p).salePrice == Some(p.price)
    ensures Truthy(p.price) != Truthy(p.oldPrice) ==>
              BasePayload(p).regularPrice == BasePayload(p).salePrice
  {
    PriceOrSpec(p.oldPrice, p.price);
    PriceOrSpec(p.price, p.oldPrice);
  }

  /** The update and the create send the same data but for the SKU. */
  lemma UpdateCreateAgree(p: Product, slugify: string -> string, ids: seq<int>)
    requires ids != []
    ensures ProductWrite(p, slugify, Listed(ids)).data
         == ProductWrite(p, slugify, Listed([])).data.(sku := None)
  {
  }
}
