/** Number parsing for the broker's CSV export: surrounding whitespace is
    stripped, every space (a thousands separator) removed, the decimal comma
    turned into a point, and the remainder read as a decimal number. */
module AvanzaCsv {
  import opened Wrappers
  import opened Numeric

  datatype ParseError = NotANumber(text: string)

  /** The characters Python's `str.isspace` accepts, which `str.strip`
      removes from both ends. */
  predicate IsSpace(c: char)
  {
    || ('\t' <= c <= '\r')
    || ('\U{1C}' <= c <= ' ')
    || c == '\U{85}' || c == '\U{A0}' || c == '\U{1680}'
    || ('\U{2000}' <= c <= '\U{200A}')
    || c == '\U{2028}' || c == '\U{2029}' || c == '\U{202F}' || c == '\U{205F}' || c == '\U{3000}'
  }

  predicate AllSpace(s: string)
  {
    forall i :: 0 <= i < |s| ==> IsSpace(s[i])
  }

  /** Neither end of s is whitespace. */
  predicate Stripped(s: string)
  {
    |s| == 0 || (!IsSpace(s[0]) && !IsSpace(s[|s| - 1]))
  }

  /** The number of whitespace characters at the start of s. */
  function LeadingSpaces(s: string): (k: nat)
    ensures k <= |s| && AllSpace(s[..k])
    ensures k == |s| || !IsSpace(s[k])
  {
    if |s| > 0 && IsSpace(s[0]) then
      var k := 1 + LeadingSpaces(s[1..]);
      LeadingSpacesStep(s, k);
      k
    else 0
  }

  function TrimStart(s: string): (r: string)
    ensures |r| <= |s| && r == s[|s| - |r|..]
    ensures AllSpace(s[..|s| - |r|])
    ensures |r| == 0 || !IsSpace(r[0])
  {
    s[LeadingSpaces(s)..]
  }

  function TrimEnd(s: string): (r: string)
    ensures |r| <= |s| && r == s[..|r|]
    ensures AllSpace(s[|r|..])
    ensures |r| == 0 || !IsSpace(r[|r| - 1])
  {
    if |s| > 0 && IsSpace(s[|s| - 1]) then
      var r := TrimEnd(s[..|s| - 1]);
      TrimEndStep(s, |r|);
      r
    else s
  }

  /** A leading space extends the whitespace run of the rest of s. */
  lemma LeadingSpacesStep(s: string, k: int)
    requires 0 < k <= |s| && IsSpace(s[0]) && AllSpace(s[1..][..k - 1])
    requires k - 1 == |s| - 1 || !IsSpace(s[1..][k - 1])
    ensures AllSpace(s[..k]) && (k == |s| || !IsSpace(s[k]))
  {
    forall i | 0 <= i < k
      ensures IsSpace(s[..k][i])
    {
      if i > 0 {
        assert s[..k][i] == s[1..][..k - 1][i - 1];
      }
    }
  }

  /** A trailing space extends an all-whitespace tail. */
  lemma TrimEndStep(s: string, k: int)
    requires 0 <= k < |s| && IsSpace(s[|s| - 1]) && AllSpace(s[..|s| - 1][k..])
    ensures AllSpace(s[k..])
  {
    forall i | 0 <= i < |s| - k
      ensures IsSpace(s[k..][i])
    {
      if i < |s| - 1 - k {
        assert s[k..][i] == s[..|s| - 1][k..][i];
      }
    }
  }

  /** `str.strip()`: whitespace removed from both ends. */
  function Strip(s: string): (r: string)
    ensures Stripped(r)
  {
    TrimEnd(TrimStart(s))
  }

  /** `str.replace(c, "")`. */
  function RemoveChar(s: string, c: char): (r: string)
    ensures c !in r
  {
    if |s| == 0 then []
    else if s[0] == c then RemoveChar(s[1..], c)
    else [s[0]] + RemoveChar(s[1..], c)
  }

  /** `str.replace(a, b)` for single characters. */
  function ReplaceChar(s: string, a: char, b: char): (r: string)
    ensures |r| == |s|
    ensures forall i :: 0 <= i < |s| ==> r[i] == (if s[i] == a then b else s[i])
  {
    if |s| == 0 then [] else [if s[0] == a then b else s[0]] + ReplaceChar(s[1..], a, b)
  }

  /** The text handed to `float` after the export's formatting is undone. */
  function Normalize(s: string): (r: string)
    ensures ' ' !in r && ',' !in r
    ensures Stripped(r)
  {
    var t := Strip(s);
    var u := RemoveChar(t, ' ');
    RemoveCharKeepsEnds(t, ' ');
    DecimalPointKeepsEnds(u);
    ReplaceChar(u, ',', '.')
  }

  /** Turning the comma into a point keeps a space-free, stripped text so,
      and leaves no comma. */
  lemma DecimalPointKeepsEnds(u: string)
    requires ' ' !in u && Stripped(u)
    ensures ' ' !in ReplaceChar(u, ',', '.') && ',' !in ReplaceChar(u, ',', '.')
    ensures Stripped(ReplaceChar(u, ',', '.'))
  {
    var r := ReplaceChar(u, ',', '.');
    forall i | 0 <= i < |r|
      ensures r[i] != ' ' && r[i] != ','
    {
      assert r[i] == (if u[i] == ',' then '.' else u[i]);
    }
    if |r| > 0 {
      assert r[0] == (if u[0] == ',' then '.' else u[0]);
      assert r[|r| - 1] == (if u[|u| - 1] == ',' then '.' else u[|u| - 1]);
    }
  }

  lemma {:induction false} RemoveCharAppend(a: string, b: string, c: char)
    ensures RemoveChar(a + b, c) == RemoveChar(a, c) + RemoveChar(b, c)
  {
    if |a| == 0 {
      assert a + b == b;
    } else {
      assert (a + b)[1..] == a[1..] + b;
      RemoveCharAppend(a[1..], b, c);
    }
  }

  lemma {:induction false} RemoveCharAbsent(s: string, c: char)
    requires c !in s
    ensures RemoveChar(s, c) == s
  {
    if |s| > 0 {
      assert c !in s[1..];
      RemoveCharAbsent(s[1..], c);
    }
  }

  /** Removing a whitespace character keeps a stripped text stripped. */
  lemma {:induction false} RemoveCharKeepsEnds(s: string, c: char)
    requires Stripped(s) && IsSpace(c)
    ensures Stripped(RemoveChar(s, c))
  {
    if |s| > 0 {
      var n := |s|;
      assert s == [s[0]] + s[1..];
      assert s == s[..n - 1] + [s[n - 1]];
      RemoveCharAppend(s[..n - 1], [s[n - 1]], c);
      assert RemoveChar([s[n - 1]], c) == [s[n - 1]];
      var r := RemoveChar(s, c);
      if |r| > 0 {
        assert r[|r| - 1] == s[n - 1];
        assert r[0] == s[0];
      }
    }
  }

  lemma TrimStartPadded(p: string, core: string)
    requires AllSpace(p) && (|core| == 0 || !IsSpace(core[0]))
    ensures TrimStart(p + core) == core
  {
    var s := p + core;
    var k := LeadingSpaces(s);
    forall i | 0 <= i < k
      ensures IsSpace(s[i])
    {
      assert s[..k][i] == s[i];
    }
    assert forall i :: 0 <= i < |p| ==> s[i] == p[i];
    assert |core| > 0 ==> s[|p|] == core[0];
    assert k == |p|;
    assert s[|p|..] == core;
  }

  lemma {:induction false} TrimEndPadded(core: string, p: string)
    requires AllSpace(p) && (|core| == 0 || !IsSpace(core[|core| - 1]))
    ensures TrimEnd(core + p) == core
  {
    if |p| > 0 {
      assert (core + p)[..|core + p| - 1] == core + p[..|p| - 1];
      TrimEndPadded(core, p[..|p| - 1]);
    } else {
      assert core + p == core;
    }
  }

  /** On a stripped text without spaces only the decimal comma changes. */
  lemma {:induction false} NormalizeStripped(s: string)
    requires Stripped(s) && ' ' !in s
    ensures Normalize(s) == ReplaceChar(s, ',', '.')
  {
    TrimStartPadded([], s);
    assert [] + s == s;
    TrimEndPadded(s, []);
    assert s + [] == s;
    RemoveCharAbsent(s, ' ');
  }

  /** Normalizing twice changes nothing more. */
  lemma NormalizeIdempotent(s: string)
    ensures Normalize(Normalize(s)) == Normalize(s)
  {
    var n := Normalize(s);
    NormalizeStripped(n);
    assert ReplaceChar(n, ',', '.') == n;
  }

  // ---------------------------------------------------------------------
  // Decimal text

  predicate IsDigit(c: char)
  {
    '0' <= c <= '9'
  }

  predicate AllDigits(s: string)
  {
    forall i :: 0 <= i < |s| ==> IsDigit(s[i])
  }

  function DigitValue(c: char): (d: nat)
    requires IsDigit(c)
    ensures d < 10
  {
    (c as int) - ('0' as int)
  }

  function DigitChar(d: nat): (c: char)
    requires d < 10
    ensures IsDigit(c) && DigitValue(c) == d
  {
    ('0' as int + d) as char
  }

  /** The value of a digit string, most significant digit first. */
  function DigitsValue(s: string): nat
    requires AllDigits(s)
  {
    if |s| == 0 then 0 else DigitsValue(s[..|s| - 1]) * 10 + DigitValue(s[|s| - 1])
  }

  /** The decimal digits of n, without leading zeros. */
  function NatText(n: nat): (s: string)
    ensures |s| > 0 && AllDigits(s)
  {
    if n < 10 then [DigitChar(n)] else NatText(n / 10) + [DigitChar(n % 10)]
  }

  lemma {:induction false} NatTextValue(n: nat)
    ensures DigitsValue(NatText(n)) == n
  {
    if n >= 10 {
      NatTextValue(n / 10);
      var s := NatText(n);
      assert s[..|s| - 1] == NatText(n / 10);
    }
  }

  /** Index of the first occurrence of c. */
  function FirstIndex(s: string, c: char): (i: nat)
    requires c in s
    ensures i < |s| && s[i] == c && c !in s[..i]
  {
    if s[0] == c then 0
    else
      var i := FirstIndex(s[1..], c) + 1;
      assert s[..i] == [s[0]] + s[1..][..i - 1];
      i
  }

  /** An unsigned decimal: digits, optionally a point and more digits, with
      at least one digit somewhere. */
  function ParseUnsigned(t: string): (r: Option<real>)
    ensures r.Some? ==> r.value >= 0.0
  {
    if '.' in t then
      var i := FirstIndex(t, '.');
      var w, f := t[..i], t[i + 1..];
      if AllDigits(w) && AllDigits(f) && |w| + |f| > 0 then
        Some(DigitsValue(w) as real + DigitsValue(f) as real / Power(10.0, |f|))
      else None
    else if AllDigits(t) && |t| > 0 then Some(DigitsValue(t) as real)
    else None
  }

  /** A decimal with an optional leading sign. */
  function ParseDecimal(t: string): Option<real>
  {
    if |t| > 0 && t[0] == '-' then
      match ParseUnsigned(t[1..])
      case Some(v) => Some(-v)
      case None => None
    else if |t| > 0 && t[0] == '+' then ParseUnsigned(t[1..])
    else ParseUnsigned(t)
  }

  // ---------------------------------------------------------------------
  // What a number looks like

  /** The sign written for a sign code: -1 is "-", 1 is "+", 0 is none. */
  function SignMark(sign: int): string
  {
    if sign < 0 then "-" else if sign > 0 then "+" else ""
  }

  /** v with a minus applied when `negative`. */
  function Signed(negative: bool, v: real): real
  {
    if negative then -v else v
  }

  /** Whole digits, then, when `point`, a point and fraction digits. */
  function DecimalBody(w: string, fr: string, point: bool): string
  {
    w + (if point then "." + fr else "")
  }

  /** u is an unsigned decimal with whole part w and fraction part fr; at
      least one digit in all, and no fraction without a point. */
  ghost predicate UnsignedSpelled(u: string, w: string, fr: string, point: bool)
  {
    && AllDigits(w) && AllDigits(fr)
    && (point || |fr| == 0)
    && |w| + |fr| > 0
    && u == DecimalBody(w, fr, point)
  }

  function UnsignedValue(w: string, fr: string): real
    requires AllDigits(w) && AllDigits(fr)
  {
    DigitsValue(w) as real + DigitsValue(fr) as real / Power(10.0, |fr|)
  }

  /** t is a sign followed by an unsigned decimal, and v its value. */
  ghost predicate Spelling(t: string, v: real, sign: int, w: string, fr: string, point: bool)
  {
    && -1 <= sign <= 1
    && UnsignedSpelled(DecimalBody(w, fr, point), w, fr, point)
    && t == SignMark(sign) + DecimalBody(w, fr, point)
    && v == Signed(sign < 0, UnsignedValue(w, fr))
  }

  /** t is the text of the number v. */
  ghost predicate Spells(t: string, v: real)
  {
    exists sign: int, w: string, fr: string, point: bool :: Spelling(t, v, sign, w, fr, point)
  }

  /** Every value ParseUnsigned returns is spelled by its input. */
  lemma UnsignedSound(u: string)
    requires ParseUnsigned(u).Some?
    ensures exists w, fr, point :: UnsignedSpelled(u, w, fr, point) && ParseUnsigned(u).value == UnsignedValue(w, fr)
  {
    if '.' in u {
      var i := FirstIndex(u, '.');
      var w, fr := u[..i], u[i + 1..];
      assert u == DecimalBody(w, fr, true);
      assert UnsignedSpelled(u, w, fr, true);
    } else {
      assert u == DecimalBody(u, [], false);
      assert DigitsValue([]) == 0;
      assert UnsignedSpelled(u, u, [], false);
    }
  }

  /** Every unsigned decimal is read as its value. */
  lemma UnsignedComplete(u: string, w: string, fr: string, point: bool)
    requires UnsignedSpelled(u, w, fr, point)
    ensures ParseUnsigned(u) == Some(UnsignedValue(w, fr))
  {
    if point {
      assert u == w + ("." + fr);
      ParseUnsignedSplit(w, fr);
    } else {
      assert u == w;
      WholeComplete(w, fr);
    }
  }

  lemma WholeComplete(w: string, fr: string)
    requires AllDigits(w) && |w| > 0 && |fr| == 0
    ensures ParseUnsigned(w) == Some(UnsignedValue(w, fr))
  {
    DigitsHaveNoSigns(w);
    assert DigitsValue(fr) == 0;
  }

  /** Every value ParseDecimal returns is spelled by its input. */
  lemma DecimalSound(t: string)
    requires ParseDecimal(t).Some?
    ensures Spells(t, ParseDecimal(t).value)
  {
    var sign := if |t| > 0 && t[0] == '-' then -1 else if |t| > 0 && t[0] == '+' then 1 else 0;
    var u := t[|SignMark(sign)|..];
    assert t == SignMark(sign) + u;
    UnsignedSound(u);
    var w, fr, point :| UnsignedSpelled(u, w, fr, point) && ParseUnsigned(u).value == UnsignedValue(w, fr);
    assert Spelling(t, ParseDecimal(t).value, sign, w, fr, point);
  }

  /** A text that spells v is read as v. */
  lemma DecimalComplete(t: string, v: real, sign: int, w: string, fr: string, point: bool)
    requires Spelling(t, v, sign, w, fr, point)
    ensures ParseDecimal(t) == Some(v)
  {
    var u := DecimalBody(w, fr, point);
    var x := UnsignedValue(w, fr);
    UnsignedComplete(u, w, fr, point);
    if sign < 0 {
      assert t == "-" + u;
      ParseDecimalMinus(u, x);
    } else if sign > 0 {
      assert t == "+" + u;
      ParseDecimalPlus(u, x);
    } else {
      assert t == u;
      BodyUnsigned(w, fr, point);
      ParseDecimalUnsigned(u, x);
    }
  }

  /** An unsigned decimal starts with a digit or the point, not a sign. */
  lemma BodyUnsigned(w: string, fr: string, point: bool)
    requires UnsignedSpelled(DecimalBody(w, fr, point), w, fr, point)
    ensures var u := DecimalBody(w, fr, point); |u| > 0 && u[0] != '-' && u[0] != '+'
  {
    var u := DecimalBody(w, fr, point);
    if |w| > 0 {
      assert u[0] == w[0] && IsDigit(w[0]);
    } else {
      assert u[0] == '.';
    }
  }

  lemma DecimalCompleteAll(t: string)
    ensures forall v :: Spells(t, v) ==> ParseDecimal(t) == Some(v)
  {
    forall v | Spells(t, v)
      ensures ParseDecimal(t) == Some(v)
    {
      var sign, w, fr, point :| Spelling(t, v, sign, w, fr, point);
      DecimalComplete(t, v, sign, w, fr, point);
    }
  }

  /** A text spells at most one number. */
  lemma SpellingUnique(t: string, v1: real, v2: real)
    requires Spells(t, v1) && Spells(t, v2)
    ensures v1 == v2
  {
    DecimalCompleteAll(t);
  }

  /** `parse_number`: the value of a CSV amount such as "-363 546,05". It
      succeeds exactly when the normalized text spells a number, with that
      number as result; otherwise the error names the normalized text, as
      the `ValueError` of `float` does. */
  function ParseNumber(s: string): (r: Result<real, ParseError>)
    ensures r.Success? <==> exists v :: Spells(Normalize(s), v)
    ensures r.Success? ==> Spells(Normalize(s), r.value)
    ensures forall v :: Spells(Normalize(s), v) ==> r == Success(v)
    ensures r.Failure? ==> r.error == NotANumber(Normalize(s))
  {
    var t := Normalize(s);
    DecimalCompleteAll(t);
    match ParseDecimal(t)
    case Some(v) => DecimalSound(t); Success(v)
    case None => Failure(NotANumber(t))
  }

  // ---------------------------------------------------------------------
  // Round trip

  function SignText(negative: bool): string
  {
    if negative then "-" else ""
  }

  /** How the export writes a number: an optional minus, the whole part, a
      decimal comma and the fraction digits. */
  function ExportText(negative: bool, whole: nat, frac: string): string
    requires AllDigits(frac)
  {
    SignText(negative) + (NatText(whole) + ("," + frac))
  }

  function ExportValue(negative: bool, whole: nat, frac: string): real
    requires AllDigits(frac)
  {
    var v := whole as real + DigitsValue(frac) as real / Power(10.0, |frac|);
    if negative then -v else v
  }

  lemma {:induction false} DigitsHaveNoSigns(s: string)
    requires AllDigits(s)
    ensures ' ' !in s && ',' !in s && '.' !in s && '-' !in s
    ensures |s| > 0 ==> !IsSpace(s[0]) && !IsSpace(s[|s| - 1])
  {
  }

  /** Whitespace padding around a stripped, non-empty text is removed. */
  lemma {:induction false} StripPadded(pre: string, core: string, post: string)
    requires AllSpace(pre) && AllSpace(post) && |core| > 0 && Stripped(core)
    ensures Strip(pre + core + post) == core
  {
    var s := pre + core + post;
    assert TrimStart(s) == core + post by {
      assert s == pre + (core + post);
      assert (core + post)[0] == core[0];
      TrimStartPadded(pre, core + post);
    }
    TrimEndPadded(core, post);
  }

  /** Padding is stripped and a text without spaces keeps everything but
      its decimal comma. */
  lemma {:induction false} NormalizePadded(pre: string, core: string, post: string)
    requires AllSpace(pre) && AllSpace(post) && |core| > 0 && Stripped(core) && ' ' !in core
    ensures Normalize(pre + core + post) == ReplaceChar(core, ',', '.')
  {
    StripPadded(pre, core, post);
    StripStripped(core);
    NormalizeStripped(core);
  }

  lemma {:induction false} ReplaceCharAppend(a: string, b: string, x: char, y: char)
    ensures ReplaceChar(a + b, x, y) == ReplaceChar(a, x, y) + ReplaceChar(b, x, y)
  {
    var l, r := ReplaceChar(a + b, x, y), ReplaceChar(a, x, y) + ReplaceChar(b, x, y);
    assert |l| == |r|;
    forall i | 0 <= i < |l| ensures l[i] == r[i] {
      if i < |a| {
        assert (a + b)[i] == a[i];
      } else {
        assert (a + b)[i] == b[i - |a|];
      }
    }
  }

  lemma {:induction false} ReplaceCharAbsent(s: string, a: char, b: char)
    requires a !in s
    ensures ReplaceChar(s, a, b) == s
  {
    var r := ReplaceChar(s, a, b);
    forall i | 0 <= i < |s| ensures r[i] == s[i] {
      assert s[i] in s;
    }
  }

  lemma ReplaceCharComma()
    ensures ReplaceChar(",", ',', '.') == "."
  {
    assert ","[1..] == [];
  }

  /** Whole digits, a point and fraction digits read as their value. */
  lemma {:induction false} ParseUnsignedSplit(w: string, f: string)
    requires |w| + |f| > 0 && AllDigits(w) && AllDigits(f)
    ensures ParseUnsigned(w + ("." + f))
            == Some(DigitsValue(w) as real + DigitsValue(f) as real / Power(10.0, |f|))
  {
    var body := w + ("." + f);
    assert body[|w|] == '.';
    var i := FirstIndex(body, '.');
    assert forall j :: 0 <= j < |w| ==> body[j] == w[j] && IsDigit(w[j]);
    assert i == |w|;
    assert body[..i] == w && body[i + 1..] == f;
  }

  /** A leading minus negates; without one the text must not start with a
      sign. */
  lemma ParseDecimalSigned(negative: bool, body: string, v: real)
    requires |body| > 0 && IsDigit(body[0]) && ParseUnsigned(body) == Some(v)
    ensures ParseDecimal(SignText(negative) + body) == Some(if negative then -v else v)
  {
    if negative {
      assert SignText(negative) + body == "-" + body;
      ParseDecimalMinus(body, v);
    } else {
      assert SignText(negative) + body == body;
      ParseDecimalPlain(body, v);
    }
  }

  lemma ParseDecimalMinus(body: string, v: real)
    requires ParseUnsigned(body) == Some(v)
    ensures ParseDecimal("-" + body) == Some(-v)
  {
    var t := "-" + body;
    assert t[0] == '-' && t[1..] == body;
  }

  lemma ParseDecimalPlus(body: string, v: real)
    requires ParseUnsigned(body) == Some(v)
    ensures ParseDecimal("+" + body) == Some(v)
  {
    var t := "+" + body;
    assert t[0] == '+' && t[1..] == body;
  }

  lemma ParseDecimalUnsigned(body: string, v: real)
    requires |body| > 0 && body[0] != '-' && body[0] != '+' && ParseUnsigned(body) == Some(v)
    ensures ParseDecimal(body) == Some(v)
  {
  }

  lemma ParseDecimalPlain(body: string, v: real)
    requires |body| > 0 && IsDigit(body[0]) && ParseUnsigned(body) == Some(v)
    ensures ParseDecimal(body) == Some(v)
  {
  }

  /** Only the decimal comma between the whole and fraction digits is
      replaced. */
  lemma {:induction false} ReplaceDecimalComma(sign: string, w: string, frac: string)
    requires ',' !in sign && ',' !in w && ',' !in frac
    ensures ReplaceChar(sign + (w + ("," + frac)), ',', '.') == sign + (w + ("." + frac))
  {
    var tail := "," + frac;
    ReplaceCharAppend(",", frac, ',', '.');
    ReplaceCharComma();
    ReplaceCharAbsent(frac, ',', '.');
    ReplaceCharAppend(w, tail, ',', '.');
    ReplaceCharAbsent(w, ',', '.');
    ReplaceCharAppend(sign, w + tail, ',', '.');
    ReplaceCharAbsent(sign, ',', '.');
  }

  /** The exported text of a number, without its padding, is stripped and
      has no spaces. */
  lemma {:induction false} ExportTextShape(negative: bool, whole: nat, frac: string)
    requires AllDigits(frac)
    ensures |ExportText(negative, whole, frac)| > 0 && Stripped(ExportText(negative, whole, frac))
    ensures ' ' !in ExportText(negative, whole, frac)
  {
    var w := NatText(whole);
    var core := ExportText(negative, whole, frac);
    DigitsHaveNoSigns(w);
    DigitsHaveNoSigns(frac);
    assert core[|core| - 1] == (if |frac| > 0 then frac[|frac| - 1] else ',');
    assert core[0] == (if negative then '-' else w[0]);
  }

  /** The normalized form of an exported number. */
  lemma {:induction false} NormalizeExport(pre: string, negative: bool, whole: nat, frac: string, post: string)
    requires AllSpace(pre) && AllSpace(post) && AllDigits(frac)
    ensures Normalize(pre + ExportText(negative, whole, frac) + post)
            == SignText(negative) + (NatText(whole) + ("." + frac))
  {
    ExportTextShape(negative, whole, frac);
    NormalizePadded(pre, ExportText(negative, whole, frac), post);
    DigitsHaveNoSigns(NatText(whole));
    DigitsHaveNoSigns(frac);
    ReplaceDecimalComma(SignText(negative), NatText(whole), frac);
  }

  /** Whatever whitespace surrounds it, the exported text of a number parses
      back to that number. */
  lemma {:induction false} ParseExportRoundTrip(pre: string, negative: bool, whole: nat, frac: string, post: string)
    requires AllSpace(pre) && AllSpace(post) && AllDigits(frac)
    ensures ParseNumber(pre + ExportText(negative, whole, frac) + post)
            == Success(ExportValue(negative, whole, frac))
  {
    var w := NatText(whole);
    var body := w + ("." + frac);
    var v := whole as real + DigitsValue(frac) as real / Power(10.0, |frac|);
    var signed := if negative then -v else v;
    assert ExportValue(negative, whole, frac) == signed;
    assert ParseDecimal(SignText(negative) + body) == Some(signed) by {
      assert ParseUnsigned(body) == Some(v) by {
        ParseUnsignedSplit(w, frac);
        NatTextValue(whole);
      }
      assert body[0] == w[0];
      ParseDecimalSigned(negative, body, v);
    }
    assert Normalize(pre + ExportText(negative, whole, frac) + post) == SignText(negative) + body by {
      NormalizeExport(pre, negative, whole, frac, post);
    }
    ParseNumberFrom(pre + ExportText(negative, whole, frac) + post, SignText(negative) + body, signed);
  }

  /** ParseNumber reads the decimal its normalized text spells. */
  lemma ParseNumberFrom(s: string, t: string, v: real)
    requires Normalize(s) == t && ParseDecimal(t) == Some(v)
    ensures ParseNumber(s) == Success(v)
  {
  }

  /** Joining two parts that do not start or end with whitespace, with
      anything in between, gives a stripped text. */
  lemma JoinStripped(a: string, m: string, b: string)
    requires |a| > 0 && |b| > 0 && !IsSpace(a[0]) && !IsSpace(b[|b| - 1])
    ensures Stripped(a + m + b)
  {
    var g := a + m + b;
    assert g[0] == a[0];
    assert g[|g| - 1] == b[|b| - 1];
  }

  /** Removing the spaces erases a space placed between two parts. */
  lemma SpaceBetweenRemoved(a: string, b: string)
    ensures RemoveChar(a + " " + b, ' ') == RemoveChar(a + b, ' ')
  {
    RemoveCharAppend(a + " ", b, ' ');
    RemoveCharAppend(a, " ", ' ');
    assert RemoveChar(" ", ' ') == [] by {
      assert " "[1..] == [];
    }
    assert RemoveChar(a, ' ') + [] == RemoveChar(a, ' ');
    RemoveCharAppend(a, b, ' ');
  }

  /** A space between two parts of a number, as in a thousands group, is
      removed by normalization. */
  lemma InnerSpaceRemoved(a: string, b: string)
    requires |a| > 0 && |b| > 0 && !IsSpace(a[0]) && !IsSpace(b[|b| - 1])
    ensures Normalize(a + " " + b) == Normalize(a + b)
  {
    JoinStripped(a, " ", b);
    JoinStripped(a, [], b);
    assert a + [] + b == a + b;
    StripStripped(a + " " + b);
    StripStripped(a + b);
    SpaceBetweenRemoved(a, b);
    NormalizeAgrees(a + " " + b, a + b);
  }

  lemma StripStripped(s: string)
    requires Stripped(s)
    ensures Strip(s) == s
  {
    TrimStartPadded([], s);
    assert [] + s == s;
    TrimEndPadded(s, []);
    assert s + [] == s;
  }

  /** Texts that agree once stripped and rid of spaces normalize alike. */
  lemma NormalizeAgrees(s1: string, s2: string)
    requires RemoveChar(Strip(s1), ' ') == RemoveChar(Strip(s2), ' ')
    ensures Normalize(s1) == Normalize(s2)
  {
  }

  /** Texts with the same normalized form parse alike. */
  lemma ParseNumberRespectsNormalize(s1: string, s2: string)
    requires Normalize(s1) == Normalize(s2)
    ensures ParseNumber(s1).Success? <==> ParseNumber(s2).Success?
    ensures ParseNumber(s1).Success? ==> ParseNumber(s1) == ParseNumber(s2)
  {
  }

  /** A space inside a number, as in a thousands group, is ignored. */
  lemma InnerSpaceIgnored(a: string, b: string)
    requires |a| > 0 && |b| > 0 && !IsSpace(a[0]) && !IsSpace(b[|b| - 1])
    ensures ParseNumber(a + " " + b).Success? <==> ParseNumber(a + b).Success?
    ensures ParseNumber(a + b).Success? ==> ParseNumber(a + " " + b) == ParseNumber(a + b)
  {
    InnerSpaceRemoved(a, b);
    ParseNumberRespectsNormalize(a + " " + b, a + b);
  }

  /** The text of an integer: an optional minus, then its digits. */
  function IntegerText(negative: bool, whole: nat): string
  {
    SignText(negative) + NatText(whole)
  }

  /** A sign and a non-empty digit string form a stripped text with no space
      or comma. */
  lemma {:induction false} SignedDigitsShape(negative: bool, w: string)
    requires |w| > 0 && AllDigits(w)
    ensures Stripped(SignText(negative) + w)
    ensures ' ' !in SignText(negative) + w && ',' !in SignText(negative) + w
  {
    var core := SignText(negative) + w;
    DigitsHaveNoSigns(w);
    forall i | 0 <= i < |core| ensures core[i] != ' ' && core[i] != ',' {
      if !negative || i > 0 {
        assert core[i] in w;
      }
    }
    assert core[0] == (if negative then '-' else w[0]);
    assert core[|core| - 1] == w[|w| - 1];
  }

  /** Padded, optionally signed digits parse to their value. */
  lemma {:induction false} ParseSignedDigits(pre: string, negative: bool, w: string, post: string)
    requires AllSpace(pre) && AllSpace(post) && |w| > 0 && AllDigits(w)
    ensures ParseNumber(pre + (SignText(negative) + w) + post)
            == Success(Signed(negative, DigitsValue(w) as real))
  {
    NormalizeSignedDigits(pre, negative, w, post);
    ParseSignedDigitText(negative, w);
    ParseNumberFrom(pre + (SignText(negative) + w) + post, SignText(negative) + w, Signed(negative, DigitsValue(w) as real));
  }

  lemma {:induction false} NormalizeSignedDigits(pre: string, negative: bool, w: string, post: string)
    requires AllSpace(pre) && AllSpace(post) && |w| > 0 && AllDigits(w)
    ensures Normalize(pre + (SignText(negative) + w) + post) == SignText(negative) + w
  {
    var core := SignText(negative) + w;
    SignedDigitsShape(negative, w);
    NormalizePadded(pre, core, post);
    ReplaceCharAbsent(core, ',', '.');
  }

  lemma {:induction false} ParseSignedDigitText(negative: bool, w: string)
    requires |w| > 0 && AllDigits(w)
    ensures ParseDecimal(SignText(negative) + w) == Some(Signed(negative, DigitsValue(w) as real))
  {
    var v := DigitsValue(w) as real;
    DigitsHaveNoSigns(w);
    assert ParseUnsigned(w) == Some(v);
    ParseDecimalSigned(negative, w, v);
  }

  /** Whatever whitespace surrounds it, an integer written with an optional
      minus and no decimal part parses to that integer. */
  lemma {:induction false} ParseIntegerRoundTrip(pre: string, negative: bool, whole: nat, post: string)
    requires AllSpace(pre) && AllSpace(post)
    ensures ParseNumber(pre + IntegerText(negative, whole) + post) == Success(Signed(negative, whole as real))
  {
    var w := NatText(whole);
    assert IntegerText(negative, whole) == SignText(negative) + w;
    NatTextValue(whole);
    ParseSignedDigits(pre, negative, w, post);
  }

  lemma IntegerText123()
    ensures "" + IntegerText(false, 123) + "" == "123"
  {
    assert NatText(1) == "1";
    assert NatText(12) == NatText(1) + "2";
    assert NatText(123) == NatText(12) + "3";
  }

  /** Plain integer text, as in "123". */
  lemma ParseIntegerExample()
    ensures ParseNumber("123") == Success(123.0)
  {
    IntegerText123();
    ParseIntegerRoundTrip("", false, 123, "");
  }

  lemma ExportTextCommaExample()
    ensures "" + ExportText(false, 1, "23") + "" == "1,23"
    ensures ExportValue(false, 1, "23") == 1.23
  {
    assert "23"[..1] == "2";
    assert DigitsValue("23") == 23;
    assert Power(10.0, 2) == 100.0;
  }

  /** A number with a decimal comma. */
  lemma ParseDecimalCommaExample()
    ensures ParseNumber("1,23") == Success(1.23)
  {
    ParseExportRoundTrip("", false, 1, "23", "");
    ExportTextCommaExample();
  }

  lemma NatTextGrouped()
    ensures NatText(363546) == "363546"
  {
    assert NatText(3) == "3";
    assert NatText(36) == NatText(3) + "6";
    assert NatText(363) == NatText(36) + "3";
    assert NatText(3635) == NatText(363) + "5";
    assert NatText(36354) == NatText(3635) + "4";
    assert NatText(363546) == NatText(36354) + "6";
  }

  lemma ExportTextGroupedExample()
    ensures "" + ExportText(true, 363546, "05") + "" == "-363" + "546,05"
    ensures "-363" + " " + "546,05" == "-363 546,05"
    ensures ExportValue(true, 363546, "05") == -363546.05
  {
    NatTextGrouped();
    assert "05"[..1] == "0";
    assert DigitsValue("05") == 5;
    assert Power(10.0, 2) == 100.0;
  }

  /** A negative number with a space as thousands separator. */
  lemma ParseGroupedExample()
    ensures ParseNumber("-363 546,05") == Success(-363546.05)
  {
    ParseUngroupedExample();
    ExportTextGroupedExample();
    InnerSpaceIgnored("-363", "546,05");
  }

  lemma ParseUngroupedExample()
    ensures ParseNumber("-363" + "546,05") == Success(-363546.05)
  {
    ParseExportRoundTrip("", true, 363546, "05", "");
    ExportTextGroupedExample();
  }

  /** Empty text is not a number. */
  lemma ParseEmptyRejected()
    ensures ParseNumber("").Failure?
  {
    assert Normalize("") == "" by {
      NormalizeStripped("");
      assert ReplaceChar("", ',', '.') == "";
    }
  }

  lemma ThreePartsText()
    ensures Normalize("1,2,3") == "1.2.3"
  {
    assert Stripped("1,2,3") && ' ' !in "1,2,3";
    NormalizeStripped("1,2,3");
    ThreePartsReplaced();
  }

  lemma ThreePartsReplaced()
    ensures ReplaceChar("1,2,3", ',', '.') == "1.2.3"
  {
    var r := ReplaceChar("1,2,3", ',', '.');
    assert r[0] == '1' && r[1] == '.' && r[2] == '2' && r[3] == '.' && r[4] == '3';
  }

  lemma ThreePartsNotDecimal()
    ensures ParseDecimal("1.2.3").None?
  {
    assert FirstIndex("1.2.3", '.') == 1;
    assert "1.2.3"[2..][1] == '.';
  }

  /** Two decimal commas make the text invalid. */
  lemma ParseTwoCommasRejected()
    ensures ParseNumber("1,2,3").Failure?
  {
    ThreePartsText();
    ThreePartsNotDecimal();
  }
}
