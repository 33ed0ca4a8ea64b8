/** Text rendering and parsing of complex values.

    The two library conversions the source relies on are parameters here:
    `render` stands for the float-to-text conversion used by string
    concatenation, and `parseFloat` for `Float.parseFloat`, with `None` for the
    `NumberFormatException` it throws on a malformed literal.
 */
module ComplexText {
  import opened ComplexNumbers
  import opened Options

  /** What parsing one token yields: a value, the null reference (a token whose
      only sign is a leading `+`), or the exception of the literal parser. */
  datatype Parsed = Value(c: Complex) | Null | NumberFormatError

  /** `s` with every occurrence of `ch` removed (`replaceAll` of a one-character
      pattern). */
  function RemoveAll(s: string, ch: char): (r: string)
    ensures ch !in r
    ensures ch !in s ==> r == s
  {
    if s == [] then []
    else (if s[0] == ch then [] else [s[0]]) + RemoveAll(s[1..], ch)
  }

  /** The index of the first `ch` in `s`, or -1. */
  function IndexOf(s: string, ch: char): (k: int)
    ensures -1 <= k < |s|
    ensures k == -1 <==> ch !in s
    ensures 0 <= k ==> s[k] == ch && ch !in s[..k]
  {
    if s == [] then -1
    else if s[0] == ch then 0
    else
      var k := IndexOf(s[1..], ch);
      assert s[1..][..if k < 0 then 0 else k] == s[1..if k < 0 then 1 else k + 1];
      if k == -1 then -1 else k + 1
  }

  /** The index of the last `ch` in `s`, or -1. */
  function LastIndexOf(s: string, ch: char): (k: int)
    ensures -1 <= k < |s|
    ensures k == -1 <==> ch !in s
    ensures 0 <= k ==> s[k] == ch && ch !in s[k + 1..]
  {
    if s == [] then -1
    else if s[|s| - 1] == ch then |s| - 1
    else
      var k := LastIndexOf(s[..|s| - 1], ch);
      assert s == s[..|s| - 1] + [s[|s| - 1]];
      k
  }

  predicate EndsWithImaginaryUnit(s: string)
  {
    |s| > 0 && (s[|s| - 1] == 'i' || s[|s| - 1] == 'I')
  }

  /** `toString`: the real part alone when the imaginary part is 0, the
      imaginary part with an `i` when the real part is 0, and otherwise both
      parts joined by `-` (with the magnitude of a negative imaginary part) or
      by `+`.  A NaN value renders both NaN parts. */
  function ToText(c: Complex, render: real -> string): (r: string)
    ensures c.Complex? && c.im == 0.0 ==> r == render(c.re)
    ensures c.Complex? && c.im != 0.0 ==> EndsWithImaginaryUnit(r)
  {
    match c
    case NaN => "NaN+NaNi"
    case Complex(re, im) =>
      if im == 0.0 then render(re)
      else if re == 0.0 then render(im) + "i"
      else if im < 0.0 then render(re) + "-" + render(-im) + "i"
      else render(re) + "+" + render(im) + "i"
  }

  /** The value of a split token: `re` and `im` are the texts on either side
      of the splitting sign; an empty imaginary text means 1. */
  function ParseParts(re: string, im: string, negate: bool, parseFloat: string -> Option<real>): (r: Parsed)
    ensures !r.Null? && (r.Value? ==> r.c.Complex?)
  {
    var imText := if im == [] then "1" else im;
    match parseFloat(re)
    case None => NumberFormatError
    case Some(x) =>
      match parseFloat(imText)
      case None => NumberFormatError
      case Some(y) => Value(Complex(x, if negate then -y else y))
  }

  /** True when the token takes the split branch: it holds a `+` anywhere,
      or a `-` after its first character. */
  predicate TakesSignedBranch(s: string)
  {
    '+' in s || LastIndexOf(s, '-') > 0
  }

  /** `parseComplex`: spaces are dropped, then the token is read by
      `ParseToken`. */
  function ParseComplex(text: string, parseFloat: string -> Option<real>): (r: Parsed)
    ensures r.Null? ==> TakesSignedBranch(RemoveAll(text, ' '))
  {
    ParseToken(RemoveAll(text, ' '), parseFloat)
  }

  /** A token without spaces: one with a `+` anywhere, or a `-` past its
      first character, loses its `i`/`I` letters and is split at its first
      `+` (when that is past position 0) or else at its last `-`; any other
      token is a pure imaginary when it ends in `i`/`I` and a pure real
      otherwise. */
  function ParseToken(s: string, parseFloat: string -> Option<real>): (r: Parsed)
    ensures r.Null? ==> TakesSignedBranch(s)
    ensures !TakesSignedBranch(s) && EndsWithImaginaryUnit(s) && r.Value? ==> r.c.Complex? && r.c.re == 0.0
    ensures !TakesSignedBranch(s) && !EndsWithImaginaryUnit(s) && r.Value? ==> r.c.Complex? && r.c.im == 0.0
  {
    if TakesSignedBranch(s) then ParseSigned(RemoveAll(RemoveAll(s, 'i'), 'I'), parseFloat)
    else if EndsWithImaginaryUnit(s) then ParseImaginary(RemoveAll(RemoveAll(s, 'i'), 'I'), parseFloat)
    else ParseReal(s, parseFloat)
  }

  /** The split of a token that takes the split branch, its letters removed: null
      exactly when no `-` lies past its first character and its first `+`, if any,
      is at position 0 (so `+3+4` is null). */
  function ParseSigned(t: string, parseFloat: string -> Option<real>): (r: Parsed)
    ensures r == Null <==> (|t| == 0 || '-' !in t[1..]) && ('+' in t ==> t[0] == '+')
  {
    var plus := IndexOf(t, '+');
    var minus := LastIndexOf(t, '-');
    if plus > 0 then
      assert t[plus] == '+' && t[..plus][0] == t[0];
      ParseParts(t[..plus], t[plus + 1..], false, parseFloat)
    else if minus > 0 then
      assert t[1..][minus - 1] == '-';
      ParseParts(t[..minus], t[minus + 1..], true, parseFloat)
    else Null
  }

  /** A pure imaginary, its letters removed: a leading `-` negates, and no
      digits at all mean a magnitude of 1. */
  function ParseImaginary(t: string, parseFloat: string -> Option<real>): (r: Parsed)
    ensures !r.Null? && (r.Value? ==> r.c.Complex? && r.c.re == 0.0)
    ensures t == [] ==> r == Value(Complex(0.0, 1.0))
    ensures t == "-" ==> r == Value(Complex(0.0, -1.0))
  {
    var negative := |t| > 0 && t[0] == '-';
    var digits := if negative then RemoveAll(t, '-') else t;
    if digits == [] then Value(Complex(0.0, if negative then -1.0 else 1.0))
    else
      match parseFloat(digits)
      case None => NumberFormatError
      case Some(y) => Value(Complex(0.0, if negative then -y else y))
  }

  /** A pure real; the empty token is zero. */
  function ParseReal(s: string, parseFloat: string -> Option<real>): (r: Parsed)
    ensures !r.Null? && (r.Value? ==> r.c.Complex? && r.c.im == 0.0)
    ensures s == [] ==> r == Value(Complex(0.0, 0.0))
  {
    if s == [] then Value(Complex(0.0, 0.0))
    else
      match parseFloat(s)
      case None => NumberFormatError
      case Some(x) => Value(Complex(x, 0.0))
  }

  lemma {:induction false} RemoveAllConcat(a: string, b: string, ch: char)
    ensures RemoveAll(a + b, ch) == RemoveAll(a, ch) + RemoveAll(b, ch)
  {
    if a == [] {
      assert a + b == b;
    } else {
      assert (a + b)[1..] == a[1..] + b;
      RemoveAllConcat(a[1..], b, ch);
    }
  }

  /** Removing `ch` drops every occurrence of it and keeps every other
      character, each as often as before. */
  lemma {:induction false} RemoveAllKeepsOthers(s: string, ch: char)
    ensures multiset(RemoveAll(s, ch)) == multiset(s)[ch := 0]
  {
    if s != [] {
      RemoveAllKeepsOthers(s[1..], ch);
      assert s == [s[0]] + s[1..];
    }
  }

  /** A single character is dropped when it is `ch` and kept otherwise;
      with `RemoveAllConcat` this fixes the result, order included. */
  lemma RemoveAllSingle(c: char, ch: char)
    ensures RemoveAll([c], ch) == if c == ch then [] else [c]
  {
    assert [c][1..] == [];
  }

  lemma IndexOfAt(s: string, ch: char, k: int)
    requires 0 <= k < |s| && s[k] == ch && ch !in s[..k]
    ensures IndexOf(s, ch) == k
  {
  }

  lemma LastIndexOfAt(s: string, ch: char, k: int)
    requires 0 <= k < |s| && s[k] == ch && ch !in s[k + 1..]
    ensures LastIndexOf(s, ch) == k
  {
  }

  /** Dropping spaces a second time changes nothing, so the parser reads a
      token the same with or without its spaces. */
  lemma ParseIgnoresSpaces(text: string, parseFloat: string -> Option<real>)
    ensures ParseComplex(text, parseFloat) == ParseComplex(RemoveAll(text, ' '), parseFloat)
  {
    assert RemoveAll(RemoveAll(text, ' '), ' ') == RemoveAll(text, ' ');
  }

  /** The token text of a literal as a renderer that never uses exponent
      notation writes it: non-empty, with no `+`, `-`, `i`, `I` or space. */
  predicate Unsigned(w: string)
  {
    |w| > 0 && forall k :: 0 <= k < |w| ==> w[k] != '+' && w[k] != '-' && w[k] != 'i' && w[k] != 'I' && w[k] != ' '
  }

  /** The renderer writes `x` as a literal the parser reads back: a
      non-negative `x` as an unsigned literal, a negative `x` as `-` followed
      by the literal of its magnitude. */
  predicate ReadsBack(render: real -> string, parseFloat: string -> Option<real>, x: real)
  {
    parseFloat(render(x)) == Some(x) &&
    (x >= 0.0 ==> Unsigned(render(x))) &&
    (x < 0.0 ==> render(x) == "-" + render(-x) && Unsigned(render(-x)) && parseFloat(render(-x)) == Some(-x))
  }

  lemma UnsignedHasNo(w: string, ch: char)
    requires Unsigned(w) && ch in "+-iI "
    ensures ch !in w
  {
  }

  /** A rendered real carries no `+`, `i`, `I` or space, and a `-` only at
      its start, where it stands exactly for a negative value. */
  lemma RenderedShape(render: real -> string, parseFloat: string -> Option<real>, x: real)
    requires ReadsBack(render, parseFloat, x)
    ensures |render(x)| > 0
    ensures '+' !in render(x) && 'i' !in render(x) && 'I' !in render(x) && ' ' !in render(x)
    ensures '-' !in render(x)[1..]
    ensures render(x)[0] == '-' <==> x < 0.0
    ensures x < 0.0 ==> RemoveAll(render(x), '-') == render(-x)
  {
    if x >= 0.0 {
      assert Unsigned(render(x));
      UnsignedHasNo(render(x), '+');
      UnsignedHasNo(render(x), '-');
      UnsignedHasNo(render(x), 'i');
      UnsignedHasNo(render(x), 'I');
      UnsignedHasNo(render(x), ' ');
      assert render(x)[0] != '-';
    } else {
      var w := render(-x);
      UnsignedHasNo(w, '+');
      UnsignedHasNo(w, '-');
      UnsignedHasNo(w, 'i');
      UnsignedHasNo(w, 'I');
      UnsignedHasNo(w, ' ');
      assert render(x) == "-" + w;
      assert render(x)[1..] == w;
      RemoveAllConcat("-", w, '-');
    }
  }

  /** A real with zero imaginary part is rendered alone and read back as a
      pure real. */
  lemma RoundTripReal(re: real, render: real -> string, parseFloat: string -> Option<real>)
    requires ReadsBack(render, parseFloat, re)
    ensures ParseComplex(ToText(Complex(re, 0.0), render), parseFloat) == Value(Complex(re, 0.0))
  {
    RenderedShape(render, parseFloat, re);
    var text := render(re);
    assert ToText(Complex(re, 0.0), render) == text;
    assert RemoveAll(text, ' ') == text;
    assert !TakesSignedBranch(text);
    assert !EndsWithImaginaryUnit(text) by {
      assert text[|text| - 1] in text;
    }
    assert ParseToken(text, parseFloat) == ParseReal(text, parseFloat);
  }

  /** A pure imaginary is rendered with a trailing `i` and read back by the
      pure-imaginary branch. */
  lemma RoundTripImaginary(im: real, render: real -> string, parseFloat: string -> Option<real>)
    requires ReadsBack(render, parseFloat, im)
    requires im != 0.0
    ensures ParseComplex(ToText(Complex(0.0, im), render), parseFloat) == Value(Complex(0.0, im))
  {
    RenderedShape(render, parseFloat, im);
    var w := render(im);
    assert ToText(Complex(0.0, im), render) == w + "i";
    ImaginaryToken(w, parseFloat);
    if im < 0.0 {
      assert w[0] == '-' && RemoveAll(w, '-') == render(-im);
      assert parseFloat(render(-im)) == Some(-im);
    } else {
      assert w[0] != '-';
    }
  }

  /** A literal, possibly with a leading `-`, followed by `i` is read by the
      pure-imaginary branch. */
  lemma ImaginaryToken(w: string, parseFloat: string -> Option<real>)
    requires |w| > 0 && '+' !in w && 'i' !in w && 'I' !in w && ' ' !in w && '-' !in w[1..]
    ensures ParseComplex(w + "i", parseFloat) == ParseImaginary(w, parseFloat)
  {
    var text := w + "i";
    assert ' ' !in text;
    assert RemoveAll(text, ' ') == text;
    assert !TakesSignedBranch(text) by {
      assert '+' !in text;
      var j := LastIndexOf(text, '-');
      assert j < |w|;
    }
    RemoveAllConcat(w, "i", 'i');
    assert RemoveAll(text, 'i') == w;
    assert RemoveAll(w, 'I') == w;
  }

  /** A token ending in `i` whose other letters are free of `i`, `I` and
      spaces, and that holds a `+`, or a `-` past its first character, is read
      by the split branch. */
  lemma ParseSignedToken(t: string, parseFloat: string -> Option<real>)
    requires 'i' !in t && 'I' !in t && ' ' !in t
    requires TakesSignedBranch(t + "i")
    ensures ParseComplex(t + "i", parseFloat) == ParseSigned(t, parseFloat)
  {
    var text := t + "i";
    assert ' ' !in text;
    assert RemoveAll(text, ' ') == text;
    RemoveAllConcat(t, "i", 'i');
    assert RemoveAll(text, 'i') == t;
  }

  /** A literal `a` (possibly negative), a sign and an unsigned literal `b`
      are split at that sign. */
  lemma ParseSignedSplit(a: string, sign: char, b: string, parseFloat: string -> Option<real>)
    requires |a| > 0 && '+' !in a && '-' !in a[1..]
    requires '+' !in b && '-' !in b
    requires sign == '+' || sign == '-'
    ensures ParseSigned(a + [sign] + b, parseFloat) == ParseParts(a, b, sign == '-', parseFloat)
  {
    var t := a + [sign] + b;
    assert t[..|a|] == a;
    assert t[|a| + 1..] == b;
    if sign == '-' {
      assert '+' !in t;
      LastIndexOfAt(t, '-', |a|);
    } else {
      IndexOfAt(t, '+', |a|);
    }
  }

  /** The text `a`, sign, `b`, `i` is split at that sign. */
  lemma ParseSplit(a: string, sign: char, b: string, parseFloat: string -> Option<real>)
    requires |a| > 0 && '+' !in a && 'i' !in a && 'I' !in a && ' ' !in a && '-' !in a[1..]
    requires '+' !in b && '-' !in b && 'i' !in b && 'I' !in b && ' ' !in b
    requires sign == '+' || sign == '-'
    ensures ParseComplex(a + [sign] + b + "i", parseFloat) == ParseParts(a, b, sign == '-', parseFloat)
  {
    var t := a + [sign] + b;
    assert t[|a|] == sign;
    if sign == '-' {
      assert '+' !in t;
      LastIndexOfAt(t + "i", '-', |a|);
    }
    ParseSignedToken(t, parseFloat);
    ParseSignedSplit(a, sign, b, parseFloat);
  }

  /** A value with both parts non-zero is rendered as two literals joined by
      the sign of the imaginary part, and read back by the split branch. */
  lemma RoundTripBoth(re: real, im: real, render: real -> string, parseFloat: string -> Option<real>)
    requires ReadsBack(render, parseFloat, re) && ReadsBack(render, parseFloat, im)
    requires re != 0.0 && im != 0.0
    ensures ParseComplex(ToText(Complex(re, im), render), parseFloat) == Value(Complex(re, im))
  {
    var mag := if im < 0.0 then -im else im;
    RenderedShape(render, parseFloat, re);
    RenderedShape(render, parseFloat, mag);
    var sign := if im < 0.0 then '-' else '+';
    assert ToText(Complex(re, im), render) == render(re) + [sign] + render(mag) + "i";
    assert render(mag)[0] != '-';
    ParseSplit(render(re), sign, render(mag), parseFloat);
  }

  /** Round trip: when the renderer writes both parts of a finite value as
      literals the parser reads back, parsing the text of that value gives the
      value back. */
  lemma ParseToTextRoundTrip(c: Complex, render: real -> string, parseFloat: string -> Option<real>)
    requires c.Complex? && ReadsBack(render, parseFloat, c.re) && ReadsBack(render, parseFloat, c.im)
    ensures ParseComplex(ToText(c, render), parseFloat) == Value(c)
  {
    if c.im == 0.0 {
      RoundTripReal(c.re, render, parseFloat);
    } else if c.re == 0.0 {
      RoundTripImaginary(c.im, render, parseFloat);
    } else {
      RoundTripBoth(c.re, c.im, render, parseFloat);
    }
  }

  /** A renderer and literal parser for the values 0, 1 and -1. */
  function SampleRender(x: real): string
  {
    if x == 0.0 then "0" else if x < 0.0 then "-1" else "1"
  }

  function SampleParse(w: string): Option<real>
  {
    if w == "0" then Some(0.0) else if w == "1" then Some(1.0) else if w == "-1" then Some(-1.0) else None
  }

  /** The per-value hypothesis of the round trip is met by real renderers:
      the sample pair reads 0, 1 and -1 back, so `1-1i` round-trips. */
  lemma SampleReadsBack()
    ensures ReadsBack(SampleRender, SampleParse, 0.0)
    ensures ReadsBack(SampleRender, SampleParse, 1.0)
    ensures ReadsBack(SampleRender, SampleParse, -1.0)
    ensures ParseComplex(ToText(Complex(1.0, -1.0), SampleRender), SampleParse) == Value(Complex(1.0, -1.0))
  {
    assert Unsigned("1") && Unsigned("0");
    assert "-1" == "-" + "1";
    ParseToTextRoundTrip(Complex(1.0, -1.0), SampleRender, SampleParse);
  }

  /** A bare unit is the imaginary unit. */
  lemma ParseBareUnit(parseFloat: string -> Option<real>)
    ensures ParseComplex("i", parseFloat) == Value(Complex(0.0, 1.0))
  {
    assert RemoveAll("i", ' ') == "i";
    assert !TakesSignedBranch("i");
    assert RemoveAll(RemoveAll("i", 'i'), 'I') == [];
  }

  /** A negated unit, spaces and all, is minus the imaginary unit. */
  lemma ParseNegatedUnit(parseFloat: string -> Option<real>)
    ensures ParseComplex(" - I ", parseFloat) == Value(Complex(0.0, -1.0))
  {
    assert RemoveAll(" - I ", ' ') == "-I";
    NegatedUnitToken(parseFloat);
  }

  /** The token `-I` reads as minus the imaginary unit. */
  lemma NegatedUnitToken(parseFloat: string -> Option<real>)
    ensures ParseToken("-I", parseFloat) == Value(Complex(0.0, -1.0))
  {
    assert LastIndexOf("-I", '-') == 0;
    assert RemoveAll(RemoveAll("-I", 'i'), 'I') == "-";
    assert RemoveAll("-", '-') == [];
  }

  /** The empty token is zero. */
  lemma ParseEmpty(parseFloat: string -> Option<real>)
    ensures ParseComplex("", parseFloat) == Value(Complex(0.0, 0.0))
  {
  }

  /** A token whose only sign is a leading `+` yields null. */
  lemma ParseLeadingPlus(parseFloat: string -> Option<real>)
    ensures ParseComplex("+3", parseFloat) == Null
  {
    assert RemoveAll("+3", ' ') == "+3";
    assert RemoveAll(RemoveAll("+3", 'i'), 'I') == "+3";
    assert IndexOf("+3", '+') == 0;
    assert LastIndexOf("+3", '-') == -1;
  }

  /** A unit written before a `-` sign leaves that sign leading once the
      letter is gone, so the token yields null. */
  lemma ParseUnitBeforeMinus(parseFloat: string -> Option<real>)
    ensures ParseComplex("i-3", parseFloat) == Null
  {
    assert RemoveAll("i-3", ' ') == "i-3";
    assert LastIndexOf("i-3", '-') == 1;
    assert RemoveAll(RemoveAll("i-3", 'i'), 'I') == "-3";
    SignedLeadingMinus(parseFloat);
  }

  /** A leading minus before a plain number is not read as a sign. */
  lemma SignedLeadingMinus(parseFloat: string -> Option<real>)
    ensures ParseSigned("-3", parseFloat) == Null
  {
    assert IndexOf("-3", '+') == -1;
    assert LastIndexOf("-3", '-') == 0;
  }
}
