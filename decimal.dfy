/**
  `toDecimal`: the parser that turns a free-text amount into a number.
  The text is cleaned down to digits, `,`, `.` and `-`; when both separators
  occur, the one that occurs last is the decimal point; otherwise the first
  comma becomes the point; then `parseFloat` reads the longest numeric prefix.
 */
module Decimal {
  import opened Wrappers
  import opened Numbers
  import opened Text

  /** The characters that survive `replace(/[^0-9,.-]/g, "")`. */
  predicate Kept(c: char) { IsDigit(c) || c == ',' || c == '.' || c == '-' }

  predicate AllKept(s: string) { forall i :: 0 <= i < |s| ==> Kept(s[i]) }

  predicate NoDigit(s: string) { forall i :: 0 <= i < |s| ==> !IsDigit(s[i]) }

  function Clean(s: string): (t: string)
    ensures AllKept(t)
    ensures forall i :: 0 <= i < |t| ==> t[i] in s
  {
    if s == [] then [] else (if Kept(s[0]) then [s[0]] else []) + Clean(s[1..])
  }

  /**
    The separator rule, applied to cleaned text. The result keeps to the
    cleaned alphabet, holds no comma when a dot is the last separator, and
    text without separators is left alone; `NormalizeFirstComma`,
    `NormalizeCommaLast`, `NormalizeDotLast` and `NormalizeCommaOnly` give
    the result outright.
   */
  function Normalize(s: string): (t: string)
    ensures AllKept(s) ==> AllKept(t)
    ensures ',' in s && '.' in s && LastIndexOf(s, ',') < LastIndexOf(s, '.') ==> ',' !in t
    ensures ',' !in s ==> t == s
  {
    if ',' in s && '.' in s then
      if LastIndexOf(s, ',') > LastIndexOf(s, '.') then
        ReplaceFirst(ReplaceAll(s, '.', ""), ',', ".")
      else
        ReplaceAll(s, ',', "")
    else
      ReplaceFirst(s, ',', ".")
  }

  /** The number of digits at the front of `s`. */
  function LeadingDigits(s: string): (n: nat)
    ensures n <= |s|
  {
    if s != [] && IsDigit(s[0]) then 1 + LeadingDigits(s[1..]) else 0
  }

  lemma {:induction false} LeadingDigitsSpec(s: string)
    ensures var n := LeadingDigits(s); AllDigits(s[..n]) && (n < |s| ==> !IsDigit(s[n]))
  {
    if s != [] && IsDigit(s[0]) {
      LeadingDigitsSpec(s[1..]);
      var n := LeadingDigits(s);
      assert s[..n] == [s[0]] + s[1..][..n - 1];
    }
  }

  /**
    The unsigned part `parseFloat` reads: digits, and optionally a `.`
    followed by digits; at least one digit must be read, else None.
   */
  function Magnitude(body: string): Option<real>
  {
    var i := LeadingDigits(body);
    LeadingDigitsSpec(body);
    if i < |body| && body[i] == '.' then
      var rest := body[i + 1..];
      var f := LeadingDigits(rest);
      LeadingDigitsSpec(rest);
      if i == 0 && f == 0 then None
      else Some(DigitsValue(body[..i]) as real + FracValue(rest[..f]))
    else if i == 0 then None
    else Some(DigitsValue(body[..i]) as real)
  }

  /** The value of the digits after the decimal point. */
  function FracValue(ds: string): real
    requires AllDigits(ds)
  {
    if ds == [] then 0.0 else (DigitValue(ds[0]) as real + FracValue(ds[1..])) / 10.0
  }

  function Signed(neg: bool, x: real): real { if neg then -x else x }

  /**
    `parseFloat` on cleaned text: an optional `-` and the magnitude; whatever
    follows the longest such prefix is ignored. (`+`, exponents and
    `Infinity`, which parseFloat also reads, cannot survive cleaning.)
   */
  function ParseFloat(t: string): (n: Num)
    ensures n.Fin? ==> |t| > 0 && (IsDigit(t[0]) || t[0] == '-' || t[0] == '.')
    ensures |t| > 0 && IsDigit(t[0]) ==> n.Fin?
  {
    var neg := |t| > 0 && t[0] == '-';
    match Magnitude(if neg then t[1..] else t)
    case None => NaN
    case Some(m) => Fin(Signed(neg, m))
  }

  /** `toDecimal(val)`; `None` stands for `null` and `undefined`. */
  function ToDecimal(val: Option<string>): (n: Num)
    ensures val.None? ==> n == NaN
  {
    match val
    case None => NaN
    case Some(v) => ParseFloat(Normalize(Clean(v)))
  }

  // ---------------------------------------------------------------- cleaning

  lemma {:induction false} CleanAppend(a: string, b: string)
    ensures Clean(a + b) == Clean(a) + Clean(b)
  {
    if a == [] {
      assert a + b == b;
    } else {
      assert (a + b)[1..] == a[1..] + b;
      CleanAppend(a[1..], b);
    }
  }

  lemma {:induction false} CleanKept(s: string)
    requires AllKept(s)
    ensures Clean(s) == s
  {
    if s != [] {
      CleanKept(s[1..]);
    }
  }

  lemma {:induction false} CleanNoise(s: string)
    requires forall i :: 0 <= i < |s| ==> !Kept(s[i])
    ensures Clean(s) == []
  {
    if s != [] {
      CleanNoise(s[1..]);
    }
  }

  /** Cleaning twice is cleaning once: the parser only ever sees the kept characters. */
  lemma CleanIdempotent(s: string)
    ensures Clean(Clean(s)) == Clean(s)
    ensures ToDecimal(Some(Clean(s))) == ToDecimal(Some(s))
  {
    CleanKept(Clean(s));
  }

  /** Characters other than digits, `,`, `.` and `-` around an amount do not change it. */
  lemma DropNoise(pre: string, v: string, post: string)
    requires forall i :: 0 <= i < |pre| ==> !Kept(pre[i])
    requires forall i :: 0 <= i < |post| ==> !Kept(post[i])
    ensures ToDecimal(Some(pre + v + post)) == ToDecimal(Some(v))
  {
    CleanAppend(pre + v, post);
    CleanAppend(pre, v);
    CleanNoise(pre);
    CleanNoise(post);
    assert Clean(pre + v + post) == Clean(v);
  }

  // ---------------------------------------------------------------- NaN and finiteness

  lemma ParseFloatNoDigit(t: string)
    requires NoDigit(t)
    ensures ParseFloat(t) == NaN
  {
    var body := if |t| > 0 && t[0] == '-' then t[1..] else t;
    assert body != [] ==> !IsDigit(body[0]);
    var i := LeadingDigits(body);
    if i < |body| && body[i] == '.' {
      var rest := body[i + 1..];
      assert rest != [] ==> !IsDigit(rest[0]);
    }
  }

  /** Text without a single digit, such as "um valor", parses as NaN. */
  lemma NoDigitIsNaN(v: string)
    requires NoDigit(v)
    ensures ToDecimal(Some(v)) == NaN
  {
    var s := Clean(v);
    assert NoDigit(s);
    var t := Normalize(s);
    assert NoDigit(t) by {
      if ',' in s && '.' in s {
        var u := ReplaceAll(s, '.', "");
        assert NoDigit(u);
      }
    }
    ParseFloatNoDigit(t);
  }

  lemma ReplaceAllKeepsHead(s: string, c: char, r: string)
    requires |s| > 0 && s[0] != c
    ensures |ReplaceAll(s, c, r)| > 0 && ReplaceAll(s, c, r)[0] == s[0]
  {
  }

  lemma ReplaceFirstKeepsHead(s: string, c: char, r: string)
    requires |s| > 0 && s[0] != c
    ensures |ReplaceFirst(s, c, r)| > 0 && ReplaceFirst(s, c, r)[0] == s[0]
  {
  }

  /** Text whose cleaned form starts with a digit, such as "200k", always parses to a finite number. */
  lemma LeadingDigitIsFinite(v: string)
    requires |Clean(v)| > 0 && IsDigit(Clean(v)[0])
    ensures ToDecimal(Some(v)).Fin?
  {
    var s := Clean(v);
    var t := Normalize(s);
    if ',' in s && '.' in s {
      ReplaceAllKeepsHead(s, '.', "");
      ReplaceAllKeepsHead(s, ',', "");
      ReplaceFirstKeepsHead(ReplaceAll(s, '.', ""), ',', ".");
    } else {
      ReplaceFirstKeepsHead(s, ',', ".");
    }
    assert |t| > 0 && IsDigit(t[0]);
    assert LeadingDigits(t) >= 1;
  }

  // ---------------------------------------------------------------- reading decimal text

  lemma {:induction false} LeadingDigitsOf(a: string, rest: string)
    requires AllDigits(a)
    requires rest == [] || !IsDigit(rest[0])
    ensures LeadingDigits(a + rest) == |a|
  {
    if a == [] {
      assert a + rest == rest;
    } else {
      assert (a + rest)[1..] == a[1..] + rest;
      LeadingDigitsOf(a[1..], rest);
    }
  }

  function Sign(neg: bool): string { if neg then "-" else "" }

  lemma MagnitudeDecimal(a: string, b: string, rest: string)
    requires AllDigits(a) && AllDigits(b) && |a| >= 1
    requires rest == [] || !IsDigit(rest[0])
    ensures Magnitude(a + ("." + b + rest)).Some?
    ensures Magnitude(a + ("." + b + rest)).value == DigitsValue(a) as real + FracValue(b)
  {
    var tail := b + rest;
    var body := a + ("." + b + rest);
    assert "." + b + rest == ['.'] + tail;
    DecimalSlices(a, tail);
    LeadingDigitsOf(a, ['.'] + tail);
    LeadingDigitsOf(b, rest);
    assert tail[..|b|] == b;
  }

  lemma DecimalSlices(a: string, tail: string)
    ensures var body := a + (['.'] + tail); body[|a|] == '.' && body[..|a|] == a && body[|a| + 1..] == tail
  {
  }

  lemma MagnitudeInteger(a: string, rest: string)
    requires AllDigits(a) && |a| >= 1
    requires rest == [] || (!IsDigit(rest[0]) && rest[0] != '.')
    ensures Magnitude(a + rest).Some? && Magnitude(a + rest).value == DigitsValue(a) as real
  {
    var body := a + rest;
    LeadingDigitsOf(a, rest);
    assert body[..|a|] == a;
    assert |a| < |body| ==> body[|a|] == rest[0];
  }

  lemma SignedText(neg: bool, body: string)
    requires |body| > 0 && body[0] != '-'
    ensures var t := Sign(neg) + body; (|t| > 0 && t[0] == '-') == neg && (if neg then t[1..] else t) == body
  {
  }

  lemma Assoc(x: string, a: string, y: string, b: string, rest: string)
    ensures x + a + y + b + rest == x + (a + (y + b + rest))
  {
  }

  lemma ParseFloatOf(neg: bool, body: string)
    requires |body| > 0 && body[0] != '-' && Magnitude(body).Some?
    ensures ParseFloat(Sign(neg) + body) == Fin(Signed(neg, Magnitude(body).value))
  {
    SignedText(neg, body);
  }

  /**
    `parseFloat` reads `[-]a.b` as the decimal number it denotes and stops
    at the first character after it that is not a digit: whatever follows
    (a second comma, a second `-`) is ignored.
   */
  lemma ParseFloatDecimalThen(neg: bool, a: string, b: string, rest: string)
    requires AllDigits(a) && AllDigits(b) && |a| >= 1
    requires rest == [] || !IsDigit(rest[0])
    ensures ParseFloat(Sign(neg) + a + "." + b + rest) == Fin(Signed(neg, DigitsValue(a) as real + FracValue(b)))
  {
    var body := a + ("." + b + rest);
    var t := Sign(neg) + a + "." + b + rest;
    assert t == Sign(neg) + body by { Assoc(Sign(neg), a, ".", b, rest); }
    assert body[0] == a[0] && IsDigit(a[0]);
    MagnitudeDecimal(a, b, rest);
    var m := DigitsValue(a) as real + FracValue(b);
    assert Magnitude(body).value == m;
    assert ParseFloat(Sign(neg) + body) == Fin(Signed(neg, m)) by { ParseFloatOf(neg, body); }
  }

  /** `parseFloat` reads `[-]a.b` as the decimal number it denotes. */
  lemma ParseFloatDecimal(neg: bool, a: string, b: string)
    requires AllDigits(a) && AllDigits(b) && |a| >= 1
    ensures ParseFloat(Sign(neg) + a + "." + b) == Fin(Signed(neg, DigitsValue(a) as real + FracValue(b)))
  {
    ParseFloatDecimalThen(neg, a, b, []);
    assert Sign(neg) + a + "." + b + [] == Sign(neg) + a + "." + b;
  }

  /**
    `parseFloat` reads `[-]a` as the whole number it denotes when neither a
    digit nor a point follows: the rest (a comma, a `-`) is ignored.
   */
  lemma ParseFloatIntegerThen(neg: bool, a: string, rest: string)
    requires AllDigits(a) && |a| >= 1
    requires rest == [] || (!IsDigit(rest[0]) && rest[0] != '.')
    ensures ParseFloat(Sign(neg) + a + rest) == Fin(Signed(neg, DigitsValue(a) as real))
  {
    var body := a + rest;
    assert Sign(neg) + a + rest == Sign(neg) + body;
    assert body[0] == a[0] && IsDigit(a[0]);
    MagnitudeInteger(a, rest);
    var m := DigitsValue(a) as real;
    assert Magnitude(body).value == m;
    assert ParseFloat(Sign(neg) + body) == Fin(Signed(neg, m)) by { ParseFloatOf(neg, body); }
  }

  /** `parseFloat` reads `[-]a` as the whole number it denotes. */
  lemma ParseFloatInteger(neg: bool, a: string)
    requires AllDigits(a) && |a| >= 1
    ensures ParseFloat(Sign(neg) + a) == Fin(Signed(neg, DigitsValue(a) as real))
  {
    ParseFloatIntegerThen(neg, a, []);
    assert Sign(neg) + a + [] == Sign(neg) + a;
  }

  lemma ReplaceFirstAt(a: string, c: char, r: string, b: string)
    requires c !in a
    ensures ReplaceFirst(a + [c] + b, c, r) == a + r + b
  {
    var s := a + [c] + b;
    assert forall k :: 0 <= k < |a| ==> s[k] == a[k] != c;
    assert s[|a|] == c;
    assert IndexOf(s, c) == |a|;
    assert s[..|a|] == a && s[|a| + 1..] == b;
  }

  /** A whole number, written plainly, parses to itself. */
  lemma PlainInteger(n: nat)
    ensures ToDecimal(Some(NatToString(n))) == Fin(n as real)
  {
    IntegerText(NatToString(n));
    NatToStringValue(n);
  }

  /** A string of digits parses to the number it denotes. */
  lemma IntegerText(s: string)
    requires AllDigits(s) && |s| >= 1
    ensures ToDecimal(Some(s)) == Fin(DigitsValue(s) as real)
  {
    CleanKept(s);
    NoSeparatorInDigits(s);
    ParseFloatInteger(false, s);
    assert Sign(false) + s == s;
  }

  /** `[-]a,b` (comma as the decimal point, no dot) parses to the decimal number it denotes. */
  lemma CommaDecimal(neg: bool, a: string, b: string)
    requires AllDigits(a) && AllDigits(b) && |a| >= 1
    ensures ToDecimal(Some(Sign(neg) + a + "," + b))
         == Fin(Signed(neg, DigitsValue(a) as real + FracValue(b)))
  {
    var s := Sign(neg) + a + "," + b;
    assert AllKept(s);
    CleanKept(s);
    assert '.' !in s;
    assert ',' !in Sign(neg) + a;
    ReplaceFirstAt(Sign(neg) + a, ',', ".", b);
    assert Normalize(s) == Sign(neg) + a + "." + b;
    ParseFloatDecimal(neg, a, b);
  }

  lemma FracValuePad2(cents: nat)
    requires cents < 100
    ensures FracValue(Pad2(cents)) == cents as real / 100.0
  {
    var p := Pad2(cents);
    var d0, d1 := cents / 10, cents % 10;
    assert p[1..][1..] == [];
    assert DigitValue(p[0]) == d0 && DigitValue(p[1]) == d1;
    assert FracValue(p[1..]) == d1 as real / 10.0;
    assert FracValue(p) == (d0 as real + d1 as real / 10.0) / 10.0;
    assert cents as real == 10.0 * d0 as real + d1 as real;
  }

  /** `parseFloat` reads "n.cc" as n + cc/100. */
  lemma ReadAmount(n: nat, cents: nat)
    requires cents < 100
    ensures ParseFloat(NatToString(n) + "." + Pad2(cents)) == Fin(n as real + cents as real / 100.0)
  {
    var a, b := NatToString(n), Pad2(cents);
    ParseFloatDecimal(false, a, b);
    assert Sign(false) + a + "." + b == a + "." + b;
    NatToStringValue(n);
    FracValuePad2(cents);
    assert Signed(false, DigitsValue(a) as real + FracValue(b)) == n as real + cents as real / 100.0;
  }

  lemma AmountTextKept(n: nat, sep: char, point: char, p: string)
    requires Kept(sep) && Kept(point) && AllDigits(p)
    ensures AllKept(Group(n, sep) + [point] + p)
  {
    GroupChars(n, sep);
  }

  lemma CommaAfterDots(x: string, p: string)
    requires '.' in x && '.' !in p
    ensures LastIndexOf(x + [','] + p, ',') > LastIndexOf(x + [','] + p, '.')
  {
    var s := x + [','] + p;
    LastIndexOfSkips(x + [','], p, '.');
    LastIndexOfSkips(x, [','], '.');
    assert s[|x|] == ',';
  }

  lemma DropDots(x: string, p: string)
    requires '.' !in p
    ensures ReplaceAll(x + [','] + p, '.', "") == ReplaceAll(x, '.', "") + [','] + p
  {
    var y := x + [','];
    ReplaceAllAppend(y, p, '.', "");
    NoMatchUnchanged(p, '.', "");
    assert ReplaceAll(y, '.', "") == ReplaceAll(x, '.', "") + [','] by {
      ReplaceAllAppend(x, [','], '.', "");
      NoMatchUnchanged([','], '.', "");
    }
  }

  /**
    When a comma follows the last dot, the first comma of the whole text is
    the decimal point, wherever it stands; every dot is dropped and any later
    comma is kept ("1,2.5,6" becomes "1.25,6").
   */
  lemma NormalizeFirstComma(a: string, b: string)
    requires ',' !in a
    requires '.' in a + [','] + b
    requires LastIndexOf(a + [','] + b, ',') > LastIndexOf(a + [','] + b, '.')
    ensures Normalize(a + [','] + b) == ReplaceAll(a, '.', "") + "." + ReplaceAll(b, '.', "")
  {
    var s := a + [','] + b;
    assert s[|a|] == ',';
    ReplaceAllAppend(a + [','], b, '.', "");
    ReplaceAllAppend(a, [','], '.', "");
    NoMatchUnchanged([','], '.', "");
    var a' := ReplaceAll(a, '.', "");
    assert ',' !in a';
    ReplaceFirstAt(a', ',', ".", ReplaceAll(b, '.', ""));
  }

  /**
    When every comma follows the last dot, the first of them is the decimal
    point; the dots are dropped, and any later comma is kept, so `parseFloat`
    stops there ("1.000,5,0" becomes "1000.5,0").
   */
  lemma NormalizeCommaLast(x: string, p: string)
    requires ',' !in x && '.' in x && '.' !in p
    ensures Normalize(x + [','] + p) == ReplaceAll(x, '.', "") + "." + p
  {
    CommaAfterDots(x, p);
    DropDots(x, p);
    ReplaceFirstAt(ReplaceAll(x, '.', ""), ',', ".", p);
  }

  /**
    With no dot, only the first comma becomes the decimal point; later
    commas are kept ("1,234,56" becomes "1.234,56").
   */
  lemma NormalizeCommaOnly(x: string, p: string)
    requires ',' !in x && '.' !in x && '.' !in p
    ensures Normalize(x + [','] + p) == x + "." + p
  {
    ReplaceFirstAt(x, ',', ".", p);
  }

  /** With a dot after the last comma, the commas are dropped. */
  lemma NormalizeDotLast(x: string, p: string)
    requires '.' !in x && ',' !in p && '.' !in p
    ensures Normalize(x + ['.'] + p) == ReplaceAll(x, ',', "") + "." + p
  {
    var s := x + ['.'] + p;
    ReplaceAllAppend(x + ['.'], p, ',', "");
    ReplaceAllAppend(x, ['.'], ',', "");
    NoMatchUnchanged(p, ',', "");
    NoMatchUnchanged(['.'], ',', "");
    if ',' in s {
      LastIndexOfSkips(x + ['.'], p, '.');
      LastIndexOfSkips(x + ['.'], p, ',');
      LastIndexOfSkips(x, ['.'], ',');
    } else {
      NoMatchUnchanged(x, ',', "");
    }
  }

  lemma NoSeparatorInDigits(p: string)
    requires AllDigits(p)
    ensures ',' !in p && '.' !in p
  {
    assert forall i | 0 <= i < |p| :: IsDigit(p[i]);
  }

  lemma NormalizeBrazilian(n: nat, p: string)
    requires AllDigits(p)
    ensures Normalize(Group(n, '.') + [','] + p) == NatToString(n) + "." + p
  {
    var g := Group(n, '.');
    GroupWithoutSeparators(n, '.');
    GroupChars(n, '.');
    NoSeparatorInDigits(p);
    assert ',' !in g;
    if '.' in g {
      NormalizeCommaLast(g, p);
    } else {
      NoMatchUnchanged(g, '.', "");
      NormalizeCommaOnly(g, p);
    }
  }

  lemma NormalizeEnglish(n: nat, p: string)
    requires AllDigits(p)
    ensures Normalize(Group(n, ',') + ['.'] + p) == NatToString(n) + "." + p
  {
    var g := Group(n, ',');
    GroupWithoutSeparators(n, ',');
    GroupChars(n, ',');
    NoSeparatorInDigits(p);
    assert '.' !in g;
    NormalizeDotLast(g, p);
  }

  /**
    Brazilian notation: dots between thousands and a decimal comma, as in
    "150.000,50", parses to the amount written.
   */
  lemma BrazilianAmount(n: nat, cents: nat)
    requires cents < 100
    ensures ToDecimal(Some(Group(n, '.') + "," + Pad2(cents))) == Fin(n as real + cents as real / 100.0)
  {
    var s := Group(n, '.') + "," + Pad2(cents);
    AmountTextKept(n, '.', ',', Pad2(cents));
    CleanKept(s);
    NormalizeBrazilian(n, Pad2(cents));
    ReadAmount(n, cents);
  }

  /**
    English notation: commas between thousands and a decimal dot, as in
    "1,234.56", parses to the amount written as well.
   */
  lemma EnglishAmount(n: nat, cents: nat)
    requires cents < 100
    ensures ToDecimal(Some(Group(n, ',') + "." + Pad2(cents))) == Fin(n as real + cents as real / 100.0)
  {
    var s := Group(n, ',') + "." + Pad2(cents);
    AmountTextKept(n, ',', '.', Pad2(cents));
    CleanKept(s);
    NormalizeEnglish(n, Pad2(cents));
    ReadAmount(n, cents);
  }
}
