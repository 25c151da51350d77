/**
  Brazilian-real amounts as the editor shows them: the input mask that
  reformats the amount fields on every keystroke (`maskBRL`), and the
  currency text that the fixtures of `ValorizationReportApp.tsx` are
  written in (`currencyBR` of a whole number of cents).
 */
module Brl {
  import opened Wrappers
  import opened Numbers
  import opened Text
  import opened Decimal

  /** `s.split("").filter(ch => ch >= "0" && ch <= "9").join("")` */
  function Digits(s: string): (d: string)
    ensures AllDigits(d) && |d| <= |s|
  {
    if s == [] then [] else (if IsDigit(s[0]) then [s[0]] else []) + Digits(s[1..])
  }

  /**
    `maskBRL(raw)`: the digits typed so far read as a number of cents,
    the last two digits being the cents.
   */
  function MaskBRL(raw: string): (m: string)
    ensures |m| >= 7 && m[..3] == "R$ " && IsDigit(m[3])
    ensures m[|m| - 3] == ',' && AllDigits(m[|m| - 2..])
    ensures Digits(raw) == [] ==> m == "R$ 0,00"
  {
    var digits := Digits(raw);
    if digits == [] then "R$ 0,00"
    else
      var intPart := if |digits| > 2 then digits[..|digits| - 2] else "0";
      var cents := if |digits| >= 2 then digits[|digits| - 2..] else "0" + digits;
      "R$ " + Group(DigitsValue(intPart), '.') + "," + cents
  }

  /** The number of cents a mask shows: all the digits typed, read as one number. */
  function Cents(raw: string): nat
  {
    DigitsValue(Digits(raw))
  }

  /** `currencyBR(cents / 100)` for a non-negative whole number of cents. */
  function CurrencyBR(cents: nat): (s: string)
    ensures |s| >= 7 && s[..3] == "R$\U{A0}" && IsDigit(s[3])
    ensures s[|s| - 3] == ',' && AllDigits(s[|s| - 2..])
  {
    "R$\U{A0}" + Group(cents / 100, '.') + "," + Pad2(cents % 100)
  }

  // ---------------------------------------------------------------- digits

  lemma {:induction false} DigitsAppend(a: string, b: string)
    ensures Digits(a + b) == Digits(a) + Digits(b)
  {
    if a == [] {
      assert a + b == b;
    } else {
      assert (a + b)[1..] == a[1..] + b;
      DigitsAppend(a[1..], b);
    }
  }

  lemma {:induction false} DigitsOfDigits(s: string)
    requires AllDigits(s)
    ensures Digits(s) == s
  {
    if s != [] {
      DigitsOfDigits(s[1..]);
    }
  }

  lemma {:induction false} DigitsOfGroup(n: nat)
    ensures Digits(Group(n, '.')) == NatToString(n)
  {
    if n < 1000 {
      DigitsOfDigits(NatToString(n));
    } else {
      var g := Group(n / 1000, '.');
      DigitsAppend(g + ".", Pad3(n % 1000));
      DigitsAppend(g, ".");
      DigitsOfGroup(n / 1000);
      DigitsOfDigits(Pad3(n % 1000));
      NatToStringThousands(n);
    }
  }

  lemma TextDigits(pre: string, n: nat, cents: string)
    requires AllDigits(cents) && Digits(pre) == []
    ensures Digits(pre + Group(n, '.') + "," + cents) == NatToString(n) + cents
  {
    var g := Group(n, '.');
    var a := pre + g;
    DigitsAppend(a + ",", cents);
    DigitsAppend(a, ",");
    DigitsAppend(pre, g);
    assert Digits(",") == [] by { assert ","[1..] == []; }
    DigitsOfGroup(n);
    DigitsOfDigits(cents);
    assert Digits(a) == NatToString(n);
    assert Digits(a + ",") == NatToString(n);
  }

  /** Grouped reais and two digits of cents, after a prefix without digits, hold exactly those cents. */
  lemma CentsOfText(pre: string, c: nat)
    requires Digits(pre) == []
    ensures Cents(pre + Group(c / 100, '.') + "," + Pad2(c % 100)) == c
  {
    var q, r := c / 100, Pad2(c % 100);
    TextDigits(pre, q, r);
    DigitsValueAppend(NatToString(q), r);
    NatToStringValue(q);
    assert Pow10(2) == 100;
    assert DigitsValue(NatToString(q) + r) == q * 100 + c % 100;
  }

  // ---------------------------------------------------------------- mask

  lemma DivMod100(a: nat, r: nat)
    requires r < 100
    ensures (100 * a + r) / 100 == a && (100 * a + r) % 100 == r
  {
  }

  lemma CentsInReais(c: nat)
    ensures (c / 100) as real + (c % 100) as real / 100.0 == c as real / 100.0
  {
    var q, r := c / 100, c % 100;
    assert c == 100 * q + r;
    assert c as real == 100.0 * q as real + r as real;
  }

  lemma AppendTwoDigits(x: string, y: string)
    requires AllDigits(x) && AllDigits(y) && |y| == 2
    ensures AllDigits(x + y) && DigitsValue(x + y) == 100 * DigitsValue(x) + DigitsValue(y)
  {
    DigitsValueAppend(x, y);
    assert Pow10(2) == 100;
  }

  lemma SplitCents(d: string)
    requires AllDigits(d) && |d| >= 2
    ensures DigitsValue(d) / 100 == DigitsValue(d[..|d| - 2])
    ensures DigitsValue(d) % 100 == DigitsValue(d[|d| - 2..])
    ensures Pad2(DigitsValue(d) % 100) == d[|d| - 2..]
  {
    var x, y := d[..|d| - 2], d[|d| - 2..];
    assert d == x + y;
    AppendTwoDigits(x, y);
    TwoDigitsArePadded(y);
    var v, a, r := DigitsValue(d), DigitsValue(x), DigitsValue(y);
    assert v == 100 * a + r;
    DivMod100(a, r);
  }

  lemma OneDigitCents(d: string)
    requires AllDigits(d) && |d| == 1
    ensures DigitsValue(d) / 100 == 0 && Pad2(DigitsValue(d) % 100) == "0" + d
  {
    assert d[..0] == [];
    TwoDigitsArePadded("0" + d);
    assert ("0" + d)[..1] == "0";
    assert DigitsValue("0") == 0;
  }

  /**
    The mask shows the typed digits as a thousands-grouped number of reais
    and two digits of cents; with no digit typed it shows zero.
   */
  lemma MaskShape(raw: string)
    ensures MaskBRL(raw) == "R$ " + Group(Cents(raw) / 100, '.') + "," + Pad2(Cents(raw) % 100)
  {
    var d := Digits(raw);
    if d == [] {
      assert Pad2(0) == "00";
    } else if |d| > 2 {
      SplitCents(d);
    } else if |d| == 2 {
      SplitCents(d);
      assert d[..0] == [];
      assert DigitsValue("0") == 0;
    } else {
      OneDigitCents(d);
      assert DigitsValue("0") == 0;
    }
  }

  /** Reais with thousands dots, a comma and two digits of cents read as that number of cents over 100. */
  lemma CentsText(c: nat)
    ensures ToDecimal(Some(Group(c / 100, '.') + "," + Pad2(c % 100))) == Fin(c as real / 100.0)
  {
    BrazilianAmount(c / 100, c % 100);
    CentsInReais(c);
  }

  /** An amount written in the mask's or the currency's notation reads back as that amount. */
  lemma AmountText(pre: string, c: nat)
    requires forall i :: 0 <= i < |pre| ==> !Kept(pre[i])
    ensures ToDecimal(Some(pre + Group(c / 100, '.') + "," + Pad2(c % 100))) == Fin(c as real / 100.0)
  {
    var v := Group(c / 100, '.') + "," + Pad2(c % 100);
    assert pre + Group(c / 100, '.') + "," + Pad2(c % 100) == pre + v + "";
    DropNoise(pre, v, "");
    CentsText(c);
  }

  /** The masked text reads back, through `toDecimal`, as the amount the digits stand for. */
  lemma MaskValue(raw: string)
    ensures ToDecimal(Some(MaskBRL(raw))) == Fin(Cents(raw) as real / 100.0)
  {
    MaskShape(raw);
    MaskedAmount(MaskBRL(raw), Cents(raw));
  }

  lemma MaskedAmount(m: string, c: nat)
    requires m == "R$ " + Group(c / 100, '.') + "," + Pad2(c % 100)
    ensures ToDecimal(Some(m)) == Fin(c as real / 100.0)
  {
    var pre := "R$ ";
    assert !Kept(pre[0]) && !Kept(pre[1]) && !Kept(pre[2]);
    AmountText(pre, c);
  }

  /** Masking a masked amount again leaves it as it is. */
  lemma MaskIdempotent(raw: string)
    ensures MaskBRL(MaskBRL(raw)) == MaskBRL(raw)
  {
    var c := Cents(raw);
    MaskShape(raw);
    assert Digits("R$ ") == [];
    CentsOfText("R$ ", c);
    MaskShape(MaskBRL(raw));
  }

  // ---------------------------------------------------------------- currency

  /** Currency text reads back, through `toDecimal`, as its amount. */
  lemma CurrencyValue(cents: nat)
    ensures ToDecimal(Some(CurrencyBR(cents))) == Fin(cents as real / 100.0)
  {
    CurrencyAmount(CurrencyBR(cents), cents);
  }

  lemma CurrencyAmount(m: string, c: nat)
    requires m == "R$\U{A0}" + Group(c / 100, '.') + "," + Pad2(c % 100)
    ensures ToDecimal(Some(m)) == Fin(c as real / 100.0)
  {
    var pre := "R$\U{A0}";
    assert !Kept(pre[0]) && !Kept(pre[1]) && !Kept(pre[2]);
    AmountText(pre, c);
  }

  /** The mask turns currency text into the mask's own form of the same amount. */
  lemma MaskOfCurrency(cents: nat)
    ensures Cents(CurrencyBR(cents)) == cents
    ensures MaskBRL(CurrencyBR(cents)) == "R$ " + Group(cents / 100, '.') + "," + Pad2(cents % 100)
  {
    assert Digits("R$\U{A0}") == [];
    CentsOfText("R$\U{A0}", cents);
    MaskShape(CurrencyBR(cents));
  }
}
