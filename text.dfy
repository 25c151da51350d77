/**
  String primitives the report code takes from JavaScript (`replaceAll`,
  `replace` of the first match, `lastIndexOf`, `includes`, `split`, `join`)
  and the decimal digit strings that amounts and dates are written in.
 */
module Text {

  predicate IsDigit(c: char) { '0' <= c <= '9' }

  predicate AllDigits(s: string) { forall i :: 0 <= i < |s| ==> IsDigit(s[i]) }

  function DigitValue(c: char): nat
    requires IsDigit(c)
  {
    c as int - '0' as int
  }

  function DigitChar(d: nat): (c: char)
    requires d < 10
    ensures IsDigit(c) && DigitValue(c) == d
  {
    ('0' as int + d) as char
  }

  function Pow10(n: nat): (p: nat)
    ensures p >= 1
  {
    if n == 0 then 1 else 10 * Pow10(n - 1)
  }

  /** The value of a string of decimal digits, most significant first. */
  function DigitsValue(s: string): nat
    requires AllDigits(s)
  {
    if s == [] then 0 else DigitsValue(s[..|s| - 1]) * 10 + DigitValue(s[|s| - 1])
  }

  lemma {:induction false} DigitsValueBound(s: string)
    requires AllDigits(s)
    ensures DigitsValue(s) < Pow10(|s|)
  {
    if s != [] {
      DigitsValueBound(s[..|s| - 1]);
    }
  }

  lemma {:induction false} DigitsValueAppend(a: string, b: string)
    requires AllDigits(a) && AllDigits(b)
    ensures AllDigits(a + b)
    ensures DigitsValue(a + b) == DigitsValue(a) * Pow10(|b|) + DigitsValue(b)
  {
    if b == [] {
      assert a + b == a;
    } else {
      var b' := b[..|b| - 1];
      var ab := a + b;
      assert ab[..|ab| - 1] == a + b' && ab[|ab| - 1] == b[|b| - 1];
      DigitsValueAppend(a, b');
      ShiftDigit(DigitsValue(a), Pow10(|b'|), DigitsValue(b'), DigitValue(b[|b| - 1]));
    }
  }

  lemma ShiftDigit(x: int, p: int, y: int, d: int)
    ensures (x * p + y) * 10 + d == x * (10 * p) + (y * 10 + d)
  {
  }

  /** Decimal notation of a natural number without leading zeros (`String(n)`). */
  function NatToString(n: nat): (s: string)
    ensures |s| >= 1 && AllDigits(s)
  {
    if n < 10 then [DigitChar(n)] else NatToString(n / 10) + [DigitChar(n % 10)]
  }

  lemma {:induction false} NatToStringValue(n: nat)
    ensures DigitsValue(NatToString(n)) == n
  {
    if n >= 10 {
      var s := NatToString(n);
      assert s[..|s| - 1] == NatToString(n / 10);
      NatToStringValue(n / 10);
    }
  }

  /** Two digits, zero-padded (`padStart(2, "0")`). */
  function Pad2(n: nat): (s: string)
    requires n < 100
    ensures |s| == 2 && AllDigits(s) && DigitsValue(s) == n
  {
    var s := [DigitChar(n / 10), DigitChar(n % 10)];
    assert s[..1] == [DigitChar(n / 10)] && s[..1][..0] == [];
    assert DigitsValue(s[..1]) == n / 10;
    s
  }

  /** Three digits, zero-padded: one group of a thousands-grouped number. */
  function Pad3(n: nat): (s: string)
    requires n < 1000
    ensures |s| == 3 && AllDigits(s)
  {
    [DigitChar(n / 100), DigitChar(n / 10 % 10), DigitChar(n % 10)]
  }

  /** Four digits, zero-padded: the year of an ISO date. */
  function Pad4(n: nat): (s: string)
    requires n < 10000
    ensures |s| == 4 && AllDigits(s)
  {
    [DigitChar(n / 1000)] + Pad3(n % 1000)
  }

  /** A two-digit string is the padded form of its own value. */
  lemma TwoDigitsArePadded(s: string)
    requires |s| == 2 && AllDigits(s)
    ensures DigitsValue(s) < 100 && Pad2(DigitsValue(s)) == s
  {
    assert s[..1] == [s[0]] && s[..1][..0] == [];
    assert DigitsValue(s[..1]) == DigitValue(s[0]);
    assert DigitsValue(s) == DigitValue(s[0]) * 10 + DigitValue(s[1]);
  }

  /** `n` written with `sep` between groups of three digits (`toLocaleString` grouping). */
  function Group(n: nat, sep: char): (s: string)
    ensures |s| >= 1 && IsDigit(s[0])
  {
    if n < 1000 then NatToString(n) else Group(n / 1000, sep) + [sep] + Pad3(n % 1000)
  }

  lemma NatToStringThousands(n: nat)
    requires n >= 1000
    ensures NatToString(n) == NatToString(n / 1000) + Pad3(n % 1000)
  {
    var c, r := n / 1000, n % 1000;
    var a, b := n / 10, n / 100;
    ThousandsDigits(n, c, r, a, b);
    assert NatToString(n) == NatToString(a) + [DigitChar(n % 10)];
    assert NatToString(a) == NatToString(b) + [DigitChar(a % 10)];
    assert NatToString(b) == NatToString(c) + [DigitChar(b % 10)];
  }

  lemma ThousandsDigits(n: nat, c: nat, r: nat, a: nat, b: nat)
    requires n >= 1000 && c == n / 1000 && r == n % 1000 && a == n / 10 && b == n / 100
    ensures a / 10 == b && b / 10 == c && a >= 10 && b >= 10
    ensures b % 10 == r / 100 && a % 10 == r / 10 % 10 && n % 10 == r % 10
  {
    assert n == 1000 * c + r;
    assert a == 100 * c + r / 10;
    assert b == 10 * c + r / 100;
  }

  /** Taking the separators out of a grouped number gives its plain notation. */
  lemma {:induction false} GroupWithoutSeparators(n: nat, sep: char)
    requires !IsDigit(sep)
    ensures ReplaceAll(Group(n, sep), sep, "") == NatToString(n)
  {
    if n < 1000 {
      NoMatchUnchanged(NatToString(n), sep, "");
    } else {
      var g, p := Group(n / 1000, sep), Pad3(n % 1000);
      var gs := g + [sep];
      assert Group(n, sep) == gs + p;
      ReplaceAllAppend(gs, p, sep, "");
      NoMatchUnchanged(p, sep, "");
      assert ReplaceAll(gs, sep, "") == ReplaceAll(g, sep, "") by {
        ReplaceAllAppend(g, [sep], sep, "");
        assert ReplaceAll([sep], sep, "") == [];
      }
      GroupWithoutSeparators(n / 1000, sep);
      NatToStringThousands(n);
    }
  }

  /** A grouped number contains only digits and `sep`. */
  lemma {:induction false} GroupChars(n: nat, sep: char)
    ensures forall i :: 0 <= i < |Group(n, sep)| ==> IsDigit(Group(n, sep)[i]) || Group(n, sep)[i] == sep
  {
    if n >= 1000 {
      GroupChars(n / 1000, sep);
    }
  }

  // ---------------------------------------------------------------- search

  /** `s.indexOf(c)`: the first index of `c`, or -1. */
  function IndexOf(s: string, c: char): (i: int)
    ensures -1 <= i < |s|
    ensures i == -1 <==> c !in s
    ensures i >= 0 ==> s[i] == c && forall k :: 0 <= k < i ==> s[k] != c
  {
    if s == [] then -1
    else if s[0] == c then 0
    else
      var j := IndexOf(s[1..], c);
      if j < 0 then -1 else j + 1
  }

  /** `s.lastIndexOf(c)`: the last index of `c`, or -1. */
  function LastIndexOf(s: string, c: char): (i: int)
    ensures -1 <= i < |s|
    ensures i == -1 <==> c !in s
    ensures i >= 0 ==> s[i] == c && forall k :: i < k < |s| ==> s[k] != c
  {
    if s == [] then -1
    else if s[|s| - 1] == c then |s| - 1
    else
      LastIndexOf(s[..|s| - 1], c)
  }

  lemma {:induction false} LastIndexOfSkips(x: string, y: string, c: char)
    requires c !in y
    ensures LastIndexOf(x + y, c) == LastIndexOf(x, c)
  {
    if y != [] {
      var y' := y[..|y| - 1];
      assert (x + y)[..|x + y| - 1] == x + y';
      LastIndexOfSkips(x, y', c);
    } else {
      assert x + y == x;
    }
  }

  // ---------------------------------------------------------------- rewriting

  /** `s.replaceAll(c, r)` for a one-character pattern. */
  function ReplaceAll(s: string, c: char, r: string): (t: string)
    ensures forall i :: 0 <= i < |t| ==> t[i] in s || t[i] in r
    ensures c !in r ==> c !in t
  {
    if s == [] then [] else (if s[0] == c then r else [s[0]]) + ReplaceAll(s[1..], c, r)
  }

  lemma {:induction false} ReplaceAllAppend(a: string, b: string, c: char, r: string)
    ensures ReplaceAll(a + b, c, r) == ReplaceAll(a, c, r) + ReplaceAll(b, c, r)
  {
    if a == [] {
      assert a + b == b;
    } else {
      assert (a + b)[1..] == a[1..] + b;
      ReplaceAllAppend(a[1..], b, c, r);
    }
  }

  lemma {:induction false} NoMatchUnchanged(s: string, c: char, r: string)
    requires c !in s
    ensures ReplaceAll(s, c, r) == s
  {
    if s != [] {
      NoMatchUnchanged(s[1..], c, r);
    }
  }

  /** `s.replace(c, r)`: only the first occurrence of `c` is replaced. */
  function ReplaceFirst(s: string, c: char, r: string): (t: string)
    ensures c !in s ==> t == s
    ensures forall i :: 0 <= i < |t| ==> t[i] in s || t[i] in r
  {
    var i := IndexOf(s, c);
    if i < 0 then s else s[..i] + r + s[i + 1..]
  }

  // ---------------------------------------------------------------- split and join

  /** `parts.join(sep)` */
  function Join(parts: seq<string>, sep: string): string
  {
    if |parts| == 0 then ""
    else if |parts| == 1 then parts[0]
    else parts[0] + sep + Join(parts[1..], sep)
  }

  /** `s.split(c)` for a one-character separator: always at least one piece. */
  function Split(s: string, c: char): (parts: seq<string>)
    ensures |parts| >= 1
    ensures forall k :: 0 <= k < |parts| ==> c !in parts[k]
  {
    var i := IndexOf(s, c);
    if i < 0 then [s]
    else
      var head, rest := s[..i], Split(s[i + 1..], c);
      assert c !in head by {
        forall k | 0 <= k < |head| ensures head[k] != c { assert head[k] == s[k]; }
      }
      [head] + rest
  }

  /** Joining the pieces of a split with the separator gives back the string. */
  lemma {:induction false} JoinSplit(s: string, c: char)
    ensures Join(Split(s, c), [c]) == s
    decreases |s|
  {
    var i := IndexOf(s, c);
    if i >= 0 {
      var head, tail := s[..i], s[i + 1..];
      var rest := Split(tail, c);
      JoinSplit(tail, c);
      JoinCons(head, rest, [c]);
      assert s == head + [c] + tail;
    }
  }

  /** The first occurrence of `c` is the one with no `c` before it. */
  lemma IndexOfAt(s: string, c: char, j: nat)
    requires j < |s| && s[j] == c && forall k :: 0 <= k < j ==> s[k] != c
    ensures IndexOf(s, c) == j
  {
  }

  /** A split cuts at the first separator. */
  lemma SplitAt(s: string, c: char, i: nat)
    requires i < |s| && s[i] == c && forall k :: 0 <= k < i ==> s[k] != c
    ensures Split(s, c) == [s[..i]] + Split(s[i + 1..], c)
  {
    IndexOfAt(s, c, i);
  }

  lemma SplitNone(s: string, c: char)
    requires c !in s
    ensures Split(s, c) == [s]
  {
  }

  /** Splitting at one separator splits each side separately. */
  lemma {:induction false} SplitAround(a: string, c: char, b: string)
    ensures Split(a + [c] + b, c) == Split(a, c) + Split(b, c)
    decreases |a|
  {
    if c !in a {
      SplitAroundFirst(a, c, b);
    } else {
      var i := IndexOf(a, c);
      SplitAround(a[i + 1..], c, b);
      SplitAroundLater(a, c, b, i);
    }
  }

  lemma SplitAroundFirst(a: string, c: char, b: string)
    requires c !in a
    ensures Split(a + [c] + b, c) == Split(a, c) + Split(b, c)
  {
    var s := a + [c] + b;
    assert forall k :: 0 <= k < |a| ==> s[k] == a[k];
    SplitAt(s, c, |a|);
    assert s[..|a|] == a && s[|a| + 1..] == b;
    SplitNone(a, c);
  }

  lemma SplitAroundLater(a: string, c: char, b: string, i: nat)
    requires i < |a| && a[i] == c && forall k :: 0 <= k < i ==> a[k] != c
    requires Split(a[i + 1..] + [c] + b, c) == Split(a[i + 1..], c) + Split(b, c)
    ensures Split(a + [c] + b, c) == Split(a, c) + Split(b, c)
  {
    var s, a' := a + [c] + b, a[i + 1..];
    Slices(a, c, b, i);
    SplitAt(s, c, i);
    SplitAt(a, c, i);
    var t := s[i + 1..];
    var x, p, q := [a[..i]], Split(a', c), Split(b, c);
    assert Split(t, c) == p + q;
    AppendAssoc(x, p, q);
  }

  lemma AppendAssoc<T>(x: seq<T>, p: seq<T>, q: seq<T>)
    ensures x + (p + q) == (x + p) + q
  {
  }

  lemma Slices(a: string, c: char, b: string, i: nat)
    requires i < |a| && a[i] == c && forall k :: 0 <= k < i ==> a[k] != c
    ensures var s := a + [c] + b;
      s[i + 1..] == a[i + 1..] + [c] + b && s[..i] == a[..i] && s[i] == c
      && forall k :: 0 <= k < i ==> s[k] != c
  {
    var s := a + [c] + b;
    assert forall k :: 0 <= k <= i ==> s[k] == a[k];
  }


  /** Joining one more piece adds the separator and the piece at the end. */
  lemma {:induction false} JoinSnoc(parts: seq<string>, x: string, sep: string)
    requires |parts| >= 1
    ensures Join(parts + [x], sep) == Join(parts, sep) + sep + x
  {
    if |parts| == 1 {
      assert (parts + [x])[1..] == [x];
    } else {
      assert (parts + [x])[1..] == parts[1..] + [x];
      JoinSnoc(parts[1..], x, sep);
    }
  }

  lemma JoinCons(head: string, rest: seq<string>, sep: string)
    requires |rest| >= 1
    ensures Join([head] + rest, sep) == head + sep + Join(rest, sep)
  {
    assert ([head] + rest)[1..] == rest;
  }

  /** Splitting a join of separator-free pieces gives back the pieces. */
  lemma {:induction false} SplitJoin(parts: seq<string>, c: char)
    requires |parts| >= 1
    requires forall k :: 0 <= k < |parts| ==> c !in parts[k]
    ensures Split(Join(parts, [c]), c) == parts
  {
    if |parts| > 1 {
      var s := Join(parts, [c]);
      var rest := Join(parts[1..], [c]);
      assert s == parts[0] + [c] + rest;
      assert s[..|parts[0]|] == parts[0];
      assert s[|parts[0]|] == c;
      assert forall k :: 0 <= k < |parts[0]| ==> s[k] == parts[0][k] != c;
      assert IndexOf(s, c) == |parts[0]|;
      assert s[|parts[0]| + 1..] == rest;
      SplitJoin(parts[1..], c);
    }
  }
}
